/** The fixed 64-byte control header of the shared-memory matrix product. */
module SharedGemmProtocol {
  import opened Wrappers
  import opened Machine
  import opened LittleEndian

  const VERSION: u32 := 1
  const MAGIC: seq<u8> := [86, 82, 66, 83, 71, 77, 48, 49]
  const HEADER_LEN: nat := 64
  const RESOURCE_COUNT: u32 := 3
  const F32_BYTES: u64 := 4

  datatype SharedGemmControl = SharedGemmControl(m: u64, n: u64, k: u64, alpha: u32, beta: u32, hipDeviceIndex: i32)

  datatype ResourceLengths = ResourceLengths(aBytes: u64, bBytes: u64, cBytes: u64)

  datatype SharedGemmProtocolError =
    | Truncated(minimum: nat, actual: nat)
    | InvalidMagic
    | UnsupportedVersion(version: u32)
    | InvalidHeaderLength(length: u32)
    | LengthMismatch(expectedLen: nat, actualLen: nat)
    | ResourceCount(count: u32)
    | ZeroDimension(m: u64, n: u64, k: u64)
    | DimensionOverflow(what: string)
    | ByteLengthOverflow(what: string)
    | InvalidDeviceIndex(index: i32)

  // Sizes -------------------------------------------------------------------------------

  function ExpectedElements(rows: u64, columns: u64, what: string): Result<u64, SharedGemmProtocolError> {
    match CheckedMul(rows, columns)
    case None => Err(DimensionOverflow(what))
    case Some(elements) => Ok(elements)
  }

  function MatrixBytes(rows: u64, columns: u64, what: string): Result<u64, SharedGemmProtocolError> {
    var elements :- ExpectedElements(rows, columns, what);
    match CheckedMul(elements, F32_BYTES)
    case None => Err(ByteLengthOverflow(what))
    case Some(bytes) => Ok(bytes)
  }

  function ValidateControl(c: SharedGemmControl): Result<(), SharedGemmProtocolError> {
    if c.hipDeviceIndex < 0 then Err(InvalidDeviceIndex(c.hipDeviceIndex))
    else if c.m == 0 || c.n == 0 || c.k == 0 then Err(ZeroDimension(c.m, c.n, c.k))
    else
      var _ :- ExpectedElements(c.m, c.k, "matrix A");
      var _ :- ExpectedElements(c.k, c.n, "matrix B");
      var _ :- ExpectedElements(c.m, c.n, "matrix C");
      Ok(())
  }

  function ExpectedResourceLengths(c: SharedGemmControl): Result<ResourceLengths, SharedGemmProtocolError> {
    var _ :- ValidateControl(c);
    var a :- MatrixBytes(c.m, c.k, "matrix A");
    var b :- MatrixBytes(c.k, c.n, "matrix B");
    var d :- MatrixBytes(c.m, c.n, "matrix C");
    Ok(ResourceLengths(a, b, d))
  }

  lemma ValidExactly(c: SharedGemmControl)
    ensures ValidateControl(c).Ok? <==>
      && c.hipDeviceIndex >= 0 && c.m > 0 && c.n > 0 && c.k > 0
      && Times(c.m, c.k) < U64_LIMIT && Times(c.k, c.n) < U64_LIMIT && Times(c.m, c.n) < U64_LIMIT
  {}

  predicate Fits(elements: nat) {
    4 * elements < U64_LIMIT
  }

  /** A valid control has lengths exactly when each matrix fits 64 bits in bytes; a
      header may therefore be valid although its buffers have no representable length,
      and then the first such matrix is named. */
  lemma LengthsExact(c: SharedGemmControl)
    requires ValidateControl(c).Ok?
    ensures var a, b, d := Times(c.m, c.k), Times(c.k, c.n), Times(c.m, c.n);
      ExpectedResourceLengths(c) ==
        if !Fits(a) then Err(ByteLengthOverflow("matrix A"))
        else if !Fits(b) then Err(ByteLengthOverflow("matrix B"))
        else if !Fits(d) then Err(ByteLengthOverflow("matrix C"))
        else Ok(ResourceLengths(4 * a, 4 * b, 4 * d))
  {}

  /** Such a control exists. */
  lemma ValidWithoutLengths()
    ensures var c := SharedGemmControl(0x4000_0000_0000_0000, 1, 1, 0, 0, 0);
      ValidateControl(c).Ok? && ExpectedResourceLengths(c) == Err(ByteLengthOverflow("matrix A"))
  {
    var c := SharedGemmControl(0x4000_0000_0000_0000, 1, 1, 0, 0, 0);
    assert Times(c.m, c.k) == c.m && Times(c.k, c.n) == 1 && Times(c.m, c.n) == c.m;
    LengthsExact(c);
  }

  // The wire form --------------------------------------------------------------------------

  function Opening(): (bytes: seq<u8>)
    ensures |bytes| == 16
  {
    MAGIC + Le32(VERSION) + Le32(HEADER_LEN)
  }

  function Dimensions(c: SharedGemmControl): (bytes: seq<u8>)
    ensures |bytes| == 24
  {
    Le64(c.m) + Le64(c.n) + Le64(c.k)
  }

  function Scalars(c: SharedGemmControl): (bytes: seq<u8>)
    ensures |bytes| == 16
  {
    Le32(c.alpha) + Le32(c.beta) + Le32(AsU32(c.hipDeviceIndex)) + Le32(RESOURCE_COUNT)
  }

  /** The checked part of the header; the last eight bytes are reserved. */
  function Checked(c: SharedGemmControl): (bytes: seq<u8>)
    ensures |bytes| == 56
  {
    Opening() + Dimensions(c) + Scalars(c)
  }

  function ControlBytes(c: SharedGemmControl): (bytes: seq<u8>)
    ensures |bytes| == HEADER_LEN
  {
    Checked(c) + Le64(0)
  }

  method EncodeControl(c: SharedGemmControl) returns (encoded: Result<seq<u8>, SharedGemmProtocolError>)
    ensures encoded.Ok? <==> ValidateControl(c).Ok?
    ensures encoded.Ok? ==> encoded.value == ControlBytes(c)
    ensures encoded.Err? ==> encoded.error == ValidateControl(c).error
  {
    var valid := ValidateControl(c);
    if valid.Err? {
      return Err(valid.error);
    }
    var output: seq<u8> := MAGIC;
    output := output + Le32(VERSION);
    output := output + Le32(HEADER_LEN);
    output := output + Le64(c.m);
    output := output + Le64(c.n);
    output := output + Le64(c.k);
    assert output == Opening() + Dimensions(c);
    ghost var front := output;
    output := output + Le32(c.alpha);
    output := output + Le32(c.beta);
    output := output + Le32(AsU32(c.hipDeviceIndex));
    output := output + Le32(RESOURCE_COUNT);
    assert output == front + Scalars(c);
    output := output + Le64(0);
    return Ok(output);
  }

  function DecodeControl(input: seq<u8>): Result<SharedGemmControl, SharedGemmProtocolError> {
    if |input| < HEADER_LEN then Err(Truncated(HEADER_LEN, |input|))
    else if |input| != HEADER_LEN then Err(LengthMismatch(HEADER_LEN, |input|))
    else if input[0..8] != MAGIC then Err(InvalidMagic)
    else if U32At(input, 8) != VERSION then Err(UnsupportedVersion(U32At(input, 8)))
    else if U32At(input, 12) != HEADER_LEN then Err(InvalidHeaderLength(U32At(input, 12)))
    else if U32At(input, 52) != RESOURCE_COUNT then Err(ResourceCount(U32At(input, 52)))
    else
      var control := SharedGemmControl(
        U64At(input, 16), U64At(input, 24), U64At(input, 32),
        U32At(input, 40), U32At(input, 44), AsI32(U32At(input, 48)));
      var _ :- ValidateControl(control);
      Ok(control)
  }

  lemma OpeningAt(input: seq<u8>)
    requires |input| >= 16
    ensures input[0..16] == Opening() <==>
        input[0..8] == MAGIC && U32At(input, 8) == VERSION && U32At(input, 12) == HEADER_LEN
  {
    Joined(input, 0, MAGIC + Le32(VERSION), Le32(HEADER_LEN));
    Joined(input, 0, MAGIC, Le32(VERSION));
    Field32(input, 8, VERSION);
    Field32(input, 12, HEADER_LEN);
  }

  lemma DimensionsAt(input: seq<u8>, c: SharedGemmControl)
    requires |input| >= 40
    ensures input[16..40] == Dimensions(c) <==>
        U64At(input, 16) == c.m && U64At(input, 24) == c.n && U64At(input, 32) == c.k
  {
    Joined(input, 16, Le64(c.m) + Le64(c.n), Le64(c.k));
    Joined(input, 16, Le64(c.m), Le64(c.n));
    Field64(input, 16, c.m);
    Field64(input, 24, c.n);
    Field64(input, 32, c.k);
  }

  lemma ScalarsAt(input: seq<u8>, c: SharedGemmControl)
    requires |input| >= 56
    ensures input[40..56] == Scalars(c) <==>
      && U32At(input, 40) == c.alpha && U32At(input, 44) == c.beta
      && U32At(input, 48) == AsU32(c.hipDeviceIndex) && U32At(input, 52) == RESOURCE_COUNT
  {
    assert Scalars(c) == Quad(c.alpha, c.beta, AsU32(c.hipDeviceIndex), RESOURCE_COUNT);
    QuadAt(input, 40, c.alpha, c.beta, AsU32(c.hipDeviceIndex), RESOURCE_COUNT);
  }

  /** A 64-byte string decodes to a control exactly when the control is valid and its
      first 56 bytes are the control's; the reserved bytes are never looked at. */
  lemma ControlRoundTrips(input: seq<u8>, c: SharedGemmControl)
    ensures DecodeControl(input) == Ok(c) <==>
        ValidateControl(c).Ok? && |input| == HEADER_LEN && input[..56] == Checked(c)
  {
    if |input| == HEADER_LEN {
      Joined(input, 0, Opening() + Dimensions(c), Scalars(c));
      Joined(input, 0, Opening(), Dimensions(c));
      assert input[..56] == input[0..56];
      OpeningAt(input);
      DimensionsAt(input, c);
      ScalarsAt(input, c);
    }
  }

  lemma DecodeEncode(c: SharedGemmControl)
    requires ValidateControl(c).Ok?
    ensures DecodeControl(ControlBytes(c)) == Ok(c)
  {
    ControlRoundTrips(ControlBytes(c), c);
  }

  /** Re-encoding an accepted header gives the same bytes with the reserved ones zeroed. */
  lemma EncodeDecode(input: seq<u8>)
    requires DecodeControl(input).Ok?
    ensures ValidateControl(DecodeControl(input).value).Ok?
    ensures ControlBytes(DecodeControl(input).value) == input[..56] + [0, 0, 0, 0, 0, 0, 0, 0]
  {
    ControlRoundTrips(input, DecodeControl(input).value);
    assert Le64(0) == [0, 0, 0, 0, 0, 0, 0, 0];
  }
}
