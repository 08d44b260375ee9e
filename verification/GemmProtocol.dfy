/** The request and response messages of the byte-oriented matrix product. Floats travel
    as their 32-bit patterns. */
module GemmProtocol {
  import opened Wrappers
  import opened Machine
  import opened LittleEndian

  const VERSION: u32 := 1
  const REQUEST_MAGIC: seq<u8> := [86, 82, 66, 71, 69, 77, 77, 49]
  const RESPONSE_MAGIC: seq<u8> := [86, 82, 66, 71, 69, 77, 82, 49]
  const REQUEST_HEADER_LEN: nat := 56
  const RESPONSE_HEADER_LEN: nat := 32
  const F32_BYTES: u64 := 4

  datatype GemmRequest = GemmRequest(m: u64, n: u64, k: u64, alpha: u32, beta: u32, a: seq<u32>, b: seq<u32>,
                                     c: Option<seq<u32>>)

  datatype GemmRequestMeta = GemmRequestMeta(
    m: u64, n: u64, k: u64, alpha: u32, beta: u32, hasC: bool,
    aElements: u64, bElements: u64, cElements: u64, encodedLen: u64)

  datatype DecodedGemmRequest = DecodedGemmRequest(meta: GemmRequestMeta, a: seq<u32>, b: seq<u32>, c: Option<seq<u32>>)
  {
    function Request(): GemmRequest {
      GemmRequest(meta.m, meta.n, meta.k, meta.alpha, meta.beta, a, b, c)
    }
  }

  datatype GemmResponse = GemmResponse(m: u64, n: u64, values: seq<u32>)

  datatype GemmProtocolError =
    | Truncated(minimum: nat, actual: nat)
    | InvalidMagic
    | UnsupportedVersion(version: u32)
    | InvalidHeaderLength(length: u32)
    | UnsupportedFlags(flags: u32)
    | DimensionOverflow(what: string)
    | LengthOverflow
    | LengthMismatch(expectedLen: u64, actualLen: u64)
    | MatrixLengthMismatch(matrix: string, expectedElements: u64, actualElements: u64)
    | AddressSpaceOverflow

  // Sizes -------------------------------------------------------------------------------

  function CheckedElements(rows: u64, columns: u64, what: string): Result<u64, GemmProtocolError> {
    match CheckedMul(rows, columns)
    case None => Err(DimensionOverflow(what))
    case Some(elements) => Ok(elements)
  }

  function OrLengthOverflow(length: Option<u64>): Result<u64, GemmProtocolError> {
    if length.None? then Err(LengthOverflow) else Ok(length.value)
  }

  function EncodedRequestLen(a: u64, b: u64, c: u64, hasC: bool): Result<u64, GemmProtocolError> {
    var ab :- OrLengthOverflow(CheckedAdd(a, b));
    var elements :- OrLengthOverflow(if hasC then CheckedAdd(ab, c) else Some(ab));
    var bytes :- OrLengthOverflow(CheckedMul(elements, F32_BYTES));
    OrLengthOverflow(CheckedAdd(REQUEST_HEADER_LEN, bytes))
  }

  /** The checked additions refuse a request exactly when its true length needs more
      than 64 bits. */
  lemma RequestLenExact(a: u64, b: u64, c: u64, hasC: bool)
    ensures var length := REQUEST_HEADER_LEN + 4 * (a + b + if hasC then c else 0);
      EncodedRequestLen(a, b, c, hasC) == if length < U64_LIMIT then Ok(length) else Err(LengthOverflow)
  {}

  function EncodedResponseLen(m: u64, n: u64): Result<u64, GemmProtocolError> {
    var elements :- CheckedElements(m, n, "response matrix");
    var payload :- OrLengthOverflow(CheckedMul(elements, F32_BYTES));
    OrLengthOverflow(CheckedAdd(RESPONSE_HEADER_LEN, payload))
  }

  lemma ResponseLenExact(m: u64, n: u64)
    ensures EncodedResponseLen(m, n).Ok? <==> RESPONSE_HEADER_LEN + 4 * Times(m, n) < U64_LIMIT
    ensures EncodedResponseLen(m, n).Ok? ==> EncodedResponseLen(m, n).value == RESPONSE_HEADER_LEN + 4 * Times(m, n)
  {}

  function ValidateSliceLen(matrix: string, expected: u64, actual: nat): Result<(), GemmProtocolError> {
    if actual >= U64_LIMIT then Err(AddressSpaceOverflow)
    else if actual != expected then Err(MatrixLengthMismatch(matrix, expected, actual))
    else Ok(())
  }

  // Requests ----------------------------------------------------------------------------

  function InspectRequest(input: seq<u8>): Result<GemmRequestMeta, GemmProtocolError> {
    if |input| < REQUEST_HEADER_LEN then Err(Truncated(REQUEST_HEADER_LEN, |input|))
    else if input[0..8] != REQUEST_MAGIC then Err(InvalidMagic)
    else if U32At(input, 8) != VERSION then Err(UnsupportedVersion(U32At(input, 8)))
    else if U32At(input, 12) != REQUEST_HEADER_LEN then Err(InvalidHeaderLength(U32At(input, 12)))
    else if U32At(input, 16) / 2 != 0 then Err(UnsupportedFlags(U32At(input, 16)))
    else
      var m, n, k, hasC := U64At(input, 24), U64At(input, 32), U64At(input, 40), U32At(input, 16) % 2 == 1;
      var a :- CheckedElements(m, k, "matrix A");
      var b :- CheckedElements(k, n, "matrix B");
      var c :- CheckedElements(m, n, "matrix C");
      var encodedLen :- EncodedRequestLen(a, b, c, hasC);
      if |input| >= U64_LIMIT then Err(AddressSpaceOverflow)
      else if |input| != encodedLen then Err(LengthMismatch(encodedLen, |input|))
      else Ok(GemmRequestMeta(m, n, k, U32At(input, 48), U32At(input, 52), hasC, a, b, c, encodedLen))
  }

  /** Everything an accepted header says about the message around it. */
  lemma InspectedLengths(input: seq<u8>)
    requires InspectRequest(input).Ok?
    ensures var meta := InspectRequest(input).value;
      && meta.aElements == Times(meta.m, meta.k)
      && meta.bElements == Times(meta.k, meta.n)
      && meta.cElements == Times(meta.m, meta.n)
      && meta.encodedLen == |input|
          == REQUEST_HEADER_LEN + 4 * (meta.aElements + meta.bElements + if meta.hasC then meta.cElements else 0)
  {
    var meta := InspectRequest(input).value;
    RequestLenExact(meta.aElements, meta.bElements, meta.cElements, meta.hasC);
  }

  /** What decoding returns: the three payload runs, back to back after the header. */
  function Decoded(input: seq<u8>): Result<DecodedGemmRequest, GemmProtocolError> {
    var meta :- InspectRequest(input);
    InspectedLengths(input);
    var bStart := REQUEST_HEADER_LEN + 4 * meta.aElements;
    var cStart := bStart + 4 * meta.bElements;
    Ok(DecodedGemmRequest(
      meta, WordsAt(input, REQUEST_HEADER_LEN, meta.aElements), WordsAt(input, bStart, meta.bElements),
      if meta.hasC then Some(WordsAt(input, cStart, meta.cElements)) else None))
  }

  /** The cursor loop. It fails exactly when the run sticks out of the message. */
  method ReadF32Values(input: seq<u8>, cursor: nat, count: u64)
    returns (values: Result<seq<u32>, GemmProtocolError>, next: nat)
    requires cursor <= |input| < U64_LIMIT
    ensures values.Ok? <==> cursor + 4 * count <= |input|
    ensures values.Ok? ==> values.value == WordsAt(input, cursor, count) && next == cursor + 4 * count
    ensures values.Err? ==>
      || values.error.LengthOverflow?
      || (values.error.Truncated? && values.error.minimum > |input| == values.error.actual)
  {
    next := cursor;
    var read: seq<u32> := [];
    for i := 0 to count
      invariant next == cursor + 4 * i <= |input|
      invariant read == WordsAt(input, cursor, i)
    {
      var end := CheckedAdd(next, 4);
      if end.None? {
        return Err(LengthOverflow), next;
      }
      if end.value > |input| {
        return Err(Truncated(end.value, |input|)), next;
      }
      read := read + [U32At(input, next)];
      next := end.value;
    }
    values := Ok(read);
  }

  /** Once the header is accepted no cursor read can fail. */
  method DecodeRequest(input: seq<u8>) returns (request: Result<DecodedGemmRequest, GemmProtocolError>)
    ensures request == Decoded(input)
  {
    var inspected := InspectRequest(input);
    if inspected.Err? {
      return Err(inspected.error);
    }
    InspectedLengths(input);
    var meta := inspected.value;
    var a, afterA := ReadF32Values(input, REQUEST_HEADER_LEN, meta.aElements);
    var b, afterB := ReadF32Values(input, afterA, meta.bElements);
    var c: Option<seq<u32>> := None;
    if meta.hasC {
      var read, _ := ReadF32Values(input, afterB, meta.cElements);
      c := Some(read.value);
    }
    return Ok(DecodedGemmRequest(meta, a.value, b.value, c));
  }

  function RequestFront(flags: u32): (bytes: seq<u8>)
    ensures |bytes| == 20
  {
    REQUEST_MAGIC + Le32(VERSION) + Le32(REQUEST_HEADER_LEN) + Le32(flags)
  }

  function RequestBack(m: u64, n: u64, k: u64, alpha: u32, beta: u32): (bytes: seq<u8>)
    ensures |bytes| == 32
  {
    Le64(m) + Le64(n) + Le64(k) + Le32(alpha) + Le32(beta)
  }

  /** The floats of the message: A, then B, then C when there is one. */
  function Payload(a: seq<u32>, b: seq<u32>, c: Option<seq<u32>>): seq<u32> {
    a + b + if c.Some? then c.value else []
  }

  /** The word between front and back is reserved. */
  function RequestHeader(r: GemmRequest): (bytes: seq<u8>)
    ensures |bytes| == REQUEST_HEADER_LEN
  {
    RequestFront(if r.c.Some? then 1 else 0) + Le32(0) + RequestBack(r.m, r.n, r.k, r.alpha, r.beta)
  }

  /** The layout of a request. */
  function RequestBytes(r: GemmRequest): seq<u8> {
    RequestHeader(r) + Words(Payload(r.a, r.b, r.c))
  }

  /** The checks of `encode_request`, in order, and the length they arrive at. */
  function CheckRequest(r: GemmRequest): Result<u64, GemmProtocolError> {
    var a :- CheckedElements(r.m, r.k, "matrix A");
    var b :- CheckedElements(r.k, r.n, "matrix B");
    var c :- CheckedElements(r.m, r.n, "matrix C");
    var _ :- ValidateSliceLen("A", a, |r.a|);
    var _ :- ValidateSliceLen("B", b, |r.b|);
    var _ :- if r.c.Some? then ValidateSliceLen("C", c, |r.c.value|) else Ok(());
    EncodedRequestLen(a, b, c, r.c.Some?)
  }

  method WriteF32Values(output: seq<u8>, values: seq<u32>) returns (longer: seq<u8>)
    ensures longer == output + Words(values)
  {
    longer := output;
    for i := 0 to |values|
      invariant longer == output + Words(values[..i])
    {
      longer := longer + Le32(values[i]);
      assert values[..i + 1][..i] == values[..i];
    }
    assert values[..|values|] == values;
  }

  lemma AppendAll(front: seq<u8>, x: seq<u8>, y: seq<u8>)
    ensures front + x + y == front + (x + y)
  {}

  method WritePayload(output: seq<u8>, a: seq<u32>, b: seq<u32>, c: Option<seq<u32>>) returns (longer: seq<u8>)
    ensures longer == output + Words(Payload(a, b, c))
  {
    longer := WriteF32Values(output, a);
    longer := WriteF32Values(longer, b);
    WordsConcat(a, b);
    AppendAll(output, Words(a), Words(b));
    if c.Some? {
      longer := WriteF32Values(longer, c.value);
      WordsConcat(a + b, c.value);
      AppendAll(output, Words(a + b), Words(c.value));
    } else {
      assert a + b + [] == a + b;
    }
  }

  method WriteRequestHeader(r: GemmRequest) returns (output: seq<u8>)
    ensures output == RequestHeader(r)
  {
    output := REQUEST_MAGIC;
    output := output + Le32(VERSION);
    output := output + Le32(REQUEST_HEADER_LEN);
    output := output + Le32(if r.c.Some? then 1 else 0);
    output := output + Le32(0);
    assert output == RequestFront(if r.c.Some? then 1 else 0) + Le32(0);
    ghost var front := output;
    output := output + Le64(r.m);
    output := output + Le64(r.n);
    output := output + Le64(r.k);
    output := output + Le32(r.alpha);
    output := output + Le32(r.beta);
    assert output == front + RequestBack(r.m, r.n, r.k, r.alpha, r.beta);
  }

  lemma {:induction false} EncodedLength(r: GemmRequest)
    requires CheckRequest(r).Ok?
    ensures |RequestBytes(r)| == CheckRequest(r).value
  {
    RequestLenExact(|r.a|, |r.b|, Times(r.m, r.n), r.c.Some?);
  }

  method EncodeRequest(r: GemmRequest) returns (encoded: Result<seq<u8>, GemmProtocolError>)
    ensures encoded.Ok? <==> CheckRequest(r).Ok?
    ensures encoded.Ok? ==> encoded.value == RequestBytes(r) && |encoded.value| == CheckRequest(r).value
    ensures encoded.Err? ==> encoded.error == CheckRequest(r).error
  {
    var checked := CheckRequest(r);
    if checked.Err? {
      return Err(checked.error);
    }
    var output := WriteRequestHeader(r);
    output := WritePayload(output, r.a, r.b, r.c);
    EncodedLength(r);
    return Ok(output);
  }

  // Request round trips ---------------------------------------------------------------------

  lemma {:induction false} RequestFrontAt(input: seq<u8>, flags: u32)
    requires |input| >= 20
    ensures input[0..20] == RequestFront(flags) <==>
      input[0..8] == REQUEST_MAGIC && U32At(input, 8) == VERSION && U32At(input, 12) == REQUEST_HEADER_LEN
          && U32At(input, 16) == flags
  {
    Joined(input, 0, REQUEST_MAGIC + Le32(VERSION) + Le32(REQUEST_HEADER_LEN), Le32(flags));
    Joined(input, 0, REQUEST_MAGIC + Le32(VERSION), Le32(REQUEST_HEADER_LEN));
    Joined(input, 0, REQUEST_MAGIC, Le32(VERSION));
    Field32(input, 8, VERSION);
    Field32(input, 12, REQUEST_HEADER_LEN);
    Field32(input, 16, flags);
  }

  lemma {:induction false} RequestBackAt(input: seq<u8>, m: u64, n: u64, k: u64, alpha: u32, beta: u32)
    requires |input| >= REQUEST_HEADER_LEN
    ensures input[24..56] == RequestBack(m, n, k, alpha, beta) <==>
      U64At(input, 24) == m && U64At(input, 32) == n && U64At(input, 40) == k && U32At(input, 48) == alpha
          && U32At(input, 52) == beta
  {
    Joined(input, 24, Le64(m) + Le64(n) + Le64(k) + Le32(alpha), Le32(beta));
    Joined(input, 24, Le64(m) + Le64(n) + Le64(k), Le32(alpha));
    Joined(input, 24, Le64(m) + Le64(n), Le64(k));
    Joined(input, 24, Le64(m), Le64(n));
    Field64(input, 24, m);
    Field64(input, 32, n);
    Field64(input, 40, k);
    Field32(input, 48, alpha);
    Field32(input, 52, beta);
  }

  predicate PayloadReads(input: seq<u8>, a: seq<u32>, b: seq<u32>, c: Option<seq<u32>>)
    requires |input| == REQUEST_HEADER_LEN + 4 * |Payload(a, b, c)|
  {
    && WordsAt(input, 56, |a|) == a
    && WordsAt(input, 56 + 4 * |a|, |b|) == b
    && (c.Some? ==> WordsAt(input, 56 + 4 * |a| + 4 * |b|, |c.value|) == c.value)
  }

  lemma {:induction false} RunsAt(input: seq<u8>, offset: nat, i: nat, j: nat, a: seq<u32>, b: seq<u32>, c: seq<u32>)
    requires i == offset + 4 * |a| && j == i + 4 * |b| && j + 4 * |c| <= |input|
    ensures WordsAt(input, offset, |a + b + c|) == a + b + c <==>
      WordsAt(input, offset, |a|) == a && WordsAt(input, i, |b|) == b && WordsAt(input, j, |c|) == c
  {
    WordsAtSplit(input, offset, |a|, |b|);
    WordsAtSplit(input, offset, |a| + |b|, |c|);
    ThreeRuns(a, b, c, WordsAt(input, offset, |a|), WordsAt(input, i, |b|), WordsAt(input, j, |c|));
  }

  lemma {:induction false} PayloadField(input: seq<u8>, payload: seq<u32>)
    requires |input| == REQUEST_HEADER_LEN + 4 * |payload|
    ensures input[56..] == Words(payload) <==> WordsAt(input, 56, |payload|) == payload
  {
    WordsField(input, 56, payload);
    assert input[56..] == input[56..|input|];
  }

  /** The payload is a request's exactly when it reads back run by run. */
  lemma {:induction false} PayloadAt(input: seq<u8>, a: seq<u32>, b: seq<u32>, c: Option<seq<u32>>)
    requires |input| == REQUEST_HEADER_LEN + 4 * |Payload(a, b, c)|
    ensures input[56..] == Words(Payload(a, b, c)) <==> PayloadReads(input, a, b, c)
  {
    var i, j := 56 + 4 * |a|, 56 + 4 * |a| + 4 * |b|;
    PayloadField(input, Payload(a, b, c));
    if c.Some? {
      RunsAt(input, 56, i, j, a, b, c.value);
    } else {
      RunsAt(input, 56, i, j, a, b, []);
      assert WordsAt(input, j, 0) == [];
    }
  }

  lemma ThreeRuns<T>(a: seq<T>, b: seq<T>, c: seq<T>, x: seq<T>, y: seq<T>, z: seq<T>)
    requires |a| == |x| && |b| == |y| && |c| == |z|
    ensures a + b + c == x + y + z <==> a == x && b == y && c == z
  {
    var left, right := a + b + c, x + y + z;
    assert left[..|a|] == a && left[|a|..|a| + |b|] == b && left[|a| + |b|..] == c;
    assert right[..|a|] == x && right[|a|..|a| + |b|] == y && right[|a| + |b|..] == z;
  }

  /** A message with any reserved word whose other bytes are the request's encoding. */
  predicate Carries(input: seq<u8>, r: GemmRequest) {
    HasHeader(input, r) && input[56..] == Words(Payload(r.a, r.b, r.c))
  }

  predicate HasHeader(input: seq<u8>, r: GemmRequest) {
    && |input| >= REQUEST_HEADER_LEN
    && input[0..20] == RequestFront(if r.c.Some? then 1 else 0)
    && input[24..56] == RequestBack(r.m, r.n, r.k, r.alpha, r.beta)
  }

  lemma {:induction false} CarriesIsEncoding(input: seq<u8>, r: GemmRequest)
    requires |input| >= REQUEST_HEADER_LEN
    ensures Carries(input, r) <==> input[..20] + Le32(0) + input[24..] == RequestBytes(r)
  {
    var front, back, payload := RequestFront(if r.c.Some? then 1 else 0), RequestBack(r.m, r.n, r.k, r.alpha, r.beta),
        Words(Payload(r.a, r.b, r.c));
    var zeroed, bytes := input[..20] + Le32(0) + input[24..], RequestBytes(r);
    assert bytes == front + Le32(0) + back + payload;
    assert bytes[..20] == front && bytes[24..56] == back && bytes[56..] == payload;
    assert zeroed[..20] == input[0..20] && zeroed[24..56] == input[24..56] && zeroed[56..] == input[56..];
    assert zeroed == zeroed[..20] + Le32(0) + zeroed[24..56] + zeroed[56..];
  }

  lemma {:induction false} CarriedLength(input: seq<u8>, r: GemmRequest)
    requires Carries(input, r)
    ensures |input| == REQUEST_HEADER_LEN + 4 * |Payload(r.a, r.b, r.c)|
  {
    assert |input| == 56 + |input[56..]|;
  }

  function CarriedMeta(r: GemmRequest): GemmRequestMeta
    requires CheckRequest(r).Ok?
  {
    GemmRequestMeta(r.m, r.n, r.k, r.alpha, r.beta, r.c.Some?, |r.a|, |r.b|, Times(r.m, r.n), CheckRequest(r).value)
  }

  /** The header checks of an encodable request's own message all pass. */
  lemma {:induction false} InspectCarried(input: seq<u8>, r: GemmRequest)
    requires HasHeader(input, r) && CheckRequest(r).Ok?
    requires |input| == REQUEST_HEADER_LEN + 4 * |Payload(r.a, r.b, r.c)|
    ensures InspectRequest(input) == Ok(CarriedMeta(r))
  {
    RequestFrontAt(input, if r.c.Some? then 1 else 0);
    RequestBackAt(input, r.m, r.n, r.k, r.alpha, r.beta);
    RequestLenExact(|r.a|, |r.b|, Times(r.m, r.n), r.c.Some?);
  }

  lemma {:induction false} DecodedRuns(input: seq<u8>, meta: GemmRequestMeta,
                                       a: seq<u32>, b: seq<u32>, c: Option<seq<u32>>)
    requires InspectRequest(input) == Ok(meta) && |a| == meta.aElements && |b| == meta.bElements
    requires c.Some? == meta.hasC && (c.Some? ==> |c.value| == meta.cElements)
    requires |input| == REQUEST_HEADER_LEN + 4 * |Payload(a, b, c)| && PayloadReads(input, a, b, c)
    ensures Decoded(input) == Ok(DecodedGemmRequest(meta, a, b, c))
  {}

  /** Decoding undoes encoding, whatever the reserved word holds. */
  lemma {:induction false} DecodeCarried(input: seq<u8>, r: GemmRequest)
    requires Carries(input, r) && CheckRequest(r).Ok?
    ensures Decoded(input) == Ok(DecodedGemmRequest(CarriedMeta(r), r.a, r.b, r.c))
  {
    CarriedLength(input, r);
    InspectCarried(input, r);
    PayloadAt(input, r.a, r.b, r.c);
    EncodableExactly(r);
    DecodedRuns(input, CarriedMeta(r), r.a, r.b, r.c);
  }

  lemma {:induction false} DecodeEncode(r: GemmRequest)
    requires CheckRequest(r).Ok?
    ensures Decoded(RequestBytes(r)) == Ok(DecodedGemmRequest(CarriedMeta(r), r.a, r.b, r.c))
  {
    var bytes := RequestBytes(r);
    var front := RequestFront(if r.c.Some? then 1 else 0);
    assert bytes[..20] == front && bytes[20..24] == Le32(0);
    assert bytes == bytes[..20] + bytes[20..24] + bytes[24..];
    CarriesIsEncoding(bytes, r);
    DecodeCarried(bytes, r);
  }

  lemma {:induction false} AcceptedHeader(input: seq<u8>)
    requires Decoded(input).Ok?
    ensures HasHeader(input, Decoded(input).value.Request())
  {
    var r := Decoded(input).value.Request();
    RequestFrontAt(input, if r.c.Some? then 1 else 0);
    RequestBackAt(input, r.m, r.n, r.k, r.alpha, r.beta);
  }

  lemma {:induction false} AcceptedRuns(input: seq<u8>)
    requires Decoded(input).Ok?
    ensures var d := Decoded(input).value;
      |input| == REQUEST_HEADER_LEN + 4 * |Payload(d.a, d.b, d.c)| && PayloadReads(input, d.a, d.b, d.c)
  {
    InspectedLengths(input);
  }

  lemma {:induction false} AcceptedPayload(input: seq<u8>)
    requires Decoded(input).Ok?
    ensures var r := Decoded(input).value.Request(); input[56..] == Words(Payload(r.a, r.b, r.c))
  {
    AcceptedRuns(input);
    var d := Decoded(input).value;
    PayloadAt(input, d.a, d.b, d.c);
  }

  lemma {:induction false} AcceptedChecks(input: seq<u8>)
    requires Decoded(input).Ok?
    ensures CheckRequest(Decoded(input).value.Request()) == Ok(|input|)
  {
    InspectedLengths(input);
  }

  /** Encoding undoes decoding up to the reserved word: every accepted message
      re-encodes to itself with bytes 20 to 24 zeroed. */
  lemma {:induction false} EncodeDecode(input: seq<u8>)
    requires Decoded(input).Ok?
    ensures var r := Decoded(input).value.Request();
      CheckRequest(r) == Ok(|input|) && RequestBytes(r) == input[..20] + [0, 0, 0, 0] + input[24..]
  {
    AcceptedHeader(input);
    AcceptedPayload(input);
    AcceptedChecks(input);
    CarriesIsEncoding(input, Decoded(input).value.Request());
    assert Le32(0) == [0, 0, 0, 0];
  }

  /** The accepted messages and the encodable requests correspond one to one, up to the
      reserved word. */
  lemma {:induction false} RequestRoundTrips(input: seq<u8>, r: GemmRequest)
    ensures CheckRequest(r).Ok? && Carries(input, r) <==> Decoded(input).Ok? && Decoded(input).value.Request() == r
  {
    if CheckRequest(r).Ok? && Carries(input, r) {
      DecodeCarried(input, r);
    }
    if Decoded(input).Ok? {
      AcceptedHeader(input);
      AcceptedPayload(input);
      AcceptedChecks(input);
    }
  }

  /** A request is encodable exactly when its matrices have their sizes and the message
      fits 64 bits; the C size must fit even when there is no C. */
  lemma {:induction false} EncodableExactly(r: GemmRequest)
    ensures CheckRequest(r).Ok? <==>
      && |r.a| == Times(r.m, r.k) && |r.b| == Times(r.k, r.n)
      && (r.c.Some? ==> |r.c.value| == Times(r.m, r.n)) && Times(r.m, r.n) < U64_LIMIT
      && REQUEST_HEADER_LEN + 4 * |Payload(r.a, r.b, r.c)| < U64_LIMIT
  {
    if Times(r.m, r.k) < U64_LIMIT && Times(r.k, r.n) < U64_LIMIT && Times(r.m, r.n) < U64_LIMIT {
      RequestLenExact(Times(r.m, r.k), Times(r.k, r.n), Times(r.m, r.n), r.c.Some?);
    }
  }

  /** A request whose empty matrices have their sizes and which has no C is refused because
      of the size C would have. */
  lemma AbsentCIsMeasured()
    ensures var m: u64 := 0x1_0000_0000;
      CheckRequest(GemmRequest(m, m, 0, 0, 0, [], [], None)) == Err(DimensionOverflow("matrix C"))
  {
    assert Times(0x1_0000_0000, 0x1_0000_0000) == U64_LIMIT;
  }

  // Responses -----------------------------------------------------------------------------

  function ResponseHeader(m: u64, n: u64): (bytes: seq<u8>)
    ensures |bytes| == RESPONSE_HEADER_LEN
  {
    RESPONSE_MAGIC + Le32(VERSION) + Le32(RESPONSE_HEADER_LEN) + Le64(m) + Le64(n)
  }

  function ResponseBytes(r: GemmResponse): seq<u8> {
    ResponseHeader(r.m, r.n) + Words(r.values)
  }

  function CheckResponse(r: GemmResponse): Result<u64, GemmProtocolError> {
    var elements :- CheckedElements(r.m, r.n, "response matrix");
    var _ :- ValidateSliceLen("response", elements, |r.values|);
    EncodedResponseLen(r.m, r.n)
  }

  method EncodeResponse(r: GemmResponse) returns (encoded: Result<seq<u8>, GemmProtocolError>)
    ensures encoded.Ok? <==> CheckResponse(r).Ok?
    ensures encoded.Ok? ==> encoded.value == ResponseBytes(r) && |encoded.value| == CheckResponse(r).value
    ensures encoded.Err? ==> encoded.error == CheckResponse(r).error
  {
    var checked := CheckResponse(r);
    if checked.Err? {
      return Err(checked.error);
    }
    var output: seq<u8> := RESPONSE_MAGIC;
    output := output + Le32(VERSION);
    output := output + Le32(RESPONSE_HEADER_LEN);
    output := output + Le64(r.m);
    output := output + Le64(r.n);
    output := WriteF32Values(output, r.values);
    return Ok(output);
  }

  function InspectResponse(input: seq<u8>): Result<(u64, u64), GemmProtocolError> {
    if |input| < RESPONSE_HEADER_LEN then Err(Truncated(RESPONSE_HEADER_LEN, |input|))
    else if input[0..8] != RESPONSE_MAGIC then Err(InvalidMagic)
    else if U32At(input, 8) != VERSION then Err(UnsupportedVersion(U32At(input, 8)))
    else if U32At(input, 12) != RESPONSE_HEADER_LEN then Err(InvalidHeaderLength(U32At(input, 12)))
    else
      var m, n := U64At(input, 16), U64At(input, 24);
      var expected :- EncodedResponseLen(m, n);
      if |input| >= U64_LIMIT then Err(AddressSpaceOverflow)
      else if |input| != expected then Err(LengthMismatch(expected, |input|))
      else Ok((m, n))
  }

  function DecodedResponse(input: seq<u8>): Result<GemmResponse, GemmProtocolError> {
    var (m, n) :- InspectResponse(input);
    ResponseLenExact(m, n);
    Ok(GemmResponse(m, n, WordsAt(input, RESPONSE_HEADER_LEN, Times(m, n))))
  }

  method DecodeResponse(input: seq<u8>) returns (response: Result<GemmResponse, GemmProtocolError>)
    ensures response == DecodedResponse(input)
  {
    var inspected := InspectResponse(input);
    if inspected.Err? {
      return Err(inspected.error);
    }
    var (m, n) := inspected.value;
    ResponseLenExact(m, n);
    var elements := CheckedElements(m, n, "response matrix");
    var values, _ := ReadF32Values(input, RESPONSE_HEADER_LEN, elements.value);
    return Ok(GemmResponse(m, n, values.value));
  }

  lemma ResponseHeaderAt(input: seq<u8>, m: u64, n: u64)
    requires |input| >= RESPONSE_HEADER_LEN
    ensures input[0..32] == ResponseHeader(m, n) <==>
      && input[0..8] == RESPONSE_MAGIC && U32At(input, 8) == VERSION && U32At(input, 12) == RESPONSE_HEADER_LEN
      && U64At(input, 16) == m && U64At(input, 24) == n
  {
    Joined(input, 0, RESPONSE_MAGIC + Le32(VERSION) + Le32(RESPONSE_HEADER_LEN) + Le64(m), Le64(n));
    Joined(input, 0, RESPONSE_MAGIC + Le32(VERSION) + Le32(RESPONSE_HEADER_LEN), Le64(m));
    Joined(input, 0, RESPONSE_MAGIC + Le32(VERSION), Le32(RESPONSE_HEADER_LEN));
    Joined(input, 0, RESPONSE_MAGIC, Le32(VERSION));
    Field32(input, 8, VERSION);
    Field32(input, 12, RESPONSE_HEADER_LEN);
    Field64(input, 16, m);
    Field64(input, 24, n);
  }

  /** A byte string is a response's encoding exactly when it decodes to that response:
      the two are inverse bijections between encodable responses and accepted messages. */
  lemma {:induction false} ResponseRoundTrips(input: seq<u8>, r: GemmResponse)
    ensures CheckResponse(r).Ok? && input == ResponseBytes(r) <==> DecodedResponse(input) == Ok(r)
  {
    ResponseLenExact(r.m, r.n);
    if |input| == RESPONSE_HEADER_LEN + 4 * |r.values| {
      Joined(input, 0, ResponseHeader(r.m, r.n), Words(r.values));
      assert input[0..|input|] == input;
      ResponseHeaderAt(input, r.m, r.n);
      WordsField(input, RESPONSE_HEADER_LEN, r.values);
    }
  }
}
