/** The fixed 64-byte control header of scaled dot-product attention. */
module AttentionProtocol {
  import opened Wrappers
  import opened Machine
  import opened LittleEndian
  import Float32

  const MAGIC: u32 := 0x4142_5256
  const VERSION: u16 := 1
  const HEADER_LEN: nat := 64
  const RESOURCE_COUNT: u32 := 4

  datatype AttentionDataType = F32 | F16 | Bf16
  {
    function ElementBytes(): u64 {
      if F32? then 4 else 2
    }

    function Tag(): u32 {
      match this
      case F32 => 1
      case F16 => 2
      case Bf16 => 3
    }

    static function FromRaw(value: u32): Result<AttentionDataType, AttentionProtocolError> {
      match value
      case 1 => Ok(F32)
      case 2 => Ok(F16)
      case 3 => Ok(Bf16)
      case other => Err(UnsupportedDataType(other))
    }
  }

  /** `scale` is the bit pattern of the float field. */
  datatype AttentionControl = AttentionControl(
    flags: u32,
    dataType: AttentionDataType,
    batch: u32,
    queryHeads: u32,
    kvHeads: u32,
    queryLen: u32,
    kvLen: u32,
    headDim: u32,
    scale: u32,
    deviceIndex: i32)
  {
    predicate IsCausal() {
      flags % 2 == 1
    }

    predicate HasZeroDimension() {
      batch == 0 || queryHeads == 0 || kvHeads == 0 || queryLen == 0 || kvLen == 0 || headDim == 0
    }

    function Validate(): Result<(), AttentionProtocolError> {
      if flags / 2 != 0 then Err(UnsupportedFlags(flags))
      else if HasZeroDimension() then Err(ZeroDimension)
      else if kvHeads > queryHeads || queryHeads % kvHeads != 0 then Err(InvalidHeadGrouping(queryHeads, kvHeads))
      else if IsCausal() && kvLen < queryLen then Err(InvalidCausalLengths(queryLen, kvLen))
      else if !Float32.IsFinite(scale) || Float32.Value(scale) <= 0.0 then Err(InvalidScale(scale))
      else if deviceIndex < 0 then Err(InvalidDeviceIndex(deviceIndex))
      else
        var _ :- ExpectedResourceLengths(this);
        Ok(())
    }
  }

  datatype AttentionProtocolError =
    | InvalidLength(expected: nat, actual: nat)
    | InvalidMagic
    | UnsupportedVersion(version: u16)
    | InvalidHeaderLength(length: u16)
    | UnsupportedFlags(flags: u32)
    | UnsupportedDataType(tag: u32)
    | ZeroDimension
    | InvalidHeadGrouping(queryHeads: u32, kvHeads: u32)
    | InvalidCausalLengths(queryLen: u32, kvLen: u32)
    | InvalidScale(scale: u32)
    | InvalidDeviceIndex(deviceIndex: i32)
    | InvalidResourceCount(count: u32)
    | ReservedFieldNonZero
    | SizeOverflow

  // Sizes --------------------------------------------------------------------

  datatype ResourceLengths = ResourceLengths(q: u64, k: u64, v: u64, o: u64)

  function OrOverflow(size: Option<u64>): Result<u64, AttentionProtocolError> {
    if size.None? then Err(SizeOverflow) else Ok(size.value)
  }

  function QDims(c: AttentionControl): seq<u64> {
    [c.batch, c.queryHeads, c.queryLen, c.headDim]
  }

  function KvDims(c: AttentionControl): seq<u64> {
    [c.batch, c.kvHeads, c.kvLen, c.headDim]
  }

  function ExpectedResourceLengths(c: AttentionControl): Result<ResourceLengths, AttentionProtocolError> {
    var width := c.dataType.ElementBytes();
    var qElements :- OrOverflow(CheckedProduct(QDims(c)));
    var kvElements :- OrOverflow(CheckedProduct(KvDims(c)));
    var qBytes :- OrOverflow(CheckedMul(qElements, width));
    var kvBytes :- OrOverflow(CheckedMul(kvElements, width));
    Ok(ResourceLengths(qBytes, kvBytes, kvBytes, qBytes))
  }

  /** Multiplied from left to right, the list never leaves 64 bits. */
  predicate PrefixesFit(dims: seq<u64>) {
    forall i :: 0 <= i <= |dims| ==> Product(dims[..i]) < U64_LIMIT
  }

  /** For every control, zero dimensions included: the lengths exist exactly when every
      prefix product and both byte products fit 64 bits, and then they are the products. */
  lemma LengthsBySteps(c: AttentionControl)
    ensures var qBytes := Times(Product(QDims(c)), c.dataType.ElementBytes());
      var kvBytes := Times(Product(KvDims(c)), c.dataType.ElementBytes());
      ExpectedResourceLengths(c) ==
      if PrefixesFit(QDims(c)) && PrefixesFit(KvDims(c)) && qBytes < U64_LIMIT && kvBytes < U64_LIMIT
      then Ok(ResourceLengths(qBytes, kvBytes, kvBytes, qBytes))
      else Err(SizeOverflow)
  {
    CheckedProductSteps(QDims(c));
    CheckedProductSteps(KvDims(c));
  }

  /** Over non-zero dimensions the stepwise overflow checks fail exactly when a full
      byte product does not fit 64 bits, and otherwise return the exact products. */
  lemma LengthsExact(c: AttentionControl)
    requires !c.HasZeroDimension()
    ensures var qBytes := Times(Product(QDims(c)), c.dataType.ElementBytes());
      var kvBytes := Times(Product(KvDims(c)), c.dataType.ElementBytes());
      && (qBytes < U64_LIMIT && kvBytes < U64_LIMIT ==>
            ExpectedResourceLengths(c) == Ok(ResourceLengths(qBytes, kvBytes, kvBytes, qBytes)))
      && (!(qBytes < U64_LIMIT && kvBytes < U64_LIMIT) ==> ExpectedResourceLengths(c) == Err(SizeOverflow))
  {
    CheckedProductExact(QDims(c));
    CheckedProductExact(KvDims(c));
    TimesGrows(Product(QDims(c)), c.dataType.ElementBytes());
    TimesGrows(Product(KvDims(c)), c.dataType.ElementBytes());
  }

  /** Without the non-zero checks this fails: a zero dimension makes the product
      zero, yet an earlier partial product already overflows. */
  lemma ZeroDimensionCanOverflow()
    ensures var c := AttentionControl(0, F32, 0xFFFF_FFFF, 0xFFFF_FFFF, 1, 0xFFFF_FFFF, 1, 0, 1, 0);
      Product(QDims(c)) == 0 && ExpectedResourceLengths(c) == Err(SizeOverflow)
  {
    var big: u64 := 0xFFFF_FFFF;
    var dims: seq<u64> := [big, big, big, 0];
    assert dims[..3] == [big, big, big] && dims[..3][..2] == [big, big] && dims[..3][..2][..1] == [big];
    assert [big][..0] == [];
    assert Product([big]) == big;
    assert Product([big, big]) == big * big;
    assert CheckedProduct([big]) == Some(big);
    assert CheckedProduct([big, big]) == Some(big * big);
    assert CheckedProduct([big, big, big]) == None;
    assert Product(dims) == Times(Product(dims[..3]), 0);
  }

  // The wire form --------------------------------------------------------------

  /** The layout, sixteen bytes a line: magic, version, header length, flags and data
      type; four dimensions; two dimensions, scale and device; resource count and
      twelve reserved bytes. */
  function ControlBytes(c: AttentionControl): (bytes: seq<u8>)
    ensures |bytes| == HEADER_LEN
  {
    Preamble(c.flags, c.dataType.Tag())
    + Quad(c.batch, c.queryHeads, c.kvHeads, c.queryLen)
    + Quad(c.kvLen, c.headDim, c.scale, AsU32(c.deviceIndex))
    + Trailer()
  }

  function Preamble(flags: u32, tag: u32): (bytes: seq<u8>)
    ensures |bytes| == 16
  {
    Le32(MAGIC) + Le16(VERSION) + Le16(HEADER_LEN) + Le32(flags) + Le32(tag)
  }

  function Trailer(): (bytes: seq<u8>)
    ensures |bytes| == 16
  {
    Le32(RESOURCE_COUNT) + Le32(0) + Le64(0)
  }

  method WriteLe(output: array<u8>, offset: nat, bytes: seq<u8>)
    requires offset + |bytes| <= output.Length
    modifies output
    ensures output[..offset + |bytes|] == old(output[..offset]) + bytes
    ensures output[offset + |bytes|..] == old(output[offset + |bytes|..])
  {
    forall i | 0 <= i < |bytes| {
      output[offset + i] := bytes[i];
    }
  }

  method EncodeControl(control: AttentionControl) returns (encoded: Result<array<u8>, AttentionProtocolError>)
    ensures encoded.Err? <==> control.Validate().Err?
    ensures encoded.Err? ==> encoded.error == control.Validate().error
    ensures encoded.Ok? ==> fresh(encoded.value) && encoded.value[..] == ControlBytes(control)
  {
    var valid := control.Validate();
    if valid.Err? {
      return Err(valid.error);
    }
    var output := new u8[HEADER_LEN](_ => 0);
    WriteLe(output, 0, Le32(MAGIC));
    WriteLe(output, 4, Le16(VERSION));
    WriteLe(output, 6, Le16(HEADER_LEN));
    WriteLe(output, 8, Le32(control.flags));
    WriteLe(output, 12, Le32(control.dataType.Tag()));
    assert output[..16] == Preamble(control.flags, control.dataType.Tag());
    WriteQuad(output, 16, control.batch, control.queryHeads, control.kvHeads, control.queryLen);
    WriteQuad(output, 32, control.kvLen, control.headDim, control.scale, AsU32(control.deviceIndex));
    label BeforeTrailer:
    WriteLe(output, 48, Le32(RESOURCE_COUNT));
    WriteLe(output, 52, Le32(0));
    WriteLe(output, 56, Le64(0));
    assert output[..64] == old@BeforeTrailer(output[..48]) + Trailer();
    assert output[..] == output[..64];
    return Ok(output);
  }

  /** Four consecutive `write_u32` calls. */
  method WriteQuad(output: array<u8>, offset: nat, a: u32, b: u32, c: u32, d: u32)
    requires offset + 16 <= output.Length
    modifies output
    ensures output[..offset + 16] == old(output[..offset]) + Quad(a, b, c, d)
  {
    WriteLe(output, offset, Le32(a));
    WriteLe(output, offset + 4, Le32(b));
    WriteLe(output, offset + 8, Le32(c));
    WriteLe(output, offset + 12, Le32(d));
  }

  function DecodeControl(input: seq<u8>): Result<AttentionControl, AttentionProtocolError> {
    if |input| != HEADER_LEN then Err(InvalidLength(HEADER_LEN, |input|))
    else if U32At(input, 0) != MAGIC then Err(InvalidMagic)
    else if U16At(input, 4) != VERSION then Err(UnsupportedVersion(U16At(input, 4)))
    else if U16At(input, 6) != HEADER_LEN then Err(InvalidHeaderLength(U16At(input, 6)))
    else if U32At(input, 48) != RESOURCE_COUNT then Err(InvalidResourceCount(U32At(input, 48)))
    else if U32At(input, 52) != 0 || U64At(input, 56) != 0 then Err(ReservedFieldNonZero)
    else
      var dataType :- AttentionDataType.FromRaw(U32At(input, 12));
      var control := AttentionControl(
        U32At(input, 8), dataType, U32At(input, 16), U32At(input, 20), U32At(input, 24), U32At(input, 28),
        U32At(input, 32), U32At(input, 36), U32At(input, 40), AsI32(U32At(input, 44)));
      var _ :- control.Validate();
      Ok(control)
  }

  lemma PreambleAt(input: seq<u8>, flags: u32, tag: u32)
    requires |input| >= 16
    ensures (input[0..16] == Preamble(flags, tag)) <==>
      (U32At(input, 0) == MAGIC && U16At(input, 4) == VERSION && U16At(input, 6) == HEADER_LEN
       && U32At(input, 8) == flags && U32At(input, 12) == tag)
  {
    Halves(input, 4, VERSION, HEADER_LEN);
    var versionAndLength := VERSION + 0x1_0000 * HEADER_LEN;
    assert Preamble(flags, tag) == Quad(MAGIC, versionAndLength, flags, tag) by {
      assert Le32(MAGIC) + Le16(VERSION) + Le16(HEADER_LEN) == Le32(MAGIC) + (Le16(VERSION) + Le16(HEADER_LEN));
    }
    QuadAt(input, 0, MAGIC, versionAndLength, flags, tag);
  }

  lemma TrailerAt(input: seq<u8>)
    requires |input| == HEADER_LEN
    ensures (input[48..64] == Trailer()) <==>
        (U32At(input, 48) == RESOURCE_COUNT && U32At(input, 52) == 0 && U64At(input, 56) == 0)
  {
    assert Trailer() == Quad(RESOURCE_COUNT, 0, 0, 0);
    QuadAt(input, 48, RESOURCE_COUNT, 0, 0, 0);
  }

  lemma LinesAt(input: seq<u8>, c: AttentionControl)
    requires |input| == HEADER_LEN
    ensures input == ControlBytes(c) <==>
      && input[0..16] == Preamble(c.flags, c.dataType.Tag())
      && input[16..32] == Quad(c.batch, c.queryHeads, c.kvHeads, c.queryLen)
      && input[32..48] == Quad(c.kvLen, c.headDim, c.scale, AsU32(c.deviceIndex))
      && input[48..64] == Trailer()
  {
    FourLines(input, Preamble(c.flags, c.dataType.Tag()), Quad(c.batch, c.queryHeads, c.kvHeads, c.queryLen),
              Quad(c.kvLen, c.headDim, c.scale, AsU32(c.deviceIndex)), Trailer());
  }

  /** A 64-byte string is the encoding of a control exactly when every field reads
      back as that control's. */
  lemma ControlAt(input: seq<u8>, c: AttentionControl)
    requires |input| == HEADER_LEN
    ensures input == ControlBytes(c) <==> ReadsAs(input, c)
  {
    LinesAt(input, c);
    PreambleAt(input, c.flags, c.dataType.Tag());
    QuadAt(input, 16, c.batch, c.queryHeads, c.kvHeads, c.queryLen);
    QuadAt(input, 32, c.kvLen, c.headDim, c.scale, AsU32(c.deviceIndex));
    TrailerAt(input);
  }

  lemma FourLines(input: seq<u8>, p: seq<u8>, q: seq<u8>, r: seq<u8>, t: seq<u8>)
    requires |input| == HEADER_LEN && |p| == |q| == |r| == |t| == 16
    ensures input == p + q + r + t <==>
        (input[0..16] == p && input[16..32] == q && input[32..48] == r && input[48..64] == t)
  {
    var w := p + q + r + t;
    assert w[0..16] == p && w[16..32] == q && w[32..48] == r && w[48..64] == t;
    assert input == input[0..16] + input[16..32] + input[32..48] + input[48..64];
  }

  predicate ReadsAs(input: seq<u8>, c: AttentionControl)
    requires |input| == HEADER_LEN
  {
    && U32At(input, 0) == MAGIC && U16At(input, 4) == VERSION && U16At(input, 6) == HEADER_LEN
    && U32At(input, 8) == c.flags && U32At(input, 12) == c.dataType.Tag()
    && U32At(input, 16) == c.batch && U32At(input, 20) == c.queryHeads && U32At(input, 24) == c.kvHeads
    && U32At(input, 28) == c.queryLen && U32At(input, 32) == c.kvLen && U32At(input, 36) == c.headDim
    && U32At(input, 40) == c.scale && U32At(input, 44) == AsU32(c.deviceIndex)
    && U32At(input, 48) == RESOURCE_COUNT && U32At(input, 52) == 0 && U64At(input, 56) == 0
  }

  /** Every valid control survives the wire. */
  lemma DecodeEncode(c: AttentionControl)
    requires c.Validate().Ok?
    ensures DecodeControl(ControlBytes(c)) == Ok(c)
  {
    ControlAt(ControlBytes(c), c);
  }

  /** Every accepted 64-byte string is the encoding of the control it decodes to, so
      no two byte strings decode to the same control. */
  lemma EncodeDecode(input: seq<u8>)
    requires DecodeControl(input).Ok?
    ensures DecodeControl(input).value.Validate().Ok?
    ensures ControlBytes(DecodeControl(input).value) == input
  {
    ControlAt(input, DecodeControl(input).value);
  }

  predicate TensorsFit(c: AttentionControl) {
    && Times(Product(QDims(c)), c.dataType.ElementBytes()) < U64_LIMIT
    && Times(Product(KvDims(c)), c.dataType.ElementBytes()) < U64_LIMIT
  }

  lemma FitsExactly(c: AttentionControl)
    requires !c.HasZeroDimension()
    ensures ExpectedResourceLengths(c).Ok? <==> TensorsFit(c)
  {
    LengthsExact(c);
  }

  lemma GroupsFit(heads: nat, groups: nat)
    requires heads > 0 && groups > 0 && heads % groups == 0
    ensures groups <= heads
  {}

  /** The valid controls: one known flag, no zero dimension, whole groups of query heads,
      enough keys for a causal run, a positive finite scale, a device, and tensors whose
      byte counts fit 64 bits. */
  lemma ValidExactly(c: AttentionControl)
    ensures c.Validate().Ok? <==>
      && c.flags < 2 && !c.HasZeroDimension()
      && c.queryHeads % c.kvHeads == 0
      && (c.flags == 1 ==> c.queryLen <= c.kvLen)
      && 1 <= c.scale <= 0x7F7F_FFFF
      && c.deviceIndex >= 0
      && TensorsFit(c)
  {
    Float32.FinitePositive(c.scale);
    if !c.HasZeroDimension() {
      FitsExactly(c);
      if c.queryHeads % c.kvHeads == 0 { GroupsFit(c.queryHeads, c.kvHeads); }
    }
  }
}
