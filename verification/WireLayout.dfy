/** Little-endian integers digit by digit. */
module Digits {
  import opened Indexing
  import opened Machine
  import opened LittleEndian

  /** The digits of a number to base 256, lowest first. */
  function Two(x: u16): seq<int> {
    [x % 256, x / 256]
  }

  function Four(x: u32): seq<int> {
    [x % 256, x / 256 % 256, x / 65536 % 256, x / 16777216]
  }

  function Eight(x: u64): seq<int> {
    [x % 256, x / 256 % 256, x / 65536 % 256, x / 16777216 % 256, x / 4294967296 % 256, x / 1099511627776 % 256,
     x / 281474976710656 % 256, x / 72057594037927936]
  }

  /** An integer as the unsigned word with the same bits. */
  function Bits(x: i32): u32 {
    if x >= 0 then x else x + 4294967296
  }

  function Byte(input: seq<u8>, i: nat): int
    requires i < |input|
  {
    input[i]
  }

  /** The number whose digits stand at an offset. */
  function Number2(input: seq<u8>, at: nat): u16
    requires at + 2 <= |input|
  {
    Byte(input, at) + 256 * Byte(input, at + 1)
  }

  function Number4(input: seq<u8>, at: nat): u32
    requires at + 4 <= |input|
  {
    Byte(input, at) + 256 * Byte(input, at + 1) + 65536 * Byte(input, at + 2) + 16777216 * Byte(input, at + 3)
  }

  function Number8(input: seq<u8>, at: nat): u64
    requires at + 8 <= |input|
  {
    Byte(input, at) + 256 * Byte(input, at + 1) + 65536 * Byte(input, at + 2) + 16777216 * Byte(input, at + 3)
    + 4294967296 * Byte(input, at + 4) + 1099511627776 * Byte(input, at + 5)
    + 281474976710656 * Byte(input, at + 6) + 72057594037927936 * Byte(input, at + 7)
  }

  lemma LowDigits(x: u64, low: nat, high: nat)
    requires low < WORD && x == high * WORD + low
    ensures x / 256 % 256 == low / 256 % 256
    ensures x / 65536 % 256 == low / 65536 % 256
    ensures x / 16777216 % 256 == low / 16777216
  {
    QuotientUnique(x, high * 16777216 + low / 256, low % 256, 256);
    QuotientUnique(high * 16777216 + low / 256, high * 65536 + low / 256 / 256, low / 256 % 256, 256);
    QuotientUnique(x, high * 65536 + low / 65536, low % 65536, 65536);
    QuotientUnique(high * 65536 + low / 65536, high * 256 + low / 65536 / 256, low / 65536 % 256, 256);
    QuotientUnique(x, high * 256 + low / 16777216, low % 16777216, 16777216);
    QuotientUnique(high * 256 + low / 16777216, high, low / 16777216, 256);
  }

  lemma HighDigits(x: u64, low: nat, high: nat)
    requires low < WORD && x == high * WORD + low
    ensures x / 4294967296 == high
    ensures x / 1099511627776 == high / 256
    ensures x / 281474976710656 == high / 65536
    ensures x / 72057594037927936 == high / 16777216
  {
    QuotientUnique(x, high, low, 4294967296);
    QuotientUnique(x, high / 256, high % 256 * WORD + low, 1099511627776);
    QuotientUnique(x, high / 65536, high % 65536 * WORD + low, 281474976710656);
    QuotientUnique(x, high / 16777216, high % 16777216 * WORD + low, 72057594037927936);
  }

  lemma LowByte(x: u64, low: nat, high: nat)
    requires low < WORD && x == high * WORD + low
    ensures x % 256 == low % 256
  {
    QuotientUnique(x, high * 16777216 + low / 256, low % 256, 256);
  }

  /** `to_le_bytes` writes the digits, lowest first. */
  lemma WrittenExactly(x: u16, y: u32, z: u64)
    ensures Le16(x) == Two(x) && Le32(y) == Four(y) && Le64(z) == Eight(z)
  {
    LowByte(z, z % WORD, z / WORD);
    LowDigits(z, z % WORD, z / WORD);
    HighDigits(z, z % WORD, z / WORD);
    HalfDigits(z % WORD, z / WORD, Eight(z));
  }

  lemma HalfDigits(low: u32, high: u32, digits: seq<int>)
    requires digits == [low % 256, low / 256 % 256, low / 65536 % 256, low / 16777216, high % 256, high / 256 % 256,
                        high / 65536 % 256, high / 16777216]
    ensures Le32(low) + Le32(high) == digits
  {}

  /** `from_le_bytes` reads them back. */
  lemma ReadExactly(input: seq<u8>, at: nat)
    ensures at + 2 <= |input| ==> U16At(input, at) == Number2(input, at)
    ensures at + 4 <= |input| ==> U32At(input, at) == Number4(input, at)
    ensures at + 8 <= |input| ==> U64At(input, at) == Number8(input, at)
  {}

  /** The parts of a part of a message are parts of the message. */
  lemma PartOf(x: seq<u8>, part: seq<u8>, from: nat)
    requires from + |part| <= |x| && x[from..from + |part|] == part
    ensures forall i, j {:trigger part[i..j]} :: 0 <= i <= j <= |part| ==> x[from + i..from + j] == part[i..j]
  {
    forall i, j {:trigger part[i..j]} | 0 <= i <= j <= |part| ensures x[from + i..from + j] == part[i..j] {
      SliceOfSlice(x, from, from + |part|, i, j);
    }
  }

  function ProductOf(x: int, y: int): int {
    x * y
  }

  lemma ProductIsTimes(x: u64, y: u64)
    ensures ProductOf(x, y) == Times(x, y) >= 0
  {}

  lemma {:induction false} WordAt(values: seq<u32>, i: nat)
    requires i < |values|
    ensures Words(values)[4 * i..4 * i + 4] == Four(values[i])
  {
    var front, last := values[..|values| - 1], values[|values| - 1];
    if i == |front| {
      assert Words(values)[4 * i..4 * i + 4] == Le32(last);
    } else {
      WordAt(front, i);
      assert Words(values)[4 * i..4 * i + 4] == Words(front)[4 * i..4 * i + 4];
    }
  }
}

/** The messages of the matrix product, byte by byte, and what becomes of any byte string. */
module GemmLayout {
  import opened Wrappers
  import opened Indexing
  import opened Machine
  import opened LittleEndian
  import opened Digits
  import opened GemmProtocol

  // Requests ------------------------------------------------------------------------------

  /** The header of a request: "VRBGEMM1", version 1, length 56, the C flag, a reserved word,
      three dimensions and two floats. */
  lemma RequestHeaderBytes(r: GemmRequest)
    ensures var x := RequestBytes(r);
      && |x| >= 56
      && x[0..8] == [86, 82, 66, 71, 69, 77, 77, 49] && x[8..12] == [1, 0, 0, 0] && x[12..16] == [56, 0, 0, 0]
      && x[16..20] == (if r.c.Some? then [1, 0, 0, 0] else [0, 0, 0, 0]) && x[20..24] == [0, 0, 0, 0]
      && x[24..32] == Eight(r.m) && x[32..40] == Eight(r.n) && x[40..48] == Eight(r.k)
      && x[48..52] == Four(r.alpha) && x[52..56] == Four(r.beta)
  {
    var x, flag := RequestBytes(r), if r.c.Some? then 1 else 0;
    var front, back := RequestFront(flag), RequestBack(r.m, r.n, r.k, r.alpha, r.beta);
    assert x[..20] == front && x[20..24] == Le32(0) && x[24..56] == back;
    FrontBytes(flag);
    BackBytes(r.m, r.n, r.k, r.alpha, r.beta);
    PartOf(x, front, 0);
    PartOf(x, back, 24);
    WrittenExactly(0, 0, 0);
  }

  lemma FrontBytes(flag: u32)
    ensures var front := RequestFront(flag);
      && front[0..8] == [86, 82, 66, 71, 69, 77, 77, 49] && front[8..12] == [1, 0, 0, 0]
      && front[12..16] == [56, 0, 0, 0] && front[16..20] == Four(flag)
  {
    WrittenExactly(0, 1, 0);
    WrittenExactly(0, 56, 0);
    WrittenExactly(0, flag, 0);
    assert Four(1) == [1, 0, 0, 0] && Four(56) == [56, 0, 0, 0];
  }

  lemma BackBytes(m: u64, n: u64, k: u64, alpha: u32, beta: u32)
    ensures var back := RequestBack(m, n, k, alpha, beta);
      && back[0..8] == Eight(m) && back[8..16] == Eight(n) && back[16..24] == Eight(k)
      && back[24..28] == Four(alpha) && back[28..32] == Four(beta)
  {
    WrittenExactly(0, alpha, m);
    WrittenExactly(0, beta, n);
    WrittenExactly(0, 0, k);
  }

  /** After the header come the words of A, of B and of C if there is one, and nothing else. */
  lemma RequestPayloadBytes(r: GemmRequest, i: nat)
    ensures var words := r.a + r.b + if r.c.Some? then r.c.value else [];
      && |RequestBytes(r)| == 56 + 4 * |words|
      && (i < |words| ==> RequestBytes(r)[56 + 4 * i..60 + 4 * i] == Four(words[i]))
  {
    var x, words := RequestBytes(r), r.a + r.b + if r.c.Some? then r.c.value else [];
    assert x[56..56 + 4 * |words|] == Words(words);
    if i < |words| {
      WordAt(words, i);
      SliceOfSlice(x, 56, 56 + 4 * |words|, 4 * i, 4 * i + 4);
    }
  }

  /** The size checks of a header whose fields have been read, where mk, kn and mn are the three
      products. */
  function Measured(fields: GemmRequestMeta, mk: nat, kn: nat, mn: nat, length: nat)
    : Result<GemmRequestMeta, GemmProtocolError>
  {
    var total := 56 + 4 * (mk + kn + if fields.hasC then mn else 0);
    if mk >= U64_LIMIT then Err(DimensionOverflow("matrix A"))
    else if kn >= U64_LIMIT then Err(DimensionOverflow("matrix B"))
    else if mn >= U64_LIMIT then Err(DimensionOverflow("matrix C"))
    else if total >= U64_LIMIT then Err(LengthOverflow)
    else if length >= U64_LIMIT then Err(AddressSpaceOverflow)
    else if length != total then Err(LengthMismatch(total, length))
    else Ok(fields.(aElements := mk, bElements := kn, cElements := mn, encodedLen := total))
  }

  /** The first check that fails of a header with these fields, or the fields. */
  function Checked(magic: seq<u8>, version: u32, length: u32, flags: u32, fields: GemmRequestMeta,
                   mk: nat, kn: nat, mn: nat, size: nat): Result<GemmRequestMeta, GemmProtocolError>
  {
    if magic != [86, 82, 66, 71, 69, 77, 77, 49] then Err(InvalidMagic)
    else if version != 1 then Err(UnsupportedVersion(version))
    else if length != 56 then Err(InvalidHeaderLength(length))
    else if flags > 1 then Err(UnsupportedFlags(flags))
    else Measured(fields, mk, kn, mn, size)
  }

  lemma InspectChecks(input: seq<u8>, version: u32, length: u32, flags: u32, m: u64, n: u64, k: u64,
                      alpha: u32, beta: u32, mk: nat, kn: nat, mn: nat)
    requires |input| >= 56
    requires U32At(input, 8) == version && U32At(input, 12) == length && U32At(input, 16) == flags
    requires U64At(input, 24) == m && U64At(input, 32) == n && U64At(input, 40) == k
    requires U32At(input, 48) == alpha && U32At(input, 52) == beta
    requires mk == Times(m, k) && kn == Times(k, n) && mn == Times(m, n)
    ensures InspectRequest(input)
         == Checked(input[0..8], version, length, flags, GemmRequestMeta(m, n, k, alpha, beta, flags == 1, 0, 0, 0, 0),
                    mk, kn, mn, |input|)
  {
    if mk < U64_LIMIT && kn < U64_LIMIT && mn < U64_LIMIT {
      RequestLenExact(mk, kn, mn, flags % 2 == 1);
    }
  }

  /** What inspection makes of any byte string: the first check that fails, or the fields at
      their positions. */
  lemma InspectExactly(input: seq<u8>)
    ensures |input| < 56 ==> InspectRequest(input) == Err(Truncated(56, |input|))
    ensures |input| >= 56 ==>
      var (m, n, k) := (Number8(input, 24), Number8(input, 32), Number8(input, 40));
      && ProductOf(m, k) >= 0 && ProductOf(k, n) >= 0 && ProductOf(m, n) >= 0
      && InspectRequest(input)
          == Checked(input[0..8], Number4(input, 8), Number4(input, 12), Number4(input, 16),
                     GemmRequestMeta(m, n, k, Number4(input, 48), Number4(input, 52), Number4(input, 16) == 1,
                                     0, 0, 0, 0),
                     ProductOf(m, k), ProductOf(k, n), ProductOf(m, n), |input|)
  {
    if |input| >= 56 {
      RequestNumbers(input);
      var m, n, k := Number8(input, 24), Number8(input, 32), Number8(input, 40);
      ProductIsTimes(m, k);
      ProductIsTimes(k, n);
      ProductIsTimes(m, n);
      InspectChecks(input, Number4(input, 8), Number4(input, 12), Number4(input, 16), m, n, k,
                    Number4(input, 48), Number4(input, 52), Times(m, k), Times(k, n), Times(m, n));
    }
  }

  lemma RequestNumbers(input: seq<u8>)
    requires |input| >= 56
    ensures U32At(input, 8) == Number4(input, 8) && U32At(input, 12) == Number4(input, 12)
    ensures U32At(input, 16) == Number4(input, 16)
    ensures U64At(input, 24) == Number8(input, 24) && U64At(input, 32) == Number8(input, 32)
    ensures U64At(input, 40) == Number8(input, 40)
    ensures U32At(input, 48) == Number4(input, 48) && U32At(input, 52) == Number4(input, 52)
  {
    ReadExactly(input, 8);
    ReadExactly(input, 12);
    ReadExactly(input, 16);
    ReadExactly(input, 24);
    ReadExactly(input, 32);
    ReadExactly(input, 40);
    ReadExactly(input, 48);
    ReadExactly(input, 52);
  }

  lemma WordsInPlace(input: seq<u8>)
    requires Decoded(input).Ok?
    ensures var d := Decoded(input).value;
      |input| == 56 + 4 * |Payload(d.a, d.b, d.c)|
      && WordsAt(input, 56, |Payload(d.a, d.b, d.c)|) == Payload(d.a, d.b, d.c)
  {
    var d := Decoded(input).value;
    AcceptedRuns(input);
    AcceptedPayload(input);
    PayloadField(input, Payload(d.a, d.b, d.c));
  }

  /** The words of an accepted message, position by position. */
  lemma DecodedWords(input: seq<u8>, i: nat)
    requires Decoded(input).Ok?
    ensures var d := Decoded(input).value;
      var words := d.a + d.b + if d.c.Some? then d.c.value else [];
      && InspectRequest(input) == Ok(d.meta)
      && |d.a| == d.meta.m * d.meta.k && |d.b| == d.meta.k * d.meta.n && (d.c.Some? <==> d.meta.hasC)
      && (d.c.Some? ==> |d.c.value| == d.meta.m * d.meta.n)
      && |input| == 56 + 4 * |words|
      && (i < |words| ==> words[i] == Number4(input, 56 + 4 * i))
  {
    InspectedLengths(input);
    WordsInPlace(input);
    var d := Decoded(input).value;
    var words := d.a + d.b + if d.c.Some? then d.c.value else [];
    if i < |words| {
      assert words[i] == WordsAt(input, 56, |words|)[i] == U32At(input, 56 + 4 * i);
      ReadExactly(input, 56 + 4 * i);
    }
  }

  /** The checks of encoding, in order, and the length it announces. */
  lemma EncodeExactly(r: GemmRequest)
    ensures var (m, n, k) := (r.m, r.n, r.k);
      var total := 56 + 4 * (m * k + k * n + if r.c.Some? then m * n else 0);
      CheckRequest(r) ==
      if m * k >= U64_LIMIT then Err(DimensionOverflow("matrix A"))
      else if k * n >= U64_LIMIT then Err(DimensionOverflow("matrix B"))
      else if m * n >= U64_LIMIT then Err(DimensionOverflow("matrix C"))
      else if |r.a| != m * k then WrongLength("A", m * k, |r.a|)
      else if |r.b| != k * n then WrongLength("B", k * n, |r.b|)
      else if r.c.Some? && |r.c.value| != m * n then WrongLength("C", m * n, |r.c.value|)
      else if total >= U64_LIMIT then Err(LengthOverflow)
      else Ok(total)
  {
    var (m, n, k) := (r.m, r.n, r.k);
    TimesNonNegative(m, k);
    TimesNonNegative(k, n);
    TimesNonNegative(m, n);
    if m * k < U64_LIMIT && k * n < U64_LIMIT && m * n < U64_LIMIT {
      RequestLenExact(m * k, k * n, m * n, r.c.Some?);
    }
  }

  function WrongLength(matrix: string, expected: u64, actual: nat): Result<u64, GemmProtocolError> {
    Err(if actual >= U64_LIMIT then AddressSpaceOverflow else MatrixLengthMismatch(matrix, expected, actual))
  }

  // Responses -----------------------------------------------------------------------------

  /** The header of a response is "VRBGEMR1", version 1, length 32 and two dimensions; the words
      of the matrix follow. */
  lemma ResponseBytesExactly(r: GemmResponse, i: nat)
    ensures var x := ResponseBytes(r);
      && |x| == 32 + 4 * |r.values|
      && x[0..8] == [86, 82, 66, 71, 69, 77, 82, 49] && x[8..12] == [1, 0, 0, 0] && x[12..16] == [32, 0, 0, 0]
      && x[16..24] == Eight(r.m) && x[24..32] == Eight(r.n)
      && (i < |r.values| ==> x[32 + 4 * i..36 + 4 * i] == Four(r.values[i]))
  {
    var x, header := ResponseBytes(r), ResponseHeader(r.m, r.n);
    assert x[0..32] == header && x[32..32 + 4 * |r.values|] == Words(r.values);
    ResponseHeaderBytes(r.m, r.n);
    PartOf(x, header, 0);
    if i < |r.values| {
      WordAt(r.values, i);
      SliceOfSlice(x, 32, 32 + 4 * |r.values|, 4 * i, 4 * i + 4);
    }
  }

  lemma ResponseHeaderBytes(m: u64, n: u64)
    ensures var header := ResponseHeader(m, n);
      && header[0..8] == [86, 82, 66, 71, 69, 77, 82, 49] && header[8..12] == [1, 0, 0, 0]
      && header[12..16] == [32, 0, 0, 0] && header[16..24] == Eight(m) && header[24..32] == Eight(n)
  {
    WrittenExactly(0, 1, m);
    WrittenExactly(0, 32, n);
    assert Four(1) == [1, 0, 0, 0] && Four(32) == [32, 0, 0, 0];
  }

  predicate WordStands(input: seq<u8>, from: nat, values: seq<u32>, i: nat)
    requires i < |values|
  {
    from + 4 * i + 4 <= |input| && values[i] == Number4(input, from + 4 * i)
  }

  ghost predicate HoldsResponse(input: seq<u8>, m: u64, n: u64, r: GemmResponse) {
    && r.m == m && r.n == n && |r.values| == m * n
    && forall i: nat :: i < |r.values| ==> WordStands(input, 32, r.values, i)
  }

  function MeasuredResponse(m: u64, n: u64, mn: nat, length: nat): Result<(u64, u64), GemmProtocolError> {
    if mn >= U64_LIMIT then Err(DimensionOverflow("response matrix"))
    else if 32 + 4 * mn >= U64_LIMIT then Err(LengthOverflow)
    else if length >= U64_LIMIT then Err(AddressSpaceOverflow)
    else if length != 32 + 4 * mn then Err(LengthMismatch(32 + 4 * mn, length))
    else Ok((m, n))
  }

  function CheckedResponse(magic: seq<u8>, version: u32, length: u32, m: u64, n: u64, mn: nat,
                           size: nat): Result<(u64, u64), GemmProtocolError>
  {
    if magic != [86, 82, 66, 71, 69, 77, 82, 49] then Err(InvalidMagic)
    else if version != 1 then Err(UnsupportedVersion(version))
    else if length != 32 then Err(InvalidHeaderLength(length))
    else MeasuredResponse(m, n, mn, size)
  }

  lemma ResponseChecks(input: seq<u8>, version: u32, length: u32, m: u64, n: u64, mn: nat)
    requires |input| >= 32 && U32At(input, 8) == version && U32At(input, 12) == length
    requires U64At(input, 16) == m && U64At(input, 24) == n && mn == Times(m, n)
    ensures InspectResponse(input) == CheckedResponse(input[0..8], version, length, m, n, mn, |input|)
  {
    ResponseLenExact(m, n);
  }

  /** What inspecting a response makes of any byte string. */
  lemma InspectResponseExactly(input: seq<u8>)
    ensures |input| < 32 ==> InspectResponse(input) == Err(Truncated(32, |input|))
    ensures |input| >= 32 ==>
      var (m, n) := (Number8(input, 16), Number8(input, 24));
      && ProductOf(m, n) >= 0
      && InspectResponse(input)
          == CheckedResponse(input[0..8], Number4(input, 8), Number4(input, 12), m, n, ProductOf(m, n), |input|)
  {
    if |input| >= 32 {
      ReadExactly(input, 8);
      ReadExactly(input, 12);
      ReadExactly(input, 16);
      ReadExactly(input, 24);
      var m, n := Number8(input, 16), Number8(input, 24);
      ProductIsTimes(m, n);
      ResponseChecks(input, Number4(input, 8), Number4(input, 12), m, n, Times(m, n));
    }
  }

  /** Decoding fails as inspection does, and otherwise returns the words at their positions. */
  lemma DecodeResponseExactly(input: seq<u8>)
    ensures DecodedResponse(input).Err? <==> InspectResponse(input).Err?
    ensures DecodedResponse(input).Err? ==> DecodedResponse(input).error == InspectResponse(input).error
    ensures DecodedResponse(input).Ok? ==>
      HoldsResponse(input, InspectResponse(input).value.0, InspectResponse(input).value.1, DecodedResponse(input).value)
  {
    if DecodedResponse(input).Ok? {
      var (m, n) := InspectResponse(input).value;
      ResponseLenExact(m, n);
      var values := DecodedResponse(input).value.values;
      forall i: nat | i < |values| ensures WordStands(input, 32, values, i) {
        ReadExactly(input, 32 + 4 * i);
      }
    }
  }

  lemma EncodeResponseExactly(r: GemmResponse)
    ensures var total := 32 + 4 * (r.m * r.n);
      CheckResponse(r) ==
      if r.m * r.n >= U64_LIMIT then Err(DimensionOverflow("response matrix"))
      else if |r.values| != r.m * r.n then WrongLength("response", r.m * r.n, |r.values|)
      else if total >= U64_LIMIT then Err(LengthOverflow)
      else Ok(total)
  {
    TimesNonNegative(r.m, r.n);
    ResponseLenExact(r.m, r.n);
  }
}

/** The control of the shared matrix product, byte by byte, and what becomes of any byte
    string. */
module SharedGemmLayout {
  import opened Wrappers
  import opened Machine
  import opened LittleEndian
  import opened Digits
  import opened SharedGemmProtocol

  /** "VRBSGM01", version 1, length 64, three dimensions, two floats, the device, the resource
      count 3 and eight reserved bytes. */
  lemma ControlBytesExactly(c: SharedGemmControl)
    ensures var x := ControlBytes(c);
      && |x| == 64
      && x[0..8] == [86, 82, 66, 83, 71, 77, 48, 49] && x[8..12] == [1, 0, 0, 0] && x[12..16] == [64, 0, 0, 0]
      && x[16..24] == Eight(c.m) && x[24..32] == Eight(c.n) && x[32..40] == Eight(c.k)
      && x[40..44] == Four(c.alpha) && x[44..48] == Four(c.beta) && x[48..52] == Four(Bits(c.hipDeviceIndex))
      && x[52..56] == [3, 0, 0, 0] && x[56..64] == [0, 0, 0, 0, 0, 0, 0, 0]
  {
    var x := ControlBytes(c);
    assert x[0..16] == Opening() && x[16..40] == Dimensions(c) && x[40..56] == Scalars(c) && x[56..64] == Le64(0);
    OpeningBytes();
    FieldBytes(c);
    PartOf(x, Opening(), 0);
    PartOf(x, Dimensions(c), 16);
    PartOf(x, Scalars(c), 40);
    WrittenExactly(0, 0, 0);
  }

  lemma OpeningBytes()
    ensures var x := Opening();
      && x[0..8] == [86, 82, 66, 83, 71, 77, 48, 49] && x[8..12] == [1, 0, 0, 0] && x[12..16] == [64, 0, 0, 0]
  {
    WrittenExactly(0, 1, 0);
    WrittenExactly(0, 64, 0);
    assert Four(1) == [1, 0, 0, 0] && Four(64) == [64, 0, 0, 0];
  }

  lemma FieldBytes(c: SharedGemmControl)
    ensures var d, s := Dimensions(c), Scalars(c);
      && d[0..8] == Eight(c.m) && d[8..16] == Eight(c.n) && d[16..24] == Eight(c.k)
      && s[0..4] == Four(c.alpha) && s[4..8] == Four(c.beta) && s[8..12] == Four(Bits(c.hipDeviceIndex))
      && s[12..16] == [3, 0, 0, 0]
  {
    WrittenExactly(0, c.alpha, c.m);
    WrittenExactly(0, c.beta, c.n);
    WrittenExactly(0, Bits(c.hipDeviceIndex), c.k);
    WrittenExactly(0, 3, 0);
    assert Four(3) == [3, 0, 0, 0];
  }

  /** The checks of a control, in order. */
  lemma ValidateExactly(c: SharedGemmControl)
    ensures ValidateControl(c) ==
      if c.hipDeviceIndex < 0 then Err(InvalidDeviceIndex(c.hipDeviceIndex))
      else if c.m == 0 || c.n == 0 || c.k == 0 then Err(ZeroDimension(c.m, c.n, c.k))
      else if ProductOf(c.m, c.k) >= U64_LIMIT then Err(DimensionOverflow("matrix A"))
      else if ProductOf(c.k, c.n) >= U64_LIMIT then Err(DimensionOverflow("matrix B"))
      else if ProductOf(c.m, c.n) >= U64_LIMIT then Err(DimensionOverflow("matrix C"))
      else Ok(())
  {
    ProductIsTimes(c.m, c.k);
    ProductIsTimes(c.k, c.n);
    ProductIsTimes(c.m, c.n);
  }

  /** The first check that fails of a header with these fields, or the control they make. */
  function Checked(magic: seq<u8>, version: u32, length: u32, resources: u32,
                   c: SharedGemmControl): Result<SharedGemmControl, SharedGemmProtocolError>
  {
    if magic != [86, 82, 66, 83, 71, 77, 48, 49] then Err(InvalidMagic)
    else if version != 1 then Err(UnsupportedVersion(version))
    else if length != 64 then Err(InvalidHeaderLength(length))
    else if resources != 3 then Err(ResourceCount(resources))
    else
      match ValidateControl(c)
      case Err(error) => Err(error)
      case Ok(_) => Ok(c)
  }

  /** The control that stands in 64 bytes. */
  function Fields(input: seq<u8>): SharedGemmControl
    requires |input| == 64
  {
    var device := Number4(input, 48);
    SharedGemmControl(Number8(input, 16), Number8(input, 24), Number8(input, 32), Number4(input, 40),
                      Number4(input, 44), if device < 2147483648 then device else device - 4294967296)
  }

  /** What decoding makes of any byte string. */
  lemma DecodeExactly(input: seq<u8>)
    ensures |input| < 64 ==> DecodeControl(input) == Err(Truncated(64, |input|))
    ensures |input| > 64 ==> DecodeControl(input) == Err(LengthMismatch(64, |input|))
    ensures |input| == 64 ==>
      DecodeControl(input)
      == Checked(input[0..8], Number4(input, 8), Number4(input, 12), Number4(input, 52), Fields(input))
  {
    if |input| == 64 {
      ReadExactly(input, 8);
      ReadExactly(input, 12);
      ReadExactly(input, 52);
      FieldsRead(input);
    }
  }

  lemma FieldsRead(input: seq<u8>)
    requires |input| == 64
    ensures Fields(input)
         == SharedGemmControl(U64At(input, 16), U64At(input, 24), U64At(input, 32), U32At(input, 40), U32At(input, 44),
                              AsI32(U32At(input, 48)))
  {
    ReadExactly(input, 16);
    ReadExactly(input, 24);
    ReadExactly(input, 32);
    ReadExactly(input, 40);
    ReadExactly(input, 44);
    ReadExactly(input, 48);
  }
}

/** The control of attention, byte by byte, and what becomes of any byte string. */
module AttentionLayout {
  import opened Wrappers
  import opened Machine
  import opened LittleEndian
  import opened Digits
  import opened AttentionProtocol
  import Float32

  function TagOf(dataType: AttentionDataType): u32 {
    match dataType
    case F32 => 1
    case F16 => 2
    case Bf16 => 3
  }

  function WidthOf(dataType: AttentionDataType): u64 {
    match dataType
    case F32 => 4
    case F16 => 2
    case Bf16 => 2
  }

  /** "VRBA", version 1, length 64, flags, data type tag, six dimensions, scale, device, the
      resource count 4 and twelve reserved bytes. */
  lemma ControlBytesExactly(c: AttentionControl)
    ensures var x := ControlBytes(c);
      && |x| == 64
      && x[0..4] == [86, 82, 66, 65] && x[4..6] == [1, 0] && x[6..8] == [64, 0]
      && x[8..12] == Four(c.flags) && x[12..16] == Four(TagOf(c.dataType))
      && x[16..20] == Four(c.batch) && x[20..24] == Four(c.queryHeads) && x[24..28] == Four(c.kvHeads)
      && x[28..32] == Four(c.queryLen) && x[32..36] == Four(c.kvLen) && x[36..40] == Four(c.headDim)
      && x[40..44] == Four(c.scale) && x[44..48] == Four(Bits(c.deviceIndex))
      && x[48..52] == [4, 0, 0, 0] && x[52..64] == [0, 0, 0, 0, 0, 0, 0, 0, 0, 0, 0, 0]
  {
    var x := ControlBytes(c);
    var first, second := Quad(c.batch, c.queryHeads, c.kvHeads, c.queryLen),
        Quad(c.kvLen, c.headDim, c.scale, AsU32(c.deviceIndex));
    assert x[0..16] == Preamble(c.flags, c.dataType.Tag()) && x[16..32] == first && x[32..48] == second
        && x[48..64] == Trailer();
    PreambleBytes(c.flags, TagOf(c.dataType));
    QuadBytes(c.batch, c.queryHeads, c.kvHeads, c.queryLen);
    QuadBytes(c.kvLen, c.headDim, c.scale, Bits(c.deviceIndex));
    TrailerBytes();
    PartOf(x, Preamble(c.flags, TagOf(c.dataType)), 0);
    PartOf(x, first, 16);
    PartOf(x, second, 32);
    PartOf(x, Trailer(), 48);
  }

  lemma PreambleBytes(flags: u32, tag: u32)
    ensures var x := Preamble(flags, tag);
      && x[0..4] == [86, 82, 66, 65] && x[4..6] == [1, 0] && x[6..8] == [64, 0]
      && x[8..12] == Four(flags) && x[12..16] == Four(tag)
  {
    WrittenExactly(1, MAGIC, 0);
    WrittenExactly(64, flags, 0);
    WrittenExactly(0, tag, 0);
    assert Four(MAGIC) == [86, 82, 66, 65] && Two(1) == [1, 0] && Two(64) == [64, 0];
  }

  lemma QuadBytes(a: u32, b: u32, c: u32, d: u32)
    ensures var x := Quad(a, b, c, d);
      x[0..4] == Four(a) && x[4..8] == Four(b) && x[8..12] == Four(c) && x[12..16] == Four(d)
  {
    WrittenExactly(0, a, 0);
    WrittenExactly(0, b, 0);
    WrittenExactly(0, c, 0);
    WrittenExactly(0, d, 0);
  }

  lemma TrailerBytes()
    ensures var x := Trailer(); x[0..4] == [4, 0, 0, 0] && x[4..16] == [0, 0, 0, 0, 0, 0, 0, 0, 0, 0, 0, 0]
  {
    WrittenExactly(0, 4, 0);
    WrittenExactly(0, 0, 0);
    assert Four(4) == [4, 0, 0, 0];
  }

  function Elements(batch: u64, heads: u64, len: u64, dim: u64): int {
    batch * heads * len * dim
  }

  lemma ElementsAre(a: u64, b: u64, c: u64, d: u64)
    ensures Machine.Product([a, b, c, d]) == Elements(a, b, c, d)
  {
    var dims := [a, b, c, d];
    assert dims[..3] == [a, b, c] && dims[..3][..2] == [a, b] && dims[..3][..2][..1] == [a];
    assert Machine.Product([a]) == a;
    assert Machine.Product([a, b]) == Times(a, b);
    assert Machine.Product([a, b, c]) == Times(Times(a, b), c);
  }

  /** The bytes of the query or key tensor of a control. */
  function TensorBytes(c: AttentionControl, heads: u64, len: u64): int {
    Elements(c.batch, heads, len, c.headDim) * WidthOf(c.dataType)
  }

  /** The checks of a control, in order. */
  lemma ValidateExactly(c: AttentionControl)
    ensures c.Validate() ==
      if c.flags > 1 then Err(UnsupportedFlags(c.flags))
      else if 0 in [c.batch, c.queryHeads, c.kvHeads, c.queryLen, c.kvLen, c.headDim] then Err(ZeroDimension)
      else if c.queryHeads % c.kvHeads != 0 then Err(InvalidHeadGrouping(c.queryHeads, c.kvHeads))
      else if c.flags == 1 && c.kvLen < c.queryLen then Err(InvalidCausalLengths(c.queryLen, c.kvLen))
      else if !(1 <= c.scale <= 0x7F7F_FFFF) then Err(InvalidScale(c.scale))
      else if c.deviceIndex < 0 then Err(InvalidDeviceIndex(c.deviceIndex))
      else if TensorBytes(c, c.queryHeads, c.queryLen) >= U64_LIMIT || TensorBytes(c, c.kvHeads, c.kvLen) >= U64_LIMIT
        then Err(SizeOverflow)
      else Ok(())
  {
    Float32.FinitePositive(c.scale);
    assert 0 in [c.batch, c.queryHeads, c.kvHeads, c.queryLen, c.kvLen, c.headDim] <==> c.HasZeroDimension();
    if !c.HasZeroDimension() {
      if c.queryHeads % c.kvHeads == 0 { GroupsFit(c.queryHeads, c.kvHeads); }
      LengthsExact(c);
      ElementsAre(c.batch, c.queryHeads, c.queryLen, c.headDim);
      ElementsAre(c.batch, c.kvHeads, c.kvLen, c.headDim);
    }
  }

  /** The lengths a valid control announces. */
  lemma LengthsExactly(c: AttentionControl)
    requires c.Validate().Ok?
    ensures ExpectedResourceLengths(c).Ok?
    ensures var lengths := ExpectedResourceLengths(c).value;
      && lengths.q == lengths.o == TensorBytes(c, c.queryHeads, c.queryLen)
      && lengths.k == lengths.v == TensorBytes(c, c.kvHeads, c.kvLen)
  {
    LengthsExact(c);
    ElementsAre(c.batch, c.queryHeads, c.queryLen, c.headDim);
    ElementsAre(c.batch, c.kvHeads, c.kvLen, c.headDim);
  }

  /** The first check that fails of a header with these fields, or the control they make; a
      data type is known by its tag. */
  function Checked(magic: seq<u8>, version: u16, length: u16, resources: u32, reserved: seq<u8>, tag: u32,
                   c: AttentionControl): Result<AttentionControl, AttentionProtocolError>
  {
    if magic != [86, 82, 66, 65] then Err(InvalidMagic)
    else if version != 1 then Err(UnsupportedVersion(version))
    else if length != 64 then Err(InvalidHeaderLength(length))
    else if resources != 4 then Err(InvalidResourceCount(resources))
    else if reserved != [0, 0, 0, 0, 0, 0, 0, 0, 0, 0, 0, 0] then Err(ReservedFieldNonZero)
    else if TagOf(c.dataType) != tag then Err(UnsupportedDataType(tag))
    else
      match c.Validate()
      case Err(error) => Err(error)
      case Ok(_) => Ok(c)
  }

  /** The control that stands in 64 bytes; an unknown tag is read as `F32`. */
  function Fields(input: seq<u8>): AttentionControl
    requires |input| == 64
  {
    var tag, device := Number4(input, 12), Number4(input, 44);
    AttentionControl(
      Number4(input, 8), if tag == 2 then F16 else if tag == 3 then Bf16 else F32, Number4(input, 16),
      Number4(input, 20), Number4(input, 24), Number4(input, 28), Number4(input, 32), Number4(input, 36),
      Number4(input, 40), if device < 2147483648 then device else device - 4294967296)
  }

  /** What decoding makes of any byte string. */
  lemma DecodeExactly(input: seq<u8>)
    ensures |input| != 64 ==> DecodeControl(input) == Err(InvalidLength(64, |input|))
    ensures |input| == 64 ==>
      DecodeControl(input) == Checked(input[0..4], Number2(input, 4), Number2(input, 6), Number4(input, 48),
                                      input[52..64], Number4(input, 12), Fields(input))
  {
    if |input| == 64 {
      ReadExactly(input, 4);
      ReadExactly(input, 6);
      ReadExactly(input, 12);
      ReadExactly(input, 48);
      MagicRead(input);
      ReservedRead(input);
      FieldsRead(input);
    }
  }

  lemma MagicRead(input: seq<u8>)
    requires |input| == 64
    ensures input[0..4] == [86, 82, 66, 65] <==> U32At(input, 0) == MAGIC
  {
    Field32(input, 0, MAGIC);
    WrittenExactly(0, MAGIC, 0);
    assert Four(MAGIC) == [86, 82, 66, 65];
  }

  lemma ReservedRead(input: seq<u8>)
    requires |input| == 64
    ensures input[52..64] == [0, 0, 0, 0, 0, 0, 0, 0, 0, 0, 0, 0]
       <==> U32At(input, 52) == 0 && U64At(input, 56) == 0
  {
    Joined(input, 52, Le32(0), Le64(0));
    Field32(input, 52, 0);
    Field64(input, 56, 0);
    WrittenExactly(0, 0, 0);
    assert Le32(0) + Le64(0) == [0, 0, 0, 0, 0, 0, 0, 0, 0, 0, 0, 0];
  }

  /** Every field but the data type, as it is read. */
  lemma FieldsRead(input: seq<u8>)
    requires |input| == 64
    ensures Fields(input)
         == AttentionControl(U32At(input, 8), Fields(input).dataType, U32At(input, 16), U32At(input, 20),
                             U32At(input, 24), U32At(input, 28), U32At(input, 32), U32At(input, 36),
                             U32At(input, 40), AsI32(U32At(input, 44)))
  {
    ReadExactly(input, 8);
    ReadExactly(input, 16);
    ReadExactly(input, 20);
    ReadExactly(input, 24);
    ReadExactly(input, 28);
    ReadExactly(input, 32);
    ReadExactly(input, 36);
    ReadExactly(input, 40);
    ReadExactly(input, 44);
  }
}
