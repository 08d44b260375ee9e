/** Flat row-major tensor buffers and the nested tensors they hold. */
module TensorLayout {
  import opened Softmax
  import opened AttentionSpec
  import opened Indexing

  function RowIndex(heads: nat, len: nat, b: nat, h: nat, p: nat): nat {
    AtMostTimes(0, b, heads);
    AtMostTimes(0, b * heads + h, len);
    (b * heads + h) * len + p
  }

  function Size(batch: nat, heads: nat, len: nat, dim: nat): nat {
    AtMostTimes(0, batch, heads);
    AtMostTimes(0, batch * heads, len);
    AtMostTimes(0, batch * heads * len, dim);
    batch * heads * len * dim
  }

  lemma RowInBuffer(batch: nat, heads: nat, len: nat, dim: nat, b: nat, h: nat, p: nat)
    requires b < batch && h < heads && p < len
    ensures 0 <= batch * heads * len
    ensures RowIndex(heads, len, b, h, p) < batch * heads * len
    ensures 0 <= RowIndex(heads, len, b, h, p) * dim
    ensures RowIndex(heads, len, b, h, p) * dim + dim <= Size(batch, heads, len, dim)
  {
    InGrid(b, batch, h, heads);
    InGrid(b * heads + h, batch * heads, p, len);
    BlockInGrid(RowIndex(heads, len, b, h, p), batch * heads * len, dim, dim);
  }

  /** Rows are visited in storage order, and no two coordinates share a row. */
  lemma RowDecode(heads: nat, len: nat, b: nat, h: nat, p: nat)
    requires h < heads && p < len
    ensures RowIndex(heads, len, b, h, p) % len == p
    ensures RowIndex(heads, len, b, h, p) / len % heads == h
    ensures RowIndex(heads, len, b, h, p) / len / heads == b
  {
    AtMostTimes(0, b, heads);
    GridDecode(b * heads + h, p, len);
    GridDecode(b, h, heads);
  }

  function Slice(x: Vec, base: nat, n: nat): Vec
    requires base + n <= |x|
  {
    x[base..base + n]
  }

  function FlatRow(x: Vec, dim: nat, r: nat): Vec
    requires 0 <= r * dim && r * dim + dim <= |x|
  {
    Slice(x, r * dim, dim)
  }

  function Nest(x: Vec, batch: nat, heads: nat, len: nat, dim: nat): (t: Tensor)
    requires |x| == Size(batch, heads, len, dim)
  {
    seq(batch, b requires 0 <= b < batch =>
      seq(heads, h requires 0 <= h < heads =>
        seq(len, p requires 0 <= p < len => NestRow(x, batch, heads, len, dim, b, h, p))))
  }

  function NestRow(x: Vec, batch: nat, heads: nat, len: nat, dim: nat, b: nat, h: nat, p: nat): (row: Vec)
    requires |x| == Size(batch, heads, len, dim) && b < batch && h < heads && p < len
    ensures |row| == dim
  {
    RowInBuffer(batch, heads, len, dim, b, h, p);
    FlatRow(x, dim, RowIndex(heads, len, b, h, p))
  }

  lemma NestIsTensor(x: Vec, batch: nat, heads: nat, len: nat, dim: nat)
    requires |x| == Size(batch, heads, len, dim)
    ensures IsTensor(Nest(x, batch, heads, len, dim), batch, heads, len, dim)
  {
    forall b, h | 0 <= b < batch && 0 <= h < heads ensures IsHead(Nest(x, batch, heads, len, dim), b, h, len, dim) {}
  }

  /** Every slot of a flat buffer belongs to exactly one (batch, head, position,
      coordinate), so buffers with the same nested form are the same. */
  lemma SlotOwner(batch: nat, heads: nat, len: nat, dim: nat, i: nat) returns (b: nat, h: nat, p: nat, d: nat)
    requires i < Size(batch, heads, len, dim)
    ensures b < batch && h < heads && p < len && d < dim
    ensures i == RowIndex(heads, len, b, h, p) * dim + d
    ensures forall b', h', p', d' | 0 <= b' && 0 <= h' < heads && 0 <= p' < len && 0 <= d' < dim ::
      i == RowIndex(heads, len, b', h', p') * dim + d' ==> (b', h', p', d') == (b, h, p, d)
  {
    AtMostTimes(0, batch, heads);
    AtMostTimes(0, batch * heads, len);
    GridEncode(i, batch * heads * len, dim);
    GridEncode(i / dim, batch * heads, len);
    GridEncode(i / dim / len, batch, heads);
    b, h, p, d := i / dim / len / heads, i / dim / len % heads, i / dim % len, i % dim;
    forall b', h', p', d' | 0 <= b' && 0 <= h' < heads && 0 <= p' < len && 0 <= d' < dim
        && i == RowIndex(heads, len, b', h', p') * dim + d'
      ensures (b', h', p', d') == (b, h, p, d)
    {
      GridDecode(RowIndex(heads, len, b', h', p'), d', dim);
      RowDecode(heads, len, b', h', p');
    }
  }

  lemma NestInjective(x: Vec, y: Vec, batch: nat, heads: nat, len: nat, dim: nat)
    requires |x| == |y| == Size(batch, heads, len, dim)
    requires Nest(x, batch, heads, len, dim) == Nest(y, batch, heads, len, dim)
    ensures x == y
  {
    forall i | 0 <= i < |x| ensures x[i] == y[i] {
      var b, h, p, d := SlotOwner(batch, heads, len, dim, i);
      NestAt(x, batch, heads, len, dim, b, h, p, d);
      NestAt(y, batch, heads, len, dim, b, h, p, d);
    }
  }

  lemma NestAt(x: Vec, batch: nat, heads: nat, len: nat, dim: nat, b: nat, h: nat, p: nat, d: nat)
    requires |x| == Size(batch, heads, len, dim) && b < batch && h < heads && p < len && d < dim
    ensures 0 <= RowIndex(heads, len, b, h, p) * dim + d < |x|
    ensures Nest(x, batch, heads, len, dim)[b][h][p][d] == x[RowIndex(heads, len, b, h, p) * dim + d]
  {
    RowInBuffer(batch, heads, len, dim, b, h, p);
    assert Nest(x, batch, heads, len, dim)[b][h][p] == NestRow(x, batch, heads, len, dim, b, h, p);
  }

  /** Consecutive rows of a flat buffer, as a list. */
  function FlatRows(x: Vec, dim: nat, first: nat, n: nat): (rows: seq<Vec>)
    requires 0 <= (first + n) * dim <= |x|
    ensures |rows| == n && Uniform(rows, dim)
  {
    seq(n, j requires 0 <= j < n => FlatRowIn(x, dim, first, n, j))
  }

  function FlatRowIn(x: Vec, dim: nat, first: nat, n: nat, j: nat): (row: Vec)
    requires 0 <= (first + n) * dim <= |x| && j < n
    ensures |row| == dim
    ensures 0 <= (first + j) * dim && (first + j) * dim + dim <= |x|
    ensures row == x[(first + j) * dim..(first + j) * dim + dim]
  {
    AtMostTimes(0, first + j, dim);
    LessTimes(first + j, first + n, dim);
    FlatRow(x, dim, first + j)
  }

  /** The first n rows of one head are n consecutive rows of the buffer. */
  lemma HeadPrefix(x: Vec, batch: nat, heads: nat, len: nat, dim: nat, b: nat, h: nat, n: nat)
    requires |x| == Size(batch, heads, len, dim) && b < batch && h < heads && n <= len
    ensures 0 <= (RowIndex(heads, len, b, h, 0) + n) * dim <= |x|
    ensures Nest(x, batch, heads, len, dim)[b][h][..n] == FlatRows(x, dim, RowIndex(heads, len, b, h, 0), n)
  {
    InGrid(b, batch, h, heads);
    BlockInGrid(b * heads + h, batch * heads, n, len);
    AtMostTimes(0, batch * heads, len);
    AtMostTimes(RowIndex(heads, len, b, h, 0) + n, batch * heads * len, dim);
    AtMostTimes(0, RowIndex(heads, len, b, h, 0) + n, dim);
    var prefix := Nest(x, batch, heads, len, dim)[b][h][..n];
    var rows := FlatRows(x, dim, RowIndex(heads, len, b, h, 0), n);
    forall j | 0 <= j < n ensures prefix[j] == rows[j] {
      assert prefix[j] == NestRow(x, batch, heads, len, dim, b, h, j);
      assert RowIndex(heads, len, b, h, j) == RowIndex(heads, len, b, h, 0) + j;
    }
  }
}

/** `execute_attention_f32`: nested loops over flat buffers with one reused scratch
    buffer of scores, over the real numbers. */
module AttentionReference {
  import opened Wrappers
  import opened Machine
  import opened Softmax
  import opened AttentionSpec
  import opened AttentionProtocol
  import opened TensorLayout
  import opened FlatAttention
  import Indexing
  import Float32

  datatype AttentionLimits = AttentionLimits(maxTensorElements: u64, maxScoreElements: u64)

  datatype ReferenceAttentionError =
    | Protocol(error: AttentionProtocolError)
    | NotF32(dataType: AttentionDataType)
    | InputLength(name: string, expected: nat, actual: nat)
    | ResourceLimit(what: string, requested: u64, limit: u64)
    | AddressSpaceOverflow
    | NumericalFailure

  function ShapeOf(c: AttentionControl): Shape {
    Shape(c.batch, c.queryHeads, c.kvHeads, c.queryLen, c.kvLen, c.headDim, c.IsCausal(), Float32.Value(c.scale))
  }

  function ScoreDims(c: AttentionControl): seq<u64> {
    [c.batch, c.queryHeads, c.queryLen, c.kvLen]
  }

  /** Everything that is checked before any number is computed. */
  function CheckRequest(c: AttentionControl, qLen: nat, kLen: nat, vLen: nat, limits: AttentionLimits)
    : Result<(), ReferenceAttentionError>
  {
    if c.Validate().Err? then Err(Protocol(c.Validate().error))
    else if c.dataType != F32 then Err(NotF32(c.dataType))
    else
      match ExpectedResourceLengths(c)
      case Err(error) => Err(Protocol(error))
      case Ok(lengths) =>
        if qLen != lengths.q / 4 then Err(InputLength("q", lengths.q / 4, qLen))
        else if kLen != lengths.k / 4 then Err(InputLength("k", lengths.k / 4, kLen))
        else if vLen != lengths.v / 4 then Err(InputLength("v", lengths.v / 4, vLen))
        else if lengths.o / 4 > limits.maxTensorElements then
          Err(ResourceLimit("output tensor elements", lengths.o / 4, limits.maxTensorElements))
        else
          match CheckedProduct(ScoreDims(c))
          case None => Err(AddressSpaceOverflow)
          case Some(scores) =>
            if scores > limits.maxScoreElements then
              Err(ResourceLimit("attention score elements", scores, limits.maxScoreElements))
            else Ok(())
  }

  lemma ProductOfFour(a: u64, b: u64, c: u64, d: u64)
    ensures Product([a, b, c, d]) == Size(a, b, c, d)
  {
    var dims := [a, b, c, d];
    assert dims[..3] == [a, b, c] && dims[..3][..2] == [a, b] && dims[..3][..2][..1] == [a];
    assert Product([a]) == a;
    assert Product([a, b]) == Times(a, b);
    assert Product([a, b, c]) == Times(Times(a, b), c);
  }

  /** The announced lengths of a valid float control are its tensors' sizes. */
  lemma FloatSizes(c: AttentionControl)
    requires c.Validate().Ok? && c.dataType == F32
    ensures ExpectedResourceLengths(c).Ok?
    ensures var lengths := ExpectedResourceLengths(c).value;
      && lengths.q / 4 == lengths.o / 4 == Size(c.batch, c.queryHeads, c.queryLen, c.headDim)
      && lengths.k / 4 == lengths.v / 4 == Size(c.batch, c.kvHeads, c.kvLen, c.headDim)
  {
    LengthsExact(c);
    ProductOfFour(c.batch, c.queryHeads, c.queryLen, c.headDim);
    ProductOfFour(c.batch, c.kvHeads, c.kvLen, c.headDim);
  }

  /** The score count is refused as unrepresentable exactly when it does not fit 64 bits. */
  lemma ScoreSize(c: AttentionControl)
    requires !c.HasZeroDimension()
    ensures var scores := Size(c.batch, c.queryHeads, c.queryLen, c.kvLen);
      CheckedProduct(ScoreDims(c)) == if scores < U64_LIMIT then Some(scores) else None
  {
    ProductOfFour(c.batch, c.queryHeads, c.queryLen, c.kvLen);
    CheckedProductExact(ScoreDims(c));
  }

  /** The requests that pass every check: a valid 32-bit float control, buffers of exactly
      the declared sizes, and output and score counts within the limits. */
  lemma CheckedExactly(c: AttentionControl, qLen: nat, kLen: nat, vLen: nat, limits: AttentionLimits)
    ensures CheckRequest(c, qLen, kLen, vLen, limits).Ok? <==>
      && c.Validate().Ok? && c.dataType == F32
      && qLen == Size(c.batch, c.queryHeads, c.queryLen, c.headDim) <= limits.maxTensorElements
      && kLen == vLen == Size(c.batch, c.kvHeads, c.kvLen, c.headDim)
      && Size(c.batch, c.queryHeads, c.queryLen, c.kvLen) <= limits.maxScoreElements
  {
    if c.Validate().Ok? && c.dataType == F32 {
      FloatSizes(c);
      ScoreSize(c);
    }
  }

  predicate Exceeds(result: Result<(), ReferenceAttentionError>, what: string, requested: nat, limit: u64) {
    && result.Err? && result.error.ResourceLimit?
    && result.error.what == what && result.error.requested == requested > limit == result.error.limit
  }

  /** Every check of a run, in order, and what it reports. */
  lemma RefusedExactly(c: AttentionControl, qLen: nat, kLen: nat, vLen: nat, limits: AttentionLimits)
    ensures var result := CheckRequest(c, qLen, kLen, vLen, limits);
      var queries, keys, scores := Size(c.batch, c.queryHeads, c.queryLen, c.headDim),
          Size(c.batch, c.kvHeads, c.kvLen, c.headDim), Size(c.batch, c.queryHeads, c.queryLen, c.kvLen);
      if c.Validate().Err? then result == Err(Protocol(c.Validate().error))
      else if c.dataType != F32 then result == Err(NotF32(c.dataType))
      else if qLen != queries then result == Err(InputLength("q", queries, qLen))
      else if kLen != keys then result == Err(InputLength("k", keys, kLen))
      else if vLen != keys then result == Err(InputLength("v", keys, vLen))
      else if queries > limits.maxTensorElements then
        Exceeds(result, "output tensor elements", queries, limits.maxTensorElements)
      else if scores >= U64_LIMIT then result == Err(AddressSpaceOverflow)
      else if scores > limits.maxScoreElements then
        Exceeds(result, "attention score elements", scores, limits.maxScoreElements)
      else result == Ok(())
  {
    if c.Validate().Ok? && c.dataType == F32 {
      FloatSizes(c);
      ScoreSize(c);
    }
  }

  /** Such a request has a well-formed shape. */
  lemma CheckedShape(c: AttentionControl)
    requires c.Validate().Ok?
    ensures ShapeOf(c).Valid()
  {}

  /** `f32::NEG_INFINITY` as the start of a running maximum. */
  datatype Extended = NegInfinity | Finite(value: real)
  {
    function Max(x: real): Extended {
      if NegInfinity? || value < x then Finite(x) else this
    }
  }

  method DotProduct(q: Vec, qBase: nat, k: Vec, kBase: nat, dim: nat) returns (dot: real)
    requires qBase + dim <= |q| && kBase + dim <= |k|
    ensures dot == Dot(Slice(q, qBase, dim), Slice(k, kBase, dim), dim)
  {
    ghost var query, key := Slice(q, qBase, dim), Slice(k, kBase, dim);
    dot := 0.0;
    for d := 0 to dim
      invariant dot == Dot(query, key, d)
    {
      assert q[qBase + d] == query[d] && k[kBase + d] == key[d];
      dot := dot + q[qBase + d] * k[kBase + d];
    }
  }

  predicate IsMax(scores: Vec, max: real) {
    max in scores && forall j :: 0 <= j < |scores| ==> scores[j] <= max
  }

  /** First pass: score every visible key in place and keep the maximum. */
  method ScoreKeys(q: Vec, qBase: nat, k: Vec, kvRow: nat, dim: nat, scale: real, visible: nat, scores: array<real>)
    returns (maxScore: Extended)
    requires qBase + dim <= |q| && 0 <= (kvRow + visible) * dim <= |k| && 0 < visible <= scores.Length
    modifies scores
    ensures scores[..visible] == Scores(scale, Slice(q, qBase, dim), FlatRows(k, dim, kvRow, visible))
    ensures scores[visible..] == old(scores[visible..])
    ensures maxScore.Finite? && IsMax(scores[..visible], maxScore.value)
  {
    ghost var expected := Scores(scale, Slice(q, qBase, dim), FlatRows(k, dim, kvRow, visible));
    maxScore := NegInfinity;
    for j := 0 to visible
      invariant scores[..j] == expected[..j]
      invariant scores[visible..] == old(scores[visible..])
      invariant if j == 0 then maxScore.NegInfinity? else maxScore.Finite? && IsMax(expected[..j], maxScore.value)
    {
      ghost var key := FlatRowIn(k, dim, kvRow, visible, j);
      var dot := DotProduct(q, qBase, k, (kvRow + j) * dim, dim);
      var score := dot * scale;
      ScoreAt(Slice(q, qBase, dim), k, kvRow, dim, scale, visible, j, dot);
      scores[j] := score;
      RunningMax(expected, j, maxScore);
      maxScore := maxScore.Max(score);
    }
    assert expected[..visible] == expected;
  }

  lemma ScoreAt(query: Vec, k: Vec, kvRow: nat, dim: nat, scale: real, visible: nat, j: nat, dot: real)
    requires |query| == dim && 0 <= (kvRow + visible) * dim <= |k| && j < visible
    requires dot == Dot(query, FlatRowIn(k, dim, kvRow, visible, j), dim)
    ensures Scores(scale, query, FlatRows(k, dim, kvRow, visible))[j] == dot * scale
  {
    assert FlatRowIn(k, dim, kvRow, visible, j) == FlatRows(k, dim, kvRow, visible)[j];
  }

  lemma RunningMax(scores: Vec, j: nat, max: Extended)
    requires j < |scores|
    requires if j == 0 then max.NegInfinity? else max.Finite? && IsMax(scores[..j], max.value)
    ensures max.Max(scores[j]).Finite? && IsMax(scores[..j + 1], max.Max(scores[j]).value)
  {
    assert scores[..j + 1] == scores[..j] + [scores[j]];
  }

  function Shifted(exp: real -> real, raw: Vec, maxScore: real): (shifted: Vec)
    ensures |shifted| == |raw|
  {
    seq(|raw|, j requires 0 <= j < |raw| => exp(raw[j] - maxScore))
  }

  lemma NextShifted(exp: real -> real, raw: Vec, maxScore: real, j: nat)
    requires j < |raw|
    ensures Shifted(exp, raw, maxScore)[j] == exp(raw[j] - maxScore)
    ensures ExpSum(exp, raw, maxScore, j + 1) == ExpSum(exp, raw, maxScore, j) + Shifted(exp, raw, maxScore)[j]
  {}

  /** The loop of the second pass: replace every visible score by exp(score - max) and add
      them up. */
  method ShiftAndSum(exp: real -> real, scores: array<real>, visible: nat, maxScore: real, ghost raw: Vec)
    returns (denominator: real)
    requires visible <= scores.Length && raw == scores[..visible]
    modifies scores
    ensures scores[..visible] == Shifted(exp, raw, maxScore)
    ensures denominator == ExpSum(exp, raw, maxScore, visible)
  {
    ghost var shifted := Shifted(exp, raw, maxScore);
    denominator := 0.0;
    for j := 0 to visible
      invariant forall i :: 0 <= i < j ==> scores[i] == shifted[i]
      invariant forall i :: j <= i < visible ==> scores[i] == raw[i]
      invariant denominator == ExpSum(exp, raw, maxScore, j)
    {
      NextShifted(exp, raw, maxScore, j);
      scores[j] := exp(scores[j] - maxScore);
      denominator := denominator + scores[j];
    }
  }

  lemma ShiftedAreWeights(exp: real -> real, raw: Vec, maxScore: real, shifted: Vec, denominator: real)
    requires IsExp(exp) && IsMax(raw, maxScore) && shifted == Shifted(exp, raw, maxScore)
    requires denominator == ExpSum(exp, raw, maxScore, |raw|)
    ensures denominator >= 1.0
    ensures forall j :: 0 <= j < |raw| ==> Weights(exp, raw)[j] == shifted[j] / denominator
  {
    ShiftedWeights(exp, raw, maxScore);
  }

  /** What the pass leaves in the buffer, over the returned denominator, is the textbook
      softmax; the denominator is at least 1, so dividing by it cannot fail. */
  method Exponentiate(exp: real -> real, scores: array<real>, visible: nat, maxScore: real, ghost raw: Vec)
    returns (denominator: real)
    requires IsExp(exp) && visible <= scores.Length && raw == scores[..visible] && IsMax(raw, maxScore)
    modifies scores
    ensures denominator >= 1.0
    ensures forall j :: 0 <= j < visible ==> Weights(exp, raw)[j] == scores[j] / denominator
  {
    denominator := ShiftAndSum(exp, scores, visible, maxScore, raw);
    ghost var shifted := scores[..visible];
    ShiftedAreWeights(exp, raw, maxScore, shifted, denominator);
    assert forall j :: 0 <= j < visible ==> scores[j] == shifted[j];
  }

  function PlusScaled(row: Vec, weight: real, value: Vec): Vec
    requires |row| == |value|
  {
    seq(|row|, d requires 0 <= d < |row| => row[d] + weight * value[d])
  }

  /** Add one weighted value into an output row. */
  method AddScaled(output: array<real>, oBase: nat, weight: real, v: Vec, vBase: nat, dim: nat)
    requires oBase + dim <= output.Length && vBase + dim <= |v|
    modifies output
    ensures output[oBase..oBase + dim] == PlusScaled(old(output[oBase..oBase + dim]), weight, Slice(v, vBase, dim))
    ensures output[..oBase] == old(output[..oBase]) && output[oBase + dim..] == old(output[oBase + dim..])
  {
    ghost var before := output[..];
    for d := 0 to dim
      invariant forall i :: oBase <= i < oBase + d ==> output[i] == before[i] + weight * v[vBase + (i - oBase)]
      invariant forall i :: 0 <= i < output.Length && !(oBase <= i < oBase + d) ==> output[i] == before[i]
    {
      output[oBase + d] := output[oBase + d] + weight * v[vBase + d];
    }
    ghost var expected := PlusScaled(before[oBase..oBase + dim], weight, Slice(v, vBase, dim));
    forall d | 0 <= d < dim ensures output[oBase..oBase + dim][d] == expected[d] {
      assert output[oBase + d] == before[oBase + d] + weight * v[vBase + (oBase + d - oBase)];
    }
  }

  lemma MixRowStep(weights: Vec, values: seq<Vec>, dim: nat, n: nat)
    requires n < |weights| && n < |values| && Uniform(values, dim)
    ensures |values[n]| == dim
    ensures PlusScaled(MixRow(weights, values, dim, n), weights[n], values[n]) == MixRow(weights, values, dim, n + 1)
  {
    var next := MixRow(weights, values, dim, n + 1);
    forall d | 0 <= d < dim ensures PlusScaled(MixRow(weights, values, dim, n), weights[n], values[n])[d] == next[d] {}
  }

  /** Third pass: add every visible value, weighted, into the zeroed output row. */
  method Accumulate(scores: array<real>, visible: nat, denominator: real, ghost weights: Vec,
                    v: Vec, kvRow: nat, dim: nat, output: array<real>, oBase: nat)
    requires scores != output && denominator != 0.0
    requires visible == |weights| <= scores.Length && forall j ::
        0 <= j < visible ==> weights[j] == scores[j] / denominator
    requires 0 <= (kvRow + visible) * dim <= |v| && oBase + dim <= output.Length
    requires forall d :: oBase <= d < oBase + dim ==> output[d] == 0.0
    modifies output
    ensures output[oBase..oBase + dim] == MixRow(weights, FlatRows(v, dim, kvRow, visible), dim, visible)
    ensures output[..oBase] == old(output[..oBase]) && output[oBase + dim..] == old(output[oBase + dim..])
  {
    ghost var values := FlatRows(v, dim, kvRow, visible);
    assert output[oBase..oBase + dim] == MixRow(weights, values, dim, 0);
    for j := 0 to visible
      invariant output[oBase..oBase + dim] == MixRow(weights, values, dim, j)
      invariant output[..oBase] == old(output[..oBase]) && output[oBase + dim..] == old(output[oBase + dim..])
    {
      var weight := scores[j] / denominator;
      ghost var row := FlatRowIn(v, dim, kvRow, visible, j);
      assert row == values[j];
      AddScaled(output, oBase, weight, v, (kvRow + j) * dim, dim);
      MixRowStep(weights, values, dim, j);
    }
  }

  /** A buffer with the row at `base` replaced and nothing else changed. */
  predicate RowReplaced(before: Vec, after: Vec, base: nat, dim: nat, row: Vec) {
    && base + dim <= |before| == |after|
    && after[..base] == before[..base]
    && after[base..base + dim] == row
    && after[base + dim..] == before[base + dim..]
  }

  /** One iteration of the innermost query loop. The scratch buffer may hold anything
      on entry: only slots written in this iteration are read. */
  method AttendQuery(exp: real -> real, q: Vec, k: Vec, v: Vec, qBase: nat, kvRow: nat, dim: nat, scale: real,
                     visible: nat, scores: array<real>, output: array<real>) returns (failed: bool)
    requires IsExp(exp) && scores != output
    requires qBase + dim <= |q| && qBase + dim <= output.Length
    requires 0 <= (kvRow + visible) * dim <= |k| && |v| == |k|
    requires 0 < visible <= scores.Length
    requires forall d :: qBase <= d < qBase + dim ==> output[d] == 0.0
    modifies scores, output
    ensures !failed
    ensures RowReplaced(old(output[..]), output[..], qBase, dim,
                        Attend(exp, scale, Slice(q, qBase, dim), FlatRows(k, dim, kvRow, visible),
                               FlatRows(v, dim, kvRow, visible)))
  {
    ghost var before := output[..];
    var maxScore := ScoreKeys(q, qBase, k, kvRow, dim, scale, visible, scores);
    ghost var raw := scores[..visible];
    var denominator := Exponentiate(exp, scores, visible, maxScore.value, raw);
    if denominator <= 0.0 {
      return true;
    }
    Accumulate(scores, visible, denominator, Weights(exp, raw), v, kvRow, dim, output, qBase);
    assert output[..][..qBase] == output[..qBase] && output[..][qBase + dim..] == output[qBase + dim..];
    assert output[..][qBase..qBase + dim] == output[qBase..qBase + dim];
    return false;
  }

  predicate Buffers(s: Shape, q: Vec, k: Vec, v: Vec) {
    && s.Valid()
    && |q| == Size(s.batch, s.queryHeads, s.queryLen, s.headDim)
    && |k| == |v| == Size(s.batch, s.kvHeads, s.kvLen, s.headDim)
  }

  /** The specification of a whole run: attention over the tensors the buffers hold. */
  ghost function Expected(exp: real -> real, s: Shape, q: Vec, k: Vec, v: Vec): (out: Tensor)
    requires IsExp(exp) && Buffers(s, q, k, v)
    ensures IsTensor(out, s.batch, s.queryHeads, s.queryLen, s.headDim)
  {
    NestIsTensor(q, s.batch, s.queryHeads, s.queryLen, s.headDim);
    NestIsTensor(k, s.batch, s.kvHeads, s.kvLen, s.headDim);
    NestIsTensor(v, s.batch, s.kvHeads, s.kvLen, s.headDim);
    Output(exp, s, Nest(q, s.batch, s.queryHeads, s.queryLen, s.headDim),
           Nest(k, s.batch, s.kvHeads, s.kvLen, s.headDim), Nest(v, s.batch, s.kvHeads, s.kvLen, s.headDim))
  }

  ghost predicate RowDone(s: Shape, out: Vec, expected: Tensor, b: nat, h: nat, p: nat)
    requires |out| == Size(s.batch, s.queryHeads, s.queryLen, s.headDim)
    requires b < s.batch && h < s.queryHeads && p < s.queryLen
  {
    NestRow(out, s.batch, s.queryHeads, s.queryLen, s.headDim, b, h, p) == RowOf(expected, b, h, p)
  }

  /** The rows before row r are final and the rest is still zero. */
  ghost predicate Progress(s: Shape, out: Vec, expected: Tensor, r: nat)
    requires |out| == Size(s.batch, s.queryHeads, s.queryLen, s.headDim)
  {
    && (forall b: nat, h: nat, p: nat | b < s.batch && h < s.queryHeads && p < s.queryLen ::
          RowIndex(s.queryHeads, s.queryLen, b, h, p) < r ==> RowDone(s, out, expected, b, h, p))
    && (forall i :: r * s.headDim <= i < |out| ==> out[i] == 0.0)
  }

  lemma ZeroTail(s: Shape, out: Vec, expected: Tensor, r: nat)
    requires |out| == Size(s.batch, s.queryHeads, s.queryLen, s.headDim) && Progress(s, out, expected, r)
    ensures forall i :: r * s.headDim <= i < |out| ==> out[i] == 0.0
  {}

  lemma ProgressStep(s: Shape, before: Vec, after: Vec, expected: Tensor, b: nat, h: nat, p: nat)
    requires |before| == |after| == Size(s.batch, s.queryHeads, s.queryLen, s.headDim)
    requires b < s.batch && h < s.queryHeads && p < s.queryLen
    requires var r := RowIndex(s.queryHeads, s.queryLen, b, h, p);
      && Progress(s, before, expected, r)
      && 0 <= r * s.headDim && RowReplaced(before, after, r * s.headDim, s.headDim, RowOf(expected, b, h, p))
    ensures Progress(s, after, expected, RowIndex(s.queryHeads, s.queryLen, b, h, p) + 1)
  {
    var r := RowIndex(s.queryHeads, s.queryLen, b, h, p);
    var base := r * s.headDim;
    assert (r + 1) * s.headDim == base + s.headDim;
    ZeroBeyond(before, after, base, s.headDim, RowOf(expected, b, h, p));
    forall b': nat, h': nat, p': nat | b' < s.batch && h' < s.queryHeads && p' < s.queryLen
        && RowIndex(s.queryHeads, s.queryLen, b', h', p') < r + 1
      ensures RowDone(s, after, expected, b', h', p')
    {
      StillDone(s, before, after, expected, b, h, p, r, base, b', h', p');
    }
  }

  lemma ZeroBeyond(before: Vec, after: Vec, base: nat, dim: nat, row: Vec)
    requires RowReplaced(before, after, base, dim, row) && forall i :: base <= i < |before| ==> before[i] == 0.0
    ensures forall i :: base + dim <= i < |after| ==> after[i] == 0.0
  {
    forall i | base + dim <= i < |after| ensures after[i] == 0.0 {
      assert after[i] == after[base + dim..][i - (base + dim)];
      assert before[i] == before[base + dim..][i - (base + dim)];
    }
  }

  /** Of the rows up to row r, the replaced one is done and the others stay done. */
  lemma StillDone(s: Shape, before: Vec, after: Vec, expected: Tensor, b: nat, h: nat, p: nat,
                  r: nat, base: nat, b': nat, h': nat, p': nat)
    requires |before| == |after| == Size(s.batch, s.queryHeads, s.queryLen, s.headDim)
    requires b < s.batch && h < s.queryHeads && p < s.queryLen && b' < s.batch && h' < s.queryHeads && p' < s.queryLen
    requires r == RowIndex(s.queryHeads, s.queryLen, b, h, p) && base == r * s.headDim
    requires RowIndex(s.queryHeads, s.queryLen, b', h', p') <= r && Progress(s, before, expected, r)
    requires RowReplaced(before, after, base, s.headDim, RowOf(expected, b, h, p))
    ensures RowDone(s, after, expected, b', h', p')
  {
    var r' := RowIndex(s.queryHeads, s.queryLen, b', h', p');
    if r' == r {
      RowDecode(s.queryHeads, s.queryLen, b, h, p);
      RowDecode(s.queryHeads, s.queryLen, b', h', p');
    } else {
      assert RowDone(s, before, expected, b', h', p');
      EarlierRowDone(s, before, after, expected, b', h', p', r', r, base);
    }
  }

  lemma EarlierRowDone(s: Shape, before: Vec, after: Vec, expected: Tensor,
                       b: nat, h: nat, p: nat, row: nat, r: nat, base: nat)
    requires |before| == |after| == Size(s.batch, s.queryHeads, s.queryLen, s.headDim)
    requires b < s.batch && h < s.queryHeads && p < s.queryLen && RowDone(s, before, expected, b, h, p)
    requires row == RowIndex(s.queryHeads, s.queryLen, b, h, p) < r && base == r * s.headDim <= |before|
    requires after[..base] == before[..base]
    ensures RowDone(s, after, expected, b, h, p)
  {
    RowInBuffer(s.batch, s.queryHeads, s.queryLen, s.headDim, b, h, p);
    Indexing.LessTimes(row, r, s.headDim);
    EarlierRow(before, after, s.headDim, row, base);
  }

  lemma EarlierRow(before: Vec, after: Vec, dim: nat, r: nat, base: nat)
    requires 0 <= r * dim && r * dim + dim <= base <= |before| == |after| && after[..base] == before[..base]
    ensures FlatRow(after, dim, r) == FlatRow(before, dim, r)
  {
    var from := r * dim;
    assert after[from..from + dim] == after[..base][from..from + dim];
    assert before[from..from + dim] == before[..base][from..from + dim];
  }

  /** The buffers hold the query row and its visible keys, and `expected` is attention
      of the one over the others. */
  ghost predicate IsQueryRow(exp: real -> real, s: Shape, q: Vec, k: Vec, v: Vec,
                             row: nat, kvRow: nat, p: nat, expected: Vec)
    requires IsExp(exp) && s.Valid() && p < s.queryLen
  {
    && 0 <= row * s.headDim && row * s.headDim + s.headDim <= |q|
    && 0 <= (kvRow + s.Visible(p)) * s.headDim <= |k| == |v|
    && expected == Attend(exp, s.scale, Slice(q, row * s.headDim, s.headDim),
                          FlatRows(k, s.headDim, kvRow, s.Visible(p)), FlatRows(v, s.headDim, kvRow, s.Visible(p)))
  }

  /** What one query iteration computes is the specified row. */
  lemma QueryRowIsExpected(exp: real -> real, s: Shape, q: Vec, k: Vec, v: Vec, b: nat, h: nat, p: nat)
    requires IsExp(exp) && Buffers(s, q, k, v)
    requires b < s.batch && h < s.queryHeads && p < s.queryLen
    ensures IsQueryRow(exp, s, q, k, v, RowIndex(s.queryHeads, s.queryLen, b, h, p),
                       RowIndex(s.kvHeads, s.kvLen, b, s.KvHead(h), 0),
                       p, RowOf(Expected(exp, s, q, k, v), b, h, p))
  {
    var q', k', v' := Nest(q, s.batch, s.queryHeads, s.queryLen, s.headDim),
        Nest(k, s.batch, s.kvHeads, s.kvLen, s.headDim),
                      Nest(v, s.batch, s.kvHeads, s.kvLen, s.headDim);
    RowInBuffer(s.batch, s.queryHeads, s.queryLen, s.headDim, b, h, p);
    NestIsTensor(q, s.batch, s.queryHeads, s.queryLen, s.headDim);
    NestIsTensor(k, s.batch, s.kvHeads, s.kvLen, s.headDim);
    NestIsTensor(v, s.batch, s.kvHeads, s.kvLen, s.headDim);
    HeadPrefix(k, s.batch, s.kvHeads, s.kvLen, s.headDim, b, s.KvHead(h), s.Visible(p));
    HeadPrefix(v, s.batch, s.kvHeads, s.kvLen, s.headDim, b, s.KvHead(h), s.Visible(p));
    OutputRowOf(exp, s, q', k', v', b, h, p);
  }

  lemma Finished(s: Shape, out: Vec, expected: Tensor)
    requires |out| == Size(s.batch, s.queryHeads, s.queryLen, s.headDim)
    requires IsTensor(expected, s.batch, s.queryHeads, s.queryLen, s.headDim)
    requires Progress(s, out, expected, RowIndex(s.queryHeads, s.queryLen, s.batch, 0, 0))
    ensures Nest(out, s.batch, s.queryHeads, s.queryLen, s.headDim) == expected
  {
    var result := Nest(out, s.batch, s.queryHeads, s.queryLen, s.headDim);
    NestIsTensor(out, s.batch, s.queryHeads, s.queryLen, s.headDim);
    forall b, h, p | 0 <= b < s.batch && 0 <= h < s.queryHeads && 0 <= p < s.queryLen
      ensures RowOf(result, b, h, p) == RowOf(expected, b, h, p)
    {
      RowInBuffer(s.batch, s.queryHeads, s.queryLen, s.headDim, b, h, p);
      assert RowDone(s, out, expected, b, h, p);
    }
    SameRows(result, expected, s.batch, s.queryHeads, s.queryLen, s.headDim);
  }

  lemma NextHead(heads: nat, len: nat, b: nat, h: nat)
    ensures RowIndex(heads, len, b, h, len) == RowIndex(heads, len, b, h + 1, 0)
  {
    assert (b * heads + h + 1) * len == (b * heads + h) * len + len;
  }

  lemma NextBatch(heads: nat, len: nat, b: nat)
    ensures RowIndex(heads, len, b, heads, 0) == RowIndex(heads, len, b + 1, 0, 0)
  {
    assert (b + 1) * heads == b * heads + heads;
  }

  /** The body of the query loop at one (batch, head, position): locate the rows, then
      attend. `expected` is the specified row. */
  method AttendAt(exp: real -> real, s: Shape, q: Vec, k: Vec, v: Vec, scores: array<real>, output: array<real>,
                  b: nat, h: nat, kvHead: nat, p: nat, ghost row: nat, ghost kvRow: nat, ghost expected: Vec)
                    returns (failed: bool)
    requires IsExp(exp) && s.Valid() && scores != output && p < s.queryLen
    requires row == RowIndex(s.queryHeads, s.queryLen, b, h, p) && kvRow == RowIndex(s.kvHeads, s.kvLen, b, kvHead, 0)
    requires IsQueryRow(exp, s, q, k, v, row, kvRow, p, expected)
    requires output.Length == |q| && scores.Length == s.kvLen
    requires forall i :: row * s.headDim <= i < output.Length ==> output[i] == 0.0
    modifies scores, output
    ensures !failed
    ensures RowReplaced(old(output[..]), output[..], row * s.headDim, s.headDim, expected)
  {
    var causalBase := if s.kvLen < s.queryLen then 0 else s.kvLen - s.queryLen;
    var maxKey := if s.causal then causalBase + p else s.kvLen - 1;
    var qBase := RowIndex(s.queryHeads, s.queryLen, b, h, p) * s.headDim;
    var kvBase := RowIndex(s.kvHeads, s.kvLen, b, kvHead, 0);
    failed := AttendQuery(exp, q, k, v, qBase, kvBase, s.headDim, s.scale, maxKey + 1, scores, output);
  }

  /** One turn of the query loop extends the finished rows by one. */
  method AttendNext(exp: real -> real, s: Shape, q: Vec, k: Vec, v: Vec, scores: array<real>, output: array<real>,
                    b: nat, h: nat, kvHead: nat, p: nat, ghost expected: Tensor) returns (failed: bool)
    requires IsExp(exp) && s.Valid() && scores != output && scores.Length == s.kvLen
    requires output.Length == |q| == Size(s.batch, s.queryHeads, s.queryLen, s.headDim)
    requires b < s.batch && h < s.queryHeads && p < s.queryLen
    requires IsQueryRow(exp, s, q, k, v, RowIndex(s.queryHeads, s.queryLen, b, h, p),
                        RowIndex(s.kvHeads, s.kvLen, b, kvHead, 0),
                        p, RowOf(expected, b, h, p))
    requires Progress(s, output[..], expected, RowIndex(s.queryHeads, s.queryLen, b, h, p))
    modifies scores, output
    ensures !failed
    ensures Progress(s, output[..], expected, RowIndex(s.queryHeads, s.queryLen, b, h, p + 1))
  {
    ghost var before := output[..];
    ghost var row, kvRow := RowIndex(s.queryHeads, s.queryLen, b, h, p), RowIndex(s.kvHeads, s.kvLen, b, kvHead, 0);
    ZeroTail(s, before, expected, row);
    failed := AttendAt(exp, s, q, k, v, scores, output, b, h, kvHead, p, row, kvRow, RowOf(expected, b, h, p));
    ProgressStep(s, before, output[..], expected, b, h, p);
  }

  // In terms of the flat buffers alone ---------------------------------------------------------

  lemma {:induction false} DotIsFlat(q: Vec, k: Vec, i: nat, j: nat, dim: nat, n: nat)
    requires i + dim <= |q| && j + dim <= |k| && n <= dim
    ensures Dot(Slice(q, i, dim), Slice(k, j, dim), n) == FlatDot(q, k, i, j, n)
  {
    if n == 0 {
    } else {
      DotIsFlat(q, k, i, j, dim, n - 1);
      assert El(q, i + (n - 1)) == Slice(q, i, dim)[n - 1] && El(k, j + (n - 1)) == Slice(k, j, dim)[n - 1];
    }
  }

  /** Row `row` of q and rows `first .. first + n` of k and v lie inside their buffers. */
  predicate RowsInside(q: Vec, k: Vec, v: Vec, dim: nat, row: nat, first: nat, n: nat) {
    && 0 <= row * dim && row * dim + dim <= |q|
    && 0 <= (first + n) * dim <= |k| == |v|
  }

  function FlatScores(q: Vec, k: Vec, v: Vec, scale: real, dim: nat, row: nat, first: nat, n: nat): (scores: Vec)
    requires RowsInside(q, k, v, dim, row, first, n)
    ensures |scores| == n
  {
    Scores(scale, Slice(q, row * dim, dim), FlatRows(k, dim, first, n))
  }

  lemma SameProduct(a: real, b: real, c: real)
    requires a == b
    ensures a * c == b * c
  {}

  lemma RowOfRows(k: Vec, dim: nat, first: nat, n: nat, j: nat)
    requires 0 <= (first + n) * dim <= |k| && j < n
    ensures 0 <= RowStart(first + j, dim) && RowStart(first + j, dim) + dim <= |k|
    ensures FlatRows(k, dim, first, n)[j] == Slice(k, RowStart(first + j, dim), dim)
  {
    assert FlatRows(k, dim, first, n)[j] == FlatRowIn(k, dim, first, n, j);
  }

  lemma ScoreIsFlat(q: Vec, k: Vec, v: Vec, scale: real, dim: nat, row: nat, first: nat, n: nat, j: nat)
    requires RowsInside(q, k, v, dim, row, first, n) && j < n
    ensures FlatScores(q, k, v, scale, dim, row, first, n)[j] == FlatScore(q, k, scale, dim, row, first + j)
  {
    RowOfRows(k, dim, first, n, j);
    ScoreOf(q, k, scale, dim, RowStart(row, dim), RowStart(first + j, dim), FlatRows(k, dim, first, n), j);
  }

  lemma ScoreOf(q: Vec, k: Vec, scale: real, dim: nat, i: nat, o: nat, keys: seq<Vec>, j: nat)
    requires i + dim <= |q| && o + dim <= |k| && Uniform(keys, dim) && j < |keys| && keys[j] == Slice(k, o, dim)
    ensures Scores(scale, Slice(q, i, dim), keys)[j] == FlatDot(q, k, i, o, dim) * scale
  {
    DotIsFlat(q, k, i, o, dim, dim);
    SameProduct(Dot(Slice(q, i, dim), keys[j], dim), FlatDot(q, k, i, o, dim), scale);
  }

  lemma {:induction false} TotalIsFlat(exp: real -> real, q: Vec, k: Vec, v: Vec, scale: real, dim: nat,
                                       row: nat, first: nat, n: nat, m: nat)
    requires RowsInside(q, k, v, dim, row, first, n) && m <= n
    ensures ExpSum(exp, FlatScores(q, k, v, scale, dim, row, first, n), 0.0, m)
        == FlatTotal(exp, q, k, scale, dim, row, first, m)
  {
    if m == 0 {
    } else {
      TotalIsFlat(exp, q, k, v, scale, dim, row, first, n, m - 1);
      ScoreIsFlat(q, k, v, scale, dim, row, first, n, m - 1);
      var score := FlatScores(q, k, v, scale, dim, row, first, n)[m - 1];
      assert score - 0.0 == score;
    }
  }

  lemma ValueIsFlat(v: Vec, dim: nat, first: nat, n: nat, j: nat, x: nat)
    requires 0 <= (first + n) * dim <= |v| && j < n && x < dim
    ensures FlatRows(v, dim, first, n)[j][x] == El(v, RowStart(first + j, dim) + x)
  {
    RowOfRows(v, dim, first, n, j);
  }

  function Exps(exp: real -> real, scores: Vec): (es: Vec)
    ensures |es| == |scores|
  {
    seq(|scores|, j requires 0 <= j < |scores| => exp(scores[j]))
  }

  lemma TermIsFlat(exp: real -> real, q: Vec, k: Vec, v: Vec, scale: real, dim: nat,
                   row: nat, first: nat, n: nat, j: nat, x: nat)
    requires RowsInside(q, k, v, dim, row, first, n) && j < n && x < dim
    ensures FlatTerm(exp, q, k, v, scale, dim, row, first + j, x)
        == Exps(exp, FlatScores(q, k, v, scale, dim, row, first, n))[j] * FlatRows(v, dim, first, n)[j][x]
  {
    ScoreIsFlat(q, k, v, scale, dim, row, first, n, j);
    ValueIsFlat(v, dim, first, n, j, x);
    SameProduct(exp(FlatScore(q, k, scale, dim, row, first + j)),
                Exps(exp, FlatScores(q, k, v, scale, dim, row, first, n))[j], FlatRows(v, dim, first, n)[j][x]);
  }

  lemma QuotientStep(sum: real, e: real, y: real, total: real, mixed: real, w: real)
    requires IsQuotient(mixed, sum, total) && IsQuotient(w, e, total)
    ensures IsQuotient(mixed + w * y, sum + e * y, total)
  {
    assert sum / total + (e / total) * y == (sum + e * y) / total;
    SameProduct(w, e / total, y);
  }

  /** Dividing the weights divides the mix. */
  lemma {:induction false} MixIsQuotient(weights: Vec, es: Vec, values: seq<Vec>, dim: nat, x: nat, m: nat, total: real)
    requires m <= |weights| == |es| && m <= |values| && x < dim && Uniform(values, dim) && total > 0.0
    requires forall j :: 0 <= j < |es| ==> IsQuotient(weights[j], es[j], total)
    ensures IsQuotient(Mix(weights, values, dim, x, m), Mix(es, values, dim, x, m), total)
  {
    if m == 0 {
    } else {
      MixIsQuotient(weights, es, values, dim, x, m - 1, total);
      QuotientStep(Mix(es, values, dim, x, m - 1), es[m - 1], values[m - 1][x], total,
                   Mix(weights, values, dim, x, m - 1), weights[m - 1]);
    }
  }

  /** Term j of a mix is the flat term of its key. */
  predicate TermAgrees(exp: real -> real, q: Vec, k: Vec, v: Vec, scale: real, dim: nat,
                       row: nat, first: nat, x: nat, es: Vec, values: seq<Vec>, j: nat)
    requires j < |es| && j < |values| && x < dim && Uniform(values, dim)
  {
    FlatTerm(exp, q, k, v, scale, dim, row, first + j, x) == es[j] * values[j][x]
  }

  lemma {:induction false} MixIsFlat(exp: real -> real, q: Vec, k: Vec, v: Vec, scale: real, dim: nat,
                                     row: nat, first: nat, x: nat, es: Vec, values: seq<Vec>, m: nat)
    requires m <= |es| == |values| && x < dim && Uniform(values, dim)
    requires forall j :: 0 <= j < |es| ==> TermAgrees(exp, q, k, v, scale, dim, row, first, x, es, values, j)
    ensures Mix(es, values, dim, x, m) == FlatMix(exp, q, k, v, scale, dim, row, first, x, m)
  {
    if m == 0 {
    } else {
      MixIsFlat(exp, q, k, v, scale, dim, row, first, x, es, values, m - 1);
      assert TermAgrees(exp, q, k, v, scale, dim, row, first, x, es, values, m - 1);
    }
  }

  lemma WeightsAreQuotients(exp: real -> real, scores: Vec)
    requires IsExp(exp) && scores != []
    ensures var total := ExpSum(exp, scores, 0.0, |scores|);
      && total > 0.0
      && forall j :: 0 <= j < |scores| ==> IsQuotient(Weights(exp, scores)[j], Exps(exp, scores)[j], total)
  {
    ExpSumPositive(exp, scores, 0.0, |scores|);
  }

  /** Attention of a query row is the quotient of the two flat sums. */
  lemma AttendIsFlat(exp: real -> real, q: Vec, k: Vec, v: Vec, scale: real, dim: nat,
                     row: nat, first: nat, n: nat, x: nat)
    requires IsExp(exp) && RowsInside(q, k, v, dim, row, first, n) && 0 < n && x < dim
    ensures IsQuotient(
      Attend(exp, scale, Slice(q, row * dim, dim), FlatRows(k, dim, first, n), FlatRows(v, dim, first, n))[x],
      FlatMix(exp, q, k, v, scale, dim, row, first, x, n), FlatTotal(exp, q, k, scale, dim, row, first, n))
  {
    var scores := FlatScores(q, k, v, scale, dim, row, first, n);
    WeightsAreQuotients(exp, scores);
    TotalIsFlat(exp, q, k, v, scale, dim, row, first, n, n);
    var es, values := Exps(exp, scores), FlatRows(v, dim, first, n);
    forall j | 0 <= j < n ensures TermAgrees(exp, q, k, v, scale, dim, row, first, x, es, values, j) {
      TermIsFlat(exp, q, k, v, scale, dim, row, first, n, j, x);
    }
    MixIsFlat(exp, q, k, v, scale, dim, row, first, x, es, values, n);
    MixIsQuotient(Weights(exp, scores), es, values, dim, x, n, ExpSum(exp, scores, 0.0, n));
  }

  lemma QueryRowIsFlat(exp: real -> real, s: Shape, q: Vec, k: Vec, v: Vec,
                       row: nat, first: nat, p: nat, expected: Vec, x: nat)
    requires IsExp(exp) && s.Valid() && p < s.queryLen && x < s.headDim
    requires IsQueryRow(exp, s, q, k, v, row, first, p, expected)
    ensures |expected| == s.headDim
    ensures IsQuotient(expected[x], FlatMix(exp, q, k, v, s.scale, s.headDim, row, first, x, s.Visible(p)),
                       FlatTotal(exp, q, k, s.scale, s.headDim, row, first, s.Visible(p)))
  {
    AttendIsFlat(exp, q, k, v, s.scale, s.headDim, row, first, s.Visible(p), x);
  }

  lemma RowIsFlat(exp: real -> real, s: Shape, q: Vec, k: Vec, v: Vec, b: nat, h: nat, p: nat, x: nat)
    requires IsExp(exp) && Buffers(s, q, k, v)
    requires b < s.batch && h < s.queryHeads && p < s.queryLen && x < s.headDim
    ensures |RowOf(Expected(exp, s, q, k, v), b, h, p)| == s.headDim
    ensures var row := RowIndex(s.queryHeads, s.queryLen, b, h, p);
      var first := RowIndex(s.kvHeads, s.kvLen, b, s.KvHead(h), 0);
      IsQuotient(RowOf(Expected(exp, s, q, k, v), b, h, p)[x],
                 FlatMix(exp, q, k, v, s.scale, s.headDim, row, first, x, s.Visible(p)),
                 FlatTotal(exp, q, k, s.scale, s.headDim, row, first, s.Visible(p)))
  {
    QueryRowIsExpected(exp, s, q, k, v, b, h, p);
    QueryRowIsFlat(exp, s, q, k, v, RowIndex(s.queryHeads, s.queryLen, b, h, p),
                   RowIndex(s.kvHeads, s.kvLen, b, s.KvHead(h), 0), p, RowOf(Expected(exp, s, q, k, v), b, h, p), x);
  }

  lemma RowNames(c: AttentionControl, b: nat, g: nat, r: nat, p: nat, h: nat)
    requires c.kvHeads > 0 && ShapeOf(c).Valid() && p < c.queryLen && h == g * (c.queryHeads / c.kvHeads) + r
    ensures QueryRow(c, b, g, r, p) == RowIndex(c.queryHeads, c.queryLen, b, h, p)
    ensures FirstKey(c, b, g) == RowIndex(c.kvHeads, c.kvLen, b, g, 0)
    ensures VisibleKeys(c, p) == ShapeOf(c).Visible(p)
  {}

  /** Where an expected row lies in the buffer. */
  lemma RowInOutput(s: Shape, out: Vec, expected: Tensor, b: nat, h: nat, p: nat, x: nat)
    requires |out| == Size(s.batch, s.queryHeads, s.queryLen, s.headDim)
    requires Nest(out, s.batch, s.queryHeads, s.queryLen, s.headDim) == expected
    requires b < s.batch && h < s.queryHeads && p < s.queryLen && x < s.headDim
    ensures var at := RowStart(RowIndex(s.queryHeads, s.queryLen, b, h, p), s.headDim) + x;
      && |RowOf(expected, b, h, p)| == s.headDim
      && 0 <= at < |out| && out[at] == RowOf(expected, b, h, p)[x]
  {
    NestIsTensor(out, s.batch, s.queryHeads, s.queryLen, s.headDim);
    NestAt(out, s.batch, s.queryHeads, s.queryLen, s.headDim, b, h, p, x);
  }

  lemma AttendedFrom(exp: real -> real, c: AttentionControl, q: Vec, k: Vec, v: Vec,
                     out: Vec, b: nat, g: nat, r: nat, p: nat, x: nat, row: nat, first: nat, visible: nat)
    requires c.kvHeads > 0
    requires row == QueryRow(c, b, g, r, p) && first == FirstKey(c, b, g) && visible == VisibleKeys(c, p)
    requires 0 <= RowStart(row, c.headDim) + x < |out|
    requires var scale := Float32.Value(c.scale);
      IsQuotient(out[RowStart(row, c.headDim) + x],
                 FlatMix(exp, q, k, v, scale, c.headDim, row, first, x, visible),
                 FlatTotal(exp, q, k, scale, c.headDim, row, first, visible))
    ensures IsAttended(exp, c, q, k, v, out, b, g, r, p, x)
  {}

  lemma RowIsAttended(exp: real -> real, c: AttentionControl, q: Vec, k: Vec, v: Vec,
                      out: Vec, b: nat, g: nat, r: nat, p: nat, x: nat, expected: Tensor)
    requires IsExp(exp) && c.kvHeads > 0 && Buffers(ShapeOf(c), q, k, v) && |out| == |q|
    requires Nest(out, c.batch, c.queryHeads, c.queryLen, c.headDim) == expected == Expected(exp, ShapeOf(c), q, k, v)
    requires b < c.batch && g < c.kvHeads && r < c.queryHeads / c.kvHeads && p < c.queryLen && x < c.headDim
    ensures IsAttended(exp, c, q, k, v, out, b, g, r, p, x)
  {
    var s := ShapeOf(c);
    GroupOf(s, g, r);
    var h: nat := g * (c.queryHeads / c.kvHeads) + r;
    RowNames(c, b, g, r, p, h);
    RowIsFlat(exp, s, q, k, v, b, h, p, x);
    RowInOutput(s, out, expected, b, h, p, x);
    AttendedFrom(exp, c, q, k, v, out, b, g, r, p, x, RowIndex(c.queryHeads, c.queryLen, b, h, p),
                 RowIndex(c.kvHeads, c.kvLen, b, g, 0), s.Visible(p));
  }

  /** A buffer that holds the expected tensor holds attention, coordinate by coordinate. */
  lemma ExpectedIsAttention(exp: real -> real, c: AttentionControl, q: Vec, k: Vec, v: Vec, out: Vec)
    requires IsExp(exp) && c.kvHeads > 0 && Buffers(ShapeOf(c), q, k, v) && |out| == |q|
    requires Nest(out, c.batch, c.queryHeads, c.queryLen, c.headDim) == Expected(exp, ShapeOf(c), q, k, v)
    ensures IsAttention(exp, c, q, k, v, out)
  {
    forall b: nat, g: nat, r: nat, p: nat, x: nat
      | b < c.batch && g < c.kvHeads && r < c.queryHeads / c.kvHeads && p < c.queryLen && x < c.headDim
      ensures IsAttended(exp, c, q, k, v, out, b, g, r, p, x)
    {
      RowIsAttended(exp, c, q, k, v, out, b, g, r, p, x, Expected(exp, ShapeOf(c), q, k, v));
    }
  }

  /** The whole run. It fails exactly when a check fails, never numerically, and the
      buffer it returns holds textbook attention over the visible keys. */
  method ExecuteAttentionF32(exp: real -> real, control: AttentionControl,
                             q: Vec, k: Vec, v: Vec, limits: AttentionLimits)
    returns (result: Result<array<real>, ReferenceAttentionError>)
    requires IsExp(exp)
    ensures result.Err? <==> CheckRequest(control, |q|, |k|, |v|, limits).Err?
    ensures result.Err? ==>
      result.error == CheckRequest(control, |q|, |k|, |v|, limits).error && !result.error.NumericalFailure?
    ensures result.Ok? ==>
      var s := ShapeOf(control);
      && fresh(result.value)
      && Buffers(s, q, k, v)
      && result.value.Length == |q|
      && Nest(result.value[..], s.batch, s.queryHeads, s.queryLen, s.headDim) == Expected(exp, s, q, k, v)
    ensures result.Ok? ==> control.kvHeads > 0 && IsAttention(exp, control, q, k, v, result.value[..])
  {
    var check := CheckRequest(control, |q|, |k|, |v|, limits);
    if check.Err? {
      return Err(check.error);
    }
    CheckedExactly(control, |q|, |k|, |v|, limits);
    CheckedShape(control);
    var s := ShapeOf(control);
    var output := new real[|q|](_ => 0.0);
    var scores := new real[s.kvLen](_ => 0.0);
    var failed := RunRows(exp, s, q, k, v, scores, output);
    if failed {
      return Err(NumericalFailure);
    }
    ExpectedIsAttention(exp, control, q, k, v, output[..]);
    return Ok(output);
  }

  method RunRows(exp: real -> real, s: Shape, q: Vec, k: Vec, v: Vec, scores: array<real>, output: array<real>)
    returns (failed: bool)
    requires IsExp(exp) && Buffers(s, q, k, v) && scores != output
    requires scores.Length == s.kvLen && output.Length == |q| && forall i :: 0 <= i < output.Length ==> output[i] == 0.0
    modifies scores, output
    ensures !failed
    ensures Nest(output[..], s.batch, s.queryHeads, s.queryLen, s.headDim) == Expected(exp, s, q, k, v)
  {
    ghost var expected := Expected(exp, s, q, k, v);
    for b := 0 to s.batch
      invariant Progress(s, output[..], expected, RowIndex(s.queryHeads, s.queryLen, b, 0, 0))
    {
      var broken := RunBatch(exp, s, q, k, v, scores, output, b, expected);
      if broken {
        return true;
      }
    }
    Finished(s, output[..], expected);
    return false;
  }

  /** The head loop of one batch entry. */
  method RunBatch(exp: real -> real, s: Shape, q: Vec, k: Vec, v: Vec, scores: array<real>,
                  output: array<real>, b: nat, ghost expected: Tensor) returns (failed: bool)
    requires IsExp(exp) && Buffers(s, q, k, v) && scores != output && expected == Expected(exp, s, q, k, v)
    requires scores.Length == s.kvLen && output.Length == |q| && b < s.batch
    requires Progress(s, output[..], expected, RowIndex(s.queryHeads, s.queryLen, b, 0, 0))
    modifies scores, output
    ensures !failed
    ensures Progress(s, output[..], expected, RowIndex(s.queryHeads, s.queryLen, b + 1, 0, 0))
  {
    for h := 0 to s.queryHeads
      invariant Progress(s, output[..], expected, RowIndex(s.queryHeads, s.queryLen, b, h, 0))
    {
      var broken := RunHead(exp, s, q, k, v, scores, output, b, h, s.KvHead(h), expected);
      if broken {
        return true;
      }
    }
    NextBatch(s.queryHeads, s.queryLen, b);
    return false;
  }

  /** The query loop of one head. */
  method RunHead(exp: real -> real, s: Shape, q: Vec, k: Vec, v: Vec, scores: array<real>, output: array<real>,
                 b: nat, h: nat, kvHead: nat, ghost expected: Tensor) returns (failed: bool)
    requires IsExp(exp) && Buffers(s, q, k, v) && scores != output && expected == Expected(exp, s, q, k, v)
    requires scores.Length == s.kvLen && output.Length == |q|
    requires b < s.batch && h < s.queryHeads && kvHead == s.KvHead(h)
    requires Progress(s, output[..], expected, RowIndex(s.queryHeads, s.queryLen, b, h, 0))
    modifies scores, output
    ensures !failed
    ensures Progress(s, output[..], expected, RowIndex(s.queryHeads, s.queryLen, b, h + 1, 0))
  {
    for p := 0 to s.queryLen
      invariant Progress(s, output[..], expected, RowIndex(s.queryHeads, s.queryLen, b, h, p))
    {
      QueryRowIsExpected(exp, s, q, k, v, b, h, p);
      var broken := AttendNext(exp, s, q, k, v, scores, output, b, h, kvHead, p, expected);
      if broken {
        return true;
      }
    }
    NextHead(s.queryHeads, s.queryLen, b, h);
    return false;
  }
}
