/** Softmax attention of one query over its visible keys, over the real numbers.

    The exponential is a parameter: any positive function with exp(0) = 1 that turns
    sums into products. */
module Softmax {

  type Vec = seq<real>

  predicate TurnsSumIntoProduct(exp: real -> real, x: real, y: real) {
    exp(x + y) == exp(x) * exp(y)
  }

  ghost predicate IsExp(exp: real -> real) {
    && (forall x :: exp(x) > 0.0)
    && exp(0.0) == 1.0
    && (forall x, y :: TurnsSumIntoProduct(exp, x, y))
  }

  function Dot(x: Vec, y: Vec, n: nat): real
    requires n <= |x| && n <= |y|
  {
    if n == 0 then 0.0 else Dot(x, y, n - 1) + x[n - 1] * y[n - 1]
  }

  predicate Uniform(rows: seq<Vec>, dim: nat) {
    forall r :: 0 <= r < |rows| ==> |rows[r]| == dim
  }

  function Scores(scale: real, query: Vec, keys: seq<Vec>): (scores: Vec)
    requires Uniform(keys, |query|)
    ensures |scores| == |keys|
  {
    seq(|keys|, j requires 0 <= j < |keys| => Dot(query, keys[j], |query|) * scale)
  }

  /** The sum of exp(score - shift) over the first n scores. */
  function ExpSum(exp: real -> real, scores: Vec, shift: real, n: nat): real
    requires n <= |scores|
  {
    if n == 0 then 0.0 else ExpSum(exp, scores, shift, n - 1) + exp(scores[n - 1] - shift)
  }

  lemma {:induction false} ExpSumPositive(exp: real -> real, scores: Vec, shift: real, n: nat)
    requires IsExp(exp) && n <= |scores|
    ensures n > 0 ==> ExpSum(exp, scores, shift, n) > 0.0
    ensures forall j :: 0 <= j < n ==> ExpSum(exp, scores, shift, n) >= exp(scores[j] - shift)
  {
    if n == 0 {
    } else {
      ExpSumPositive(exp, scores, shift, n - 1);
      assert exp(scores[n - 1] - shift) > 0.0;
    }
  }

  /** The textbook softmax: exp(score) over the sum of all exp(score). */
  ghost function Weights(exp: real -> real, scores: Vec): (weights: Vec)
    requires IsExp(exp)
    ensures |weights| == |scores|
  {
    if scores == [] then []
    else
      ExpSumPositive(exp, scores, 0.0, |scores|);
      seq(|scores|, j requires 0 <= j < |scores| => exp(scores[j]) / ExpSum(exp, scores, 0.0, |scores|))
  }

  /** The weighted sum of one coordinate of the first n values. */
  function Mix(weights: Vec, values: seq<Vec>, dim: nat, d: nat, n: nat): real
    requires n <= |weights| && n <= |values| && d < dim && Uniform(values, dim)
  {
    if n == 0 then 0.0 else Mix(weights, values, dim, d, n - 1) + weights[n - 1] * values[n - 1][d]
  }

  /** The weighted sum of the first n values. */
  function MixRow(weights: Vec, values: seq<Vec>, dim: nat, n: nat): (row: Vec)
    requires n <= |weights| && n <= |values| && Uniform(values, dim)
    ensures |row| == dim
  {
    seq(dim, d requires 0 <= d < dim => Mix(weights, values, dim, d, n))
  }

  /** Scaled dot-product attention of one query. */
  ghost function Attend(exp: real -> real, scale: real, query: Vec, keys: seq<Vec>, values: seq<Vec>): (out: Vec)
    requires IsExp(exp)
    requires |keys| == |values| && Uniform(keys, |query|) && Uniform(values, |query|)
    ensures |out| == |query|
  {
    MixRow(Weights(exp, Scores(scale, query, keys)), values, |query|, |values|)
  }

  // Why the shifted form is the textbook one ---------------------------------------

  lemma {:induction false} ExpSumShift(exp: real -> real, scores: Vec, shift: real, n: nat)
    requires IsExp(exp) && n <= |scores|
    ensures ExpSum(exp, scores, 0.0, n) == exp(shift) * ExpSum(exp, scores, shift, n)
  {
    if n == 0 {
    } else {
      ExpSumShift(exp, scores, shift, n - 1);
      ExpShift(exp, scores[n - 1], shift);
      assert scores[n - 1] - 0.0 == scores[n - 1];
      Distribute(exp(shift), ExpSum(exp, scores, shift, n - 1), exp(scores[n - 1] - shift));
    }
  }

  lemma ExpShift(exp: real -> real, score: real, shift: real)
    requires IsExp(exp)
    ensures exp(score) == exp(shift) * exp(score - shift)
  {
    assert TurnsSumIntoProduct(exp, shift, score - shift);
    assert shift + (score - shift) == score;
  }

  lemma Distribute(a: real, b: real, c: real)
    ensures a * (b + c) == a * b + a * c
  {}

  lemma CancelFactor(a: real, b: real, c: real)
    requires a != 0.0 && c != 0.0
    ensures a * c != 0.0 && (a * b) / (a * c) == b / c
  {
    var q := b / c;
    assert q * c == b;
    assert a * b == q * (a * c);
    QuotientOf(a * b, a * c, q);
  }

  lemma QuotientOf(x: real, y: real, q: real)
    requires y != 0.0 && x == q * y
    ensures x / y == q
  {}

  /** Subtracting any constant from every score leaves the weights unchanged, and
      subtracting one of the scores makes the denominator at least 1. */
  lemma ShiftedWeights(exp: real -> real, scores: Vec, shift: real)
    requires IsExp(exp) && scores != []
    ensures ExpSum(exp, scores, shift, |scores|) > 0.0
    ensures shift in scores ==> ExpSum(exp, scores, shift, |scores|) >= 1.0
    ensures forall j :: 0 <= j < |scores| ==>
      Weights(exp, scores)[j] == exp(scores[j] - shift) / ExpSum(exp, scores, shift, |scores|)
  {
    ExpSumPositive(exp, scores, shift, |scores|);
    if shift in scores {
      var j :| 0 <= j < |scores| && scores[j] == shift;
      assert exp(scores[j] - shift) == 1.0;
    }
    forall j | 0 <= j < |scores|
      ensures Weights(exp, scores)[j] == exp(scores[j] - shift) / ExpSum(exp, scores, shift, |scores|)
    {
      ShiftedWeight(exp, scores, shift, j);
    }
  }

  lemma ShiftedWeight(exp: real -> real, scores: Vec, shift: real, j: nat)
    requires IsExp(exp) && j < |scores|
    ensures ExpSum(exp, scores, shift, |scores|) > 0.0
    ensures Weights(exp, scores)[j] == exp(scores[j] - shift) / ExpSum(exp, scores, shift, |scores|)
  {
    ExpSumPositive(exp, scores, shift, |scores|);
    ExpSumShift(exp, scores, shift, |scores|);
    ExpShift(exp, scores[j], shift);
    CancelFactor(exp(shift), exp(scores[j] - shift), ExpSum(exp, scores, shift, |scores|));
  }

  // What the weights do --------------------------------------------------------------

  function SumOf(weights: Vec, n: nat): real
    requires n <= |weights|
  {
    if n == 0 then 0.0 else SumOf(weights, n - 1) + weights[n - 1]
  }

  /** Softmax weights are positive and sum to 1. */
  lemma WeightsAreConvex(exp: real -> real, scores: Vec)
    requires IsExp(exp) && scores != []
    ensures forall j :: 0 <= j < |scores| ==> Weights(exp, scores)[j] > 0.0
    ensures SumOf(Weights(exp, scores), |scores|) == 1.0
  {
    ExpSumPositive(exp, scores, 0.0, |scores|);
    var total := ExpSum(exp, scores, 0.0, |scores|);
    forall j | 0 <= j < |scores| ensures Weights(exp, scores)[j] > 0.0 {
      PositiveQuotient(exp(scores[j]), total);
    }
    PartialWeights(exp, scores, |scores|);
    QuotientOf(total, total, 1.0);
  }

  lemma PositiveQuotient(a: real, b: real)
    requires a > 0.0 && b > 0.0
    ensures a / b > 0.0
  {}

  lemma {:induction false} PartialWeights(exp: real -> real, scores: Vec, n: nat)
    requires IsExp(exp) && scores != [] && n <= |scores|
    ensures ExpSum(exp, scores, 0.0, |scores|) > 0.0
    ensures SumOf(Weights(exp, scores), n) == ExpSum(exp, scores, 0.0, n) / ExpSum(exp, scores, 0.0, |scores|)
  {
    ExpSumPositive(exp, scores, 0.0, |scores|);
    if n == 0 {
    } else {
      PartialWeights(exp, scores, n - 1);
      assert scores[n - 1] - 0.0 == scores[n - 1];
      AddQuotients(ExpSum(exp, scores, 0.0, n - 1), exp(scores[n - 1]), ExpSum(exp, scores, 0.0, |scores|));
    }
  }

  lemma AddQuotients(a: real, b: real, c: real)
    requires c != 0.0
    ensures a / c + b / c == (a + b) / c
  {}

  lemma {:induction false} MixBetween(weights: Vec, values: seq<Vec>, dim: nat, d: nat, n: nat, lo: real, hi: real)
    requires n <= |weights| && n <= |values| && d < dim && Uniform(values, dim)
    requires forall j :: 0 <= j < n ==> weights[j] > 0.0 && lo <= values[j][d] <= hi
    ensures Between(lo, hi, SumOf(weights, n), Mix(weights, values, dim, d, n))
  {
    if n == 0 {
    } else {
      MixBetween(weights, values, dim, d, n - 1, lo, hi);
      var w, x := weights[n - 1], values[n - 1][d];
      ScaleBetween(w, x, lo, hi);
      AddBetween(lo, hi, SumOf(weights, n - 1), Mix(weights, values, dim, d, n - 1), w, w * x);
    }
  }

  /** A weighted sum lies between its bounds times the total weight. */
  predicate Between(lo: real, hi: real, weight: real, mixed: real) {
    lo * weight <= mixed <= hi * weight
  }

  lemma ScaleBetween(w: real, x: real, lo: real, hi: real)
    requires w > 0.0 && lo <= x <= hi
    ensures Between(lo, hi, w, w * x)
  {}

  lemma AddBetween(lo: real, hi: real, weight: real, mixed: real, w: real, more: real)
    requires Between(lo, hi, weight, mixed) && Between(lo, hi, w, more)
    ensures Between(lo, hi, weight + w, mixed + more)
  {
    Distribute(lo, weight, w);
    Distribute(hi, weight, w);
  }

  /** Every output coordinate lies between any bounds on the visible values there. */
  lemma AttendIsConvex(exp: real -> real, scale: real, query: Vec, keys: seq<Vec>,
                       values: seq<Vec>, d: nat, lo: real, hi: real)
    requires IsExp(exp)
    requires |keys| == |values| > 0 && Uniform(keys, |query|) && Uniform(values, |query|) && d < |query|
    requires forall j :: 0 <= j < |values| ==> lo <= values[j][d] <= hi
    ensures lo <= Attend(exp, scale, query, keys, values)[d] <= hi
  {
    var scores := Scores(scale, query, keys);
    WeightsAreConvex(exp, scores);
    MixBetween(Weights(exp, scores), values, |query|, d, |values|, lo, hi);
  }
}

/** Attention over whole tensors, indexed by batch, head, position and coordinate,
    and the relations between runs of different shapes. */
module AttentionSpec {
  import opened Softmax
  import Indexing

  type Tensor = seq<seq<seq<Vec>>>

  datatype Shape = Shape(batch: nat, queryHeads: nat, kvHeads: nat, queryLen: nat, kvLen: nat, headDim: nat,
                         causal: bool, scale: real)
  {
    predicate Valid() {
      && batch > 0 && queryHeads > 0 && kvHeads > 0 && queryLen > 0 && kvLen > 0 && headDim > 0
      && queryHeads % kvHeads == 0
      && (causal ==> queryLen <= kvLen)
    }

    /** How many leading keys the query at position p may look at. */
    function Visible(p: nat): (n: nat)
      requires Valid() && p < queryLen
      ensures 0 < n <= kvLen
    {
      if causal then kvLen - queryLen + p + 1 else kvLen
    }

    /** Query heads share key/value heads in consecutive groups. */
    function KvHead(head: nat): (kvHead: nat)
      requires Valid() && head < queryHeads
      ensures kvHead < kvHeads
    {
      KvHeadInRange(queryHeads, kvHeads, head);
      head / (queryHeads / kvHeads)
    }
  }

  lemma KvHeadInRange(queryHeads: nat, kvHeads: nat, head: nat)
    requires kvHeads > 0 && queryHeads % kvHeads == 0 && head < queryHeads
    ensures 0 < queryHeads / kvHeads && head / (queryHeads / kvHeads) < kvHeads
  {
    var group := queryHeads / kvHeads;
    assert queryHeads == kvHeads * group;
    Indexing.GridEncode(head, kvHeads, group);
  }

  /** Query heads g * G up to (g + 1) * G share key and value head g, where G is the size of
      a group. */
  lemma GroupOf(s: Shape, g: nat, r: nat)
    requires s.Valid() && g < s.kvHeads && r < s.queryHeads / s.kvHeads
    ensures 0 <= g * (s.queryHeads / s.kvHeads) + r < s.queryHeads
    ensures s.KvHead(g * (s.queryHeads / s.kvHeads) + r) == g
  {
    var group := s.queryHeads / s.kvHeads;
    Indexing.InGrid(g, s.kvHeads, r, group);
    Indexing.GridDecode(g, r, group);
  }

  predicate IsTensor(x: Tensor, batch: nat, heads: nat, len: nat, dim: nat) {
    && |x| == batch
    && (forall b :: 0 <= b < batch ==> |x[b]| == heads)
    && (forall b, h :: 0 <= b < batch && 0 <= h < heads ==> IsHead(x, b, h, len, dim))
  }

  predicate IsHead(x: Tensor, b: nat, h: nat, len: nat, dim: nat)
    requires b < |x| && h < |x[b]|
  {
    |x[b][h]| == len && Uniform(x[b][h], dim)
  }

  predicate Inputs(s: Shape, q: Tensor, k: Tensor, v: Tensor) {
    && s.Valid()
    && IsTensor(q, s.batch, s.queryHeads, s.queryLen, s.headDim)
    && IsTensor(k, s.batch, s.kvHeads, s.kvLen, s.headDim)
    && IsTensor(v, s.batch, s.kvHeads, s.kvLen, s.headDim)
  }

  ghost function OutputRow(exp: real -> real, s: Shape, q: Tensor, k: Tensor,
                           v: Tensor, b: nat, h: nat, p: nat): (row: Vec)
    requires IsExp(exp) && Inputs(s, q, k, v) && b < s.batch && h < s.queryHeads && p < s.queryLen
    ensures |row| == s.headDim
  {
    var (g, n) := (s.KvHead(h), s.Visible(p));
    assert IsHead(q, b, h, s.queryLen, s.headDim) && IsHead(k, b, g, s.kvLen, s.headDim)
        && IsHead(v, b, g, s.kvLen, s.headDim);
    Attend(exp, s.scale, q[b][h][p], k[b][g][..n], v[b][g][..n])
  }

  ghost function Output(exp: real -> real, s: Shape, q: Tensor, k: Tensor, v: Tensor): (out: Tensor)
    requires IsExp(exp) && Inputs(s, q, k, v)
    ensures IsTensor(out, s.batch, s.queryHeads, s.queryLen, s.headDim)
  {
    seq(s.batch, b requires 0 <= b < s.batch =>
      seq(s.queryHeads, h requires 0 <= h < s.queryHeads =>
        seq(s.queryLen, p requires 0 <= p < s.queryLen => OutputRow(exp, s, q, k, v, b, h, p))))
  }

  /** One row of a tensor; empty outside its bounds. */
  function RowOf(x: Tensor, b: nat, h: nat, p: nat): Vec {
    if b < |x| && h < |x[b]| && p < |x[b][h]| then x[b][h][p] else []
  }

  lemma OutputRowOf(exp: real -> real, s: Shape, q: Tensor, k: Tensor, v: Tensor, b: nat, h: nat, p: nat)
    requires IsExp(exp) && Inputs(s, q, k, v) && b < s.batch && h < s.queryHeads && p < s.queryLen
    ensures RowOf(Output(exp, s, q, k, v), b, h, p) == OutputRow(exp, s, q, k, v, b, h, p)
  {}

  /** Tensors are equal when all their rows are. */
  lemma SameRows(x: Tensor, y: Tensor, batch: nat, heads: nat, len: nat, dim: nat)
    requires IsTensor(x, batch, heads, len, dim) && IsTensor(y, batch, heads, len, dim)
    requires forall b, h, p ::
        0 <= b < batch && 0 <= h < heads && 0 <= p < len ==> RowOf(x, b, h, p) == RowOf(y, b, h, p)
    ensures x == y
  {
    forall b | 0 <= b < batch ensures x[b] == y[b] {
      forall h | 0 <= h < heads ensures x[b][h] == y[b][h] {
        assert IsHead(x, b, h, len, dim) && IsHead(y, b, h, len, dim);
        forall p | 0 <= p < len ensures x[b][h][p] == y[b][h][p] {
          assert RowOf(x, b, h, p) == RowOf(y, b, h, p);
        }
      }
    }
  }

  // Decode and prefill -------------------------------------------------------------------

  /** The rows `from .. from + count` of every head. */
  function Window(x: Tensor, from: nat, count: nat): (y: Tensor) {
    seq(|x|, b requires 0 <= b < |x| => seq(|x[b]|, h requires 0 <= h < |x[b]| => WindowOf(x[b][h], from, count)))
  }

  function WindowOf(rows: seq<Vec>, from: nat, count: nat): seq<Vec> {
    if from + count <= |rows| then rows[from..from + count] else []
  }

  lemma WindowIsTensor(x: Tensor, batch: nat, heads: nat, len: nat, dim: nat, from: nat, count: nat)
    requires IsTensor(x, batch, heads, len, dim) && from + count <= len
    ensures IsTensor(Window(x, from, count), batch, heads, count, dim)
  {
    var y := Window(x, from, count);
    forall b, h | 0 <= b < batch && 0 <= h < heads ensures IsHead(y, b, h, count, dim) {
      assert IsHead(x, b, h, len, dim);
    }
  }

  lemma WindowRowOf(x: Tensor, batch: nat, heads: nat, len: nat, dim: nat,
                    from: nat, count: nat, b: nat, h: nat, p: nat)
    requires IsTensor(x, batch, heads, len, dim) && from + count <= len && b < batch && h < heads && p < count
    ensures RowOf(Window(x, from, count), b, h, p) == RowOf(x, b, h, from + p)
  {
    assert IsHead(x, b, h, len, dim);
  }

  /** The shape of a run over `count` of the queries and the first `kvCount` keys. */
  function WindowShape(s: Shape, count: nat, kvCount: nat): Shape {
    s.(queryLen := count, kvLen := kvCount)
  }

  /** Which windows see the same keys: a causal run needs its last query to sit at the
      end of the key prefix; otherwise every key must stay. */
  predicate SameView(s: Shape, from: nat, count: nat, kvCount: nat) {
    && s.Valid()
    && 0 < count && from + count <= s.queryLen && 0 < kvCount <= s.kvLen
    && (if s.causal then kvCount + s.queryLen == s.kvLen + from + count else kvCount == s.kvLen)
  }

  lemma WindowedInputs(s: Shape, q: Tensor, k: Tensor, v: Tensor, from: nat, count: nat, kvCount: nat)
    requires Inputs(s, q, k, v) && SameView(s, from, count, kvCount)
    ensures Inputs(WindowShape(s, count, kvCount), Window(q, from, count), Window(k, 0, kvCount), Window(v, 0, kvCount))
  {
    WindowIsTensor(q, s.batch, s.queryHeads, s.queryLen, s.headDim, from, count);
    WindowIsTensor(k, s.batch, s.kvHeads, s.kvLen, s.headDim, 0, kvCount);
    WindowIsTensor(v, s.batch, s.kvHeads, s.kvLen, s.headDim, 0, kvCount);
  }

  /** Running a window of the queries of every head, against the keys that window can
      see, produces exactly the corresponding window of the full run. */
  lemma WindowedRun(exp: real -> real, s: Shape, q: Tensor, k: Tensor, v: Tensor, from: nat, count: nat, kvCount: nat)
    requires IsExp(exp) && Inputs(s, q, k, v) && SameView(s, from, count, kvCount)
    ensures var s' := WindowShape(s, count, kvCount);
      && Inputs(s', Window(q, from, count), Window(k, 0, kvCount), Window(v, 0, kvCount))
      && Output(exp, s', Window(q, from, count), Window(k, 0, kvCount), Window(v, 0, kvCount))
         == Window(Output(exp, s, q, k, v), from, count)
  {
    WindowedInputs(s, q, k, v, from, count, kvCount);
    var s' := WindowShape(s, count, kvCount);
    var q', k', v' := Window(q, from, count), Window(k, 0, kvCount), Window(v, 0, kvCount);
    var part, full := Output(exp, s', q', k', v'), Output(exp, s, q, k, v);
    WindowIsTensor(full, s.batch, s.queryHeads, s.queryLen, s.headDim, from, count);
    forall b, h, p | 0 <= b < s.batch && 0 <= h < s.queryHeads && 0 <= p < count
      ensures RowOf(part, b, h, p) == RowOf(Window(full, from, count), b, h, p)
    {
      WindowRowOf(full, s.batch, s.queryHeads, s.queryLen, s.headDim, from, count, b, h, p);
      OutputRowOf(exp, s, q, k, v, b, h, from + p);
      OutputRowOf(exp, s', q', k', v', b, h, p);
      WindowedRow(exp, s, q, k, v, from, count, kvCount, b, h, p);
    }
    SameRows(part, Window(full, from, count), s.batch, s.queryHeads, count, s.headDim);
  }

  lemma WindowedRow(exp: real -> real, s: Shape, q: Tensor, k: Tensor, v: Tensor,
                    from: nat, count: nat, kvCount: nat, b: nat, h: nat, p: nat)
    requires IsExp(exp) && Inputs(s, q, k, v) && SameView(s, from, count, kvCount)
    requires Inputs(WindowShape(s, count, kvCount), Window(q, from, count), Window(k, 0, kvCount),
                    Window(v, 0, kvCount))
    requires b < s.batch && h < s.queryHeads && p < count
    ensures OutputRow(exp, WindowShape(s, count, kvCount), Window(q, from, count), Window(k, 0, kvCount),
                      Window(v, 0, kvCount), b, h, p)
         == OutputRow(exp, s, q, k, v, b, h, from + p)
  {
    var g, n := s.KvHead(h), s.Visible(from + p);
    assert IsHead(q, b, h, s.queryLen, s.headDim);
    WindowHead(k, s.batch, s.kvHeads, s.kvLen, s.headDim, kvCount, b, g, n);
    WindowHead(v, s.batch, s.kvHeads, s.kvLen, s.headDim, kvCount, b, g, n);
  }

  /** A prefix of a head's prefix is a prefix of the head. */
  lemma WindowHead(x: Tensor, batch: nat, heads: nat, len: nat, dim: nat, count: nat, b: nat, h: nat, n: nat)
    requires IsTensor(x, batch, heads, len, dim) && n <= count <= len && b < batch && h < heads
    ensures IsHead(x, b, h, len, dim) && |Window(x, 0, count)[b][h]| == count
    ensures Window(x, 0, count)[b][h][..n] == x[b][h][..n]
  {
    assert IsHead(x, b, h, len, dim);
    assert x[b][h][0..count][..n] == x[b][h][..n];
  }

  /** Token by token: with as many queries as keys, row p of the causal run is the run
      of query p alone over keys 0..p. */
  lemma DecodeEqualsPrefill(exp: real -> real, s: Shape, q: Tensor, k: Tensor, v: Tensor, p: nat)
    requires IsExp(exp) && Inputs(s, q, k, v)
    requires s.causal && s.queryLen == s.kvLen && p < s.queryLen
    ensures var s' := WindowShape(s, 1, p + 1);
      && Inputs(s', Window(q, p, 1), Window(k, 0, p + 1), Window(v, 0, p + 1))
      && Output(exp, s', Window(q, p, 1), Window(k, 0, p + 1), Window(v, 0, p + 1))
          == Window(Output(exp, s, q, k, v), p, 1)
  {
    WindowedRun(exp, s, q, k, v, p, 1, p + 1);
  }

  /** Running only the last t queries against the same keys gives the last t rows of
      every head, causal or not. */
  lemma LastQueries(exp: real -> real, s: Shape, q: Tensor, k: Tensor, v: Tensor, t: nat)
    requires IsExp(exp) && Inputs(s, q, k, v) && 0 < t <= s.queryLen
    ensures var s' := s.(queryLen := t);
      && Inputs(s', Window(q, s.queryLen - t, t), k, v)
      && Output(exp, s', Window(q, s.queryLen - t, t), k, v) == Window(Output(exp, s, q, k, v), s.queryLen - t, t)
  {
    WindowedRun(exp, s, q, k, v, s.queryLen - t, t, s.kvLen);
    WholeWindow(k, s.batch, s.kvHeads, s.kvLen, s.headDim);
    WholeWindow(v, s.batch, s.kvHeads, s.kvLen, s.headDim);
  }

  lemma WholeWindow(x: Tensor, batch: nat, heads: nat, len: nat, dim: nat)
    requires IsTensor(x, batch, heads, len, dim)
    ensures Window(x, 0, len) == x
  {
    forall b | 0 <= b < batch ensures Window(x, 0, len)[b] == x[b] {
      forall h | 0 <= h < heads ensures Window(x, 0, len)[b][h] == x[b][h] {
        assert IsHead(x, b, h, len, dim);
      }
    }
  }

  // Grouped heads --------------------------------------------------------------------------

  /** Every key/value head repeated once per query head it serves. */
  function ExpandHeads(s: Shape, x: Tensor, dim: nat): Tensor
    requires s.Valid() && IsTensor(x, s.batch, s.kvHeads, s.kvLen, dim)
  {
    seq(s.batch, b requires 0 <= b < s.batch =>
      seq(s.queryHeads, h requires 0 <= h < s.queryHeads => x[b][s.KvHead(h)]))
  }

  lemma ExpandedIsTensor(s: Shape, x: Tensor)
    requires s.Valid() && IsTensor(x, s.batch, s.kvHeads, s.kvLen, s.headDim)
    ensures IsTensor(ExpandHeads(s, x, s.headDim), s.batch, s.queryHeads, s.kvLen, s.headDim)
  {
    var y := ExpandHeads(s, x, s.headDim);
    forall b, h | 0 <= b < s.batch && 0 <= h < s.queryHeads ensures IsHead(y, b, h, s.kvLen, s.headDim) {
      assert IsHead(x, b, s.KvHead(h), s.kvLen, s.headDim);
    }
  }

  /** Row p of the expanded head g * G + r is row p of head g. */
  lemma ExpandedRowOf(s: Shape, x: Tensor, b: nat, g: nat, r: nat, p: nat)
    requires s.Valid() && IsTensor(x, s.batch, s.kvHeads, s.kvLen, s.headDim)
    requires b < s.batch && g < s.kvHeads && r < s.queryHeads / s.kvHeads && p < s.kvLen
    ensures 0 <= g * (s.queryHeads / s.kvHeads) + r < s.queryHeads
    ensures RowOf(ExpandHeads(s, x, s.headDim), b, g * (s.queryHeads / s.kvHeads) + r, p) == RowOf(x, b, g, p)
  {
    GroupOf(s, g, r);
  }

  lemma OwnKvHead(s: Shape, h: nat)
    requires s.Valid() && s.kvHeads == s.queryHeads && h < s.queryHeads
    ensures s.KvHead(h) == h
  {
    assert s.queryHeads / s.kvHeads == 1;
  }

  /** Grouped-query attention is multi-head attention over keys and values whose heads
      are repeated for every query head they serve. */
  lemma GroupedEqualsMultiHead(exp: real -> real, s: Shape, q: Tensor, k: Tensor, v: Tensor)
    requires IsExp(exp) && Inputs(s, q, k, v)
    ensures var s' := s.(kvHeads := s.queryHeads);
      && Inputs(s', q, ExpandHeads(s, k, s.headDim), ExpandHeads(s, v, s.headDim))
      && Output(exp, s', q, ExpandHeads(s, k, s.headDim), ExpandHeads(s, v, s.headDim)) == Output(exp, s, q, k, v)
  {
    var s' := s.(kvHeads := s.queryHeads);
    ExpandedIsTensor(s, k);
    ExpandedIsTensor(s, v);
    var k', v' := ExpandHeads(s, k, s.headDim), ExpandHeads(s, v, s.headDim);
    var multi, grouped := Output(exp, s', q, k', v'), Output(exp, s, q, k, v);
    forall b, h, p | 0 <= b < s.batch && 0 <= h < s.queryHeads && 0 <= p < s.queryLen
      ensures RowOf(multi, b, h, p) == RowOf(grouped, b, h, p)
    {
      OutputRowOf(exp, s', q, k', v', b, h, p);
      OutputRowOf(exp, s, q, k, v, b, h, p);
      ExpandedRow(exp, s, q, k, v, b, h, p);
    }
    SameRows(multi, grouped, s.batch, s.queryHeads, s.queryLen, s.headDim);
  }

  lemma ExpandedRow(exp: real -> real, s: Shape, q: Tensor, k: Tensor, v: Tensor, b: nat, h: nat, p: nat)
    requires IsExp(exp) && Inputs(s, q, k, v) && b < s.batch && h < s.queryHeads && p < s.queryLen
    requires Inputs(s.(kvHeads := s.queryHeads), q, ExpandHeads(s, k, s.headDim), ExpandHeads(s, v, s.headDim))
    ensures OutputRow(exp, s.(kvHeads := s.queryHeads), q, ExpandHeads(s, k, s.headDim), ExpandHeads(s, v, s.headDim),
                      b, h, p)
         == OutputRow(exp, s, q, k, v, b, h, p)
  {
    OwnKvHead(s.(kvHeads := s.queryHeads), h);
  }
}
