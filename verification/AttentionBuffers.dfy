/** The relations between attention runs, on the flat buffers the loops work on. */
module AttentionBuffers {
  import opened Machine
  import opened Softmax
  import opened AttentionSpec
  import opened AttentionProtocol
  import opened Indexing
  import opened TensorLayout
  import opened AttentionReference

  // Laying a tensor out ------------------------------------------------------------------------

  function Entry(t: Tensor, b: int, h: int, p: int, d: int): real {
    if 0 <= b < |t| && 0 <= h < |t[b]| && 0 <= p < |t[b][h]| && 0 <= d < |t[b][h][p]| then t[b][h][p][d] else 0.0
  }

  /** The value that belongs in slot i. */
  function SlotValue(t: Tensor, heads: nat, len: nat, dim: nat, i: nat): real {
    if heads == 0 || len == 0 || dim == 0 then 0.0
    else Entry(t, i / dim / len / heads, i / dim / len % heads, i / dim % len, i % dim)
  }

  /** The buffer that holds a tensor. */
  function Flat(t: Tensor, batch: nat, heads: nat, len: nat, dim: nat): (x: Vec)
    ensures |x| == Size(batch, heads, len, dim)
  {
    seq(Size(batch, heads, len, dim),
        i requires 0 <= i < Size(batch, heads, len, dim) => SlotValue(t, heads, len, dim, i))
  }

  lemma SlotValueAt(t: Tensor, heads: nat, len: nat, dim: nat, b: nat, h: nat, p: nat, d: nat, i: nat)
    requires h < heads && p < len && d < dim && i == RowIndex(heads, len, b, h, p) * dim + d
    ensures SlotValue(t, heads, len, dim, i) == Entry(t, b, h, p, d)
  {
    GridDecode(RowIndex(heads, len, b, h, p), d, dim);
    RowDecode(heads, len, b, h, p);
  }

  /** Laying a tensor out and reading it back gives the tensor. */
  lemma NestFlat(t: Tensor, batch: nat, heads: nat, len: nat, dim: nat)
    requires IsTensor(t, batch, heads, len, dim)
    ensures Nest(Flat(t, batch, heads, len, dim), batch, heads, len, dim) == t
  {
    var x := Flat(t, batch, heads, len, dim);
    var nested := Nest(x, batch, heads, len, dim);
    NestIsTensor(x, batch, heads, len, dim);
    forall b, h, p | 0 <= b < batch && 0 <= h < heads && 0 <= p < len
      ensures RowOf(nested, b, h, p) == RowOf(t, b, h, p)
    {
      assert IsHead(t, b, h, len, dim) && IsHead(nested, b, h, len, dim);
      forall d | 0 <= d < dim ensures RowOf(nested, b, h, p)[d] == RowOf(t, b, h, p)[d] {
        NestAt(x, batch, heads, len, dim, b, h, p, d);
        SlotValueAt(t, heads, len, dim, b, h, p, d, RowIndex(heads, len, b, h, p) * dim + d);
      }
    }
    SameRows(nested, t, batch, heads, len, dim);
  }

  /** And reading a buffer and laying it out again gives the buffer. */
  lemma FlatNest(x: Vec, batch: nat, heads: nat, len: nat, dim: nat)
    requires |x| == Size(batch, heads, len, dim)
    ensures Flat(Nest(x, batch, heads, len, dim), batch, heads, len, dim) == x
  {
    NestIsTensor(x, batch, heads, len, dim);
    NestFlat(Nest(x, batch, heads, len, dim), batch, heads, len, dim);
    NestInjective(Flat(Nest(x, batch, heads, len, dim), batch, heads, len, dim), x, batch, heads, len, dim);
  }

  /** Where the buffer that holds a tensor keeps row p of head h. */
  lemma FlatAt(t: Tensor, batch: nat, heads: nat, len: nat, dim: nat, b: nat, h: nat, p: nat, d: nat, row: nat)
    requires IsTensor(t, batch, heads, len, dim) && b < batch && h < heads && p < len && d < dim
    requires row == RowIndex(heads, len, b, h, p)
    ensures |RowOf(t, b, h, p)| == dim
    ensures 0 <= row * dim + d < |Flat(t, batch, heads, len, dim)|
    ensures Flat(t, batch, heads, len, dim)[row * dim + d] == RowOf(t, b, h, p)[d]
  {
    assert IsHead(t, b, h, len, dim);
    RowInBuffer(batch, heads, len, dim, b, h, p);
    SlotValueAt(t, heads, len, dim, b, h, p, d, row * dim + d);
  }

  lemma NestedAt(x: Vec, batch: nat, heads: nat, len: nat, dim: nat, b: nat, h: nat, p: nat, d: nat, row: nat)
    requires |x| == Size(batch, heads, len, dim) && b < batch && h < heads && p < len && d < dim
    requires row == RowIndex(heads, len, b, h, p)
    ensures 0 <= row * dim + d < |x|
    ensures |RowOf(Nest(x, batch, heads, len, dim), b, h, p)| == dim
    ensures RowOf(Nest(x, batch, heads, len, dim), b, h, p)[d] == x[row * dim + d]
  {
    NestIsTensor(x, batch, heads, len, dim);
    NestAt(x, batch, heads, len, dim, b, h, p, d);
  }

  // The three buffers of a run ---------------------------------------------------------------------

  function QueryTensor(s: Shape, q: Vec): Tensor
    requires |q| == Size(s.batch, s.queryHeads, s.queryLen, s.headDim)
  {
    Nest(q, s.batch, s.queryHeads, s.queryLen, s.headDim)
  }

  function KeyTensor(s: Shape, k: Vec): Tensor
    requires |k| == Size(s.batch, s.kvHeads, s.kvLen, s.headDim)
  {
    Nest(k, s.batch, s.kvHeads, s.kvLen, s.headDim)
  }

  lemma BufferInputs(s: Shape, q: Vec, k: Vec, v: Vec)
    requires Buffers(s, q, k, v)
    ensures Inputs(s, QueryTensor(s, q), KeyTensor(s, k), KeyTensor(s, v))
  {
    NestIsTensor(q, s.batch, s.queryHeads, s.queryLen, s.headDim);
    NestIsTensor(k, s.batch, s.kvHeads, s.kvLen, s.headDim);
    NestIsTensor(v, s.batch, s.kvHeads, s.kvLen, s.headDim);
  }

  /** The query rows `from .. from + count` of every head, laid out as a buffer. */
  function QueryWindow(s: Shape, q: Vec, from: nat, count: nat): Vec
    requires |q| == Size(s.batch, s.queryHeads, s.queryLen, s.headDim)
  {
    Flat(Window(QueryTensor(s, q), from, count), s.batch, s.queryHeads, count, s.headDim)
  }

  /** The first `count` key or value rows of every head, laid out as a buffer. */
  function KeyPrefix(s: Shape, k: Vec, count: nat): Vec
    requires |k| == Size(s.batch, s.kvHeads, s.kvLen, s.headDim)
  {
    Flat(Window(KeyTensor(s, k), 0, count), s.batch, s.kvHeads, count, s.headDim)
  }

  lemma QueryWindowNests(s: Shape, q: Vec, from: nat, count: nat)
    requires |q| == Size(s.batch, s.queryHeads, s.queryLen, s.headDim) && from + count <= s.queryLen
    ensures Nest(QueryWindow(s, q, from, count), s.batch, s.queryHeads, count, s.headDim)
        == Window(QueryTensor(s, q), from, count)
  {
    NestIsTensor(q, s.batch, s.queryHeads, s.queryLen, s.headDim);
    WindowIsTensor(QueryTensor(s, q), s.batch, s.queryHeads, s.queryLen, s.headDim, from, count);
    NestFlat(Window(QueryTensor(s, q), from, count), s.batch, s.queryHeads, count, s.headDim);
  }

  /** Row p of a head in a re-laid-out window is row from + p of that head in the buffer. */
  lemma WindowAt(x: Vec, batch: nat, heads: nat, len: nat, dim: nat,
                 from: nat, count: nat, b: nat, h: nat, p: nat, d: nat, row: nat, source: nat)
    requires |x| == Size(batch, heads, len, dim) && from + count <= len
    requires b < batch && h < heads && p < count && d < dim
    requires row == RowIndex(heads, count, b, h, p) && source == RowIndex(heads, len, b, h, from + p)
    ensures var window := Flat(Window(Nest(x, batch, heads, len, dim), from, count), batch, heads, count, dim);
      && 0 <= row * dim + d < |window| && 0 <= source * dim + d < |x|
      && window[row * dim + d] == x[source * dim + d]
  {
    var nested := Nest(x, batch, heads, len, dim);
    NestIsTensor(x, batch, heads, len, dim);
    WindowIsTensor(nested, batch, heads, len, dim, from, count);
    WindowRowOf(nested, batch, heads, len, dim, from, count, b, h, p);
    FlatAt(Window(nested, from, count), batch, heads, count, dim, b, h, p, d, row);
    NestedAt(x, batch, heads, len, dim, b, h, from + p, d, source);
  }

  lemma QueryWindowAt(s: Shape, q: Vec, from: nat, count: nat, b: nat, h: nat, p: nat, d: nat)
    requires |q| == Size(s.batch, s.queryHeads, s.queryLen, s.headDim) && from + count <= s.queryLen
    requires b < s.batch && h < s.queryHeads && p < count && d < s.headDim
    ensures var row, source := (b * s.queryHeads + h) * count + p, (b * s.queryHeads + h) * s.queryLen + (from + p);
      && 0 <= row * s.headDim + d < |QueryWindow(s, q, from, count)| && 0 <= source * s.headDim + d < |q|
      && QueryWindow(s, q, from, count)[row * s.headDim + d] == q[source * s.headDim + d]
  {
    WindowAt(q, s.batch, s.queryHeads, s.queryLen, s.headDim, from, count, b, h, p, d,
             RowIndex(s.queryHeads, count, b, h, p), RowIndex(s.queryHeads, s.queryLen, b, h, from + p));
  }

  lemma KeyPrefixAt(s: Shape, k: Vec, count: nat, b: nat, h: nat, p: nat, d: nat)
    requires |k| == Size(s.batch, s.kvHeads, s.kvLen, s.headDim) && count <= s.kvLen
    requires b < s.batch && h < s.kvHeads && p < count && d < s.headDim
    ensures var row, source := (b * s.kvHeads + h) * count + p, (b * s.kvHeads + h) * s.kvLen + p;
      && 0 <= row * s.headDim + d < |KeyPrefix(s, k, count)| && 0 <= source * s.headDim + d < |k|
      && KeyPrefix(s, k, count)[row * s.headDim + d] == k[source * s.headDim + d]
  {
    WindowAt(k, s.batch, s.kvHeads, s.kvLen, s.headDim, 0, count, b, h, p, d,
             RowIndex(s.kvHeads, count, b, h, p), RowIndex(s.kvHeads, s.kvLen, b, h, p));
  }

  lemma KeyPrefixNests(s: Shape, k: Vec, count: nat)
    requires |k| == Size(s.batch, s.kvHeads, s.kvLen, s.headDim) && count <= s.kvLen
    ensures Nest(KeyPrefix(s, k, count), s.batch, s.kvHeads, count, s.headDim) == Window(KeyTensor(s, k), 0, count)
  {
    NestIsTensor(k, s.batch, s.kvHeads, s.kvLen, s.headDim);
    WindowIsTensor(KeyTensor(s, k), s.batch, s.kvHeads, s.kvLen, s.headDim, 0, count);
    NestFlat(Window(KeyTensor(s, k), 0, count), s.batch, s.kvHeads, count, s.headDim);
  }

  // Relations between runs --------------------------------------------------------------------------

  /** A run over re-laid-out windows of the buffers computes that window of the full run. */
  lemma WindowOnBuffers(exp: real -> real, s: Shape, q: Vec, k: Vec, v: Vec, from: nat, count: nat, kvCount: nat)
    requires IsExp(exp) && Buffers(s, q, k, v) && SameView(s, from, count, kvCount)
    ensures var s', q', k', v' :=
        WindowShape(s, count, kvCount), QueryWindow(s, q, from, count), KeyPrefix(s, k, kvCount),
            KeyPrefix(s, v, kvCount);
      && Buffers(s', q', k', v')
      && Expected(exp, s', q', k', v') == Window(Expected(exp, s, q, k, v), from, count)
  {
    BufferInputs(s, q, k, v);
    QueryWindowNests(s, q, from, count);
    KeyPrefixNests(s, k, kvCount);
    KeyPrefixNests(s, v, kvCount);
    WindowedRun(exp, s, QueryTensor(s, q), KeyTensor(s, k), KeyTensor(s, v), from, count, kvCount);
  }

  /** Token by token: a decode step over the laid-out key and value prefixes computes row p
      of every head of the prefill run. */
  lemma DecodeStepOnBuffers(exp: real -> real, s: Shape, q: Vec, k: Vec, v: Vec, p: nat)
    requires IsExp(exp) && Buffers(s, q, k, v) && s.causal && s.queryLen == s.kvLen && p < s.queryLen
    ensures var s', q', k', v' := WindowShape(s, 1, p + 1), QueryWindow(s, q, p, 1), KeyPrefix(s, k, p + 1),
        KeyPrefix(s, v, p + 1);
      && Buffers(s', q', k', v')
      && Expected(exp, s', q', k', v') == Window(Expected(exp, s, q, k, v), p, 1)
  {
    WindowOnBuffers(exp, s, q, k, v, p, 1, p + 1);
  }

  /** Running the last t queries against the same key and value buffers gives the last t
      rows of every head. */
  lemma LastQueriesOnBuffers(exp: real -> real, s: Shape, q: Vec, k: Vec, v: Vec, t: nat)
    requires IsExp(exp) && Buffers(s, q, k, v) && 0 < t <= s.queryLen
    ensures var s', q' := s.(queryLen := t), QueryWindow(s, q, s.queryLen - t, t);
      && Buffers(s', q', k, v)
      && Expected(exp, s', q', k, v) == Window(Expected(exp, s, q, k, v), s.queryLen - t, t)
  {
    BufferInputs(s, q, k, v);
    QueryWindowNests(s, q, s.queryLen - t, t);
    LastQueries(exp, s, QueryTensor(s, q), KeyTensor(s, k), KeyTensor(s, v), t);
  }

  lemma SizeGrows(batch: nat, heads: nat, len: nat, longer: nat, dim: nat, wider: nat)
    requires len <= longer && dim <= wider
    ensures Size(batch, heads, len, dim) <= Size(batch, heads, longer, wider)
  {
    var rows := batch * heads;
    AtMostTimes(0, batch, heads);
    AtMostTimes(len, longer, rows);
    assert rows * len <= rows * longer;
    AtMostTimes(rows * len, rows * longer, dim);
    AtMostTimes(0, longer, rows);
    AtMostTimes(dim, wider, rows * longer);
    assert (rows * longer) * dim <= (rows * longer) * wider;
  }

  /** The control of a run over windows: fewer queries and fewer keys. */
  function WindowControl(c: AttentionControl, count: u32, kvCount: u32): AttentionControl {
    c.(queryLen := count, kvLen := kvCount)
  }

  lemma WindowFits(c: AttentionControl, count: u32, kvCount: u32)
    requires TensorsFit(c) && count <= c.queryLen && kvCount <= c.kvLen
    ensures TensorsFit(WindowControl(c, count, kvCount))
  {
    var c' := WindowControl(c, count, kvCount);
    ProductOfFour(c.batch, c.queryHeads, c.queryLen, c.headDim);
    ProductOfFour(c.batch, c.kvHeads, c.kvLen, c.headDim);
    ProductOfFour(c.batch, c.queryHeads, count, c.headDim);
    ProductOfFour(c.batch, c.kvHeads, kvCount, c.headDim);
    SizeGrows(c.batch, c.queryHeads, count, c.queryLen, c.headDim, c.headDim);
    SizeGrows(c.batch, c.kvHeads, kvCount, c.kvLen, c.headDim, c.headDim);
    AtMostTimes(Product(QDims(c')), Product(QDims(c)), c.dataType.ElementBytes());
    AtMostTimes(Product(KvDims(c')), Product(KvDims(c)), c.dataType.ElementBytes());
  }

  /** If a run passes every check, so does the run over its re-laid-out windows, provided a
      causal one keeps at least as many keys as queries. */
  lemma WindowIsAccepted(c: AttentionControl, q: Vec, k: Vec, v: Vec,
                         limits: AttentionLimits, from: nat, count: u32, kvCount: u32)
    requires CheckRequest(c, |q|, |k|, |v|, limits).Ok?
    requires 0 < count && from + count <= c.queryLen && 0 < kvCount <= c.kvLen
    requires c.IsCausal() ==> count <= kvCount
    ensures Buffers(ShapeOf(c), q, k, v)
    ensures var s, c' := ShapeOf(c), WindowControl(c, count, kvCount);
      && ShapeOf(c') == WindowShape(s, count, kvCount)
      && CheckRequest(c', |QueryWindow(s, q, from, count)|, |KeyPrefix(s, k, kvCount)|, |KeyPrefix(s, v, kvCount)|,
                      limits).Ok?
  {
    var s, c' := ShapeOf(c), WindowControl(c, count, kvCount);
    CheckedExactly(c, |q|, |k|, |v|, limits);
    CheckedShape(c);
    ValidExactly(c);
    ValidExactly(c');
    WindowFits(c, count, kvCount);
    SizeGrows(c.batch, c.queryHeads, count, c.queryLen, c.headDim, c.headDim);
    SizeGrows(c.batch, c.queryHeads, count, c.queryLen, kvCount, c.kvLen);
    var q', k', v' := QueryWindow(s, q, from, count), KeyPrefix(s, k, kvCount), KeyPrefix(s, v, kvCount);
    CheckedExactly(c', |q'|, |k'|, |v'|, limits);
  }

  /** So a decode step is accepted whenever the square prefill run is. */
  lemma DecodeStepIsAccepted(c: AttentionControl, q: Vec, k: Vec, v: Vec, limits: AttentionLimits, p: u32)
    requires CheckRequest(c, |q|, |k|, |v|, limits).Ok? && c.queryLen == c.kvLen && p < c.queryLen
    ensures Buffers(ShapeOf(c), q, k, v)
    ensures var s := ShapeOf(c);
      CheckRequest(WindowControl(c, 1, p + 1), |QueryWindow(s, q, p, 1)|, |KeyPrefix(s, k, p + 1)|,
                   |KeyPrefix(s, v, p + 1)|, limits).Ok?
  {
    WindowIsAccepted(c, q, k, v, limits, p, 1, p + 1);
  }

  /** Keys or values with every head repeated for its group, laid out as a buffer. */
  function ExpandedBuffer(s: Shape, k: Vec): Vec
    requires s.Valid() && |k| == Size(s.batch, s.kvHeads, s.kvLen, s.headDim)
  {
    NestIsTensor(k, s.batch, s.kvHeads, s.kvLen, s.headDim);
    Flat(ExpandHeads(s, KeyTensor(s, k), s.headDim), s.batch, s.queryHeads, s.kvLen, s.headDim)
  }

  lemma ExpandedNests(s: Shape, k: Vec)
    requires s.Valid() && |k| == Size(s.batch, s.kvHeads, s.kvLen, s.headDim)
    ensures IsTensor(KeyTensor(s, k), s.batch, s.kvHeads, s.kvLen, s.headDim)
    ensures Nest(ExpandedBuffer(s, k), s.batch, s.queryHeads, s.kvLen, s.headDim)
        == ExpandHeads(s, KeyTensor(s, k), s.headDim)
  {
    NestIsTensor(k, s.batch, s.kvHeads, s.kvLen, s.headDim);
    ExpandedIsTensor(s, KeyTensor(s, k));
    NestFlat(ExpandHeads(s, KeyTensor(s, k), s.headDim), s.batch, s.queryHeads, s.kvLen, s.headDim);
  }

  /** Row p of the expanded head g * G + r is row p of head g, where G is the size of a group. */
  lemma ExpandedBufferAt(s: Shape, k: Vec, b: nat, g: nat, r: nat, p: nat, d: nat)
    requires s.Valid() && |k| == Size(s.batch, s.kvHeads, s.kvLen, s.headDim)
    requires b < s.batch && g < s.kvHeads && r < s.queryHeads / s.kvHeads && p < s.kvLen && d < s.headDim
    ensures var head := g * (s.queryHeads / s.kvHeads) + r;
      var row, source := (b * s.queryHeads + head) * s.kvLen + p, (b * s.kvHeads + g) * s.kvLen + p;
      && 0 <= row * s.headDim + d < |ExpandedBuffer(s, k)| && 0 <= source * s.headDim + d < |k|
      && ExpandedBuffer(s, k)[row * s.headDim + d] == k[source * s.headDim + d]
  {
    var nested := KeyTensor(s, k);
    NestIsTensor(k, s.batch, s.kvHeads, s.kvLen, s.headDim);
    GroupOf(s, g, r);
    var head: nat := g * (s.queryHeads / s.kvHeads) + r;
    ExpandedIsTensor(s, nested);
    ExpandedRowOf(s, nested, b, g, r, p);
    FlatAt(ExpandHeads(s, nested, s.headDim), s.batch, s.queryHeads, s.kvLen, s.headDim, b, head, p, d,
           RowIndex(s.queryHeads, s.kvLen, b, head, p));
    NestedAt(k, s.batch, s.kvHeads, s.kvLen, s.headDim, b, g, p, d, RowIndex(s.kvHeads, s.kvLen, b, g, p));
  }

  /** Grouped-query attention computes what multi-head attention computes on the expanded
      key and value buffers. */
  lemma GroupedOnBuffers(exp: real -> real, s: Shape, q: Vec, k: Vec, v: Vec)
    requires IsExp(exp) && Buffers(s, q, k, v)
    ensures var s', k', v' := s.(kvHeads := s.queryHeads), ExpandedBuffer(s, k), ExpandedBuffer(s, v);
      Buffers(s', q, k', v') && Expected(exp, s', q, k', v') == Expected(exp, s, q, k, v)
  {
    BufferInputs(s, q, k, v);
    ExpandedNests(s, k);
    ExpandedNests(s, v);
    GroupedEqualsMultiHead(exp, s, QueryTensor(s, q), KeyTensor(s, k), KeyTensor(s, v));
  }

  /** Bounds on one coordinate of every value row that a query may look at. */
  predicate Bounded(s: Shape, v: Vec, b: nat, kvHead: nat, visible: nat, d: nat, lo: real, hi: real)
    requires |v| == Size(s.batch, s.kvHeads, s.kvLen, s.headDim)
    requires b < s.batch && kvHead < s.kvHeads && visible <= s.kvLen && d < s.headDim
  {
    forall j :: 0 <= j < visible ==> lo <= NestRow(v, s.batch, s.kvHeads, s.kvLen, s.headDim, b, kvHead, j)[d] <= hi
  }

  /** Every output coordinate lies between any bounds on the visible value coordinates. */
  lemma OutputIsConvex(exp: real -> real, s: Shape, q: Vec, k: Vec, v: Vec,
                       b: nat, h: nat, p: nat, d: nat, lo: real, hi: real)
    requires IsExp(exp) && Buffers(s, q, k, v)
    requires b < s.batch && h < s.queryHeads && p < s.queryLen && d < s.headDim
    requires Bounded(s, v, b, s.KvHead(h), s.Visible(p), d, lo, hi)
    ensures |RowOf(Expected(exp, s, q, k, v), b, h, p)| == s.headDim
    ensures lo <= RowOf(Expected(exp, s, q, k, v), b, h, p)[d] <= hi
  {
    BufferInputs(s, q, k, v);
    var q', k', v' := QueryTensor(s, q), KeyTensor(s, k), KeyTensor(s, v);
    var (g, n) := (s.KvHead(h), s.Visible(p));
    assert IsHead(q', b, h, s.queryLen, s.headDim) && IsHead(k', b, g, s.kvLen, s.headDim)
        && IsHead(v', b, g, s.kvLen, s.headDim);
    OutputRowOf(exp, s, q', k', v', b, h, p);
    forall j | 0 <= j < n ensures lo <= v'[b][g][..n][j][d] <= hi {
      assert v'[b][g][j] == NestRow(v, s.batch, s.kvHeads, s.kvLen, s.headDim, b, g, j);
    }
    AttendIsConvex(exp, s.scale, q'[b][h][p], k'[b][g][..n], v'[b][g][..n], d, lo, hi);
  }
}
