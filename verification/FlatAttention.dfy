/** What a run of attention leaves in its output buffer, written over the flat buffers and
    the fields of the control alone: sums, quotients and row-major index arithmetic. */
module FlatAttention {
  import opened Softmax
  import opened AttentionProtocol
  import Float32

  function El(x: Vec, i: int): real {
    if 0 <= i < |x| then x[i] else 0.0
  }

  /** Where a row of a row-major buffer starts. */
  function RowStart(row: int, dim: int): int {
    row * dim
  }

  /** The sum of q[i + e] * k[j + e] for e below n. */
  function FlatDot(q: Vec, k: Vec, i: int, j: int, n: nat): real {
    if n == 0 then 0.0 else FlatDot(q, k, i, j, n - 1) + El(q, i + (n - 1)) * El(k, j + (n - 1))
  }

  /** q . k * scale for one query row and one key row. */
  function FlatScore(q: Vec, k: Vec, scale: real, dim: nat, row: int, key: int): real {
    FlatDot(q, k, RowStart(row, dim), RowStart(key, dim), dim) * scale
  }

  /** The sum of exp(score) over the first n keys from `first` on. */
  function FlatTotal(exp: real -> real, q: Vec, k: Vec, scale: real, dim: nat, row: int, first: int, n: nat): real {
    if n == 0 then 0.0
    else
      FlatTotal(exp, q, k, scale, dim, row, first, n - 1) + exp(FlatScore(q, k, scale, dim, row, first + (n - 1)))
  }

  /** exp(score) times coordinate x of the value row. */
  function FlatTerm(exp: real -> real, q: Vec, k: Vec, v: Vec, scale: real, dim: nat,
                    row: int, key: int, x: nat): real
  {
    exp(FlatScore(q, k, scale, dim, row, key)) * El(v, RowStart(key, dim) + x)
  }

  /** The sum of these terms over the same keys. */
  function FlatMix(exp: real -> real, q: Vec, k: Vec, v: Vec, scale: real, dim: nat,
                   row: int, first: int, x: nat, n: nat): real
  {
    if n == 0 then 0.0
    else
      FlatMix(exp, q, k, v, scale, dim, row, first, x, n - 1)
      + FlatTerm(exp, q, k, v, scale, dim, row, first + (n - 1), x)
  }

  predicate IsQuotient(z: real, x: real, y: real) {
    y > 0.0 && z == x / y
  }

  /** The row of query p in batch b, for member r of the group of query heads that shares key
      and value head g. */
  function QueryRow(c: AttentionControl, b: nat, g: nat, r: nat, p: nat): int
    requires c.kvHeads > 0
  {
    (b * c.queryHeads + (g * (c.queryHeads / c.kvHeads) + r)) * c.queryLen + p
  }

  /** The first row of key and value head g in batch b. */
  function FirstKey(c: AttentionControl, b: nat, g: nat): int {
    (b * c.kvHeads + g) * c.kvLen
  }

  /** A causal query sees the keys up to its own position, counted from the end. */
  function VisibleKeys(c: AttentionControl, p: nat): int {
    if c.flags % 2 == 1 then c.kvLen - c.queryLen + p + 1 else c.kvLen
  }

  /** Coordinate x of that query is the weighted sum of the values over the sum of the
      weights. */
  ghost predicate IsAttended(exp: real -> real, c: AttentionControl, q: Vec, k: Vec, v: Vec,
                             out: Vec, b: nat, g: nat, r: nat, p: nat, x: nat)
    requires c.kvHeads > 0
  {
    var (dim, scale) := (c.headDim, Float32.Value(c.scale));
    var (row, first, visible) := (QueryRow(c, b, g, r, p), FirstKey(c, b, g), VisibleKeys(c, p));
    && 0 <= RowStart(row, dim) + x < |out|
    && visible >= 0
    && IsQuotient(out[RowStart(row, dim) + x], FlatMix(exp, q, k, v, scale, dim, row, first, x, visible),
                  FlatTotal(exp, q, k, scale, dim, row, first, visible))
  }

  /** Every output coordinate is softmax attention of its query over the visible rows of the
      key and value head of its group. */
  ghost predicate IsAttention(exp: real -> real, c: AttentionControl, q: Vec, k: Vec, v: Vec, out: Vec)
    requires c.kvHeads > 0
  {
    && |out| == c.batch * c.queryHeads * c.queryLen * c.headDim
    && forall b: nat, g: nat, r: nat, p: nat, x: nat {:trigger IsAttended(exp, c, q, k, v, out, b, g, r, p, x)} ::
      b < c.batch && g < c.kvHeads && r < c.queryHeads / c.kvHeads && p < c.queryLen && x < c.headDim ==>
        IsAttended(exp, c, q, k, v, out, b, g, r, p, x)
  }
}
