/** The i-k-j matrix product over row-major buffers, for any arithmetic. */
module MatrixProduct {
  import opened Wrappers
  import opened Indexing

  /** The operations of a number format, including the comparison with zero. Nothing is
      assumed about them: addition need not even be associative. */
  datatype Arith<!T> = Arith(zero: T, isZero: T -> bool, add: (T, T) -> T, mul: (T, T) -> T)

  datatype Gemm<T> = Gemm(m: nat, n: nat, k: nat, alpha: T, beta: T, a: seq<T>, b: seq<T>, c: Option<seq<T>>)
  {
    predicate Valid() {
      |a| == m * k && |b| == k * n && (c.Some? ==> |c.value| == m * n)
    }
  }

  /** The element in row i and column j of a row-major matrix. */
  function At<T>(x: seq<T>, rows: nat, columns: nat, i: nat, j: nat): T
    requires |x| == rows * columns && i < rows && j < columns
  {
    InGrid(i, rows, j, columns);
    x[i * columns + j]
  }

  // The specification of one cell ---------------------------------------------------------

  function Start<T>(arith: Arith<T>, g: Gemm<T>, i: nat, j: nat): T
    requires g.Valid() && i < g.m && j < g.n
  {
    if !arith.isZero(g.beta) && g.c.Some? then arith.mul(g.beta, At(g.c.value, g.m, g.n, i, j)) else arith.zero
  }

  function Term<T>(arith: Arith<T>, g: Gemm<T>, i: nat, j: nat, d: nat): T
    requires g.Valid() && i < g.m && j < g.n && d < g.k
  {
    arith.mul(arith.mul(g.alpha, At(g.a, g.m, g.k, i, d)), At(g.b, g.k, g.n, d, j))
  }

  /** The naive dot product: start from the C term and add the products in order. */
  function Fold<T>(arith: Arith<T>, g: Gemm<T>, i: nat, j: nat, d: nat): T
    requires g.Valid() && i < g.m && j < g.n && d <= g.k
  {
    if d == 0 then Start(arith, g, i, j) else arith.add(Fold(arith, g, i, j, d - 1), Term(arith, g, i, j, d - 1))
  }

  function Cell<T>(arith: Arith<T>, g: Gemm<T>, i: nat, j: nat): T
    requires g.Valid() && i < g.m && j < g.n
  {
    if arith.isZero(g.alpha) then Start(arith, g, i, j) else Fold(arith, g, i, j, g.k)
  }

  ghost predicate IsProduct<T>(arith: Arith<T>, g: Gemm<T>, values: seq<T>)
    requires g.Valid()
  {
    && |values| == g.m * g.n
    && forall i, j :: 0 <= i < g.m && 0 <= j < g.n ==> At(values, g.m, g.n, i, j) == Cell(arith, g, i, j)
  }

  lemma ProductUnique<T>(arith: Arith<T>, g: Gemm<T>, x: seq<T>, y: seq<T>)
    requires g.Valid() && IsProduct(arith, g, x) && IsProduct(arith, g, y)
    ensures x == y
  {
    forall r | 0 <= r < |x| ensures x[r] == y[r] {
      GridEncode(r, g.m, g.n);
      assert At(x, g.m, g.n, r / g.n, r % g.n) == At(y, g.m, g.n, r / g.n, r % g.n);
    }
  }

  // The loops, innermost first -------------------------------------------------------------

  function AddedRow<T>(arith: Arith<T>, row: seq<T>, scaled: T, factors: seq<T>): (sum: seq<T>)
    requires |row| == |factors|
    ensures |sum| == |row|
  {
    seq(|row|, j requires 0 <= j < |row| => arith.add(row[j], arith.mul(scaled, factors[j])))
  }

  method AddScaledRow<T>(arith: Arith<T>, output: array<T>, outputRow: nat, n: nat, scaled: T, b: seq<T>, bRow: nat)
    requires outputRow + n <= output.Length && bRow + n <= |b|
    modifies output
    ensures output[outputRow..outputRow + n]
        == AddedRow(arith, old(output[outputRow..outputRow + n]), scaled, b[bRow..bRow + n])
    ensures output[..outputRow] == old(output[..outputRow]) && output[outputRow + n..] == old(output[outputRow + n..])
  {
    ghost var before := output[outputRow..outputRow + n];
    ghost var after := AddedRow(arith, before, scaled, b[bRow..bRow + n]);
    for column := 0 to n
      invariant output[..outputRow] == old(output[..outputRow])
      invariant output[outputRow + n..] == old(output[outputRow + n..])
      invariant output[outputRow..outputRow + column] == after[..column]
      invariant output[outputRow + column..outputRow + n] == before[column..]
    {
      assert output[outputRow + column] == output[outputRow + column..outputRow + n][0] == before[column];
      output[outputRow + column] := arith.add(output[outputRow + column], arith.mul(scaled, b[bRow + column]));
      assert output[outputRow..outputRow + column + 1]
          == output[outputRow..outputRow + column] + [output[outputRow + column]];
    }
  }

  /** Row i of the output after d products have been added to every cell. */
  function FoldRow<T>(arith: Arith<T>, g: Gemm<T>, i: nat, d: nat): (row: seq<T>)
    requires g.Valid() && i < g.m && d <= g.k
    ensures |row| == g.n
  {
    seq(g.n, j requires 0 <= j < g.n => Fold(arith, g, i, j, d))
  }

  lemma NextFoldRow<T>(arith: Arith<T>, g: Gemm<T>, i: nat, d: nat)
    requires g.Valid() && i < g.m && d < g.k
    ensures 0 <= d * g.n && d * g.n + g.n <= |g.b|
    ensures FoldRow(arith, g, i, d + 1)
         == AddedRow(arith, FoldRow(arith, g, i, d), arith.mul(g.alpha, At(g.a, g.m, g.k, i, d)),
                     g.b[d * g.n..d * g.n + g.n])
  {
    BlockInGrid(d, g.k, g.n, g.n);
    var factors := g.b[d * g.n..d * g.n + g.n];
    forall j | 0 <= j < g.n ensures factors[j] == At(g.b, g.k, g.n, d, j) {}
  }

  method AccumulateRow<T>(arith: Arith<T>, g: Gemm<T>, output: array<T>, row: nat, outputRow: nat)
    requires g.Valid() && row < g.m && outputRow + g.n <= output.Length
    requires output[outputRow..outputRow + g.n] == FoldRow(arith, g, row, 0)
    modifies output
    ensures output[outputRow..outputRow + g.n] == FoldRow(arith, g, row, g.k)
    ensures output[..outputRow] == old(output[..outputRow])
    ensures output[outputRow + g.n..] == old(output[outputRow + g.n..])
  {
    for depth := 0 to g.k
      invariant output[outputRow..outputRow + g.n] == FoldRow(arith, g, row, depth)
      invariant output[..outputRow] == old(output[..outputRow])
      invariant output[outputRow + g.n..] == old(output[outputRow + g.n..])
    {
      NextFoldRow(arith, g, row, depth);
      InGrid(row, g.m, depth, g.k);
      var scaled := arith.mul(g.alpha, g.a[row * g.k + depth]);
      AddScaledRow(arith, output, outputRow, g.n, scaled, g.b, depth * g.n);
    }
  }

  predicate RowIs<T(==)>(values: seq<T>, m: nat, n: nat, i: nat, row: seq<T>)
    requires |values| == m * n && i < m
  {
    BlockInGrid(i, m, n, n);
    values[i * n..i * n + n] == row
  }

  /** Rows do not overlap. */
  lemma OtherRow<T>(before: seq<T>, after: seq<T>, m: nat, n: nat, changed: nat, i: nat, row: seq<T>)
    requires |before| == |after| == m * n && changed < m && i < m && i != changed && RowIs(before, m, n, i, row)
    requires 0 <= changed * n && changed * n + n <= |before|
    requires after[..changed * n] == before[..changed * n] && after[changed * n + n..] == before[changed * n + n..]
    ensures RowIs(after, m, n, i, row)
  {
    BlockInGrid(i, m, n, n);
    if i < changed {
      LessTimes(i, changed, n);
      SameSlice(before[..changed * n], before, after, i * n, i * n + n);
    } else {
      LessTimes(changed, i, n);
      SameTail(before, after, changed * n + n, i * n, i * n + n);
    }
  }

  lemma SameSlice<T>(front: seq<T>, before: seq<T>, after: seq<T>, lo: nat, hi: nat)
    requires lo <= hi <= |front| <= |before| == |after| && before[..|front|] == front == after[..|front|]
    ensures before[lo..hi] == after[lo..hi]
  {
    SliceOfSlice(before, 0, |front|, lo, hi);
    SliceOfSlice(after, 0, |front|, lo, hi);
  }

  lemma SameTail<T>(before: seq<T>, after: seq<T>, from: nat, lo: nat, hi: nat)
    requires from <= lo <= hi <= |before| == |after| && before[from..] == after[from..]
    ensures before[lo..hi] == after[lo..hi]
  {
    SliceOfSlice(before, from, |before|, lo - from, hi - from);
    SliceOfSlice(after, from, |after|, lo - from, hi - from);
  }

  /** The buffer starts as zeros, or as beta times C. */
  method InitialOutput<T>(arith: Arith<T>, g: Gemm<T>, elements: nat) returns (output: array<T>)
    requires g.Valid() && elements == g.m * g.n
    ensures fresh(output) && output.Length == elements
    ensures forall i :: 0 <= i < g.m ==> RowDone(arith, g, output[..], 0, i)
  {
    output := new T[elements](_ => arith.zero);
    if !arith.isZero(g.beta) && g.c.Some? {
      for x := 0 to elements
        invariant forall y :: 0 <= y < x ==> output[y] == arith.mul(g.beta, g.c.value[y])
      {
        output[x] := arith.mul(g.beta, g.c.value[x]);
      }
    }
    forall i | 0 <= i < g.m ensures RowDone(arith, g, output[..], 0, i) {
      BlockInGrid(i, g.m, g.n, g.n);
    }
  }

  /** Row i when the rows before `row` are finished. */
  predicate RowDone<T(==)>(arith: Arith<T>, g: Gemm<T>, values: seq<T>, row: nat, i: nat)
    requires g.Valid() && |values| == g.m * g.n && i < g.m
  {
    RowIs(values, g.m, g.n, i, FoldRow(arith, g, i, if i < row then g.k else 0))
  }

  lemma NextRow<T>(arith: Arith<T>, g: Gemm<T>, before: seq<T>, after: seq<T>, row: nat, next: nat)
    requires g.Valid() && |before| == |after| == g.m * g.n && row < g.m && next == row + 1
    requires forall i :: 0 <= i < g.m ==> RowDone(arith, g, before, row, i)
    requires RowIs(after, g.m, g.n, row, FoldRow(arith, g, row, g.k))
    requires 0 <= row * g.n && row * g.n + g.n <= |before|
    requires after[..row * g.n] == before[..row * g.n] && after[row * g.n + g.n..] == before[row * g.n + g.n..]
    ensures forall i :: 0 <= i < g.m ==> RowDone(arith, g, after, next, i)
  {
    forall i | 0 <= i < g.m ensures RowDone(arith, g, after, next, i) {
      if i != row {
        assert RowDone(arith, g, before, row, i);
        OtherRow(before, after, g.m, g.n, row, i, FoldRow(arith, g, i, if i < row then g.k else 0));
      }
    }
  }

  lemma FinishedRows<T>(arith: Arith<T>, g: Gemm<T>, values: seq<T>, row: nat)
    requires g.Valid() && |values| == g.m * g.n
    requires forall i :: 0 <= i < g.m ==> RowDone(arith, g, values, row, i)
    requires if arith.isZero(g.alpha) then row == 0 else row == g.m || g.k == 0
    ensures IsProduct(arith, g, values)
  {
    forall i, j | 0 <= i < g.m && 0 <= j < g.n ensures At(values, g.m, g.n, i, j) == Cell(arith, g, i, j) {
      InGrid(i, g.m, j, g.n);
      BlockInGrid(i, g.m, g.n, g.n);
      assert RowDone(arith, g, values, row, i);
      assert values[i * g.n..i * g.n + g.n][j] == values[i * g.n + j];
    }
  }

  method Multiply<T>(arith: Arith<T>, g: Gemm<T>) returns (output: array<T>)
    requires g.Valid()
    ensures fresh(output) && IsProduct(arith, g, output[..])
  {
    AtMostTimes(0, g.m, g.n);
    output := InitialOutput(arith, g, g.m * g.n);
    if !arith.isZero(g.alpha) && g.m != 0 && g.n != 0 && g.k != 0 {
      for row := 0 to g.m
        invariant forall i :: 0 <= i < g.m ==> RowDone(arith, g, output[..], row, i)
      {
        ghost var before := output[..];
        BlockInGrid(row, g.m, g.n, g.n);
        assert RowDone(arith, g, before, row, row);
        AccumulateRow(arith, g, output, row, row * g.n);
        NextRow(arith, g, before, output[..], row, row + 1);
      }
      FinishedRows(arith, g, output[..], g.m);
    } else if arith.isZero(g.alpha) || g.k == 0 {
      FinishedRows(arith, g, output[..], 0);
    }
  }

  // Over the real numbers ---------------------------------------------------------------------

  const REALS: Arith<real> := Arith(0.0, x => x == 0.0, (x: real, y: real) => x + y, (x: real, y: real) => x * y)

  /** Row i of A times column j of B, over the first d elements. */
  function Dot(g: Gemm<real>, i: nat, j: nat, d: nat): real
    requires g.Valid() && i < g.m && j < g.n && d <= g.k
  {
    if d == 0 then 0.0 else Dot(g, i, j, d - 1) + At(g.a, g.m, g.k, i, d - 1) * At(g.b, g.k, g.n, d - 1, j)
  }

  /** C, read as zero when it is absent. */
  function Addend(g: Gemm<real>, i: nat, j: nat): real
    requires g.Valid() && i < g.m && j < g.n
  {
    if g.c.Some? then At(g.c.value, g.m, g.n, i, j) else 0.0
  }

  /** What the fold and alpha times the dot product differ by, after d products. */
  function Rest(g: Gemm<real>, i: nat, j: nat, d: nat): real
    requires g.Valid() && i < g.m && j < g.n && d <= g.k
  {
    Fold(REALS, g, i, j, d) - g.alpha * Dot(g, i, j, d)
  }

  lemma FoldOverReals(g: Gemm<real>, i: nat, j: nat, d: nat)
    requires g.Valid() && i < g.m && j < g.n && d <= g.k
    ensures Rest(g, i, j, d) == Start(REALS, g, i, j)
  {
    var start := Start(REALS, g, i, j);
    assert Rest(g, i, j, 0) == start;
    for e := 0 to d
      invariant Rest(g, i, j, e) == start
    {
      NextProduct(g, i, j, e);
    }
  }

  lemma {:induction false} NextProduct(g: Gemm<real>, i: nat, j: nat, d: nat)
    requires g.Valid() && i < g.m && j < g.n && d < g.k
    ensures Rest(g, i, j, d + 1) == Rest(g, i, j, d)
  {
    var x, y := At(g.a, g.m, g.k, i, d), At(g.b, g.k, g.n, d, j);
    assert Term(REALS, g, i, j, d) == (g.alpha * x) * y;
    Distribute(g.alpha, Dot(g, i, j, d), x, y);
  }

  lemma Distribute(alpha: real, sum: real, x: real, y: real)
    ensures alpha * (sum + x * y) == alpha * sum + (alpha * x) * y
  {}

  /** Over the reals a cell is alpha times the dot product plus beta times C, for every
      alpha and beta, including the zeros the code treats specially. */
  lemma CellOverReals(g: Gemm<real>, i: nat, j: nat)
    requires g.Valid() && i < g.m && j < g.n
    ensures Cell(REALS, g, i, j) == g.alpha * Dot(g, i, j, g.k) + g.beta * Addend(g, i, j)
  {
    FoldOverReals(g, i, j, g.k);
    assert Start(REALS, g, i, j) == g.beta * Addend(g, i, j);
  }
}

/** `execute_gemm_bytes` and `required_output_len`: the two calls of the CPU oracle. */
module GemmReference {
  import opened Wrappers
  import opened Machine
  import opened GemmProtocol
  import opened MatrixProduct
  import Float32

  datatype GemmLimits = GemmLimits(maxMatrixElements: u64, maxMultiplyAdds: u64)

  datatype ReferenceGemmError =
    | Protocol(error: GemmProtocolError)
    | ResourceLimit(resource: string, actual: nat, maximum: nat)
    | AddressSpaceOverflow

  const U128_LIMIT: int := 0x1_0000_0000_0000_0000_0000_0000_0000_0000

  /** `u128::from(m) * u128::from(n) * u128::from(k)` */
  function Operations(meta: GemmRequestMeta): nat {
    Times(Times(meta.m, meta.n), meta.k)
  }

  /** The 128-bit operation count never wraps for an accepted message. */
  lemma OperationsFit(input: seq<u8>)
    requires InspectRequest(input).Ok?
    ensures Operations(InspectRequest(input).value) < U128_LIMIT
  {
    var meta := InspectRequest(input).value;
    Indexing.AtMostTimes(Times(meta.m, meta.n), 0xFFFF_FFFF_FFFF_FFFF, meta.k);
  }

  function ValidateLimits(meta: GemmRequestMeta, limits: GemmLimits): Result<(), ReferenceGemmError> {
    if meta.aElements > limits.maxMatrixElements then
      Err(ResourceLimit("matrix A elements", meta.aElements, limits.maxMatrixElements))
    else if meta.bElements > limits.maxMatrixElements then
      Err(ResourceLimit("matrix B elements", meta.bElements, limits.maxMatrixElements))
    else if meta.cElements > limits.maxMatrixElements then
      Err(ResourceLimit("matrix C/output elements", meta.cElements, limits.maxMatrixElements))
    else if Operations(meta) > limits.maxMultiplyAdds then
      Err(ResourceLimit("multiply-add count", Operations(meta), limits.maxMultiplyAdds))
    else Ok(())
  }

  function OrProtocol<T>(result: Result<T, GemmProtocolError>): Result<T, ReferenceGemmError> {
    match result
    case Ok(value) => Ok(value)
    case Err(error) => Err(Protocol(error))
  }

  function RequiredOutputLen(input: seq<u8>, limits: GemmLimits): Result<u64, ReferenceGemmError> {
    var meta :- OrProtocol(InspectRequest(input));
    var _ :- ValidateLimits(meta, limits);
    OrProtocol(EncodedResponseLen(meta.m, meta.n))
  }

  /** The length call, exactly: an accepted message gets its header and four bytes per cell,
      or the first of the four limits that it exceeds, or an overflow of that length. */
  lemma RequiredLenExact(input: seq<u8>, limits: GemmLimits)
    ensures InspectRequest(input).Err? ==>
      RequiredOutputLen(input, limits) == Err(Protocol(InspectRequest(input).error))
    ensures InspectRequest(input).Ok? ==>
      var (m, n, k) := (InspectRequest(input).value.m, InspectRequest(input).value.n, InspectRequest(input).value.k);
      RequiredOutputLen(input, limits) ==
      if m * k > limits.maxMatrixElements then Err(ResourceLimit("matrix A elements", m * k, limits.maxMatrixElements))
      else if k * n > limits.maxMatrixElements then
        Err(ResourceLimit("matrix B elements", k * n, limits.maxMatrixElements))
      else if m * n > limits.maxMatrixElements then
        Err(ResourceLimit("matrix C/output elements", m * n, limits.maxMatrixElements))
      else if m * n * k > limits.maxMultiplyAdds then
        Err(ResourceLimit("multiply-add count", m * n * k, limits.maxMultiplyAdds))
      else if 32 + 4 * (m * n) < U64_LIMIT then Ok(32 + 4 * (m * n))
      else Err(Protocol(LengthOverflow))
  {
    if InspectRequest(input).Ok? {
      var meta := InspectRequest(input).value;
      InspectedLengths(input);
      ResponseLenExact(meta.m, meta.n);
      TimesNonNegative(meta.m, meta.k);
      TimesNonNegative(meta.k, meta.n);
      TimesNonNegative(meta.m, meta.n);
      TimesNonNegative(meta.m * meta.n, meta.k);
    }
  }

  /** Float addition and multiplication on bit patterns, left uninterpreted. */
  function Floats(add: (u32, u32) -> u32, mul: (u32, u32) -> u32): Arith<u32> {
    Arith(0, Float32.IsZero, add, mul)
  }

  function AsGemm(d: DecodedGemmRequest): Gemm<u32> {
    Gemm(d.meta.m, d.meta.n, d.meta.k, d.meta.alpha, d.meta.beta, d.a, d.b, d.c)
  }

  lemma DecodedIsValid(input: seq<u8>)
    requires Decoded(input).Ok?
    ensures AsGemm(Decoded(input).value).Valid()
    ensures Decoded(input).value.meta == InspectRequest(input).value
  {
    InspectedLengths(input);
  }

  // The answer in terms of the message -----------------------------------------------------

  /** A word of a payload run. */
  function Word(x: seq<u32>, i: int): u32 {
    if 0 <= i < |x| then x[i] else 0
  }

  /** The products of row i of A and column j of B, each times alpha first, added from left to
      right to a start. */
  function Folded(add: (u32, u32) -> u32, mul: (u32, u32) -> u32, d: DecodedGemmRequest,
                  i: nat, j: nat, start: u32, n: nat): u32
  {
    if n == 0 then start
    else
      add(Folded(add, mul, d, i, j, start, n - 1),
          mul(mul(d.meta.alpha, Word(d.a, i * d.meta.k + (n - 1))), Word(d.b, (n - 1) * d.meta.n + j)))
  }

  /** Where the fold starts: at beta times C if there is a C and beta is not zero. */
  function StartAt(mul: (u32, u32) -> u32, d: DecodedGemmRequest, i: nat, j: nat): u32 {
    if d.c.Some? && Float32.Value(d.meta.beta) != 0.0 then mul(d.meta.beta, Word(d.c.value, i * d.meta.n + j)) else 0
  }

  /** The value at row i and column j: nothing is added when alpha is zero. */
  predicate IsValue(add: (u32, u32) -> u32, mul: (u32, u32) -> u32, d: DecodedGemmRequest,
                    values: seq<u32>, i: nat, j: nat)
  {
    && 0 <= i * d.meta.n + j < |values|
    && values[i * d.meta.n + j]
        == if Float32.Value(d.meta.alpha) == 0.0 then StartAt(mul, d, i, j)
           else Folded(add, mul, d, i, j, StartAt(mul, d, i, j), d.meta.k)
  }

  ghost predicate AreValues(add: (u32, u32) -> u32, mul: (u32, u32) -> u32, d: DecodedGemmRequest, values: seq<u32>) {
    && |values| == d.meta.m * d.meta.n
    && forall i: nat, j: nat {:trigger IsValue(add, mul, d, values, i, j)} ::
        i < d.meta.m && j < d.meta.n ==> IsValue(add, mul, d, values, i, j)
  }

  lemma StartIsStart(add: (u32, u32) -> u32, mul: (u32, u32) -> u32, d: DecodedGemmRequest, i: nat, j: nat)
    requires AsGemm(d).Valid() && i < d.meta.m && j < d.meta.n
    ensures Start(Floats(add, mul), AsGemm(d), i, j) == StartAt(mul, d, i, j)
  {
    Float32.ZeroExactly(d.meta.beta);
    Indexing.InGrid(i, d.meta.m, j, d.meta.n);
  }

  lemma {:induction false} FoldIsFolded(add: (u32, u32) -> u32, mul: (u32, u32) -> u32, d: DecodedGemmRequest,
                                        i: nat, j: nat, n: nat)
    requires AsGemm(d).Valid() && i < d.meta.m && j < d.meta.n && n <= d.meta.k
    ensures Fold(Floats(add, mul), AsGemm(d), i, j, n) == Folded(add, mul, d, i, j, StartAt(mul, d, i, j), n)
  {
    if n == 0 {
      StartIsStart(add, mul, d, i, j);
    } else {
      FoldIsFolded(add, mul, d, i, j, n - 1);
      Indexing.InGrid(i, d.meta.m, n - 1, d.meta.k);
      Indexing.InGrid(n - 1, d.meta.k, j, d.meta.n);
    }
  }

  lemma ProductIsValues(add: (u32, u32) -> u32, mul: (u32, u32) -> u32, d: DecodedGemmRequest, values: seq<u32>)
    requires AsGemm(d).Valid() && IsProduct(Floats(add, mul), AsGemm(d), values)
    ensures AreValues(add, mul, d, values)
  {
    forall i: nat, j: nat | i < d.meta.m && j < d.meta.n ensures IsValue(add, mul, d, values, i, j) {
      CellIsValue(add, mul, d, values, i, j);
    }
  }

  lemma CellIsValue(add: (u32, u32) -> u32, mul: (u32, u32) -> u32, d: DecodedGemmRequest,
                    values: seq<u32>, i: nat, j: nat)
    requires AsGemm(d).Valid() && i < d.meta.m && j < d.meta.n && |values| == d.meta.m * d.meta.n
    requires At(values, d.meta.m, d.meta.n, i, j) == Cell(Floats(add, mul), AsGemm(d), i, j)
    ensures IsValue(add, mul, d, values, i, j)
  {
    Float32.ZeroExactly(d.meta.alpha);
    Indexing.InGrid(i, d.meta.m, j, d.meta.n);
    StartIsStart(add, mul, d, i, j);
    FoldIsFolded(add, mul, d, i, j, d.meta.k);
  }

  /** The oracle succeeds and fails exactly as the length call announces, with the same
      error and exactly the announced number of bytes, and these are the response whose
      every value is its cell of the product. */
  method ExecuteGemmBytes(input: seq<u8>, limits: GemmLimits, add: (u32, u32) -> u32, mul: (u32, u32) -> u32)
    returns (executed: Result<seq<u8>, ReferenceGemmError>)
    ensures executed.Ok? <==> RequiredOutputLen(input, limits).Ok?
    ensures executed.Err? ==> executed.error == RequiredOutputLen(input, limits).error
    ensures executed.Ok? ==> |executed.value| == RequiredOutputLen(input, limits).value
    ensures executed.Ok? ==> Decoded(input).Ok? && DecodedResponse(executed.value).Ok?
    ensures executed.Ok? ==>
      var (request, response) := (Decoded(input).value, DecodedResponse(executed.value).value);
      && response.m == request.meta.m && response.n == request.meta.n
      && AreValues(add, mul, request, response.values)
  {
    var inspected := InspectRequest(input);
    if inspected.Err? {
      return Err(Protocol(inspected.error));
    }
    var allowed := ValidateLimits(inspected.value, limits);
    if allowed.Err? {
      return Err(allowed.error);
    }
    var request := DecodeRequest(input);
    DecodedIsValid(input);
    var g := AsGemm(request.value);
    var output := Multiply(Floats(add, mul), g);
    var response := GemmResponse(g.m, g.n, output[..]);
    ResponseChecks(response);
    ResponseRoundTrips(ResponseBytes(response), response);
    var encoded := EncodeResponse(response);
    ProductIsValues(add, mul, request.value, output[..]);
    return OrProtocol(encoded);
  }

  /** A response with the right number of values can only fail on its length. */
  lemma ResponseChecks(r: GemmResponse)
    requires Times(r.m, r.n) == |r.values| < U64_LIMIT
    ensures CheckResponse(r) == EncodedResponseLen(r.m, r.n)
  {}
}
