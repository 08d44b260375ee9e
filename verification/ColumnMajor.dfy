/** Single-precision matrix product as column-major BLAS defines it (xGEMM of the
    reference BLAS, Level 3, without transposition), over the real numbers. */
module ColumnMajor {
  import opened Indexing
  import opened MatrixProduct

  /** Dimensions, scalars and leading dimensions of one call. */
  datatype Sgemm = Sgemm(m: int, n: int, k: int, alpha: real, lda: int, ldb: int, beta: real, ldc: int)
  {
    predicate Legal() {
      m >= 0 && n >= 0 && k >= 0 && lda >= Max(1, m) && ldb >= Max(1, k) && ldc >= Max(1, m)
    }
  }

  function Max(x: int, y: int): int {
    if x < y then y else x
  }

  /** A buffer long enough for `columns` columns of `rows` elements, `ld` apart. */
  predicate Holds(length: nat, rows: nat, columns: nat, ld: nat) {
    rows == 0 || columns == 0 || (columns - 1) * ld + rows <= length
  }

  lemma InColumn(length: nat, rows: nat, columns: nat, ld: nat, i: nat, j: nat)
    requires Holds(length, rows, columns, ld) && i < rows && j < columns
    ensures 0 <= i + j * ld < length
  {
    AtMostTimes(0, j, ld);
    AtMostTimes(j, columns - 1, ld);
  }

  /** The element in row i and column j. */
  function ColumnAt(x: seq<real>, rows: nat, columns: nat, ld: nat, i: nat, j: nat): real
    requires Holds(|x|, rows, columns, ld) && i < rows && j < columns
  {
    InColumn(|x|, rows, columns, ld, i, j);
    x[i + j * ld]
  }

  predicate Fits(call: Sgemm, a: seq<real>, b: seq<real>, c: seq<real>) {
    && call.Legal()
    && Holds(|a|, call.m, call.k, call.lda)
    && Holds(|b|, call.k, call.n, call.ldb)
    && Holds(|c|, call.m, call.n, call.ldc)
  }

  function ColumnDot(call: Sgemm, a: seq<real>, b: seq<real>, i: nat, j: nat, d: nat): real
    requires call.Legal() && Holds(|a|, call.m, call.k, call.lda) && Holds(|b|, call.k, call.n, call.ldb)
    requires i < call.m && j < call.n && d <= call.k
  {
    if d == 0 then 0.0
    else
      var x, y := ColumnAt(a, call.m, call.k, call.lda, i, d - 1), ColumnAt(b, call.k, call.n, call.ldb, d - 1, j);
      ColumnDot(call, a, b, i, j, d - 1) + x * y
  }

  /** What the call leaves in row i and column j of the C buffer, where x was. C is not read
      when beta is zero, and what lies between the columns keeps its value. */
  function WrittenAt(call: Sgemm, a: seq<real>, b: seq<real>, x: real, i: nat, j: nat): real
    requires call.Legal() && Holds(|a|, call.m, call.k, call.lda) && Holds(|b|, call.k, call.n, call.ldb)
  {
    if i < call.m && j < call.n then
      (if call.beta == 0.0 then 0.0 else call.beta * x) + call.alpha * ColumnDot(call, a, b, i, j, call.k)
    else x
  }

  function Written(call: Sgemm, a: seq<real>, b: seq<real>, c: seq<real>, r: nat): real
    requires Fits(call, a, b, c) && r < |c|
  {
    assert r / call.ldc >= 0;
    WrittenAt(call, a, b, c[r], r % call.ldc, r / call.ldc)
  }

  // The reference loops -------------------------------------------------------------------

  /** A column once it has been multiplied by beta; a zero beta does not read it. */
  function Scaled(column: seq<real>, beta: real): (scaled: seq<real>)
    ensures |scaled| == |column|
  {
    seq(|column|, i requires 0 <= i < |column| => if beta == 0.0 then 0.0 else beta * column[i])
  }

  method ScaleColumn(c: array<real>, base: nat, m: nat, beta: real)
    requires base + m <= c.Length
    modifies c
    ensures c[base..base + m] == Scaled(old(c[base..base + m]), beta)
    ensures c[..base] == old(c[..base]) && c[base + m..] == old(c[base + m..])
  {
    ghost var before := c[..];
    if beta != 1.0 {
      for i := 0 to m
        invariant forall r :: base <= r < base + i ==> c[r] == if beta == 0.0 then 0.0 else beta * before[r]
        invariant forall r :: 0 <= r < c.Length && !(base <= r < base + i) ==> c[r] == before[r]
      {
        c[base + i] := if beta == 0.0 then 0.0 else beta * c[base + i];
      }
    }
    ghost var expected := Scaled(before[base..base + m], beta);
    forall i | 0 <= i < m ensures c[base..base + m][i] == expected[i] {
      assert c[base + i] == if beta == 0.0 then 0.0 else beta * before[base + i];
    }
  }

  /** Column j after the first d products have been added to a starting column. */
  function ColumnAfter(call: Sgemm, a: seq<real>, b: seq<real>, start: seq<real>, j: nat, d: nat): (column: seq<real>)
    requires call.Legal() && Holds(|a|, call.m, call.k, call.lda) && Holds(|b|, call.k, call.n, call.ldb)
    requires |start| == call.m && j < call.n && d <= call.k
    ensures |column| == call.m
  {
    seq(call.m, i requires 0 <= i < call.m => start[i] + call.alpha * ColumnDot(call, a, b, i, j, d))
  }

  lemma NextCell(call: Sgemm, a: seq<real>, b: seq<real>, x: real, i: nat, j: nat, d: nat)
    requires call.Legal() && Holds(|a|, call.m, call.k, call.lda) && Holds(|b|, call.k, call.n, call.ldb)
    requires i < call.m && j < call.n && d < call.k
    ensures x + call.alpha * ColumnDot(call, a, b, i, j, d + 1)
         == x + call.alpha * ColumnDot(call, a, b, i, j, d)
              + (call.alpha * ColumnAt(b, call.k, call.n, call.ldb, d, j)) * ColumnAt(a, call.m, call.k, call.lda, i, d)
  {
    AddProduct(call.alpha, ColumnDot(call, a, b, i, j, d), ColumnAt(a, call.m, call.k, call.lda, i, d),
               ColumnAt(b, call.k, call.n, call.ldb, d, j));
  }

  lemma AddProduct(alpha: real, sum: real, x: real, y: real)
    ensures alpha * (sum + x * y) == alpha * sum + (alpha * y) * x
  {}

  lemma NextElement(call: Sgemm, a: seq<real>, b: seq<real>, start: seq<real>,
                    i: nat, j: nat, d: nat, next: nat, base: nat, scaled: real)
    requires call.Legal() && Holds(|a|, call.m, call.k, call.lda) && Holds(|b|, call.k, call.n, call.ldb)
    requires |start| == call.m && i < call.m && j < call.n && d < call.k && next == d + 1
    requires base == d * call.lda && base + call.m <= |a|
    requires scaled == call.alpha * ColumnAt(b, call.k, call.n, call.ldb, d, j)
    ensures ColumnAfter(call, a, b, start, j, next)[i]
         == REALS.add(ColumnAfter(call, a, b, start, j, d)[i], REALS.mul(scaled, a[base..base + call.m][i]))
  {
    NextCell(call, a, b, start[i], i, j, d);
    ColumnSlice(a, call.m, call.k, call.lda, d, base, i);
    SumOf(ColumnAfter(call, a, b, start, j, d)[i], scaled, a[base..base + call.m][i]);
  }

  lemma NextColumn(call: Sgemm, a: seq<real>, b: seq<real>, start: seq<real>,
                   j: nat, d: nat, next: nat, base: nat, scaled: real)
    requires call.Legal() && Holds(|a|, call.m, call.k, call.lda) && Holds(|b|, call.k, call.n, call.ldb)
    requires |start| == call.m && j < call.n && d < call.k && next == d + 1
    requires base == d * call.lda && base + call.m <= |a|
    requires scaled == call.alpha * ColumnAt(b, call.k, call.n, call.ldb, d, j)
    ensures ColumnAfter(call, a, b, start, j, next)
         == AddedRow(REALS, ColumnAfter(call, a, b, start, j, d), scaled, a[base..base + call.m])
  {
    var before, after, factors := ColumnAfter(call, a, b, start, j, d), ColumnAfter(call, a, b, start, j, next),
        a[base..base + call.m];
    forall i | 0 <= i < |after| ensures after[i] == REALS.add(before[i], REALS.mul(scaled, factors[i])) {
      NextElement(call, a, b, start, i, j, d, next, base, scaled);
    }
    IsAddedRow(before, after, scaled, factors);
  }

  lemma IsAddedRow(before: seq<real>, after: seq<real>, scaled: real, factors: seq<real>)
    requires |before| == |after| == |factors|
    requires forall i :: 0 <= i < |after| ==> after[i] == REALS.add(before[i], REALS.mul(scaled, factors[i]))
    ensures after == AddedRow(REALS, before, scaled, factors)
  {}

  lemma ColumnSlice(x: seq<real>, rows: nat, columns: nat, ld: nat, j: nat, base: nat, i: nat)
    requires Holds(|x|, rows, columns, ld) && i < rows && j < columns && base == j * ld && base + rows <= |x|
    ensures x[base..base + rows][i] == ColumnAt(x, rows, columns, ld, i, j)
  {}

  lemma SumOf(x: real, y: real, z: real)
    ensures REALS.add(x, REALS.mul(y, z)) == x + y * z
  {}

  lemma ColumnFits(length: nat, rows: nat, columns: nat, ld: nat, j: nat)
    requires Holds(length, rows, columns, ld) && 0 < rows && j < columns
    ensures 0 <= j * ld && j * ld + rows <= length
  {
    InColumn(length, rows, columns, ld, rows - 1, j);
    AtMostTimes(0, j, ld);
  }

  /** Scale the column, then add one multiple of a column of A per depth. */
  method UpdateColumn(call: Sgemm, a: seq<real>, b: seq<real>, c: array<real>, j: nat, base: nat)
    requires Fits(call, a, b, c[..]) && j < call.n && base + call.m <= c.Length && call.m > 0
    modifies c
    ensures c[base..base + call.m]
         == ColumnAfter(call, a, b, Scaled(old(c[base..base + call.m]), call.beta), j, call.k)
    ensures c[..base] == old(c[..base]) && c[base + call.m..] == old(c[base + call.m..])
  {
    ScaleColumn(c, base, call.m, call.beta);
    ghost var start := c[base..base + call.m];
    assert ColumnAfter(call, a, b, start, j, 0) == start;
    if call.alpha != 0.0 {
      for l := 0 to call.k
        invariant c[base..base + call.m] == ColumnAfter(call, a, b, start, j, l)
        invariant c[..base] == old(c[..base]) && c[base + call.m..] == old(c[base + call.m..])
      {
        ColumnFits(|a|, call.m, call.k, call.lda, l);
        var scaled := call.alpha * ColumnAt(b, call.k, call.n, call.ldb, l, j);
        NextColumn(call, a, b, start, j, l, l + 1, l * call.lda, scaled);
        AddScaledRow(REALS, c, base, call.m, scaled, a, l * call.lda);
      }
    } else {
      assert ColumnAfter(call, a, b, start, j, call.k) == start;
    }
  }

  /** A position in row i0 and column j0 that held x0, when the first j columns are final. */
  predicate ReachedAt(call: Sgemm, a: seq<real>, b: seq<real>, x0: real, x: real, i0: nat, j0: nat, j: nat)
    requires call.Legal() && Holds(|a|, call.m, call.k, call.lda) && Holds(|b|, call.k, call.n, call.ldb)
  {
    x == if j0 < j then WrittenAt(call, a, b, x0, i0, j0) else x0
  }

  predicate Reached(call: Sgemm, a: seq<real>, b: seq<real>, before: seq<real>, now: seq<real>, j: nat, r: nat)
    requires Fits(call, a, b, before) && |now| == |before| && r < |now|
  {
    assert r / call.ldc >= 0;
    ReachedAt(call, a, b, before[r], now[r], r % call.ldc, r / call.ldc, j)
  }

  ghost predicate ColumnsDone(call: Sgemm, a: seq<real>, b: seq<real>, before: seq<real>, now: seq<real>, j: nat)
    requires Fits(call, a, b, before) && |now| == |before|
  {
    forall r :: 0 <= r < |now| ==> Reached(call, a, b, before, now, j, r)
  }

  /** Which positions column j occupies. */
  lemma Place(r: nat, j: nat, m: nat, ld: nat)
    requires 0 < ld && m <= ld
    ensures 0 <= j * ld && 0 <= r / ld
    ensures j * ld <= r < j * ld + m <==> r / ld == j && r % ld < m
    ensures r / ld == j ==> r == j * ld + r % ld
  {
    var quotient := r / ld;
    assert r == quotient * ld + r % ld;
    AtMostTimes(0, j, ld);
    if quotient < j {
      LessTimes(quotient, j, ld);
    } else if quotient > j {
      LessTimes(j, quotient, ld);
    }
  }

  lemma StepAt(call: Sgemm, a: seq<real>, b: seq<real>, x0: real, x: real, y: real, i0: nat, j0: nat, j: nat, next: nat)
    requires call.Legal() && Holds(|a|, call.m, call.k, call.lda) && Holds(|b|, call.k, call.n, call.ldb)
    requires ReachedAt(call, a, b, x0, x, i0, j0, j) && j < call.n && next == j + 1
    requires if j0 == j && i0 < call.m then y == WrittenAt(call, a, b, x, i0, j0) else y == x
    ensures ReachedAt(call, a, b, x0, y, i0, j0, next)
  {}

  /** What one turn of the outer loop does to position r. */
  lemma TurnAt(call: Sgemm, a: seq<real>, b: seq<real>, now: seq<real>,
               after: seq<real>, j: nat, base: nat, r: nat, i0: nat, j0: nat)
    requires call.Legal() && Holds(|a|, call.m, call.k, call.lda) && Holds(|b|, call.k, call.n, call.ldb)
    requires |after| == |now| && j < call.n && base + call.m <= |now| && r < |now|
    requires base <= r < base + call.m <==> j0 == j && i0 < call.m
    requires j0 == j ==> r == base + i0
    requires after[base..base + call.m]
        == ColumnAfter(call, a, b, Scaled(now[base..base + call.m], call.beta), j, call.k)
    requires after[..base] == now[..base] && after[base + call.m..] == now[base + call.m..]
    ensures if j0 == j && i0 < call.m then after[r] == WrittenAt(call, a, b, now[r], i0, j0) else after[r] == now[r]
  {
    if base <= r < base + call.m {
      assert after[r] == after[base..base + call.m][i0];
      assert now[r] == now[base..base + call.m][i0];
    } else if r < base {
      assert after[..base][r] == now[..base][r];
    } else {
      assert after[base + call.m..][r - (base + call.m)] == now[base + call.m..][r - (base + call.m)];
    }
  }

  lemma OneColumnMore(call: Sgemm, a: seq<real>, b: seq<real>, before: seq<real>,
                      now: seq<real>, after: seq<real>, j: nat, next: nat, base: nat)
    requires Fits(call, a, b, before) && |after| == |now| == |before| && j < call.n && next == j + 1
    requires base == j * call.ldc && base + call.m <= |before|
    requires ColumnsDone(call, a, b, before, now, j)
    requires after[base..base + call.m]
        == ColumnAfter(call, a, b, Scaled(now[base..base + call.m], call.beta), j, call.k)
    requires after[..base] == now[..base] && after[base + call.m..] == now[base + call.m..]
    ensures ColumnsDone(call, a, b, before, after, next)
  {
    forall r | 0 <= r < |after| ensures Reached(call, a, b, before, after, next, r) {
      Place(r, j, call.m, call.ldc);
      assert Reached(call, a, b, before, now, j, r);
      var i0, j0 := r % call.ldc, r / call.ldc;
      TurnAt(call, a, b, now, after, j, base, r, i0, j0);
      StepAt(call, a, b, before[r], now[r], after[r], i0, j0, j, next);
    }
  }

  /** One turn of the outer loop. */
  method NextColumnDone(call: Sgemm, a: seq<real>, b: seq<real>, c: array<real>,
                        ghost before: seq<real>, j: nat, base: nat)
    requires Fits(call, a, b, before) && c.Length == |before| && j < call.n && call.m > 0
    requires base == j * call.ldc && base + call.m <= c.Length
    requires ColumnsDone(call, a, b, before, c[..], j)
    modifies c
    ensures ColumnsDone(call, a, b, before, c[..], j + 1)
  {
    ghost var now := c[..];
    UpdateColumn(call, a, b, c, j, base);
    assert c[..][base..base + call.m] == c[base..base + call.m]
        && now[base..base + call.m] == old(c[base..base + call.m]);
    assert c[..][..base] == c[..base] && c[..][base + call.m..] == c[base + call.m..];
    OneColumnMore(call, a, b, before, now, c[..], j, j + 1, base);
  }

  lemma NoColumns(call: Sgemm, a: seq<real>, b: seq<real>, c: seq<real>)
    requires Fits(call, a, b, c)
    ensures ColumnsDone(call, a, b, c, c, 0)
  {
    forall r | 0 <= r < |c| ensures Reached(call, a, b, c, c, 0, r) {
      Place(r, 0, call.m, call.ldc);
    }
  }

  ghost predicate AllWritten(call: Sgemm, a: seq<real>, b: seq<real>, before: seq<real>, now: seq<real>)
    requires Fits(call, a, b, before) && |now| == |before|
  {
    forall r :: 0 <= r < |now| ==> now[r] == Written(call, a, b, before, r)
  }

  lemma AllColumns(call: Sgemm, a: seq<real>, b: seq<real>, before: seq<real>, now: seq<real>)
    requires Fits(call, a, b, before) && |now| == |before|
    requires ColumnsDone(call, a, b, before, now, call.n)
    ensures AllWritten(call, a, b, before, now)
  {
    forall r | 0 <= r < |now| ensures now[r] == Written(call, a, b, before, r) {
      assert Reached(call, a, b, before, now, call.n, r);
    }
  }

  predicate NothingToDo(call: Sgemm) {
    call.m == 0 || call.n == 0 || ((call.alpha == 0.0 || call.k == 0) && call.beta == 1.0)
  }

  lemma NothingWritten(call: Sgemm, a: seq<real>, b: seq<real>, c: seq<real>)
    requires Fits(call, a, b, c) && NothingToDo(call)
    ensures AllWritten(call, a, b, c, c)
  {
    forall r | 0 <= r < |c| ensures c[r] == Written(call, a, b, c, r) {
      Place(r, 0, call.m, call.ldc);
    }
  }

  /** The loops of the reference xGEMM leave what its definition says. */
  method Execute(call: Sgemm, a: seq<real>, b: seq<real>, c: array<real>)
    requires Fits(call, a, b, c[..])
    modifies c
    ensures AllWritten(call, a, b, old(c[..]), c[..])
  {
    ghost var before := c[..];
    if NothingToDo(call) {
      NothingWritten(call, a, b, before);
      return;
    }
    NoColumns(call, a, b, before);
    RunColumns(call, a, b, c, before);
  }

  method RunColumns(call: Sgemm, a: seq<real>, b: seq<real>, c: array<real>, ghost before: seq<real>)
    requires Fits(call, a, b, before) && c.Length == |before| && call.m > 0 && ColumnsDone(call, a, b, before, c[..], 0)
    modifies c
    ensures AllWritten(call, a, b, before, c[..])
  {
    for j := 0 to call.n
      invariant ColumnsDone(call, a, b, before, c[..], j)
    {
      ColumnFits(c.Length, call.m, call.n, call.ldc, j);
      NextColumnDone(call, a, b, c, before, j, j * call.ldc);
    }
    AllColumns(call, a, b, before, c[..]);
  }
}
