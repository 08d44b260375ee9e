/** Row-major index arithmetic: position (i, j) of an n x m grid is i * m + j. */
module Indexing {

  lemma AtMostTimes(a: nat, b: nat, m: nat)
    requires a <= b
    ensures a * m <= b * m
  {
    assert (b - a) * m >= 0;
    assert b * m == a * m + (b - a) * m;
  }

  lemma LessTimes(a: nat, b: nat, m: nat)
    requires a < b
    ensures a * m + m <= b * m
  {
    AtMostTimes(a + 1, b, m);
    assert (a + 1) * m == a * m + m;
  }

  lemma InGrid(i: nat, n: nat, j: nat, m: nat)
    requires i < n && j < m
    ensures 0 <= i * m + j < n * m
  {
    LessTimes(i, n, m);
    AtMostTimes(0, i, m);
  }

  lemma BlockInGrid(i: nat, n: nat, count: nat, m: nat)
    requires i < n && count <= m
    ensures 0 <= i * m && i * m + count <= n * m
  {
    LessTimes(i, n, m);
    AtMostTimes(0, i, m);
  }

  /** The position determines both coordinates. */
  lemma GridDecode(i: nat, j: nat, m: nat)
    requires j < m
    ensures 0 <= i * m + j
    ensures (i * m + j) / m == i && (i * m + j) % m == j
  {
    AtMostTimes(0, i, m);
    QuotientUnique(i * m + j, i, j, m);
  }

  lemma QuotientUnique(r: nat, i: nat, j: nat, m: nat)
    requires j < m && r == i * m + j
    ensures r / m == i && r % m == j
  {
    var quotient := r / m;
    assert r == quotient * m + r % m;
    if quotient < i {
      LessTimes(quotient, i, m);
    } else if i < quotient {
      LessTimes(i, quotient, m);
    }
  }

  lemma GridEncode(r: nat, n: nat, m: nat)
    requires r < n * m
    ensures m > 0 && r / m < n && r == (r / m) * m + r % m
  {
    if r / m >= n {
      AtMostTimes(n, r / m, m);
    }
  }

  lemma SliceOfSlice<T>(s: seq<T>, from: nat, to: nat, i: nat, j: nat)
    requires i <= j && from + j <= to <= |s|
    ensures s[from..to][i..j] == s[from + i..from + j]
  {
    forall k | 0 <= k < j - i ensures s[from..to][i..j][k] == s[from + i..from + j][k] {}
  }
}
