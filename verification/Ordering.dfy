/** Total orders, the least element of a finite set under one, and why iterating an ordered
    map and keeping the first smallest element finds it. */
module Ordering {

  /** The three laws, as predicates of their own so that the quantifiers below
      are only used at the elements a proof names. */
  ghost predicate Comparable<K>(leq: (K, K) -> bool, a: K, b: K) {
    leq(a, b) || leq(b, a)
  }

  ghost predicate Distinguished<K>(leq: (K, K) -> bool, a: K, b: K) {
    leq(a, b) && leq(b, a) ==> a == b
  }

  ghost predicate Chained<K>(leq: (K, K) -> bool, a: K, b: K, c: K) {
    leq(a, b) && leq(b, c) ==> leq(a, c)
  }

  ghost predicate TotalOrder<K(!new)>(leq: (K, K) -> bool) {
    && (forall a, b :: Comparable(leq, a, b))
    && (forall a, b :: Distinguished(leq, a, b))
    && (forall a, b, c :: Chained(leq, a, b, c))
  }

  ghost predicate TotalOrderOn<K(!new)>(keys: set<K>, leq: (K, K) -> bool) {
    && (forall a, b {:trigger Comparable(leq, a, b)} :: a in keys && b in keys ==> Comparable(leq, a, b))
    && (forall a, b {:trigger Distinguished(leq, a, b)} :: a in keys && b in keys ==> Distinguished(leq, a, b))
    && (forall a, b, c {:trigger Chained(leq, a, b, c)} ::
        a in keys && b in keys && c in keys ==> Chained(leq, a, b, c))
  }

  predicate IsLeast<K>(keys: set<K>, leq: (K, K) -> bool, least: K) {
    least in keys && forall k :: k in keys ==> AtMost(leq, least, k)
  }

  predicate AtMost<K>(leq: (K, K) -> bool, a: K, b: K) {
    leq(a, b)
  }

  lemma LeastExists<K(!new)>(keys: set<K>, leq: (K, K) -> bool)
    requires keys != {} && TotalOrderOn(keys, leq)
    ensures exists k :: IsLeast(keys, leq, k)
    decreases |keys|
  {
    var x :| x in keys;
    assert Comparable(leq, x, x);
    var rest := keys - {x};
    if rest == {} {
      assert keys == {x} && AtMost(leq, x, x);
      assert IsLeast(keys, leq, x);
    } else {
      LeastExists(rest, leq);
      var y :| IsLeast(rest, leq, y);
      assert Comparable(leq, x, y);
      var least := if leq(x, y) then x else y;
      forall k | k in keys ensures AtMost(leq, least, k) {
        assert k in rest ==> AtMost(leq, y, k);
        assert k == x || k in rest;
        assert Chained(leq, x, y, k);
      }
      assert IsLeast(keys, leq, least);
    }
  }

  lemma LeastUnique<K(!new)>(keys: set<K>, leq: (K, K) -> bool, a: K, b: K)
    requires TotalOrderOn(keys, leq)
    requires IsLeast(keys, leq, a) && IsLeast(keys, leq, b)
    ensures a == b
  {
    assert Distinguished(leq, a, b) && AtMost(leq, a, b) && AtMost(leq, b, a);
  }

  function Least<K(!new, ==)>(keys: set<K>, leq: (K, K) -> bool): (least: K)
    requires keys != {} && TotalOrderOn(keys, leq)
    ensures IsLeast(keys, leq, least)
  {
    LeastExists(keys, leq);
    assert forall a, b :: IsLeast(keys, leq, a) && IsLeast(keys, leq, b) ==> a == b by {
      forall a, b | IsLeast(keys, leq, a) && IsLeast(keys, leq, b) ensures a == b {
        LeastUnique(keys, leq, a, b);
      }
    }
    var least :| least in keys && IsLeast(keys, leq, least);
    least
  }

  // Ordered iteration ----------------------------------------------------------------------

  predicate InOrder<K>(leq: (K, K) -> bool, list: seq<K>, i: nat, j: nat)
    requires i < |list| && j < |list|
  {
    leq(list[i], list[j])
  }

  predicate Ascending<K>(leq: (K, K) -> bool, list: seq<K>) {
    forall i, j :: 0 <= i < j < |list| ==> InOrder(leq, list, i, j)
  }

  /** The keys of an ordered map, in the order it is iterated. */
  function Sorted<K(!new, ==)>(keys: set<K>, leq: (K, K) -> bool): (list: seq<K>)
    requires TotalOrderOn(keys, leq)
    ensures Ascending(leq, list)
    ensures forall k :: k in keys <==> k in list
    decreases |keys|
  {
    if keys == {} then []
    else
      var least := Least(keys, leq);
      var rest := Sorted(keys - {least}, leq);
      assert Ascending(leq, [least] + rest) by {
        StillAscending(leq, least, rest, keys);
      }
      [least] + rest
  }

  lemma StillAscending<K(!new)>(leq: (K, K) -> bool, least: K, rest: seq<K>, keys: set<K>)
    requires Ascending(leq, rest) && (forall k :: k in rest ==> k in keys) && IsLeast(keys, leq, least)
    ensures Ascending(leq, [least] + rest)
  {
    var list := [least] + rest;
    forall i, j | 0 <= i < j < |list| ensures InOrder(leq, list, i, j) {
      if i == 0 {
        assert list[j] in rest;
        assert AtMost(leq, least, list[j]);
      } else {
        assert InOrder(leq, rest, i - 1, j - 1);
      }
    }
  }

  /** `min_by` over an iterator: keep the element found so far unless the next is strictly
      smaller. */
  function FirstLeast<K>(list: seq<K>, less: (K, K) -> bool): K
    requires list != []
  {
    var last := |list| - 1;
    if last == 0 then list[0]
    else
      var best := FirstLeast(list[..last], less);
      if less(list[last], best) then list[last] else best
  }

  /** An order that compares by `less` first and by `leq` among the equals. */
  ghost predicate BreaksTies<K(!new)>(keys: set<K>, leq: (K, K) -> bool, less: (K, K) -> bool, order: (K, K) -> bool) {
    forall a, b {:trigger TieBroken(leq, less, order, a, b)} ::
        a in keys && b in keys ==> TieBroken(leq, less, order, a, b)
  }

  ghost predicate TieBroken<K>(leq: (K, K) -> bool, less: (K, K) -> bool, order: (K, K) -> bool, a: K, b: K) {
    order(a, b) <==> less(a, b) || (!less(b, a) && leq(a, b))
  }

  lemma {:induction false} FirstLeastOfPrefix<K(!new)>(keys: set<K>, leq: (K, K) -> bool, less: (K, K) -> bool,
                                                       order: (K, K) -> bool,
                                                       list: seq<K>)
    requires TotalOrderOn(keys, order) && BreaksTies(keys, leq, less, order)
    requires list != [] && Ascending(leq, list) && forall k :: k in list ==> k in keys
    ensures FirstLeast(list, less) in list
    ensures forall k :: k in list ==> AtMost(order, FirstLeast(list, less), k)
  {
    var last := |list| - 1;
    assert Comparable(order, list[last], list[last]);
    if last == 0 {
      assert forall k :: k in list ==> k == list[0];
    } else {
      var front, x := list[..last], list[last];
      assert Ascending(leq, front) by {
        forall i, j | 0 <= i < j < |front| ensures InOrder(leq, front, i, j) {
          assert InOrder(leq, list, i, j);
        }
      }
      FirstLeastOfPrefix(keys, leq, less, order, front);
      var best := FirstLeast(front, less);
      var i :| 0 <= i < last && list[i] == best;
      assert InOrder(leq, list, i, last);
      assert TieBroken(leq, less, order, x, best) && TieBroken(leq, less, order, best, x);
      forall k | k in list ensures AtMost(order, FirstLeast(list, less), k) {
        if k != x {
          assert k in front && AtMost(order, best, k);
          assert Chained(order, x, best, k);
        }
      }
    }
  }

  /** So iterating an ordered map and taking the first smallest element is the least element
      of the order "smaller first, then the smaller key". */
  lemma FirstLeastIsLeast<K(!new)>(keys: set<K>, leq: (K, K) -> bool, less: (K, K) -> bool, order: (K, K) -> bool)
    requires keys != {} && TotalOrderOn(keys, leq) && TotalOrderOn(keys, order) && BreaksTies(keys, leq, less, order)
    ensures Sorted(keys, leq) != []
    ensures FirstLeast(Sorted(keys, leq), less) == Least(keys, order)
  {
    var list := Sorted(keys, leq);
    var k :| k in keys;
    assert k in list;
    FirstLeastOfPrefix(keys, leq, less, order, list);
    LeastUnique(keys, order, FirstLeast(list, less), Least(keys, order));
  }

  /** The order of Rust strings: by code point, a proper prefix first. */
  predicate StringLeq(a: string, b: string) {
    a == [] || (b != [] && (a[0] < b[0] || (a[0] == b[0] && StringLeq(a[1..], b[1..]))))
  }

  /** The first position where two strings differ, and what differs there. */
  predicate DifferAt(a: string, b: string, i: nat) {
    i < |a| && i < |b| && a[..i] == b[..i] && a[i] < b[i]
  }

  lemma HeadsAgree(a: string, b: string, i: nat)
    requires i > 0 && DifferAt(a, b, i)
    ensures a[0] == b[0]
  {
    assert a[..i][0] == b[..i][0];
  }

  /** One string is at most another exactly when it is a prefix of it, or has the smaller
      code point where they first differ. */
  lemma {:induction false} StringLeqExactly(a: string, b: string)
    ensures StringLeq(a, b) <==> a <= b || exists i: nat :: DifferAt(a, b, i)
  {
    if a != [] && b != [] {
      StringLeqExactly(a[1..], b[1..]);
      assert a == [a[0]] + a[1..] && b == [b[0]] + b[1..];
      if a[0] == b[0] {
        forall i: nat | DifferAt(a[1..], b[1..], i) ensures DifferAt(a, b, i + 1) {
          assert a[..i + 1] == [a[0]] + a[1..][..i] && b[..i + 1] == [b[0]] + b[1..][..i];
        }
        forall i: nat | DifferAt(a, b, i) ensures i > 0 && DifferAt(a[1..], b[1..], i - 1) {
          assert a[1..][..i - 1] == a[..i][1..] && b[1..][..i - 1] == b[..i][1..];
        }
      } else {
        assert a[0] < b[0] ==> DifferAt(a, b, 0);
        forall i: nat | DifferAt(a, b, i) ensures i == 0 {
          if i > 0 { HeadsAgree(a, b, i); }
        }
      }
    }
  }

  lemma StringLeqTotal(a: string, b: string)
    ensures StringLeq(a, b) || StringLeq(b, a)
  {}

  lemma {:induction false} StringLeqAntisymmetric(a: string, b: string)
    requires StringLeq(a, b) && StringLeq(b, a)
    ensures a == b
  {
    if a != [] && b != [] {
      StringLeqAntisymmetric(a[1..], b[1..]);
      assert a == [a[0]] + a[1..] && b == [b[0]] + b[1..];
    }
  }

  lemma {:induction false} StringLeqTransitive(a: string, b: string, c: string)
    requires StringLeq(a, b) && StringLeq(b, c)
    ensures StringLeq(a, c)
  {
    if a != [] && b != [] && c != [] && a[0] == b[0] == c[0] {
      StringLeqTransitive(a[1..], b[1..], c[1..]);
    }
  }

  lemma StringOrder()
    ensures TotalOrder(StringLeq)
  {
    forall a, b ensures Comparable(StringLeq, a, b) { StringLeqTotal(a, b); }
    forall a, b ensures Distinguished(StringLeq, a, b) {
      if StringLeq(a, b) && StringLeq(b, a) { StringLeqAntisymmetric(a, b); }
    }
    forall a, b, c ensures Chained(StringLeq, a, b, c) {
      if StringLeq(a, b) && StringLeq(b, c) { StringLeqTransitive(a, b, c); }
    }
  }
}
