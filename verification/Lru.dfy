/** Least-recently-used eviction shared by the KV cache and the residency cache.

    The caches store a touch timestamp per entry and repeatedly remove the entry
    with the smallest one (`min_by_key` over a `BTreeMap`, so ties go to the
    smallest key). This module states that loop on `Slot` maps and relates it to
    a recency list that has no timestamps at all. */
module Lru {
  import opened Wrappers
  import opened Machine
  import opened Ordering

  datatype Slot = Slot(weight: nat, touch: nat)

  /** A recency list: the least recently touched entry first. */
  datatype List<+K> = Nil | Cons(head: K, tail: List<K>)

  /** What the eviction loop did: the victims in order, the byte count it was left
      with, and whether room was made. */
  datatype Eviction<+K> = Eviction(victims: List<K>, used: nat, fits: bool)

  function OlderFirst<K>(slots: map<K, Slot>, leq: (K, K) -> bool): (K, K) -> bool {
    (a, b) =>
      a in slots && b in slots &&
      (slots[a].touch < slots[b].touch || (slots[a].touch == slots[b].touch && leq(a, b)))
  }

  lemma OlderFirstOrders<K(!new)>(slots: map<K, Slot>, leq: (K, K) -> bool, keys: set<K>)
    requires TotalOrder(leq) && keys <= slots.Keys
    ensures TotalOrderOn(keys, OlderFirst(slots, leq))
  {
    var older := OlderFirst(slots, leq);
    forall a, b | a in keys && b in keys ensures Comparable(older, a, b) && Distinguished(older, a, b) {
      assert Comparable(leq, a, b) && Distinguished(leq, a, b);
    }
    forall a, b, c | a in keys && b in keys && c in keys ensures Chained(older, a, b, c) {
      assert Chained(leq, a, b, c);
    }
  }

  /** The entry `min_by_key(last_touch)` picks among the evictable ones. */
  function Victim<K(!new, ==)>(slots: map<K, Slot>, leq: (K, K) -> bool): K
    requires TotalOrder(leq) && slots != map[]
    ensures Victim(slots, leq) in slots
  {
    OlderFirstOrders(slots, leq, slots.Keys);
    assert exists k :: k in slots;
    Least(slots.Keys, OlderFirst(slots, leq))
  }

  /** `iter().min_by_key(|(_, entry)| entry.last_touch)` over the ordered map. */
  lemma VictimIsFirstOldest<K(!new)>(slots: map<K, Slot>, leq: (K, K) -> bool)
    requires TotalOrder(leq) && slots != map[]
    ensures TotalOrderOn(slots.Keys, leq) && Sorted(slots.Keys, leq) != []
    ensures Victim(slots, leq) == FirstLeast(Sorted(slots.Keys, leq), Older(slots))
  {
    OlderFirstOrders(slots, leq, slots.Keys);
    assert exists k :: k in slots;
    forall a, b | a in slots.Keys && b in slots.Keys ensures Comparable(leq, a, b) && Distinguished(leq, a, b) {
      assert Comparable(leq, a, b) && Distinguished(leq, a, b);
    }
    forall a, b, c | a in slots.Keys && b in slots.Keys && c in slots.Keys ensures Chained(leq, a, b, c) {
      assert Chained(leq, a, b, c);
    }
    forall a, b | a in slots.Keys && b in slots.Keys
      ensures TieBroken(leq, Older(slots), OlderFirst(slots, leq), a, b)
    {}
    FirstLeastIsLeast(slots.Keys, leq, Older(slots), OlderFirst(slots, leq));
  }

  function Older<K>(slots: map<K, Slot>): (K, K) -> bool {
    (a, b) => a in slots && b in slots && slots[a].touch < slots[b].touch
  }

  /** The eviction loop over the evictable entries: `while used > budget { remove
      the victim }`, where the budget is the capacity less the bytes about to be
      added and `used` counts the protected entries as well. */
  function Evict<K(!new, ==)>(slots: map<K, Slot>, used: nat, budget: int, leq: (K, K) -> bool): Eviction<K>
    requires TotalOrder(leq)
    decreases |slots|
  {
    if used <= budget then Eviction(Nil, used, true)
    else if slots == map[] then Eviction(Nil, used, false)
    else
      var victim := Victim(slots, leq);
      DropShrinks(slots, victim);
      var rest := Evict(Drop(slots, victim), AfterEviction(used, slots[victim]), budget, leq);
      rest.(victims := Cons(victim, rest.victims))
  }

  /** `used.saturating_sub(weight)`. */
  function AfterEviction(used: nat, slot: Slot): nat {
    if used < slot.weight then 0 else used - slot.weight
  }

  function Drop<K, V>(m: map<K, V>, k: K): map<K, V> {
    map j | j in m && j != k :: m[j]
  }

  function DropAll<K(==), V>(m: map<K, V>, gone: List<K>): map<K, V> {
    map j | j in m && !Has(gone, j) :: m[j]
  }

  lemma DropShrinks<K, V>(m: map<K, V>, k: K)
    requires k in m
    ensures |Drop(m, k)| == |m| - 1
  {
    assert Drop(m, k).Keys == m.Keys - {k};
  }

  lemma {:induction false} EvictBounded<K(!new)>(slots: map<K, Slot>, used: nat, budget: int, leq: (K, K) -> bool)
    requires TotalOrder(leq)
    ensures Evict(slots, used, budget, leq).used <= used
    decreases |slots|
  {
    if used > budget && slots != map[] {
      var victim := Victim(slots, leq);
      DropShrinks(slots, victim);
      EvictBounded(Drop(slots, victim), AfterEviction(used, slots[victim]), budget, leq);
    }
  }

  predicate Has<K(==)>(list: List<K>, k: K) {
    list.Cons? && (list.head == k || Has(list.tail, k))
  }

  function Length<K>(list: List<K>): nat {
    match list
    case Nil => 0
    case Cons(_, rest) => 1 + Length(rest)
  }

  // Accounting -------------------------------------------------------------

  ghost function Total<K>(slots: map<K, Slot>): nat
    decreases |slots|
  {
    if slots == map[] then 0
    else
      var k :| k in slots;
      DropShrinks(slots, k);
      slots[k].weight + Total(Drop(slots, k))
  }

  lemma {:induction false} TotalRemove<K>(slots: map<K, Slot>, k: K)
    requires k in slots
    ensures Total(slots) == slots[k].weight + Total(Drop(slots, k))
    decreases |slots|
  {
    var c :| c in slots && Total(slots) == slots[c].weight + Total(Drop(slots, c));
    if c != k {
      DropShrinks(slots, c);
      DropShrinks(slots, k);
      TotalRemove(Drop(slots, c), k);
      TotalRemove(Drop(slots, k), c);
      assert Drop(Drop(slots, c), k) == Drop(Drop(slots, k), c);
    }
  }

  lemma {:induction false} TotalSameWeights<K>(slots: map<K, Slot>, slots': map<K, Slot>)
    requires slots.Keys == slots'.Keys
    requires forall k :: k in slots ==> slots[k].weight == slots'[k].weight
    ensures Total(slots) == Total(slots')
    decreases |slots|
  {
    if k :| k in slots {
      TotalRemove(slots, k);
      TotalRemove(slots', k);
      DropShrinks(slots, k);
      assert Drop(slots, k).Keys == Drop(slots', k).Keys;
      TotalSameWeights(Drop(slots, k), Drop(slots', k));
    }
  }

  lemma TotalUpdate<K>(slots: map<K, Slot>, k: K, slot: Slot)
    ensures Total(slots[k := slot]) == Total(Drop(slots, k)) + slot.weight
  {
    TotalRemove(slots[k := slot], k);
    assert Drop(slots[k := slot], k) == Drop(slots, k);
  }

  /** What is left once the listed entries have been removed one by one. */
  function Remaining<K, V>(m: map<K, V>, victims: List<K>): map<K, V> {
    match victims
    case Nil => m
    case Cons(victim, later) => Remaining(Drop(m, victim), later)
  }

  lemma {:induction false} RemainingIsDifference<K, V>(m: map<K, V>, victims: List<K>)
    ensures Remaining(m, victims) == DropAll(m, victims)
  {
    if victims.Cons? {
      RemainingIsDifference(Drop(m, victims.head), victims.tail);
    }
  }

  /** Whatever the timestamps are, the loop makes room exactly when the protected
      bytes leave room, `used` stays an exact count, and every victim is an entry. */
  lemma {:induction false} EvictAccounts<K(!new)>(slots: map<K, Slot>, pinned: nat, budget: int, leq: (K, K) -> bool)
    requires TotalOrder(leq)
    ensures var e := Evict(slots, pinned + Total(slots), budget, leq);
      && (e.fits <==> pinned <= budget)
      && e.used == pinned + Total(Remaining(slots, e.victims))
      && (e.fits ==> e.used <= budget)
      && e.used <= pinned + Total(slots)
      && |slots| == |Remaining(slots, e.victims)| + Length(e.victims)
    decreases |slots|
  {
    if pinned + Total(slots) > budget && slots != map[] {
      var victim := Victim(slots, leq);
      TotalRemove(slots, victim);
      DropShrinks(slots, victim);
      EvictAccounts(Drop(slots, victim), pinned, budget, leq);
    }
  }

  lemma {:induction false} VictimsAreEntries<K(!new)>(slots: map<K, Slot>, used: nat, budget: int, leq: (K, K) -> bool)
    requires TotalOrder(leq)
    ensures forall k :: Has(Evict(slots, used, budget, leq).victims, k) ==> k in slots
    decreases |slots|
  {
    if used > budget && slots != map[] {
      var victim := Victim(slots, leq);
      DropShrinks(slots, victim);
      VictimsAreEntries(Drop(slots, victim), AfterEviction(used, slots[victim]), budget, leq);
    }
  }

  /** Removing entries other than `k` leaves `k` alone and removes the same entries
      beside it. */
  lemma RemainingBeside<K, V>(m: map<K, V>, victims: List<K>, k: K)
    requires !Has(victims, k)
    ensures Drop(Remaining(m, victims), k) == Remaining(Drop(m, k), victims)
    ensures k in Remaining(m, victims) <==> k in m
    ensures k in m ==> Remaining(m, victims)[k] == m[k]
  {
    RemainingIsDifference(m, victims);
    RemainingIsDifference(Drop(m, k), victims);
  }

  /** The same with one protected entry, counted over the whole map. */
  lemma EvictProtecting<K(!new)>(slots: map<K, Slot>, key: K, budget: int, leq: (K, K) -> bool)
    requires TotalOrder(leq)
    ensures var e := Evict(Drop(slots, key), Total(slots), budget, leq);
      && (e.fits <==> WeightOf(slots, key) <= budget)
      && e.used == Total(Remaining(slots, e.victims))
      && (e.fits ==> e.used <= budget)
  {
    TotalBeside(slots, key);
    EvictAccounts(Drop(slots, key), WeightOf(slots, key), budget, leq);
    VictimsAreEntries(Drop(slots, key), Total(slots), budget, leq);
    var victims := Evict(Drop(slots, key), Total(slots), budget, leq).victims;
    RemainingBeside(slots, victims, key);
    TotalBeside(Remaining(slots, victims), key);
  }

  /** Protected or not, the entries that go are exactly the victims. */
  lemma EvictCounts<K(!new)>(slots: map<K, Slot>, key: K, budget: int, leq: (K, K) -> bool)
    requires TotalOrder(leq)
    ensures var victims := Evict(Drop(slots, key), Total(slots), budget, leq).victims;
      |slots| == |DropAll(slots, victims)| + Length(victims)
  {
    TotalBeside(slots, key);
    EvictAccounts(Drop(slots, key), WeightOf(slots, key), budget, leq);
    VictimsAreEntries(Drop(slots, key), Total(slots), budget, leq);
    var victims := Evict(Drop(slots, key), Total(slots), budget, leq).victims;
    RemainingBeside(slots, victims, key);
    RemainingIsDifference(slots, victims);
    if key in slots {
      DropShrinks(slots, key);
      DropShrinks(Remaining(slots, victims), key);
    } else {
      assert Drop(slots, key) == slots && Drop(Remaining(slots, victims), key) == Remaining(slots, victims);
    }
  }

  lemma TotalBeside<K>(slots: map<K, Slot>, k: K)
    ensures Total(slots) == WeightOf(slots, k) + Total(Drop(slots, k))
  {
    if k in slots {
      TotalRemove(slots, k);
    } else {
      assert Drop(slots, k) == slots;
    }
  }

  // Recency ----------------------------------------------------------------

  ghost predicate Ascending<K(!new)>(slots: map<K, Slot>, order: List<K>) {
    match order
    case Nil => true
    case Cons(k, rest) => Precedes(slots, k, rest) && Ascending(slots, rest)
  }

  ghost predicate Precedes<K(!new)>(slots: map<K, Slot>, k: K, rest: List<K>) {
    k in slots && forall j {:trigger Younger(slots, k, j)} :: Has(rest, j) ==> Younger(slots, k, j)
  }

  ghost predicate Younger<K>(slots: map<K, Slot>, k: K, j: K) {
    k in slots && j in slots && slots[k].touch < slots[j].touch
  }

  /** `order` lists the entries from the least to the most recently touched. */
  ghost predicate Recency<K(!new)>(slots: map<K, Slot>, order: List<K>) {
    (forall k :: Has(order, k) <==> k in slots) && Ascending(slots, order)
  }

  function Without<K(==)>(order: List<K>, gone: List<K>): List<K> {
    match order
    case Nil => Nil
    case Cons(k, rest) => if Has(gone, k) then Without(rest, gone) else Cons(k, Without(rest, gone))
  }

  function Append<K>(order: List<K>, last: K): List<K> {
    match order
    case Nil => Cons(last, Nil)
    case Cons(k, rest) => Cons(k, Append(rest, last))
  }

  function Only<K>(k: K): List<K> {
    Cons(k, Nil)
  }

  /** Moving an entry to the most recent end. */
  function Touch<K(==)>(order: List<K>, k: K): List<K> {
    Append(Without(order, Only(k)), k)
  }

  /** The shortest prefix of a recency list whose weights cover `excess`. */
  function Oldest<K(==)>(slots: map<K, Slot>, order: List<K>, excess: int): List<K> {
    match order
    case Nil => Nil
    case Cons(k, rest) =>
      if excess <= 0 then Nil else Cons(k, Oldest(slots, rest, excess - WeightOf(slots, k)))
  }

  function WeightOf<K(==)>(slots: map<K, Slot>, k: K): nat {
    if k in slots then slots[k].weight else 0
  }

  function Weigh<K(==)>(slots: map<K, Slot>, order: List<K>): nat {
    match order
    case Nil => 0
    case Cons(k, rest) => WeightOf(slots, k) + Weigh(slots, rest)
  }

  predicate IsPrefix<K(==)>(prefix: List<K>, list: List<K>) {
    prefix.Nil? || (list.Cons? && prefix.head == list.head && IsPrefix(prefix.tail, list.tail))
  }

  /** `Oldest` is a prefix, covers the excess whenever the whole list does, and no
      proper prefix of it does. */
  lemma {:induction false} OldestIsShortest<K>(slots: map<K, Slot>, order: List<K>, excess: int, other: List<K>)
    ensures IsPrefix(Oldest(slots, order, excess), order)
    ensures excess <= Weigh(slots, order) ==> excess <= Weigh(slots, Oldest(slots, order, excess))
    ensures IsPrefix(other, Oldest(slots, order, excess)) && other != Oldest(slots, order, excess)
        ==> Weigh(slots, other) < excess
  {
    if order.Cons? && excess > 0 {
      OldestIsShortest(slots, order.tail, excess - WeightOf(slots, order.head), if other.Nil? then Nil else other.tail);
    }
  }

  lemma {:induction false} WithoutMembers<K(!new)>(order: List<K>, gone: List<K>)
    ensures forall k :: Has(Without(order, gone), k) <==> Has(order, k) && !Has(gone, k)
  {
    if order.Cons? {
      WithoutMembers(order.tail, gone);
    }
  }

  lemma {:induction false} AscendingWithout<K(!new)>(slots: map<K, Slot>, order: List<K>, gone: List<K>)
    requires Ascending(slots, order)
    ensures Ascending(DropAll(slots, gone), Without(order, gone))
  {
    if order.Cons? {
      AscendingWithout(slots, order.tail, gone);
      WithoutMembers(order.tail, gone);
      if !Has(gone, order.head) {
        forall j | Has(Without(order.tail, gone), j) ensures Younger(DropAll(slots, gone), order.head, j) {
          assert Younger(slots, order.head, j);
        }
      }
    }
  }

  lemma RecencyWithout<K(!new)>(slots: map<K, Slot>, order: List<K>, gone: List<K>)
    requires Recency(slots, order)
    ensures Recency(DropAll(slots, gone), Without(order, gone))
  {
    AscendingWithout(slots, order, gone);
    WithoutMembers(order, gone);
  }

  lemma {:induction false} AscendingAppend<K(!new)>(slots: map<K, Slot>, order: List<K>, k: K, slot: Slot)
    requires Ascending(slots, order) && !Has(order, k)
    requires forall j :: j in slots ==> slots[j].touch < slot.touch
    ensures Ascending(slots[k := slot], Append(order, k))
    ensures forall j :: Has(Append(order, k), j) <==> Has(order, j) || j == k
  {
    if order.Cons? {
      AscendingAppend(slots, order.tail, k, slot);
      forall j | Has(Append(order.tail, k), j) ensures Younger(slots[k := slot], order.head, j) {
        assert j != k ==> Younger(slots, order.head, j);
      }
    }
  }

  lemma DropOnly<K(!new), V>(m: map<K, V>, k: K)
    ensures DropAll(m, Only(k)) == Drop(m, k)
  {
    assert forall j :: Has(Only(k), j) <==> j == k;
  }

  /** Touching an entry at a new latest time moves it to the end of the list. */
  lemma RecencyTouch<K(!new)>(slots: map<K, Slot>, order: List<K>, k: K, slot: Slot)
    requires Recency(slots, order)
    requires forall j :: j in slots ==> slots[j].touch < slot.touch
    ensures Recency(slots[k := slot], Touch(order, k))
  {
    RecencyWithout(slots, order, Only(k));
    DropOnly(slots, k);
    AscendingAppend(Drop(slots, k), Without(order, Only(k)), k, slot);
    assert Drop(slots, k)[k := slot] == slots[k := slot];
  }

  lemma {:induction false} WithoutNothing<K(!new)>(order: List<K>, gone: List<K>)
    requires forall k :: Has(gone, k) ==> !Has(order, k)
    ensures Without(order, gone) == order
  {
    if order.Cons? {
      WithoutNothing(order.tail, gone);
    }
  }

  lemma {:induction false} OldestAgrees<K(!new)>(slots: map<K, Slot>, slots': map<K, Slot>, order: List<K>, excess: int)
    requires forall k :: Has(order, k) ==> WeightOf(slots, k) == WeightOf(slots', k)
    ensures Oldest(slots, order, excess) == Oldest(slots', order, excess)
  {
    if order.Cons? {
      OldestAgrees(slots, slots', order.tail, excess - WeightOf(slots, order.head));
    }
  }

  lemma VictimIsOldest<K(!new)>(slots: map<K, Slot>, leq: (K, K) -> bool, order: List<K>)
    requires TotalOrder(leq) && Recency(slots, order) && slots != map[]
    ensures order.Cons? && Victim(slots, leq) == order.head
  {
    OlderFirstOrders(slots, leq, slots.Keys);
    var victim := Victim(slots, leq);
    assert Has(order, victim);
    assert AtMost(OlderFirst(slots, leq), victim, order.head);
    assert Has(order.tail, victim) ==> Younger(slots, order.head, victim);
  }

  lemma RecencyEmpty<K(!new)>(slots: map<K, Slot>, order: List<K>)
    requires Recency(slots, order)
    ensures order.Nil? <==> slots == map[]
  {
    if order.Cons? {
      assert Has(order, order.head);
    }
  }

  lemma DropOldest<K(!new)>(slots: map<K, Slot>, order: List<K>, excess: int)
    requires Recency(slots, order) && order.Cons?
    ensures Recency(Drop(slots, order.head), order.tail)
    ensures Oldest(slots, order.tail, excess) == Oldest(Drop(slots, order.head), order.tail, excess)
  {
    RecencyWithout(slots, order, Only(order.head));
    DropOnly(slots, order.head);
    assert !Has(order.tail, order.head) by {
      assert Has(order.tail, order.head) ==> Younger(slots, order.head, order.head);
    }
    WithoutNothing(order.tail, Only(order.head));
    OldestAgrees(slots, Drop(slots, order.head), order.tail, excess);
  }

  /** While timestamps are distinct the loop removes exactly the shortest prefix
      of the evictable recency list that makes room, in that order. */
  lemma {:induction false} EvictsOldest<K(!new)>(slots: map<K, Slot>, pinned: nat, budget: int,
                                                 leq: (K, K) -> bool, order: List<K>)
    requires TotalOrder(leq) && Recency(slots, order)
    ensures Evict(slots, pinned + Total(slots), budget, leq).victims
         == Oldest(slots, order, pinned + Total(slots) - budget)
    decreases |slots|
  {
    RecencyEmpty(slots, order);
    if order.Cons? && pinned + Total(slots) > budget {
      VictimIsOldest(slots, leq, order);
      TotalRemove(slots, order.head);
      DropShrinks(slots, order.head);
      DropOldest(slots, order, pinned + Total(slots) - budget - slots[order.head].weight);
      EvictsOldest(Drop(slots, order.head), pinned, budget, leq, order.tail);
    }
  }

  /** The same with one protected entry: the victims are the shortest prefix, in
      recency order, of the other entries. */
  lemma EvictsOldestOthers<K(!new)>(slots: map<K, Slot>, key: K, used: nat, budget: int, excess: int,
                                    leq: (K, K) -> bool, order: List<K>)
    requires TotalOrder(leq) && Recency(slots, order)
    requires used == Total(slots) && excess == used - budget
    ensures Evict(Drop(slots, key), used, budget, leq).victims == Oldest(slots, Without(order, Only(key)), excess)
  {
    var others := Without(order, Only(key));
    RecencyWithout(slots, order, Only(key));
    DropOnly(slots, key);
    TotalBeside(slots, key);
    EvictsOldest(Drop(slots, key), WeightOf(slots, key), budget, leq, others);
    WithoutMembers(order, Only(key));
    OldestAgrees(Drop(slots, key), slots, others, excess);
  }
}
