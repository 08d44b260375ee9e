/** The KV-cache bookkeeping of `vrb-kv-cache`: a value-level account of every
    operation, step for step, that the class `KvCache.KvCache` is proved equal to. */
module KvModel {
  import opened Wrappers
  import opened Machine
  import opened Ordering
  import opened Lru

  datatype KvCacheKey = KvCacheKey(sequenceId: u64, layer: u32)

  datatype KvBlock = KvBlock(tokenStart: u64, tokenCount: u32, keyResource: string, valueResource: string, bytes: u64)
  {
    function TokenEnd(): Result<u64, KvCacheError> {
      match CheckedAdd(tokenStart, tokenCount)
      case None => Err(TokenRangeOverflow)
      case Some(end) => Ok(end)
    }

    function Validate(): Result<(), KvCacheError> {
      if tokenCount == 0 || bytes == 0 then Err(InvalidBlock)
      else
        var _ :- TokenEnd();
        Ok(())
    }
  }

  datatype KvEntry = KvEntry(blocks: seq<KvBlock>, bytes: u64, lastTouch: u64)

  datatype KvCacheView = KvCacheView(key: KvCacheKey, blocks: seq<KvBlock>, bytes: nat, tokens: nat)

  datatype KvCacheError =
    | ZeroCapacity
    | InvalidBlock
    | TokenRangeOverflow
    | NonContiguous(expectedStart: u64, actualStart: u64)
    | SizeOverflow
    | CapacityExceeded(requested: u64, capacity: u64)

  datatype KvState = KvState(capacity: u64, entries: map<KvCacheKey, KvEntry>, bytes: u64, clock: u64, evictions: u64)

  /** `KvCacheKey` derives its order field by field. */
  predicate KeyLeq(a: KvCacheKey, b: KvCacheKey) {
    a.sequenceId < b.sequenceId || (a.sequenceId == b.sequenceId && a.layer <= b.layer)
  }

  lemma KeyOrder()
    ensures TotalOrder(KeyLeq)
  {
    forall a: KvCacheKey, b: KvCacheKey ensures Comparable(KeyLeq, a, b) && Distinguished(KeyLeq, a, b) {}
    forall a: KvCacheKey, b: KvCacheKey, c: KvCacheKey ensures Chained(KeyLeq, a, b, c) {}
  }

  function Slots(entries: map<KvCacheKey, KvEntry>): map<KvCacheKey, Slot> {
    map k | k in entries :: Slot(entries[k].bytes, entries[k].lastTouch)
  }

  // The operations -----------------------------------------------------------

  function Created(capacity: u64): KvState {
    KvState(capacity, map[], 0, 0, 0)
  }

  /** Every check `append` makes before it evicts anything. */
  function CheckAppend(capacity: u64, present: Option<(seq<KvBlock>, nat)>, block: KvBlock): Result<(), KvCacheError> {
    var _ :- block.Validate();
    if block.bytes > capacity then Err(CapacityExceeded(block.bytes, capacity))
    else
      var expectedStart :- ExpectedStart(present);
      if block.tokenStart != expectedStart then Err(NonContiguous(expectedStart, block.tokenStart))
      else
        match CheckedAdd(if present.Some? then present.value.1 else 0, block.bytes)
        case None => Err(SizeOverflow)
        case Some(newEntryBytes) =>
          if newEntryBytes > capacity then Err(CapacityExceeded(newEntryBytes, capacity)) else Ok(())
  }

  function ExpectedStart(present: Option<(seq<KvBlock>, nat)>): Result<u64, KvCacheError> {
    match present
    case None => Ok(0)
    case Some((blocks, _)) => if blocks == [] then Err(InvalidBlock) else blocks[|blocks| - 1].TokenEnd()
  }

  function Present(entries: map<KvCacheKey, KvEntry>, key: KvCacheKey): Option<(seq<KvBlock>, nat)> {
    if key in entries then Some((entries[key].blocks, entries[key].bytes)) else None
  }

  /** `evict_for`: the state it leaves and whether it made room. */
  function EvictFor(s: KvState, protected: KvCacheKey, additional: u64): (KvState, bool) {
    KeyOrder();
    var e := Evict(Drop(Slots(s.entries), protected), s.bytes, s.capacity - additional, KeyLeq);
    EvictBounded(Drop(Slots(s.entries), protected), s.bytes, s.capacity - additional, KeyLeq);
    (s.(entries := Remaining(s.entries, e.victims), bytes := e.used,
        evictions := SaturatingAdd(s.evictions, Length(e.victims))),
     e.fits)
  }

  /** The victims of `evict_for`, first to last. */
  function EvictedFor(s: KvState, protected: KvCacheKey, additional: u64): List<KvCacheKey> {
    KeyOrder();
    Evict(Drop(Slots(s.entries), protected), s.bytes, s.capacity - additional, KeyLeq).victims
  }

  function Append(s: KvState, key: KvCacheKey, block: KvBlock): (KvState, Result<(), KvCacheError>) {
    var check := CheckAppend(s.capacity, Present(s.entries, key), block);
    if check.Err? then (s, check)
    else
      var (room, fits) := EvictFor(s, key, block.bytes);
      if !fits then (room, Err(CapacityExceeded(SaturatingAdd(room.bytes, block.bytes), s.capacity)))
      else Push(room, key, block)
  }

  /** The tail of `append`, once there is room. */
  function Push(s: KvState, key: KvCacheKey, block: KvBlock): (KvState, Result<(), KvCacheError>) {
    var touch := Tick(s.clock);
    var entry := if key in s.entries then s.entries[key] else KvEntry([], 0, touch);
    match CheckedAdd(entry.bytes, block.bytes)
    case None => (s.(clock := touch, entries := s.entries[key := entry]), Err(SizeOverflow))
    case Some(entryBytes) =>
      var pushed := s.(clock := touch, entries := s.entries[key := KvEntry(entry.blocks + [block], entryBytes, touch)]);
      match CheckedAdd(s.bytes, block.bytes)
      case None => (pushed, Err(SizeOverflow))
      case Some(bytes) => (pushed.(bytes := bytes), Ok(()))
  }

  function View(s: KvState, key: KvCacheKey): (KvState, Result<Option<KvCacheView>, KvCacheError>) {
    var touch := Tick(s.clock);
    if key !in s.entries then (s.(clock := touch), Ok(None))
    else
      var entry := s.entries[key].(lastTouch := touch);
      (s.(clock := touch, entries := s.entries[key := entry]),
       match if entry.blocks == [] then Ok(0) else entry.blocks[|entry.blocks| - 1].TokenEnd()
       case Err(error) => Err(error)
       case Ok(tokens) => Ok(Some(KvCacheView(key, entry.blocks, entry.bytes, tokens))))
  }

  function Remove(s: KvState, key: KvCacheKey): (KvState, bool) {
    if key in s.entries then
      (s.(entries := Drop(s.entries, key), bytes := SaturatingSub(s.bytes, s.entries[key].bytes)), true)
    else (s, false)
  }

  function Clear(s: KvState): KvState {
    s.(entries := map[], bytes := 0)
  }

  datatype KvOp = AppendOp(key: KvCacheKey, block: KvBlock) | ViewOp(key: KvCacheKey) | RemoveOp(key: KvCacheKey)
      | ClearOp

  datatype KvOutput =
    | Appended(outcome: Result<(), KvCacheError>)
    | Viewed(view: Result<Option<KvCacheView>, KvCacheError>)
    | Removed(found: bool)
    | Cleared

  function Step(s: KvState, op: KvOp): (KvState, KvOutput) {
    match op
    case AppendOp(key, block) => var (next, r) := Append(s, key, block); (next, Appended(r))
    case ViewOp(key) => var (next, r) := View(s, key); (next, Viewed(r))
    case RemoveOp(key) => var (next, r) := Remove(s, key); (next, Removed(r))
    case ClearOp => (Clear(s), Cleared)
  }

  function Run(s: KvState, ops: seq<KvOp>): (KvState, seq<KvOutput>) {
    if ops == [] then (s, [])
    else
      var (before, outputs) := Run(s, ops[..|ops| - 1]);
      var (after, output) := Step(before, ops[|ops| - 1]);
      (after, outputs + [output])
  }

  // The accounting invariant ---------------------------------------------------

  function BlockBytes(blocks: seq<KvBlock>): nat {
    if blocks == [] then 0 else BlockBytes(blocks[..|blocks| - 1]) + blocks[|blocks| - 1].bytes
  }

  /** The token just after the last block; 0 when there is none. */
  function NextToken(blocks: seq<KvBlock>): nat {
    if blocks == [] then 0 else blocks[|blocks| - 1].tokenStart + blocks[|blocks| - 1].tokenCount
  }

  /** The blocks cover the tokens from 0 on without gap or overlap. */
  predicate Contiguous(blocks: seq<KvBlock>) {
    forall i :: 0 <= i < |blocks| ==> Follows(blocks, i)
  }

  predicate Follows(blocks: seq<KvBlock>, i: nat)
    requires i < |blocks|
  {
    blocks[i].Validate().Ok? && blocks[i].tokenStart == NextToken(blocks[..i])
  }

  predicate EntryOk(entry: KvEntry) {
    entry.blocks != [] && Contiguous(entry.blocks) && entry.bytes == BlockBytes(entry.blocks)
  }

  predicate EntriesOk(entries: map<KvCacheKey, KvEntry>) {
    forall k {:trigger EntryOk(entries[k])} :: k in entries ==> EntryOk(entries[k])
  }

  ghost predicate Inv(s: KvState) {
    && s.capacity > 0
    && EntriesOk(s.entries)
    && s.bytes == Total(Slots(s.entries)) <= s.capacity
  }

  function EntryBytes(s: KvState, key: KvCacheKey): nat {
    if key in s.entries then s.entries[key].bytes else 0
  }

  function BlocksOf(s: KvState, key: KvCacheKey): seq<KvBlock> {
    if key in s.entries then s.entries[key].blocks else []
  }

  /** What `append` asks of its arguments, as a caller can check it beforehand. */
  predicate Accepts(s: KvState, key: KvCacheKey, block: KvBlock) {
    && block.tokenCount > 0
    && block.bytes > 0
    && block.tokenStart + block.tokenCount < U64_LIMIT
    && block.tokenStart == NextToken(BlocksOf(s, key))
    && EntryBytes(s, key) + block.bytes <= s.capacity
  }

  lemma SlotsUpdate(entries: map<KvCacheKey, KvEntry>, key: KvCacheKey, entry: KvEntry)
    ensures var prior := if key in entries then entries[key].bytes else 0;
      Total(Slots(entries[key := entry])) + prior == Total(Slots(entries)) + entry.bytes
  {
    var slots, slot := Slots(entries), Slot(entry.bytes, entry.lastTouch);
    assert Slots(entries[key := entry]) == slots[key := slot];
    TotalUpdate(slots, key, slot);
    SlotsRemove(entries, key);
  }

  lemma SlotsRemove(entries: map<KvCacheKey, KvEntry>, key: KvCacheKey)
    ensures Slots(Drop(entries, key)) == Drop(Slots(entries), key)
    ensures var prior := if key in entries then entries[key].bytes else 0;
      Total(Slots(entries)) == Total(Drop(Slots(entries), key)) + prior
  {
    if key in entries {
      TotalRemove(Slots(entries), key);
    } else {
      assert Drop(Slots(entries), key) == Slots(entries);
    }
  }

  lemma SlotsRemaining(entries: map<KvCacheKey, KvEntry>, victims: List<KvCacheKey>)
    ensures Slots(Remaining(entries, victims)) == Remaining(Slots(entries), victims)
  {
    RemainingIsDifference(entries, victims);
    RemainingIsDifference(Slots(entries), victims);
  }

  /** The entries that survive an eviction beside the protected one. */
  lemma EvictForEntries(s: KvState, key: KvCacheKey, additional: u64)
    ensures var room := EvictFor(s, key, additional).0;
      && room.entries.Keys <= s.entries.Keys
      && (forall k {:trigger room.entries[k]} :: k in room.entries ==> room.entries[k] == s.entries[k])
      && (key in s.entries ==> key in room.entries)
  {
    KeyOrder();
    VictimsAreEntries(Drop(Slots(s.entries), key), s.bytes, s.capacity - additional, KeyLeq);
    RemainingIsDifference(s.entries, EvictedFor(s, key, additional));
  }

  /** Under the invariant, making room for an acceptable block never fails and
      keeps the byte count exact. */
  lemma EvictForMakesRoom(s: KvState, key: KvCacheKey, additional: u64)
    requires s.bytes == Total(Slots(s.entries)) && EntryBytes(s, key) + additional <= s.capacity
    ensures var (room, fits) := EvictFor(s, key, additional);
      && fits
      && room.bytes + additional <= s.capacity
      && room.bytes == Total(Slots(room.entries))
  {
    KeyOrder();
    SlotsRemove(s.entries, key);
    EvictProtecting(Slots(s.entries), key, s.capacity - additional, KeyLeq);
    SlotsRemaining(s.entries, EvictedFor(s, key, additional));
  }

  lemma ContiguousAppend(blocks: seq<KvBlock>, block: KvBlock)
    requires Contiguous(blocks)
    requires block.Validate().Ok? && block.tokenStart == NextToken(blocks)
    ensures Contiguous(blocks + [block])
    ensures BlockBytes(blocks + [block]) == BlockBytes(blocks) + block.bytes
  {
    var longer := blocks + [block];
    assert longer[..|longer| - 1] == blocks;
    forall i | 0 <= i < |longer| ensures Follows(longer, i) {
      assert i < |blocks| ==> Follows(blocks, i);
      assert longer[..i] == blocks[..i];
    }
  }

  lemma CheckAppendExact(s: KvState, key: KvCacheKey, block: KvBlock)
    requires EntriesOk(s.entries)
    ensures CheckAppend(s.capacity, Present(s.entries, key), block).Ok? <==> Accepts(s, key, block)
  {
    if key in s.entries {
      LastBlockEnds(s.entries[key]);
      assert EntryOk(s.entries[key]);
    }
  }

  lemma LastBlockEnds(entry: KvEntry)
    requires EntryOk(entry)
    ensures entry.blocks[|entry.blocks| - 1].TokenEnd() == Ok(NextToken(entry.blocks))
  {
    assert Follows(entry.blocks, |entry.blocks| - 1);
  }

  /** `append` succeeds exactly on the acceptable requests; any error leaves the
      cache untouched, because neither the eviction nor the later checked additions
      can fail; success appends the block to its own entry and changes no other
      surviving entry. */
  lemma AppendExact(s: KvState, key: KvCacheKey, block: KvBlock)
    requires Inv(s)
    ensures var (next, r) := Append(s, key, block);
      && Inv(next)
      && (r.Ok? <==> Accepts(s, key, block))
      && (r.Err? ==> next == s)
      && (r.Ok? ==>
            && key in next.entries
            && next.entries[key].blocks == BlocksOf(s, key) + [block]
            && next.clock == Tick(s.clock)
            && next.entries.Keys <= s.entries.Keys + {key}
            && forall k {:trigger next.entries[k]} :: k in next.entries && k != key ==> next.entries[k] == s.entries[k])
  {
    CheckAppendExact(s, key, block);
    if Accepts(s, key, block) {
      EvictForMakesRoom(s, key, block.bytes);
      EvictForEntries(s, key, block.bytes);
      AppendedEntryOk(s, key, block);
      PushExact(EvictFor(s, key, block.bytes).0, key, block);
    }
  }

  /** The token a block must start at to continue an entry: the end of its last block. */
  function Continuation(s: KvState, key: KvCacheKey): nat {
    if key in s.entries && s.entries[key].blocks != [] then
      var last := s.entries[key].blocks[|s.entries[key].blocks| - 1];
      last.tokenStart + last.tokenCount
    else 0
  }

  /** What `append` answers: the first reason against the block, with its numbers, or success. */
  lemma AppendAnswers(s: KvState, key: KvCacheKey, block: KvBlock)
    requires Inv(s)
    ensures var answer := Append(s, key, block).1;
      var held := if key in s.entries then s.entries[key].bytes else 0;
      if block.tokenCount == 0 || block.bytes == 0 then answer == Err(InvalidBlock)
      else if block.tokenStart + block.tokenCount >= U64_LIMIT then answer == Err(TokenRangeOverflow)
      else if block.bytes > s.capacity then answer == Err(CapacityExceeded(block.bytes, s.capacity))
      else if block.tokenStart != Continuation(s, key) then
        && Continuation(s, key) < U64_LIMIT
        && answer == Err(NonContiguous(Continuation(s, key), block.tokenStart))
      else if held + block.bytes >= U64_LIMIT then answer == Err(SizeOverflow)
      else if held + block.bytes > s.capacity then answer == Err(CapacityExceeded(held + block.bytes, s.capacity))
      else answer == Ok(())
  {
    AppendExact(s, key, block);
    CheckAppendExact(s, key, block);
    if key in s.entries {
      assert EntryOk(s.entries[key]);
      LastBlockEnds(s.entries[key]);
    }
  }

  lemma AppendedEntryOk(s: KvState, key: KvCacheKey, block: KvBlock)
    requires EntriesOk(s.entries) && Accepts(s, key, block)
    ensures EntryOk(KvEntry(BlocksOf(s, key) + [block], EntryBytes(s, key) + block.bytes, Tick(s.clock)))
  {
    if key in s.entries { assert EntryOk(s.entries[key]); }
    ContiguousAppend(BlocksOf(s, key), block);
  }

  lemma PushExact(s: KvState, key: KvCacheKey, block: KvBlock)
    requires s.bytes == Total(Slots(s.entries)) && s.bytes + block.bytes <= s.capacity
    requires EntryBytes(s, key) + block.bytes <= s.capacity
    ensures var (next, r) := Push(s, key, block);
      && r == Ok(())
      && next == s.(entries := s.entries[key := KvEntry(BlocksOf(s, key) + [block], EntryBytes(s, key) + block.bytes,
                                                        Tick(s.clock))],
                    bytes := s.bytes + block.bytes,
                    clock := Tick(s.clock))
      && next.bytes == Total(Slots(next.entries))
  {
    SlotsUpdate(s.entries, key, KvEntry(BlocksOf(s, key) + [block], EntryBytes(s, key) + block.bytes, Tick(s.clock)));
  }

  /** A read never fails, and changes nothing but the clock and one timestamp. */
  lemma ViewExact(s: KvState, key: KvCacheKey)
    requires Inv(s)
    ensures var (next, r) := View(s, key);
      && Inv(next)
      && r.Ok?
      && (r.value.Some? <==> key in s.entries)
      && (r.value.Some? ==>
            var view := r.value.value;
            && view.key == key
            && view.blocks == s.entries[key].blocks
            && view.bytes == BlockBytes(view.blocks)
            && view.tokens == NextToken(view.blocks))
      && next == s.(clock := Tick(s.clock),
                    entries := if key in s.entries then s.entries[key := s.entries[key].(lastTouch := Tick(s.clock))]
                      else s.entries)
  {
    if key in s.entries {
      var entry := s.entries[key].(lastTouch := Tick(s.clock));
      assert EntryOk(s.entries[key]) && EntryOk(entry);
      LastBlockEnds(entry);
      SlotsUpdate(s.entries, key, entry);
    }
  }

  lemma RemoveKeepsInv(s: KvState, key: KvCacheKey)
    requires Inv(s)
    ensures Inv(Remove(s, key).0)
  {
    SlotsRemove(s.entries, key);
  }

  lemma StepKeepsInv(s: KvState, op: KvOp)
    requires Inv(s)
    ensures Inv(Step(s, op).0)
  {
    match op
    case AppendOp(key, block) => AppendExact(s, key, block);
    case ViewOp(key) => ViewExact(s, key);
    case RemoveOp(key) => RemoveKeepsInv(s, key);
    case ClearOp => assert Slots(map[]) == map[];
  }

  /** Every run of every length, across any number of clock wraps, keeps every
      entry contiguous from token 0 and both byte counts exact and within capacity. */
  lemma {:induction false} RunKeepsInv(capacity: u64, ops: seq<KvOp>)
    requires capacity > 0
    ensures Inv(Run(Created(capacity), ops).0)
  {
    if ops == [] {
      assert Slots(map[]) == map[];
    } else {
      RunKeepsInv(capacity, ops[..|ops| - 1]);
      StepKeepsInv(Run(Created(capacity), ops[..|ops| - 1]).0, ops[|ops| - 1]);
    }
  }

  predicate Starts(blocks: seq<KvBlock>, i: nat)
    requires i < |blocks|
  {
    && blocks[i].tokenCount > 0 && blocks[i].bytes > 0
    && blocks[i].tokenStart == if i == 0 then 0 else blocks[i - 1].tokenStart + blocks[i - 1].tokenCount
  }

  function ByteSum(blocks: seq<KvBlock>, n: nat): nat
    requires n <= |blocks|
  {
    if n == 0 then 0 else ByteSum(blocks, n - 1) + blocks[n - 1].bytes
  }

  lemma {:induction false} BytesAreSum(blocks: seq<KvBlock>, n: nat)
    requires n <= |blocks|
    ensures BlockBytes(blocks[..n]) == ByteSum(blocks, n)
  {
    if n == 0 {
    } else {
      BytesAreSum(blocks, n - 1);
      assert blocks[..n][..n - 1] == blocks[..n - 1];
    }
  }

  /** What the invariant says of an entry after any run: it holds blocks, the first at token 0
      and each of the others at the end of the one before, and its byte count is their sum. */
  lemma RunEntries(capacity: u64, ops: seq<KvOp>, key: KvCacheKey)
    requires capacity > 0 && key in Run(Created(capacity), ops).0.entries
    ensures var entry := Run(Created(capacity), ops).0.entries[key];
      && entry.blocks != []
      && (forall i :: 0 <= i < |entry.blocks| ==> Starts(entry.blocks, i))
      && entry.bytes == ByteSum(entry.blocks, |entry.blocks|)
  {
    RunKeepsInv(capacity, ops);
    var s := Run(Created(capacity), ops).0;
    var entry := s.entries[key];
    assert EntryOk(s.entries[key]);
    forall i | 0 <= i < |entry.blocks| ensures Starts(entry.blocks, i) {
      assert Follows(entry.blocks, i);
    }
    BytesAreSum(entry.blocks, |entry.blocks|);
    assert entry.blocks[..|entry.blocks|] == entry.blocks;
  }

  // The recency list it implements ------------------------------------------------

  /** The same cache with neither clock nor byte counters: the keys from the least to the
      most recently used, the blocks of each, and an unbounded count of evictions. */
  datatype KvList = KvList(capacity: u64, order: List<KvCacheKey>, blocks: map<KvCacheKey, seq<KvBlock>>,
                           evictions: nat)

  ghost function Sizes(blocks: map<KvCacheKey, seq<KvBlock>>): map<KvCacheKey, Slot> {
    map k | k in blocks :: Slot(BlockBytes(blocks[k]), 0)
  }

  ghost function ListAppend(a: KvList, key: KvCacheKey, block: KvBlock): (KvList, Result<(), KvCacheError>) {
    var present := if key in a.blocks then Some((a.blocks[key], BlockBytes(a.blocks[key]))) else None;
    var check := CheckAppend(a.capacity, present, block);
    if check.Err? then (a, check)
    else
      var victims := ListVictims(a, key, block.bytes);
      var longer := (if key in a.blocks then a.blocks[key] else []) + [block];
      (a.(order := Touch(Without(a.order, victims), key),
          blocks := DropAll(a.blocks, victims)[key := longer],
          evictions := a.evictions + Length(victims)),
       Ok(()))
  }

  /** The least recently used other entries, just enough of them to make room. */
  ghost function ListVictims(a: KvList, key: KvCacheKey, additional: nat): List<KvCacheKey> {
    Oldest(Sizes(a.blocks), Without(a.order, Only(key)), Total(Sizes(a.blocks)) + additional - a.capacity)
  }

  ghost function ListView(a: KvList, key: KvCacheKey): (KvList, Option<KvCacheView>) {
    if key !in a.blocks then (a, None)
    else
      (a.(order := Touch(a.order, key)),
       Some(KvCacheView(key, a.blocks[key], BlockBytes(a.blocks[key]), NextToken(a.blocks[key]))))
  }

  ghost function ListStep(a: KvList, op: KvOp): (KvList, KvOutput) {
    match op
    case AppendOp(key, block) => var (next, r) := ListAppend(a, key, block); (next, Appended(r))
    case ViewOp(key) => var (next, r) := ListView(a, key); (next, Viewed(Ok(r)))
    case RemoveOp(key) => (a.(order := Without(a.order, Only(key)), blocks := Drop(a.blocks, key)),
                           Removed(key in a.blocks))
    case ClearOp => (a.(order := Nil, blocks := map[]), Cleared)
  }

  ghost function ListRun(a: KvList, ops: seq<KvOp>): (KvList, seq<KvOutput>) {
    if ops == [] then (a, [])
    else
      var (before, outputs) := ListRun(a, ops[..|ops| - 1]);
      var (after, output) := ListStep(before, ops[|ops| - 1]);
      (after, outputs + [output])
  }

  function Blocks(entries: map<KvCacheKey, KvEntry>): map<KvCacheKey, seq<KvBlock>> {
    map k | k in entries :: entries[k].blocks
  }

  /** The clock has not wrapped: no timestamp lies in its future. */
  predicate InPast(entries: map<KvCacheKey, KvEntry>, clock: u64) {
    forall k {:trigger entries[k]} :: k in entries ==> entries[k].lastTouch <= clock
  }

  ghost predicate Implements(s: KvState, a: KvList) {
    && Inv(s)
    && InPast(s.entries, s.clock)
    && a.capacity == s.capacity
    && a.blocks == Blocks(s.entries)
    && Recency(Slots(s.entries), a.order)
    && CountsEvictions(s, a)
  }

  /** The counter is exact: every eviction was of an entry that some tick had created. */
  predicate CountsEvictions(s: KvState, a: KvList) {
    a.evictions == s.evictions && s.evictions + |s.entries| <= s.clock
  }

  lemma SizesAgree(s: KvState, a: KvList, order: List<KvCacheKey>, excess: int)
    requires Implements(s, a)
    ensures Total(Sizes(a.blocks)) == s.bytes
    ensures Oldest(Slots(s.entries), order, excess) == Oldest(Sizes(a.blocks), order, excess)
  {
    forall k | k in s.entries ensures Sizes(a.blocks)[k].weight == Slots(s.entries)[k].weight {
      assert EntryOk(s.entries[k]);
    }
    TotalSameWeights(Sizes(a.blocks), Slots(s.entries));
    OldestAgrees(Slots(s.entries), Sizes(a.blocks), order, excess);
  }

  /** The timestamp loop and the recency list choose the same victims. */
  lemma SameVictims(s: KvState, a: KvList, key: KvCacheKey, additional: u64)
    requires Implements(s, a)
    ensures EvictedFor(s, key, additional) == ListVictims(a, key, additional)
  {
    var others, excess := Without(a.order, Only(key)), s.bytes + additional - s.capacity;
    SizesAgree(s, a, others, excess);
    KeyOrder();
    EvictsOldestOthers(Slots(s.entries), key, s.bytes, s.capacity - additional, excess, KeyLeq, a.order);
  }

  lemma TouchRecency(entries: map<KvCacheKey, KvEntry>, order: List<KvCacheKey>,
                     key: KvCacheKey, entry: KvEntry, clock: u64)
    requires Recency(Slots(entries), order) && InPast(entries, clock) && entry.lastTouch == clock + 1
    ensures Recency(Slots(entries[key := entry]), Touch(order, key)) && InPast(entries[key := entry], clock + 1)
  {
    var slot := Slot(entry.bytes, entry.lastTouch);
    RecencyTouch(Slots(entries), order, key, slot);
    assert Slots(entries[key := entry]) == Slots(entries)[key := slot];
  }

  lemma AppendedRecency(entries: map<KvCacheKey, KvEntry>, order: List<KvCacheKey>,
                        victims: List<KvCacheKey>, key: KvCacheKey, entry: KvEntry, clock: u64)
    requires InPast(entries, clock) && Recency(Slots(entries), order) && entry.lastTouch == clock + 1
    ensures var after := DropAll(entries, victims)[key := entry];
      && InPast(after, clock + 1)
      && Recency(Slots(after), Touch(Without(order, victims), key))
      && Blocks(after) == DropAll(Blocks(entries), victims)[key := entry.blocks]
  {
    var room := DropAll(entries, victims);
    assert Slots(room) == DropAll(Slots(entries), victims);
    RecencyWithout(Slots(entries), order, victims);
    TouchRecency(room, Without(order, victims), key, entry, clock);
  }

  /** An accepted append in one step: drop the victims, then extend the entry. */
  lemma AppendClosedForm(s: KvState, key: KvCacheKey, block: KvBlock)
    requires Inv(s) && Accepts(s, key, block)
    ensures var (next, r) := Append(s, key, block);
      && r == Ok(())
      && next.capacity == s.capacity
      && next.clock == Tick(s.clock)
      && next.entries == DropAll(s.entries, EvictedFor(s, key, block.bytes))[key := Appending(s, key, block)]
      && next.evictions == SaturatingAdd(s.evictions, Length(EvictedFor(s, key, block.bytes)))
  {
    CheckAppendExact(s, key, block);
    EvictForMakesRoom(s, key, block.bytes);
    EvictForEntries(s, key, block.bytes);
    PushExact(EvictFor(s, key, block.bytes).0, key, block);
    RemainingIsDifference(s.entries, EvictedFor(s, key, block.bytes));
  }

  /** The entry an accepted append leaves under its key. */
  function Appending(s: KvState, key: KvCacheKey, block: KvBlock): KvEntry
    requires Accepts(s, key, block)
  {
    KvEntry(BlocksOf(s, key) + [block], EntryBytes(s, key) + block.bytes, Tick(s.clock))
  }

  lemma ListCheckAgrees(s: KvState, a: KvList, key: KvCacheKey, block: KvBlock)
    requires Implements(s, a)
    ensures Append(s, key, block).1 == ListAppend(a, key, block).1
    ensures ListAppend(a, key, block).1.Ok? <==> Accepts(s, key, block)
  {
    AppendExact(s, key, block);
    CheckAppendExact(s, key, block);
    if key in s.entries { assert EntryOk(s.entries[key]); }
  }

  lemma EvictedCount(s: KvState, key: KvCacheKey, additional: u64)
    requires s.bytes == Total(Slots(s.entries))
    ensures var victims := EvictedFor(s, key, additional);
      |s.entries| == |DropAll(s.entries, victims)| + Length(victims)
  {
    KeyOrder();
    EvictCounts(Slots(s.entries), key, s.capacity - additional, KeyLeq);
    var victims := EvictedFor(s, key, additional);
    assert Slots(s.entries).Keys == s.entries.Keys;
    assert DropAll(Slots(s.entries), victims).Keys == DropAll(s.entries, victims).Keys;
  }

  lemma AppendCounts(s: KvState, a: KvList, key: KvCacheKey, block: KvBlock)
    requires Implements(s, a) && s.clock < U64_MAX && Accepts(s, key, block)
    ensures CountsEvictions(Append(s, key, block).0, ListAppend(a, key, block).0)
  {
    AppendClosedForm(s, key, block);
    SameVictims(s, a, key, block.bytes);
    ListCheckAgrees(s, a, key, block);
    var victims := EvictedFor(s, key, block.bytes);
    EvictedCount(s, key, block.bytes);
    OneMore(DropAll(s.entries, victims), key, Appending(s, key, block));
  }

  lemma OneMore<K, V>(m: map<K, V>, key: K, value: V)
    ensures |m[key := value]| <= |m| + 1
  {
    assert m[key := value].Keys == m.Keys + {key};
  }

  lemma AppendImplements(s: KvState, a: KvList, key: KvCacheKey, block: KvBlock)
    requires Implements(s, a) && (Accepts(s, key, block) ==> s.clock < U64_MAX)
    ensures Implements(Append(s, key, block).0, ListAppend(a, key, block).0)
    ensures Append(s, key, block).1 == ListAppend(a, key, block).1
  {
    ListCheckAgrees(s, a, key, block);
    AppendExact(s, key, block);
    if Accepts(s, key, block) {
      AppendClosedForm(s, key, block);
      SameVictims(s, a, key, block.bytes);
      AppendCounts(s, a, key, block);
      AppendedRecency(s.entries, a.order, ListVictims(a, key, block.bytes), key, Appending(s, key, block), s.clock);
    }
  }

  lemma ViewImplements(s: KvState, a: KvList, key: KvCacheKey)
    requires Implements(s, a) && s.clock < U64_MAX
    ensures Implements(View(s, key).0, ListView(a, key).0)
    ensures View(s, key).1 == Ok(ListView(a, key).1)
  {
    ViewExact(s, key);
    if key in s.entries {
      var entry := s.entries[key].(lastTouch := Tick(s.clock));
      TouchRecency(s.entries, a.order, key, entry, s.clock);
      assert Blocks(s.entries[key := entry]) == Blocks(s.entries);
    }
  }

  /** The calls that advance the clock: reads, and appends that succeed. */
  predicate Ticks(output: KvOutput) {
    output.Viewed? || (output.Appended? && output.outcome.Ok?)
  }

  function TickCount(outputs: seq<KvOutput>): nat {
    if outputs == [] then 0
    else TickCount(outputs[..|outputs| - 1]) + if Ticks(outputs[|outputs| - 1]) then 1 else 0
  }

  lemma StepImplements(s: KvState, a: KvList, op: KvOp)
    requires Implements(s, a) && (Ticks(Step(s, op).1) ==> s.clock < U64_MAX)
    ensures Implements(Step(s, op).0, ListStep(a, op).0)
    ensures Step(s, op).1 == ListStep(a, op).1
    ensures Step(s, op).0.clock == s.clock + if Ticks(Step(s, op).1) then 1 else 0
  {
    match op
    case AppendOp(key, block) =>
      AppendExact(s, key, block);
      AppendImplements(s, a, key, block);
    case ViewOp(key) => ViewImplements(s, a, key);
    case RemoveOp(key) => RemoveImplements(s, a, key);
    case ClearOp =>
      assert Slots(map[]) == map[];
  }

  lemma RemoveImplements(s: KvState, a: KvList, key: KvCacheKey)
    requires Implements(s, a)
    ensures Implements(Step(s, RemoveOp(key)).0, ListStep(a, RemoveOp(key)).0)
  {
    RemoveKeepsInv(s, key);
    SlotsRemove(s.entries, key);
    RecencyWithout(Slots(s.entries), a.order, Only(key));
    DropOnly(Slots(s.entries), key);
    assert Blocks(Drop(s.entries, key)) == Drop(Blocks(s.entries), key);
    if key in s.entries {
      DropShrinks(s.entries, key);
    } else {
      assert Drop(s.entries, key) == s.entries;
    }
  }

  /** Until the 64-bit clock wraps, that is for fewer than 2^64 reads and accepted appends
      among any number of other calls, every run answers exactly as the recency list does,
      with the same count of evictions, and ends in a state that still implements it. */
  lemma {:induction false} RunRefinesList(capacity: u64, ops: seq<KvOp>)
    requires capacity > 0 && TickCount(Run(Created(capacity), ops).1) < U64_LIMIT
    ensures var (s, outputs) := Run(Created(capacity), ops);
      var (a, outputs') := ListRun(KvList(capacity, Nil, map[], 0), ops);
      Implements(s, a) && outputs == outputs' && s.clock == TickCount(outputs)
  {
    if ops == [] {
      assert Slots(map[]) == map[];
      assert Blocks(map[]) == map[];
    } else {
      var before := ops[..|ops| - 1];
      var (s, outputs) := Run(Created(capacity), before);
      var output := Step(s, ops[|ops| - 1]).1;
      assert (outputs + [output])[..|outputs|] == outputs;
      RunRefinesList(capacity, before);
      var a := ListRun(KvList(capacity, Nil, map[], 0), before).0;
      StepImplements(s, a, ops[|ops| - 1]);
    }
  }
}

/** The cache object itself. Its fields are updated in place; each method is proved
    to be exactly the value-level operation of the same name. */
module KvCache {
  import opened Wrappers
  import opened Machine
  import opened Ordering
  import opened Lru
  import opened KvModel

  datatype KvCacheStats = KvCacheStats(entries: nat, blocks: nat, bytes: u64, evictions: u64)

  ghost function BlockCount(entries: map<KvCacheKey, KvEntry>): nat {
    Total(map k | k in entries :: Slot(|entries[k].blocks|, 0))
  }

  class KvCache {
    const capacityBytes: u64
    var entries: map<KvCacheKey, KvEntry>
    var bytes: u64
    var clock: u64
    var evictions: u64

    ghost function State(): KvState
      reads this
    {
      KvState(capacityBytes, entries, bytes, clock, evictions)
    }

    constructor (capacityBytes: u64)
      ensures State() == Created(capacityBytes)
    {
      this.capacityBytes := capacityBytes;
      entries, bytes, clock, evictions := map[], 0, 0, 0;
    }

    static method New(capacityBytes: u64) returns (cache: Result<KvCache, KvCacheError>)
      ensures cache.Err? <==> capacityBytes == 0
      ensures cache.Err? ==> cache.error == ZeroCapacity
      ensures cache.Ok? ==> fresh(cache.value)
      ensures cache.Ok? ==> cache.value.State() == Created(capacityBytes) && Inv(cache.value.State())
    {
      if capacityBytes == 0 {
        return Err(ZeroCapacity);
      }
      var created := new KvCache(capacityBytes);
      RunKeepsInv(capacityBytes, []);
      return Ok(created);
    }

    method EvictFor(protected: KvCacheKey, additional: u64) returns (outcome: Result<(), KvCacheError>)
      modifies this
      ensures State() == KvModel.EvictFor(old(State()), protected, additional).0
      ensures outcome == if KvModel.EvictFor(old(State()), protected, additional).1 then Ok(())
                         else Err(CapacityExceeded(SaturatingAdd(bytes, additional), capacityBytes))
    {
      KeyOrder();
      while bytes + additional > capacityBytes
        invariant KvModel.EvictFor(State(), protected, additional)
            == KvModel.EvictFor(old(State()), protected, additional)
        decreases |entries|
      {
        var candidates := Drop(Slots(entries), protected);
        if candidates == map[] {
          EvictForDone(State(), protected, additional);
          return Err(CapacityExceeded(SaturatingAdd(bytes, additional), capacityBytes));
        }
        var victim := Victim(candidates, KeyLeq);
        EvictForStep(State(), protected, additional);
        DropShrinks(entries, victim);
        var removed := entries[victim];
        entries := Drop(entries, victim);
        bytes := SaturatingSub(bytes, removed.bytes);
        evictions := SaturatingAdd(evictions, 1);
      }
      EvictForDone(State(), protected, additional);
      return Ok(());
    }

    method Append(key: KvCacheKey, block: KvBlock) returns (outcome: Result<(), KvCacheError>)
      modifies this
      ensures (State(), outcome) == KvModel.Append(old(State()), key, block)
    {
      var valid := block.Validate();
      if valid.Err? {
        return valid;
      }
      if block.bytes > capacityBytes {
        return Err(CapacityExceeded(block.bytes, capacityBytes));
      }
      if key in entries {
        var blocks := entries[key].blocks;
        if blocks == [] {
          return Err(InvalidBlock);
        }
        var expectedStart := blocks[|blocks| - 1].TokenEnd();
        if expectedStart.Err? {
          return Err(expectedStart.error);
        }
        if block.tokenStart != expectedStart.value {
          return Err(NonContiguous(expectedStart.value, block.tokenStart));
        }
      } else if block.tokenStart != 0 {
        return Err(NonContiguous(0, block.tokenStart));
      }
      var newEntryBytes := CheckedAdd(if key in entries then entries[key].bytes else 0, block.bytes);
      if newEntryBytes.None? {
        return Err(SizeOverflow);
      }
      if newEntryBytes.value > capacityBytes {
        return Err(CapacityExceeded(newEntryBytes.value, capacityBytes));
      }

      var room := EvictFor(key, block.bytes);
      if room.Err? {
        return room;
      }
      ghost var kept := entries;
      clock := Tick(clock);
      var touch := clock;
      if key !in entries {
        entries := entries[key := KvEntry([], 0, touch)];
      }
      var entryBytes := CheckedAdd(entries[key].bytes, block.bytes);
      if entryBytes.None? {
        assert entries == kept[key := entries[key]];
        return Err(SizeOverflow);
      }
      entries := entries[key := KvEntry(entries[key].blocks + [block], entryBytes.value, touch)];
      assert entries == kept[key := entries[key]];
      var total := CheckedAdd(bytes, block.bytes);
      if total.None? {
        return Err(SizeOverflow);
      }
      bytes := total.value;
      return Ok(());
    }

    method View(key: KvCacheKey) returns (view: Result<Option<KvCacheView>, KvCacheError>)
      modifies this
      ensures (State(), view) == KvModel.View(old(State()), key)
    {
      clock := Tick(clock);
      if key !in entries {
        return Ok(None);
      }
      entries := entries[key := entries[key].(lastTouch := clock)];
      var blocks := entries[key].blocks;
      var tokens := if blocks == [] then Ok(0) else blocks[|blocks| - 1].TokenEnd();
      if tokens.Err? {
        return Err(tokens.error);
      }
      return Ok(Some(KvCacheView(key, blocks, entries[key].bytes, tokens.value)));
    }

    method Remove(key: KvCacheKey) returns (found: bool)
      modifies this
      ensures (State(), found) == KvModel.Remove(old(State()), key)
    {
      if key in entries {
        bytes := SaturatingSub(bytes, entries[key].bytes);
        entries := Drop(entries, key);
        return true;
      }
      return false;
    }

    method Clear()
      modifies this
      ensures State() == KvModel.Clear(old(State()))
    {
      entries := map[];
      bytes := 0;
    }

    method Stats() returns (stats: KvCacheStats)
      ensures stats == KvCacheStats(|entries|, BlockCount(entries), bytes, evictions)
    {
      var blocks, rest := 0, entries;
      while rest != map[]
        invariant blocks + BlockCount(rest) == BlockCount(entries)
        decreases |rest|
      {
        var key :| key in rest;
        CountStep(rest, key);
        DropShrinks(rest, key);
        blocks := blocks + |rest[key].blocks|;
        rest := Drop(rest, key);
      }
      return KvCacheStats(|entries|, blocks, bytes, evictions);
    }
  }

  lemma CountStep(entries: map<KvCacheKey, KvEntry>, key: KvCacheKey)
    requires key in entries
    ensures BlockCount(entries) == |entries[key].blocks| + BlockCount(Drop(entries, key))
  {
    var counts := map k | k in entries :: Slot(|entries[k].blocks|, 0);
    TotalRemove(counts, key);
    assert Drop(counts, key) == map k | k in Drop(entries, key) :: Slot(|Drop(entries, key)[k].blocks|, 0);
  }

  lemma EvictForDone(s: KvState, protected: KvCacheKey, additional: u64)
    requires s.bytes + additional <= s.capacity || Drop(Slots(s.entries), protected) == map[]
    ensures KvModel.EvictFor(s, protected, additional) == (s, s.bytes + additional <= s.capacity)
  {
    KeyOrder();
  }

  lemma EvictForStep(s: KvState, protected: KvCacheKey, additional: u64)
    requires TotalOrder(KeyLeq)
    requires s.bytes + additional > s.capacity && Drop(Slots(s.entries), protected) != map[]
    ensures var victim := Victim(Drop(Slots(s.entries), protected), KeyLeq);
      && victim in s.entries
      && KvModel.EvictFor(s, protected, additional)
         == KvModel.EvictFor(s.(entries := Drop(s.entries, victim),
                                bytes := SaturatingSub(s.bytes, s.entries[victim].bytes),
                                evictions := SaturatingAdd(s.evictions, 1)), protected, additional)
  {
    var candidates := Drop(Slots(s.entries), protected);
    var victim := Victim(candidates, KeyLeq);
    assert Drop(Slots(Drop(s.entries, victim)), protected) == Drop(candidates, victim);
  }

  /** Recency ends with the clock: a read that wraps it gives its entry timestamp 1. The
      entry just read is then the next victim exactly when every other entry has a later
      timestamp, or timestamp 1 and a larger key. */
  lemma WrapForgetsRecency(s: KvState, read: KvCacheKey)
    requires Inv(s) && s.clock == U64_MAX && read in s.entries
    ensures TotalOrder(KeyLeq)
    ensures var slots := Slots(KvModel.View(s, read).0.entries);
      && slots != map[]
      && (Victim(slots, KeyLeq) == read <==> forall k {:trigger OutlivesWrap(s, read, k)} :: OutlivesWrap(s, read, k))
  {
    KeyOrder();
    var slots := Slots(KvModel.View(s, read).0.entries);
    assert read in slots && slots[read].touch == 1;
    OlderFirstOrders(slots, KeyLeq, slots.Keys);
    var older, victim := OlderFirst(slots, KeyLeq), Victim(slots, KeyLeq);
    forall k ensures OutlivesWrap(s, read, k) <==> (k in slots ==> AtMost(older, read, k)) {
      assert k in slots <==> k in s.entries;
      assert Comparable(KeyLeq, read, read);
      assert KeyLeq(read, k) <==>
        read.sequenceId < k.sequenceId || (read.sequenceId == k.sequenceId && read.layer <= k.layer);
    }
    if forall k :: OutlivesWrap(s, read, k) {
      forall k | k in slots.Keys ensures AtMost(older, read, k) {
        assert OutlivesWrap(s, read, k);
      }
      LeastUnique(slots.Keys, older, victim, read);
    }
  }

  predicate OutlivesWrap(s: KvState, read: KvCacheKey, k: KvCacheKey) {
    k in s.entries && k != read ==>
      || s.entries[k].lastTouch > 1
      || (s.entries[k].lastTouch == 1
          && (read.sequenceId < k.sequenceId || (read.sequenceId == k.sequenceId && read.layer <= k.layer)))
  }

  function Reads(key: KvCacheKey, n: nat): seq<KvOp> {
    if n == 0 then [] else Reads(key, n - 1) + [ViewOp(key)]
  }

  /** Reading a missing key only moves the clock. */
  lemma {:induction false} MissingReads(s: KvState, ops: seq<KvOp>, key: KvCacheKey, n: nat)
    requires key !in Run(s, ops).0.entries && Run(s, ops).0.clock + n <= U64_MAX
    ensures Run(s, ops + Reads(key, n)).0 == Run(s, ops).0.(clock := Run(s, ops).0.clock + n)
  {
    if n == 0 {
      assert ops + Reads(key, 0) == ops;
    } else {
      MissingReads(s, ops, key, n - 1);
      var longer := ops + Reads(key, n);
      assert longer[..|longer| - 1] == ops + Reads(key, n - 1) && longer[|longer| - 1] == ViewOp(key);
    }
  }

  function OneToken(): KvBlock {
    KvBlock(0, 1, "key", "value", 1)
  }

  /** Two entries of one token each, and then reads of a key that is not there until the
      clock is at its end. */
  function WrappingRun(): seq<KvOp> {
    [AppendOp(KvCacheKey(1, 0), OneToken()), AppendOp(KvCacheKey(0, 0), OneToken())]
    + Reads(KvCacheKey(2, 0), U64_MAX - 2)
  }

  lemma FirstAppend(s: KvState, key: KvCacheKey)
    requires key !in s.entries && s.bytes + 1 <= s.capacity && s.clock < U64_MAX
    ensures KvModel.Append(s, key, OneToken()).0
         == s.(clock := s.clock + 1, bytes := s.bytes + 1,
               entries := s.entries[key := KvEntry([OneToken()], 1, s.clock + 1)])
  {
    EvictForDone(s, key, 1);
    assert [] + [OneToken()] == [OneToken()];
  }

  lemma TwoAppends()
    ensures var first, second := KvCacheKey(1, 0), KvCacheKey(0, 0);
      Run(Created(2), [AppendOp(first, OneToken()), AppendOp(second, OneToken())]).0
      == KvState(2, map[first := KvEntry([OneToken()], 1, 1), second := KvEntry([OneToken()], 1, 2)], 2, 2, 0)
  {
    var first, second := KvCacheKey(1, 0), KvCacheKey(0, 0);
    var one, two := [AppendOp(first, OneToken())], [AppendOp(first, OneToken()), AppendOp(second, OneToken())];
    assert one[..|one| - 1] == [] && two[..|two| - 1] == one;
    FirstAppend(Created(2), first);
    assert Run(Created(2), one).0 == KvModel.Append(Created(2), first, OneToken()).0;
    FirstAppend(Run(Created(2), one).0, second);
  }

  /** Such a run exists: it ends with the clock at its limit, and the entry read next is
      the next victim. */
  lemma WrapIsReached()
    ensures TotalOrder(KeyLeq)
    ensures var s, read := Run(Created(2), WrappingRun()).0, KvCacheKey(0, 0);
      && Inv(s) && s.clock == U64_MAX && read in s.entries
      && Slots(KvModel.View(s, read).0.entries) != map[]
      && Victim(Slots(KvModel.View(s, read).0.entries), KeyLeq) == read
  {
    KeyOrder();
    var first, read := KvCacheKey(1, 0), KvCacheKey(0, 0);
    var ops := [AppendOp(first, OneToken()), AppendOp(read, OneToken())];
    TwoAppends();
    MissingReads(Created(2), ops, KvCacheKey(2, 0), U64_MAX - 2);
    RunKeepsInv(2, WrappingRun());
    var s := Run(Created(2), WrappingRun()).0;
    forall k ensures OutlivesWrap(s, read, k) {}
    WrapForgetsRecency(s, read);
  }
}
