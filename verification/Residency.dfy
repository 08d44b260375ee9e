/** The residency cache of `vrb-residency`, step for step on values. The mutex makes
    every call one atomic step; the provider is an arbitrary oracle, so each acquire
    carries whatever the provider would answer if it were asked. */
module ResidencyModel {
  import opened Wrappers
  import opened Machine
  import opened Ordering
  import opened Lru

  datatype ResidencySpec = ResidencySpec(key: string, generation: u64, deviceIndex: i32, bytes: u64)
  {
    predicate Valid() {
      deviceIndex >= 0 && bytes > 0
    }
  }

  /** A provider-owned allocation: which one it is, and its immutable spec. */
  datatype Allocation = Allocation(handle: nat, spec: ResidencySpec)

  datatype Offer = Opened(allocation: Allocation) | OpenFailed(message: string)

  datatype ResidencyError =
    | InvalidSpec(key: string, deviceIndex: i32, bytes: u64)
    | ZeroCapacity
    | CapacityExceeded(requested: u64, capacity: u64)
    | Provider(message: string)
    | ProviderContract(wanted: ResidencySpec, returned: ResidencySpec)

  datatype CacheEntry = CacheEntry(allocation: Allocation, lastTouch: u64)

  datatype CacheState = CacheState(
    capacity: u64,
    entries: map<string, CacheEntry>,
    residentBytes: u64,
    clock: u64,
    hits: u64,
    misses: u64,
    evictions: u64)

  type Outcome = Result<Allocation, ResidencyError>

  function Slots(entries: map<string, CacheEntry>): map<string, Slot> {
    map k | k in entries :: Slot(entries[k].allocation.spec.bytes, entries[k].lastTouch)
  }

  function Created(capacity: u64): CacheState {
    CacheState(capacity, map[], 0, 0, 0, 0, 0)
  }

  // The operations -----------------------------------------------------------

  predicate Hit(s: CacheState, spec: ResidencySpec) {
    spec.key in s.entries && s.entries[spec.key].allocation.spec == spec
  }

  function Acquire(s: CacheState, spec: ResidencySpec, offer: Offer): (CacheState, Outcome) {
    if !spec.Valid() then (s, Err(InvalidSpec(spec.key, spec.deviceIndex, spec.bytes)))
    else if spec.bytes > s.capacity then (s, Err(CapacityExceeded(spec.bytes, s.capacity)))
    else
      var touched := s.(clock := Tick(s.clock));
      if Hit(s, spec) then
        (touched.(entries := s.entries[spec.key := s.entries[spec.key].(lastTouch := Tick(s.clock))],
                  hits := SaturatingAdd(s.hits, 1)),
         Ok(s.entries[spec.key].allocation))
      else
        var dropped := Discard(touched, spec.key);
        var (room, fits) := EvictFor(dropped.(misses := SaturatingAdd(s.misses, 1)), spec.bytes);
        if !fits then (room, Err(CapacityExceeded(spec.bytes, s.capacity)))
        else Admit(room, spec, offer)
  }

  /** Remove an entry, if there is one, and count it as evicted. */
  function Discard(s: CacheState, key: string): CacheState {
    if key in s.entries then
      s.(entries := Drop(s.entries, key),
         residentBytes := SaturatingSub(s.residentBytes, s.entries[key].allocation.spec.bytes),
         evictions := SaturatingAdd(s.evictions, 1))
    else s
  }

  function EvictFor(s: CacheState, additional: u64): (CacheState, bool) {
    StringOrder();
    var e := Evict(Slots(s.entries), s.residentBytes, s.capacity - additional, StringLeq);
    EvictBounded(Slots(s.entries), s.residentBytes, s.capacity - additional, StringLeq);
    (s.(entries := Remaining(s.entries, e.victims),
        residentBytes := e.used,
        evictions := SaturatingAdd(s.evictions, Length(e.victims))),
     e.fits)
  }

  /** The tail of `acquire`: ask the provider and admit what it returns. */
  function Admit(s: CacheState, spec: ResidencySpec, offer: Offer): (CacheState, Outcome) {
    match offer
    case OpenFailed(message) => (s, Err(Provider(message)))
    case Opened(allocation) =>
      if allocation.spec != spec then (s, Err(ProviderContract(spec, allocation.spec)))
      else
        match CheckedAdd(s.residentBytes, spec.bytes)
        case None => (s, Err(CapacityExceeded(spec.bytes, s.capacity)))
        case Some(bytes) =>
          (s.(residentBytes := bytes, entries := s.entries[spec.key := CacheEntry(allocation, s.clock)]),
           Ok(allocation))
  }

  function Invalidate(s: CacheState, key: string): (CacheState, bool) {
    (Discard(s, key), key in s.entries)
  }

  function Clear(s: CacheState): CacheState {
    s.(entries := map[], residentBytes := 0, evictions := SaturatingAdd(s.evictions, |s.entries|))
  }

  datatype Op = AcquireOp(spec: ResidencySpec, offer: Offer) | InvalidateOp(key: string) | ClearOp

  datatype Output = Acquired(outcome: Outcome) | Invalidated(found: bool) | Cleared

  function Step(s: CacheState, op: Op): (CacheState, Output) {
    match op
    case AcquireOp(spec, offer) => var (next, r) := Acquire(s, spec, offer); (next, Acquired(r))
    case InvalidateOp(key) => var (next, r) := Invalidate(s, key); (next, Invalidated(r))
    case ClearOp => (Clear(s), Cleared)
  }

  function Run(s: CacheState, ops: seq<Op>): (CacheState, seq<Output>) {
    if ops == [] then (s, [])
    else
      var (before, outputs) := Run(s, ops[..|ops| - 1]);
      var (after, output) := Step(before, ops[|ops| - 1]);
      (after, outputs + [output])
  }

  // The accounting invariant ---------------------------------------------------

  predicate EntryOk(key: string, entry: CacheEntry) {
    entry.allocation.spec.key == key && entry.allocation.spec.Valid()
  }

  predicate EntriesOk(entries: map<string, CacheEntry>) {
    forall k {:trigger EntryOk(k, entries[k])} :: k in entries ==> EntryOk(k, entries[k])
  }

  ghost predicate Inv(s: CacheState) {
    && s.capacity > 0
    && EntriesOk(s.entries)
    && s.residentBytes == Total(Slots(s.entries)) <= s.capacity
  }

  lemma SlotsUpdate(entries: map<string, CacheEntry>, key: string, entry: CacheEntry)
    ensures Slots(entries[key := entry]) == Slots(entries)[key := Slot(entry.allocation.spec.bytes, entry.lastTouch)]
    ensures Total(Slots(entries[key := entry])) == Total(Drop(Slots(entries), key)) + entry.allocation.spec.bytes
  {
    TotalUpdate(Slots(entries), key, Slot(entry.allocation.spec.bytes, entry.lastTouch));
    assert Slots(entries[key := entry]) == Slots(entries)[key := Slot(entry.allocation.spec.bytes, entry.lastTouch)];
  }

  lemma SlotsDrop(entries: map<string, CacheEntry>, key: string)
    ensures Slots(Drop(entries, key)) == Drop(Slots(entries), key)
    ensures Total(Slots(entries)) == WeightOf(Slots(entries), key) + Total(Drop(Slots(entries), key))
  {
    TotalBeside(Slots(entries), key);
  }

  lemma DiscardKeepsInv(s: CacheState, key: string)
    requires Inv(s)
    ensures Inv(Discard(s, key)) && key !in Discard(s, key).entries
    ensures Discard(s, key).entries == Drop(s.entries, key)
  {
    SlotsDrop(s.entries, key);
    if key !in s.entries { assert Drop(s.entries, key) == s.entries; }
  }

  /** The victims of the eviction loop, first to last. */
  function EvictedFor(s: CacheState, additional: u64): List<string> {
    StringOrder();
    Evict(Slots(s.entries), s.residentBytes, s.capacity - additional, StringLeq).victims
  }

  /** The loop always makes room for a request that fits the capacity at all: its
      `CapacityExceeded` branch is unreachable. */
  lemma EvictForMakesRoom(s: CacheState, additional: u64)
    requires Inv(s) && additional <= s.capacity
    ensures var (room, fits) := EvictFor(s, additional);
      && fits
      && Inv(room)
      && room.residentBytes + additional <= s.capacity
      && room.entries == DropAll(s.entries, EvictedFor(s, additional))
      && room.evictions == SaturatingAdd(s.evictions, Length(EvictedFor(s, additional)))
      && |s.entries| == |room.entries| + Length(EvictedFor(s, additional))
  {
    StringOrder();
    EvictAccounts(Slots(s.entries), 0, s.capacity - additional, StringLeq);
    SlotsRemaining(s.entries, EvictedFor(s, additional));
  }

  lemma SlotsRemaining(entries: map<string, CacheEntry>, victims: List<string>)
    ensures Remaining(entries, victims) == DropAll(entries, victims)
    ensures Slots(DropAll(entries, victims)) == Remaining(Slots(entries), victims)
    ensures |Slots(entries)| == |entries|
    ensures |Remaining(Slots(entries), victims)| == |DropAll(entries, victims)|
  {
    RemainingIsDifference(entries, victims);
    RemainingIsDifference(Slots(entries), victims);
    SlotsSize(entries);
    SlotsSize(DropAll(entries, victims));
  }

  lemma SlotsSize(entries: map<string, CacheEntry>)
    ensures |Slots(entries)| == |entries|
  {
    assert Slots(entries).Keys == entries.Keys;
  }

  /** The cache after a miss has dropped the stale entry and counted itself. */
  function Missed(s: CacheState, spec: ResidencySpec): CacheState {
    Discard(s.(clock := Tick(s.clock)), spec.key).(misses := SaturatingAdd(s.misses, 1))
  }

  /** A miss in one step. The stale generation goes first, then the victims among
      the other entries, and only then is the provider asked; whatever it answers,
      the invariant holds, and the key is present exactly when the answer was an
      allocation with the requested spec. */
  lemma MissClosedForm(s: CacheState, spec: ResidencySpec, offer: Offer)
    requires Inv(s) && spec.Valid() && spec.bytes <= s.capacity && !Hit(s, spec)
    ensures var (next, r) := Acquire(s, spec, offer);
      var victims := EvictedFor(Missed(s, spec), spec.bytes);
      var kept := DropAll(Drop(s.entries, spec.key), victims);
      && Inv(next)
      && next.clock == Tick(s.clock) && next.hits == s.hits && next.misses == SaturatingAdd(s.misses, 1)
      && next.evictions == SaturatingAdd(Missed(s, spec).evictions, Length(victims))
      && |Drop(s.entries, spec.key)| == |kept| + Length(victims)
      && spec.key !in kept
      && (r.Ok? <==> offer.Opened? && offer.allocation.spec == spec)
      && (if r.Ok? then
            r.value == offer.allocation && next.entries == kept[spec.key := CacheEntry(offer.allocation, Tick(s.clock))]
          else
            (r.error.Provider? || r.error.ProviderContract?) && next.entries == kept)
  {
    var touched := s.(clock := Tick(s.clock));
    DiscardKeepsInv(touched, spec.key);
    EvictForMakesRoom(Missed(s, spec), spec.bytes);
    var room := EvictFor(Missed(s, spec), spec.bytes).0;
    AdmitExact(room, spec, offer);
  }

  lemma AdmitExact(s: CacheState, spec: ResidencySpec, offer: Offer)
    requires Inv(s) && spec.Valid() && s.residentBytes + spec.bytes <= s.capacity && spec.key !in s.entries
    ensures var (next, r) := Admit(s, spec, offer);
      && Inv(next)
      && next == s.(entries := next.entries, residentBytes := next.residentBytes)
      && (r.Ok? <==> offer.Opened? && offer.allocation.spec == spec)
      && (if r.Ok? then
            r.value == offer.allocation && next.entries == s.entries[spec.key := CacheEntry(offer.allocation, s.clock)]
          else
            (r.error.Provider? || r.error.ProviderContract?) && next.entries == s.entries)
  {
    if offer.Opened? && offer.allocation.spec == spec {
      var entry := CacheEntry(offer.allocation, s.clock);
      assert EntryOk(spec.key, entry);
      SlotsUpdate(s.entries, spec.key, entry);
      SlotsDrop(s.entries, spec.key);
    }
  }

  lemma HitKeepsInv(s: CacheState, spec: ResidencySpec, offer: Offer)
    requires Inv(s) && spec.Valid() && spec.bytes <= s.capacity && Hit(s, spec)
    ensures Inv(Acquire(s, spec, offer).0)
    ensures Acquire(s, spec, offer).1 == Ok(s.entries[spec.key].allocation)
    ensures Acquire(s, spec, offer).0.entries.Keys == s.entries.Keys
  {
    var entry := s.entries[spec.key].(lastTouch := Tick(s.clock));
    assert EntryOk(spec.key, s.entries[spec.key]) && EntryOk(spec.key, entry);
    SlotsUpdate(s.entries, spec.key, entry);
    SlotsDrop(s.entries, spec.key);
  }

  /** What a request that reaches the provider is answered. */
  function Provided(spec: ResidencySpec, offer: Offer): Outcome {
    match offer
    case OpenFailed(message) => Err(Provider(message))
    case Opened(allocation) =>
      if allocation.spec == spec then Ok(allocation) else Err(ProviderContract(spec, allocation.spec))
  }

  /** `acquire` hands out an allocation with exactly the requested spec or an error.
      It refuses exactly a negative device, no bytes, or more bytes than the capacity.
      `CapacityExceeded` only ever means that the request alone exceeds the capacity,
      so its two later branches are unreachable; a hit returns the resident
      allocation whatever the provider would answer; a failed or contract-breaking
      open leaves nothing under the key. */
  lemma AcquireExact(s: CacheState, spec: ResidencySpec, offer: Offer)
    requires Inv(s)
    ensures var (next, r) := Acquire(s, spec, offer);
      && Inv(next)
      && (r.Ok? ==> r.value.spec == spec && spec.key in next.entries && next.entries[spec.key].allocation == r.value)
      && (r.Err? && r.error.InvalidSpec? <==> spec.deviceIndex < 0 || spec.bytes == 0)
      && (r.Err? && r.error.InvalidSpec? ==> r.error == InvalidSpec(spec.key, spec.deviceIndex, spec.bytes))
      && (r.Err? && r.error.CapacityExceeded? <==>
            spec.deviceIndex >= 0 && spec.bytes > 0 && spec.bytes > s.capacity)
      && (r.Err? && r.error.CapacityExceeded? ==> r.error == CapacityExceeded(spec.bytes, s.capacity))
      && (r.Err? && (r.error.InvalidSpec? || r.error.CapacityExceeded?) ==> next == s)
      && (r.Err? && (r.error.Provider? || r.error.ProviderContract?) ==> spec.key !in next.entries)
      && (spec.deviceIndex >= 0 && 0 < spec.bytes <= s.capacity ==>
            if spec.key in s.entries && s.entries[spec.key].allocation.spec == spec
            then r == Ok(s.entries[spec.key].allocation)
            else r == Provided(spec, offer))
  {
    if spec.Valid() && spec.bytes <= s.capacity {
      if Hit(s, spec) {
        HitKeepsInv(s, spec, offer);
      } else {
        MissClosedForm(s, spec, offer);
      }
    }
  }

  lemma StepKeepsInv(s: CacheState, op: Op)
    requires Inv(s)
    ensures Inv(Step(s, op).0)
  {
    match op
    case AcquireOp(spec, offer) => AcquireExact(s, spec, offer);
    case InvalidateOp(key) => DiscardKeepsInv(s, key);
    case ClearOp => assert Slots(map[]) == map[];
  }

  /** Whatever the provider does, after every call of every run the resident byte
      count is the exact sum over the live entries and within capacity. */
  lemma {:induction false} RunKeepsInv(capacity: u64, ops: seq<Op>)
    requires capacity > 0
    ensures var s := Run(Created(capacity), ops).0; Inv(s) && s.residentBytes == Total(Slots(s.entries)) <= s.capacity
    ensures var entries := Run(Created(capacity), ops).0.entries;
      forall k {:trigger entries[k]} :: k in entries ==>
        var spec := entries[k].allocation.spec;
        spec.key == k && spec.deviceIndex >= 0 && spec.bytes > 0
  {
    if ops == [] {
      assert Slots(map[]) == map[];
    } else {
      RunKeepsInv(capacity, ops[..|ops| - 1]);
      StepKeepsInv(Run(Created(capacity), ops[..|ops| - 1]).0, ops[|ops| - 1]);
      var entries := Run(Created(capacity), ops).0.entries;
      assert forall k {:trigger entries[k]} :: k in entries ==> EntryOk(k, entries[k]);
    }
  }

  /** What every call of a run answers, from its own arguments: a refusal exactly for a negative
      device, no bytes or too many; otherwise an allocation with the requested spec that was
      resident, or what the provider said. */
  predicate AnswersCall(capacity: u64, op: Op, output: Output) {
    match op
    case AcquireOp(spec, offer) =>
      && output.Acquired?
      && if spec.deviceIndex < 0 || spec.bytes == 0 then
           output.outcome == Err(InvalidSpec(spec.key, spec.deviceIndex, spec.bytes))
         else if spec.bytes > capacity then output.outcome == Err(CapacityExceeded(spec.bytes, capacity))
         else (output.outcome.Ok? && output.outcome.value.spec == spec) || output.outcome == Provided(spec, offer)
    case InvalidateOp(_) => output.Invalidated?
    case ClearOp => output == Cleared
  }

  lemma StepAnswers(s: CacheState, op: Op)
    requires Inv(s)
    ensures AnswersCall(s.capacity, op, Step(s, op).1) && Step(s, op).0.capacity == s.capacity
  {
    if op.AcquireOp? {
      AcquireExact(s, op.spec, op.offer);
    }
  }

  lemma {:induction false} RunAnswers(capacity: u64, ops: seq<Op>)
    requires capacity > 0
    ensures var (s, outputs) := Run(Created(capacity), ops);
      && s.capacity == capacity && |outputs| == |ops|
      && forall i :: 0 <= i < |ops| ==> AnswersCall(capacity, ops[i], outputs[i])
  {
    if ops == [] {
    } else {
      var last := |ops| - 1;
      RunAnswers(capacity, ops[..last]);
      RunKeepsInv(capacity, ops[..last]);
      StepAnswers(Run(Created(capacity), ops[..last]).0, ops[last]);
      var outputs := Run(Created(capacity), ops).1;
      forall i | 0 <= i < |ops| ensures AnswersCall(capacity, ops[i], outputs[i]) {
        assert i < last ==> ops[i] == ops[..last][i] && outputs[i] == Run(Created(capacity), ops[..last]).1[i];
      }
    }
  }

  // Conservation ----------------------------------------------------------------

  /** How many acquires reached the provider and got nothing usable from it. */
  function FailedOpens(outputs: seq<Output>): nat {
    if outputs == [] then 0
    else FailedOpens(outputs[..|outputs| - 1]) + (if FailedOpen(outputs[|outputs| - 1]) then 1 else 0)
  }

  predicate FailedOpen(output: Output) {
    output.Acquired? && output.outcome.Err?
        && (output.outcome.error.Provider? || output.outcome.error.ProviderContract?)
  }

  predicate Conserved(s: CacheState, failed: nat) {
    s.misses == |s.entries| + s.evictions + failed
  }

  /** The calls that advance the clock: acquires that look for their key. Each is a hit or
      a miss. */
  predicate Ticks(output: Output) {
    output.Acquired? && (output.outcome.Ok? || FailedOpen(output))
  }

  function TickCount(outputs: seq<Output>): nat {
    if outputs == [] then 0
    else TickCount(outputs[..|outputs| - 1]) + if Ticks(outputs[|outputs| - 1]) then 1 else 0
  }

  lemma TicksExactly(s: CacheState, spec: ResidencySpec, offer: Offer)
    requires Inv(s)
    ensures Ticks(Acquired(Acquire(s, spec, offer).1)) <==> spec.Valid() && spec.bytes <= s.capacity
  {
    AcquireExact(s, spec, offer);
    if spec.Valid() && spec.bytes <= s.capacity && !Hit(s, spec) {
      MissClosedForm(s, spec, offer);
    }
  }

  lemma DiscardConserves(s: CacheState, key: string)
    requires key in s.entries ==> s.evictions < U64_MAX
    ensures |Discard(s, key).entries| + Discard(s, key).evictions == |s.entries| + s.evictions
    ensures Discard(s, key).entries == Drop(s.entries, key)
  {
    if key in s.entries {
      DropShrinks(s.entries, key);
    } else {
      assert Drop(s.entries, key) == s.entries;
    }
  }

  /** An entry is an eviction still to come, so the eviction counter has room for it. */
  lemma RoomToEvict(s: CacheState, key: string, failed: nat)
    requires Conserved(s, failed)
    ensures key in s.entries ==> s.evictions < U64_MAX
  {
    if key in s.entries {
      DropShrinks(s.entries, key);
    }
  }

  lemma AcquireConserves(s: CacheState, spec: ResidencySpec, offer: Offer, failed: nat)
    requires Inv(s) && Conserved(s, failed)
    requires Ticks(Acquired(Acquire(s, spec, offer).1)) ==> s.hits + s.misses < U64_MAX
    ensures var (next, r) := Acquire(s, spec, offer);
      && Conserved(next, failed + if FailedOpen(Acquired(r)) then 1 else 0)
      && next.hits + next.misses == s.hits + s.misses + if Ticks(Acquired(r)) then 1 else 0
  {
    TicksExactly(s, spec, offer);
    if spec.Valid() && spec.bytes <= s.capacity {
      if Hit(s, spec) {
        HitKeepsInv(s, spec, offer);
        assert |Acquire(s, spec, offer).0.entries.Keys| == |s.entries.Keys|;
      } else {
        RoomToEvict(s, spec.key, failed);
        DiscardConserves(s.(clock := Tick(s.clock)), spec.key);
        MissClosedForm(s, spec, offer);
      }
    }
  }

  lemma StepConserves(s: CacheState, op: Op, failed: nat)
    requires Inv(s) && Conserved(s, failed) && (Ticks(Step(s, op).1) ==> s.hits + s.misses < U64_MAX)
    ensures var (next, output) := Step(s, op);
      && Conserved(next, failed + if FailedOpen(output) then 1 else 0)
      && next.hits + next.misses == s.hits + s.misses + if Ticks(output) then 1 else 0
  {
    match op
    case AcquireOp(spec, offer) => AcquireConserves(s, spec, offer, failed);
    case InvalidateOp(key) =>
      RoomToEvict(s, key, failed);
      DiscardConserves(s, key);
    case ClearOp =>
  }

  lemma LastTick(capacity: u64, ops: seq<Op>)
    requires ops != []
    ensures var (s, outputs) := Run(Created(capacity), ops[..|ops| - 1]);
      var after := Run(Created(capacity), ops).1;
      && after == outputs + [Step(s, ops[|ops| - 1]).1]
      && TickCount(after) == TickCount(outputs) + (if Ticks(Step(s, ops[|ops| - 1]).1) then 1 else 0)
      && FailedOpens(after) == FailedOpens(outputs) + (if FailedOpen(Step(s, ops[|ops| - 1]).1) then 1 else 0)
  {
    var (s, outputs) := Run(Created(capacity), ops[..|ops| - 1]);
    var output := Step(s, ops[|ops| - 1]).1;
    assert (outputs + [output])[..|outputs|] == outputs;
  }

  /** Every miss is accounted for: it is still resident, was evicted, or failed to open.
      Every tick is a hit or a miss. No counter saturates before the clock wraps. */
  lemma {:induction false} RunConserves(capacity: u64, ops: seq<Op>)
    requires capacity > 0 && TickCount(Run(Created(capacity), ops).1) < U64_LIMIT
    ensures var (s, outputs) := Run(Created(capacity), ops);
      Conserved(s, FailedOpens(outputs)) && s.hits + s.misses == TickCount(outputs)
  {
    if ops == [] {
    } else {
      LastTick(capacity, ops);
      RunConserves(capacity, ops[..|ops| - 1]);
      RunKeepsInv(capacity, ops[..|ops| - 1]);
      var (s, outputs) := Run(Created(capacity), ops[..|ops| - 1]);
      StepConserves(s, ops[|ops| - 1], FailedOpens(outputs));
    }
  }

  datatype ResidencyStats = ResidencyStats(entries: nat, residentBytes: u64, hits: u64, misses: u64, evictions: u64)

  /** `stats` */
  function StatsOf(s: CacheState): ResidencyStats {
    ResidencyStats(|s.entries|, s.residentBytes, s.hits, s.misses, s.evictions)
  }

  // The recency list it implements ------------------------------------------------

  /** The same cache without clock or byte counters. Its event counts are unbounded. */
  datatype ResidencyList = ResidencyList(
    capacity: u64,
    order: List<string>,
    allocations: map<string, Allocation>,
    hits: nat,
    misses: nat,
    evictions: nat)

  ghost function Sizes(allocations: map<string, Allocation>): map<string, Slot> {
    map k | k in allocations :: Slot(allocations[k].spec.bytes, 0)
  }

  /** The least recently used entries other than `key`, just enough to make room. */
  ghost function ListVictims(a: ResidencyList, key: string, additional: nat): List<string> {
    var others := Sizes(Drop(a.allocations, key));
    Oldest(others, Without(a.order, Only(key)), Total(others) + additional - a.capacity)
  }

  ghost function ListAcquire(a: ResidencyList, spec: ResidencySpec, offer: Offer): (ResidencyList, Outcome) {
    if !spec.Valid() then (a, Err(InvalidSpec(spec.key, spec.deviceIndex, spec.bytes)))
    else if spec.bytes > a.capacity then (a, Err(CapacityExceeded(spec.bytes, a.capacity)))
    else if spec.key in a.allocations && a.allocations[spec.key].spec == spec then
      (a.(order := Touch(a.order, spec.key), hits := a.hits + 1), Ok(a.allocations[spec.key]))
    else
      var victims := ListVictims(a, spec.key, spec.bytes);
      var stale := if spec.key in a.allocations then 1 else 0;
      var room := a.(order := Without(Without(a.order, Only(spec.key)), victims),
                     allocations := DropAll(Drop(a.allocations, spec.key), victims),
                     misses := a.misses + 1,
                     evictions := a.evictions + stale + Length(victims));
      match offer
      case OpenFailed(message) => (room, Err(Provider(message)))
      case Opened(allocation) =>
        if allocation.spec != spec then (room, Err(ProviderContract(spec, allocation.spec)))
        else
          (room.(order := Touch(room.order, spec.key), allocations := room.allocations[spec.key := allocation]),
           Ok(allocation))
  }

  ghost function ListStep(a: ResidencyList, op: Op): (ResidencyList, Output) {
    match op
    case AcquireOp(spec, offer) => var (next, r) := ListAcquire(a, spec, offer); (next, Acquired(r))
    case InvalidateOp(key) =>
      (a.(order := Without(a.order, Only(key)),
          allocations := Drop(a.allocations, key),
          evictions := a.evictions + if key in a.allocations then 1 else 0),
       Invalidated(key in a.allocations))
    case ClearOp => (a.(order := Nil, allocations := map[], evictions := a.evictions + |a.allocations|), Cleared)
  }

  ghost function ListRun(a: ResidencyList, ops: seq<Op>): (ResidencyList, seq<Output>) {
    if ops == [] then (a, [])
    else
      var (before, outputs) := ListRun(a, ops[..|ops| - 1]);
      var (after, output) := ListStep(before, ops[|ops| - 1]);
      (after, outputs + [output])
  }

  function Allocations(entries: map<string, CacheEntry>): map<string, Allocation> {
    map k | k in entries :: entries[k].allocation
  }

  predicate InPast(entries: map<string, CacheEntry>, clock: u64) {
    forall k {:trigger entries[k]} :: k in entries ==> entries[k].lastTouch <= clock
  }

  ghost predicate SameOrder(entries: map<string, CacheEntry>, clock: u64,
                            order: List<string>, allocations: map<string, Allocation>)
  {
    InPast(entries, clock) && allocations == Allocations(entries) && Recency(Slots(entries), order)
  }

  ghost predicate Implements(s: CacheState, a: ResidencyList) {
    && Inv(s)
    && a.capacity == s.capacity
    && SameOrder(s.entries, s.clock, a.order, a.allocations)
    && a.hits == s.hits && a.misses == s.misses && a.evictions == s.evictions
  }

  lemma SizesAgree(entries: map<string, CacheEntry>, order: List<string>, excess: int)
    ensures var sizes := Sizes(Allocations(entries));
      Total(sizes) == Total(Slots(entries)) && Oldest(Slots(entries), order, excess) == Oldest(sizes, order, excess)
  {
    TotalSameWeights(Sizes(Allocations(entries)), Slots(entries));
    OldestAgrees(Slots(entries), Sizes(Allocations(entries)), order, excess);
  }

  lemma DropOrder(entries: map<string, CacheEntry>, clock: u64, order: List<string>,
                  allocations: map<string, Allocation>, key: string)
    requires SameOrder(entries, clock, order, allocations)
    ensures SameOrder(Drop(entries, key), clock, Without(order, Only(key)), Drop(allocations, key))
  {
    RecencyWithout(Slots(entries), order, Only(key));
    DropOnly(Slots(entries), key);
    SlotsDrop(entries, key);
  }

  lemma DropAllOrder(entries: map<string, CacheEntry>, clock: u64, order: List<string>,
                     allocations: map<string, Allocation>, gone: List<string>)
    requires SameOrder(entries, clock, order, allocations)
    ensures SameOrder(DropAll(entries, gone), clock, Without(order, gone), DropAll(allocations, gone))
  {
    RecencyWithout(Slots(entries), order, gone);
    assert Slots(DropAll(entries, gone)) == DropAll(Slots(entries), gone);
  }

  lemma TouchOrder(entries: map<string, CacheEntry>, clock: u64, order: List<string>,
                   allocations: map<string, Allocation>, key: string, allocation: Allocation)
    requires SameOrder(entries, clock, order, allocations) && clock < U64_MAX
    ensures SameOrder(entries[key := CacheEntry(allocation, clock + 1)], clock + 1, Touch(order, key),
                      allocations[key := allocation])
  {
    var entry := CacheEntry(allocation, clock + 1);
    RecencyTouch(Slots(entries), order, key, Slot(allocation.spec.bytes, clock + 1));
    SlotsUpdate(entries, key, entry);
    assert Allocations(entries[key := entry]) == Allocations(entries)[key := allocation];
  }

  /** The timestamp loop, run after the stale entry is gone, chooses the victims of
      the recency list. */
  lemma SameVictims(s: CacheState, a: ResidencyList, spec: ResidencySpec)
    requires Implements(s, a)
    ensures EvictedFor(Missed(s, spec), spec.bytes) == ListVictims(a, spec.key, spec.bytes)
  {
    var missed := Missed(s, spec);
    DiscardKeepsInv(s.(clock := Tick(s.clock)), spec.key);
    DropOrder(s.entries, s.clock, a.order, a.allocations, spec.key);
    var order, excess := Without(a.order, Only(spec.key)), missed.residentBytes + spec.bytes - s.capacity;
    SizesAgree(missed.entries, order, excess);
    LoopIsOldest(missed, spec.bytes, excess, order);
  }

  lemma LoopIsOldest(s: CacheState, additional: u64, excess: int, order: List<string>)
    requires Inv(s) && Recency(Slots(s.entries), order) && excess == s.residentBytes + additional - s.capacity
    ensures EvictedFor(s, additional) == Oldest(Slots(s.entries), order, excess)
  {
    StringOrder();
    EvictsOldest(Slots(s.entries), 0, s.capacity - additional, StringLeq, order);
  }

  lemma KeptOrder(s: CacheState, a: ResidencyList, key: string, victims: List<string>)
    requires Implements(s, a) && s.clock < U64_MAX
    ensures SameOrder(DropAll(Drop(s.entries, key), victims), s.clock + 1,
                      Without(Without(a.order, Only(key)), victims), DropAll(Drop(a.allocations, key), victims))
  {
    LaterClock(s.entries, s.clock, a.order, a.allocations);
    DropOrder(s.entries, s.clock + 1, a.order, a.allocations, key);
    DropAllOrder(Drop(s.entries, key), s.clock + 1, Without(a.order, Only(key)), Drop(a.allocations, key), victims);
  }

  lemma AdmittedOrder(s: CacheState, a: ResidencyList, key: string, victims: List<string>, allocation: Allocation)
    requires Implements(s, a) && s.clock < U64_MAX
    ensures SameOrder(DropAll(Drop(s.entries, key), victims)[key := CacheEntry(allocation, s.clock + 1)], s.clock + 1,
                      Touch(Without(Without(a.order, Only(key)), victims), key),
                      DropAll(Drop(a.allocations, key), victims)[key := allocation])
  {
    DropOrder(s.entries, s.clock, a.order, a.allocations, key);
    DropAllOrder(Drop(s.entries, key), s.clock, Without(a.order, Only(key)), Drop(a.allocations, key), victims);
    TouchOrder(DropAll(Drop(s.entries, key), victims), s.clock, Without(Without(a.order, Only(key)), victims),
               DropAll(Drop(a.allocations, key), victims), key, allocation);
  }

  lemma LaterClock(entries: map<string, CacheEntry>, clock: u64,
                   order: List<string>, allocations: map<string, Allocation>)
    requires SameOrder(entries, clock, order, allocations) && clock < U64_MAX
    ensures SameOrder(entries, clock + 1, order, allocations)
  {}

  /** The recency list after a miss, on values alone. */
  ghost predicate AfterMiss(a': ResidencyList, a: ResidencyList, key: string,
                            victims: List<string>, admitted: Option<Allocation>)
  {
    var order, kept := Without(Without(a.order, Only(key)), victims), DropAll(Drop(a.allocations, key), victims);
    && a'.capacity == a.capacity
    && a'.order == (if admitted.Some? then Touch(order, key) else order)
    && a'.allocations == (if admitted.Some? then kept[key := admitted.value] else kept)
  }

  /** The entries after a miss: the stale one and the victims gone, the admitted one new. */
  function MissedEntries(entries: map<string, CacheEntry>, key: string, victims: List<string>,
                         admitted: Option<Allocation>, touch: u64): map<string, CacheEntry>
  {
    var kept := DropAll(Drop(entries, key), victims);
    if admitted.Some? then kept[key := CacheEntry(admitted.value, touch)] else kept
  }

  lemma MissOrder(s: CacheState, a: ResidencyList, a': ResidencyList, key: string,
                  victims: List<string>, admitted: Option<Allocation>)
    requires Implements(s, a) && s.clock < U64_MAX
    requires AfterMiss(a', a, key, victims, admitted)
    ensures SameOrder(MissedEntries(s.entries, key, victims, admitted, s.clock + 1), s.clock + 1, a'.order,
                      a'.allocations)
  {
    if admitted.Some? {
      AdmittedOrder(s, a, key, victims, admitted.value);
    } else {
      KeptOrder(s, a, key, victims);
    }
  }

  function Admitted(spec: ResidencySpec, offer: Offer): Option<Allocation> {
    if offer.Opened? && offer.allocation.spec == spec then Some(offer.allocation) else None
  }

  lemma ListMiss(a: ResidencyList, spec: ResidencySpec, offer: Offer)
    requires spec.Valid() && spec.bytes <= a.capacity
    requires !(spec.key in a.allocations && a.allocations[spec.key].spec == spec)
    ensures AfterMiss(ListAcquire(a, spec, offer).0, a, spec.key, ListVictims(a, spec.key, spec.bytes),
                      Admitted(spec, offer))
  {}

  lemma MissEntries(s: CacheState, spec: ResidencySpec, offer: Offer)
    requires Inv(s) && spec.Valid() && spec.bytes <= s.capacity && !Hit(s, spec)
    ensures var next := Acquire(s, spec, offer).0;
      && next.clock == Tick(s.clock)
      && next.entries == MissedEntries(s.entries, spec.key, EvictedFor(Missed(s, spec), spec.bytes),
                                       Admitted(spec, offer), Tick(s.clock))
  {
    MissClosedForm(s, spec, offer);
  }

  lemma MissKeepsOrder(s: CacheState, a: ResidencyList, spec: ResidencySpec, offer: Offer)
    requires Implements(s, a) && s.clock < U64_MAX
    requires spec.Valid() && spec.bytes <= s.capacity && !Hit(s, spec)
    ensures var next := Acquire(s, spec, offer).0;
      var a' := ListAcquire(a, spec, offer).0;
      SameOrder(next.entries, next.clock, a'.order, a'.allocations)
  {
    ListMiss(a, spec, offer);
    MissOrder(s, a, ListAcquire(a, spec, offer).0, spec.key, ListVictims(a, spec.key, spec.bytes),
              Admitted(spec, offer));
    SameVictims(s, a, spec);
    MissEntries(s, spec, offer);
  }

  lemma MissAnswer(s: CacheState, a: ResidencyList, spec: ResidencySpec, offer: Offer)
    requires Implements(s, a)
    requires spec.Valid() && spec.bytes <= s.capacity && !Hit(s, spec)
    ensures Acquire(s, spec, offer).1 == ListAcquire(a, spec, offer).1
  {
    MissClosedForm(s, spec, offer);
    DiscardKeepsInv(s.(clock := Tick(s.clock)), spec.key);
    EvictForMakesRoom(Missed(s, spec), spec.bytes);
  }

  lemma MissCounts(s: CacheState, a: ResidencyList, spec: ResidencySpec, offer: Offer, failed: nat)
    requires Implements(s, a) && s.misses < U64_MAX && Conserved(s, failed)
    requires spec.Valid() && spec.bytes <= s.capacity && !Hit(s, spec)
    ensures var next := Acquire(s, spec, offer).0;
      var a' := ListAcquire(a, spec, offer).0;
      a'.hits == next.hits && a'.misses == next.misses && a'.evictions == next.evictions
  {
    MissClosedForm(s, spec, offer);
    SameVictims(s, a, spec);
    DiscardConserves(s.(clock := Tick(s.clock)), spec.key);
    if spec.key in s.entries { DropShrinks(s.entries, spec.key); }
  }

  lemma HitKeepsOrder(s: CacheState, a: ResidencyList, spec: ResidencySpec)
    requires Implements(s, a) && s.clock < U64_MAX && Hit(s, spec)
    ensures SameOrder(s.entries[spec.key := s.entries[spec.key].(lastTouch := s.clock + 1)], s.clock + 1,
                      Touch(a.order, spec.key), a.allocations)
  {
    var allocation := s.entries[spec.key].allocation;
    TouchOrder(s.entries, s.clock, a.order, a.allocations, spec.key, allocation);
    assert a.allocations[spec.key := allocation] == a.allocations;
  }

  lemma HitClosedForm(s: CacheState, a: ResidencyList, spec: ResidencySpec, offer: Offer)
    requires spec.Valid() && spec.bytes <= s.capacity == a.capacity && Hit(s, spec)
    requires spec.key in a.allocations && a.allocations[spec.key] == s.entries[spec.key].allocation
    ensures Acquire(s, spec, offer).0
         == s.(clock := Tick(s.clock), hits := SaturatingAdd(s.hits, 1),
               entries := s.entries[spec.key := s.entries[spec.key].(lastTouch := Tick(s.clock))])
    ensures ListAcquire(a, spec, offer).0 == a.(order := Touch(a.order, spec.key), hits := a.hits + 1)
    ensures Acquire(s, spec, offer).1 == ListAcquire(a, spec, offer).1 == Ok(s.entries[spec.key].allocation)
  {}

  /** What the record after a hit keeps in step with the list, on values alone. */
  lemma HitInStep(s: CacheState, a: ResidencyList, key: string, next: CacheState, a': ResidencyList)
    requires Implements(s, a) && s.clock < U64_MAX && s.hits < U64_MAX && key in s.entries && Inv(next)
    requires next == s.(clock := s.clock + 1, hits := s.hits + 1, entries := next.entries)
    requires a' == a.(order := Touch(a.order, key), hits := a.hits + 1)
    requires SameOrder(next.entries, s.clock + 1, Touch(a.order, key), a.allocations)
    ensures Implements(next, a')
  {}

  lemma HitImplements(s: CacheState, a: ResidencyList, spec: ResidencySpec, offer: Offer)
    requires Implements(s, a) && s.clock < U64_MAX && s.hits < U64_MAX
    requires spec.Valid() && spec.bytes <= s.capacity && Hit(s, spec)
    ensures Implements(Acquire(s, spec, offer).0, ListAcquire(a, spec, offer).0)
    ensures Acquire(s, spec, offer).1 == ListAcquire(a, spec, offer).1
  {
    HitClosedForm(s, a, spec, offer);
    HitKeepsOrder(s, a, spec);
    HitKeepsInv(s, spec, offer);
    HitInStep(s, a, spec.key, Acquire(s, spec, offer).0, ListAcquire(a, spec, offer).0);
  }

  lemma MissKeepsInv(s: CacheState, spec: ResidencySpec, offer: Offer)
    requires Inv(s) && spec.Valid() && spec.bytes <= s.capacity && !Hit(s, spec)
    ensures Inv(Acquire(s, spec, offer).0) && Acquire(s, spec, offer).0.capacity == s.capacity
  {
    MissClosedForm(s, spec, offer);
  }

  lemma MissImplements(s: CacheState, a: ResidencyList, spec: ResidencySpec, offer: Offer, failed: nat)
    requires Implements(s, a) && s.clock < U64_MAX && s.misses < U64_MAX && Conserved(s, failed)
    requires spec.Valid() && spec.bytes <= s.capacity && !Hit(s, spec)
    ensures Implements(Acquire(s, spec, offer).0, ListAcquire(a, spec, offer).0)
    ensures Acquire(s, spec, offer).1 == ListAcquire(a, spec, offer).1
  {
    MissKeepsInv(s, spec, offer);
    MissKeepsOrder(s, a, spec, offer);
    MissAnswer(s, a, spec, offer);
    MissCounts(s, a, spec, offer, failed);
  }

  lemma AcquireImplements(s: CacheState, a: ResidencyList, spec: ResidencySpec, offer: Offer, failed: nat)
    requires Implements(s, a) && Conserved(s, failed)
    requires Ticks(Acquired(Acquire(s, spec, offer).1)) ==> s.clock < U64_MAX && s.hits < U64_MAX && s.misses < U64_MAX
    ensures Implements(Acquire(s, spec, offer).0, ListAcquire(a, spec, offer).0)
    ensures Acquire(s, spec, offer).1 == ListAcquire(a, spec, offer).1
    ensures Acquire(s, spec, offer).0.clock == s.clock + if Ticks(Acquired(Acquire(s, spec, offer).1)) then 1 else 0
  {
    TicksExactly(s, spec, offer);
    if spec.Valid() && spec.bytes <= s.capacity {
      if Hit(s, spec) {
        HitImplements(s, a, spec, offer);
      } else {
        MissImplements(s, a, spec, offer, failed);
        MissEntries(s, spec, offer);
      }
    }
  }

  lemma InvalidateImplements(s: CacheState, a: ResidencyList, key: string)
    requires Implements(s, a) && (key in s.entries ==> s.evictions < U64_MAX)
    ensures Implements(Step(s, InvalidateOp(key)).0, ListStep(a, InvalidateOp(key)).0)
  {
    DropOrder(s.entries, s.clock, a.order, a.allocations, key);
    DiscardKeepsInv(s, key);
  }

  lemma ClearImplements(s: CacheState, a: ResidencyList)
    requires Implements(s, a) && s.evictions + |s.entries| < U64_LIMIT
    ensures Implements(Step(s, ClearOp).0, ListStep(a, ClearOp).0)
  {
    assert Slots(map[]) == map[];
    assert s.entries.Keys == a.allocations.Keys;
  }

  lemma StepImplements(s: CacheState, a: ResidencyList, op: Op, failed: nat)
    requires Implements(s, a) && Conserved(s, failed)
    requires Ticks(Step(s, op).1) ==> s.clock < U64_MAX && s.hits < U64_MAX && s.misses < U64_MAX
    ensures Implements(Step(s, op).0, ListStep(a, op).0)
    ensures Step(s, op).1 == ListStep(a, op).1
    ensures Step(s, op).0.clock == s.clock + if Ticks(Step(s, op).1) then 1 else 0
  {
    match op
    case AcquireOp(spec, offer) => AcquireImplements(s, a, spec, offer, failed);
    case InvalidateOp(key) =>
      RoomToEvict(s, key, failed);
      InvalidateImplements(s, a, key);
    case ClearOp => ClearImplements(s, a);
  }

  /** Until the clock wraps, that is for fewer than 2^64 lookups among any number of other
      calls, every run against every provider answers exactly as the recency list does and
      ends with the same counters. */
  lemma {:induction false} RunRefinesList(capacity: u64, ops: seq<Op>)
    requires capacity > 0 && TickCount(Run(Created(capacity), ops).1) < U64_LIMIT
    ensures var (s, outputs) := Run(Created(capacity), ops);
      var (a, outputs') := ListRun(ResidencyList(capacity, Nil, map[], 0, 0, 0), ops);
      Implements(s, a) && outputs == outputs' && s.clock == TickCount(outputs)
  {
    if ops == [] {
      assert Slots(map[]) == map[];
      assert Allocations(map[]) == map[];
    } else {
      var before := ops[..|ops| - 1];
      LastTick(capacity, ops);
      RunRefinesList(capacity, before);
      RunConserves(capacity, before);
      var (s, outputs) := Run(Created(capacity), before);
      var a := ListRun(ResidencyList(capacity, Nil, map[], 0, 0, 0), before).0;
      StepImplements(s, a, ops[|ops| - 1], FailedOpens(outputs));
    }
  }

  lemma StatsOfList(s: CacheState, a: ResidencyList)
    requires Implements(s, a)
    ensures var stats := StatsOf(s);
      && stats.entries == |a.allocations| && stats.residentBytes == Total(Sizes(a.allocations)) <= a.capacity
      && stats.hits == a.hits && stats.misses == a.misses && stats.evictions == a.evictions
  {
    SizesAgree(s.entries, a.order, 0);
    assert s.entries.Keys == Allocations(s.entries).Keys;
    assert |s.entries| == |s.entries.Keys| && |Allocations(s.entries)| == |Allocations(s.entries).Keys|;
  }

  /** What the statistics mean after a run: they are the recency list's own entries, byte sum
      and counts, every miss is live, evicted or failed, and hits and misses are the
      lookups. */
  lemma StatsAfterRun(capacity: u64, ops: seq<Op>)
    requires capacity > 0 && TickCount(Run(Created(capacity), ops).1) < U64_LIMIT
    ensures var (s, outputs) := Run(Created(capacity), ops);
      var (stats, a) := (StatsOf(s), ListRun(ResidencyList(capacity, Nil, map[], 0, 0, 0), ops).0);
      && stats.entries == |a.allocations| && stats.residentBytes == Total(Sizes(a.allocations)) <= a.capacity
      && stats.hits == a.hits && stats.misses == a.misses && stats.evictions == a.evictions
      && stats.misses == stats.entries + stats.evictions + FailedOpens(outputs)
      && stats.hits + stats.misses == TickCount(outputs)
  {
    RunConserves(capacity, ops);
    RunRefinesList(capacity, ops);
    StatsOfList(Run(Created(capacity), ops).0, ListRun(ResidencyList(capacity, Nil, map[], 0, 0, 0), ops).0);
  }
}

/** The cache object. Each locked call updates its fields in place and is proved to
    be exactly the value-level operation of the same name. */
module Residency {
  import opened Wrappers
  import opened Machine
  import opened Ordering
  import opened Lru
  import opened ResidencyModel

  class ResidencyCache {
    const capacityBytes: u64
    var entries: map<string, CacheEntry>
    var residentBytes: u64
    var clock: u64
    var hits: u64
    var misses: u64
    var evictions: u64

    ghost function State(): CacheState
      reads this
    {
      CacheState(capacityBytes, entries, residentBytes, clock, hits, misses, evictions)
    }

    constructor (capacityBytes: u64)
      ensures State() == Created(capacityBytes)
    {
      this.capacityBytes := capacityBytes;
      entries, residentBytes, clock := map[], 0, 0;
      hits, misses, evictions := 0, 0, 0;
    }

    static method New(capacityBytes: u64) returns (cache: Result<ResidencyCache, ResidencyError>)
      ensures cache.Err? <==> capacityBytes == 0
      ensures cache.Err? ==> cache.error == ZeroCapacity
      ensures cache.Ok? ==> fresh(cache.value)
      ensures cache.Ok? ==> cache.value.State() == Created(capacityBytes) && Inv(cache.value.State())
    {
      if capacityBytes == 0 {
        return Err(ZeroCapacity);
      }
      var created := new ResidencyCache(capacityBytes);
      RunKeepsInv(capacityBytes, []);
      return Ok(created);
    }

    method Acquire(spec: ResidencySpec, offer: Offer) returns (outcome: Outcome)
      modifies this
      ensures (State(), outcome) == ResidencyModel.Acquire(old(State()), spec, offer)
    {
      if !spec.Valid() {
        return Err(InvalidSpec(spec.key, spec.deviceIndex, spec.bytes));
      }
      if spec.bytes > capacityBytes {
        return Err(CapacityExceeded(spec.bytes, capacityBytes));
      }
      clock := Tick(clock);
      var touch := clock;
      if spec.key in entries && entries[spec.key].allocation.spec == spec {
        var entry := entries[spec.key];
        entries := entries[spec.key := entry.(lastTouch := touch)];
        hits := SaturatingAdd(hits, 1);
        return Ok(entry.allocation);
      }
      if spec.key in entries {
        var stale := entries[spec.key];
        entries := Drop(entries, spec.key);
        residentBytes := SaturatingSub(residentBytes, stale.allocation.spec.bytes);
        evictions := SaturatingAdd(evictions, 1);
      }
      misses := SaturatingAdd(misses, 1);
      ghost var missed := State();
      assert missed == Missed(old(State()), spec);
      StringOrder();
      while residentBytes + spec.bytes > capacityBytes
        invariant EvictFor(State(), spec.bytes) == EvictFor(missed, spec.bytes)
        decreases |entries|
      {
        if entries == map[] {
          EvictForDone(State(), spec.bytes);
          return Err(CapacityExceeded(spec.bytes, capacityBytes));
        }
        EvictForStep(State(), spec.bytes);
        var victim := Victim(Slots(entries), StringLeq);
        DropShrinks(entries, victim);
        var removed := entries[victim];
        entries := Drop(entries, victim);
        residentBytes := SaturatingSub(residentBytes, removed.allocation.spec.bytes);
        evictions := SaturatingAdd(evictions, 1);
      }
      EvictForDone(State(), spec.bytes);
      if offer.OpenFailed? {
        return Err(Provider(offer.message));
      }
      var allocation := offer.allocation;
      if allocation.spec != spec {
        return Err(ProviderContract(spec, allocation.spec));
      }
      var total := CheckedAdd(residentBytes, spec.bytes);
      if total.None? {
        return Err(CapacityExceeded(spec.bytes, capacityBytes));
      }
      residentBytes := total.value;
      entries := entries[spec.key := CacheEntry(allocation, touch)];
      return Ok(allocation);
    }

    method Invalidate(key: string) returns (found: bool)
      modifies this
      ensures (State(), found) == ResidencyModel.Invalidate(old(State()), key)
    {
      if key in entries {
        residentBytes := SaturatingSub(residentBytes, entries[key].allocation.spec.bytes);
        entries := Drop(entries, key);
        evictions := SaturatingAdd(evictions, 1);
        return true;
      }
      return false;
    }

    method Clear()
      modifies this
      ensures State() == ResidencyModel.Clear(old(State()))
    {
      evictions := SaturatingAdd(evictions, |entries|);
      entries := map[];
      residentBytes := 0;
    }

    method Stats() returns (stats: ResidencyStats)
      ensures stats == StatsOf(State())
    {
      return ResidencyStats(|entries|, residentBytes, hits, misses, evictions);
    }
  }

  lemma EvictForDone(s: CacheState, additional: u64)
    requires s.residentBytes + additional <= s.capacity || s.entries == map[]
    ensures EvictFor(s, additional) == (s, s.residentBytes + additional <= s.capacity)
  {
    StringOrder();
    assert s.entries == map[] ==> Slots(s.entries) == map[];
  }

  lemma EvictForStep(s: CacheState, additional: u64)
    requires TotalOrder(StringLeq)
    requires s.residentBytes + additional > s.capacity && s.entries != map[]
    ensures Slots(s.entries) != map[]
    ensures var victim := Victim(Slots(s.entries), StringLeq);
      && victim in s.entries
      && EvictFor(s, additional)
         == EvictFor(s.(entries := Drop(s.entries, victim),
                        residentBytes := SaturatingSub(s.residentBytes, s.entries[victim].allocation.spec.bytes),
                        evictions := SaturatingAdd(s.evictions, 1)), additional)
  {
    assert Slots(s.entries).Keys == s.entries.Keys;
    assert s.entries.Keys != {};
    var victim := Victim(Slots(s.entries), StringLeq);
    assert Slots(Drop(s.entries, victim)) == Drop(Slots(s.entries), victim);
  }
}
