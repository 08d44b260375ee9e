/** Backend capabilities, measured latencies and single-operation routing. */
module Core {
  import opened Wrappers
  import opened Machine

  type BackendId = string

  datatype BackendKind = Cpu | Vulkan | Hip | Hybrid | Plugin

  datatype OperationKind = Copy | VectorAdd | Gemv | Gemm | Softmax | Attention | RmsNorm | Custom

  datatype DataType = F32 | F16 | Bf16 | I8 | Q4 | Unknown

  /** A 64-bit float as a measurement: a number, or one of the non-finite values. */
  datatype Float = Number(value: real) | NaN | PosInfinity | NegInfinity
  {
    /** `value.is_finite() && value >= 0.0` */
    predicate Usable() {
      Number? && value >= 0.0
    }
  }

  datatype RouteRequest = RouteRequest(
    operation: OperationKind,
    dataType: DataType,
    requiresExternalMemory: bool,
    requiresExternalSemaphore: bool,
    requiresZeroCopy: bool)

  datatype CapabilitySet = CapabilitySet(
    operations: seq<OperationKind>,
    dataTypes: seq<DataType>,
    externalMemory: bool,
    externalSemaphore: bool,
    zeroCopy: bool)
  {
    predicate Supports(request: RouteRequest) {
      && request.operation in operations
      && request.dataType in dataTypes
      && (!request.requiresExternalMemory || externalMemory)
      && (!request.requiresExternalSemaphore || externalSemaphore)
      && (!request.requiresZeroCopy || zeroCopy)
    }
  }

  datatype BackendProbe = BackendProbe(id: BackendId, kind: BackendKind, available: bool, capabilities: CapabilitySet)
  {
    predicate Compatible(request: RouteRequest) {
      available && capabilities.Supports(request)
    }
  }

  datatype RuntimeError = NoCompatibleBackend

  // Measurements -------------------------------------------------------------------

  datatype PerformanceRecord = PerformanceRecord(
    backend: BackendId, operation: OperationKind, dataType: DataType, median: Float, samples: u32)
  {
    predicate IsFor(backend: BackendId, operation: OperationKind, dataType: DataType) {
      this.backend == backend && this.operation == operation && this.dataType == dataType
    }
  }

  function MedianUs(records: seq<PerformanceRecord>, backend: BackendId,
                    operation: OperationKind, dataType: DataType): Option<Float>
  {
    if records == [] then None
    else if records[0].IsFor(backend, operation, dataType) then Some(records[0].median)
    else MedianUs(records[1..], backend, operation, dataType)
  }

  /** A table after recording: the first record with the same key is replaced, or the
      new one is appended. */
  function Recorded(records: seq<PerformanceRecord>, record: PerformanceRecord): seq<PerformanceRecord> {
    if records == [] then [record]
    else if records[0].IsFor(record.backend, record.operation, record.dataType) then [record] + records[1..]
    else [records[0]] + Recorded(records[1..], record)
  }

  class PerformanceTable {
    var records: seq<PerformanceRecord>

    constructor ()
      ensures records == []
    {
      records := [];
    }

    method Record(record: PerformanceRecord)
      modifies this
      ensures records == Recorded(old(records), record)
    {
      for i := 0 to |records|
        invariant records == old(records)
        invariant Recorded(records, record) == records[..i] + Recorded(records[i..], record)
      {
        if records[i].IsFor(record.backend, record.operation, record.dataType) {
          assert Recorded(records[i..], record) == [record] + records[i..][1..];
          assert records[i := record] == records[..i] + ([record] + records[i..][1..]);
          records := records[i := record];
          return;
        }
        assert records[..i] + ([records[i]] + Recorded(records[i + 1..], record))
            == records[..i + 1] + Recorded(records[i + 1..], record);
        assert records[i..][1..] == records[i + 1..];
      }
      assert Recorded(records[|records|..], record) == [record];
      records := records + [record];
    }
  }

  /** Recording is a map update: it answers for its own key and for no other. */
  lemma {:induction false} RecordedIsUpdate(records: seq<PerformanceRecord>, record: PerformanceRecord,
                                            backend: BackendId, operation: OperationKind, dataType: DataType)
    ensures MedianUs(Recorded(records, record), backend, operation, dataType)
         == if record.IsFor(backend, operation, dataType) then Some(record.median)
            else MedianUs(records, backend, operation, dataType)
  {
    if records != [] && !records[0].IsFor(record.backend, record.operation, record.dataType) {
      RecordedIsUpdate(records[1..], record, backend, operation, dataType);
      assert Recorded(records, record)[1..] == Recorded(records[1..], record);
    }
  }

  /** Position r holds the first record of a backend, operation and data type. */
  ghost predicate FirstRecord(records: seq<PerformanceRecord>, backend: BackendId,
                              operation: OperationKind, dataType: DataType, r: nat)
  {
    && r < |records| && RecordOf(records[r], backend, operation, dataType)
    && forall e :: 0 <= e < r ==> !RecordOf(records[e], backend, operation, dataType)
  }

  predicate RecordOf(record: PerformanceRecord, backend: BackendId, operation: OperationKind, dataType: DataType) {
    record.backend == backend && record.operation == operation && record.dataType == dataType
  }

  /** A lookup answers with the first record of its three keys. */
  lemma {:induction false} MedianIsFirst(records: seq<PerformanceRecord>, backend: BackendId,
                                         operation: OperationKind, dataType: DataType) returns (r: nat)
    ensures var median := MedianUs(records, backend, operation, dataType);
      && (median.Some? ==> FirstRecord(records, backend, operation, dataType, r) && median.value == records[r].median)
      && (median.None? ==> forall e :: 0 <= e < |records| ==> !RecordOf(records[e], backend, operation, dataType))
  {
    r := 0;
    if records != [] && !RecordOf(records[0], backend, operation, dataType) {
      var rest := MedianIsFirst(records[1..], backend, operation, dataType);
      r := rest + 1;
      if MedianUs(records, backend, operation, dataType).Some? {
        forall e | 0 <= e < r ensures !RecordOf(records[e], backend, operation, dataType) {
          assert e > 0 ==> records[e] == records[1..][e - 1];
        }
      }
      forall e | 0 < e < |records| ensures records[e] == records[1..][e - 1] {}
    }
  }

  // Routing one request -------------------------------------------------------------

  function Compatible(request: RouteRequest, probes: seq<BackendProbe>): (candidates: seq<BackendProbe>)
    ensures forall c :: c in candidates <==> c in probes && c.Compatible(request)
  {
    if probes == [] then []
    else
      var rest := Compatible(request, probes[1..]);
      if probes[0].Compatible(request) then [probes[0]] + rest else rest
  }

  /** The usable measurement of a backend for a request. */
  function Measured(records: seq<PerformanceRecord>, id: BackendId, request: RouteRequest): Option<real> {
    match MedianUs(records, id, request.operation, request.dataType)
    case Some(Number(value)) => if value >= 0.0 then Some(value) else None
    case _ => None
  }

  function BootstrapRank(kind: BackendKind): nat {
    match kind
    case Hip => 0
    case Vulkan => 1
    case Hybrid => 2
    case Plugin => 3
    case Cpu => 4
  }

  /** `min_by` over the measured candidates: the first one with the least value. */
  function Fastest(records: seq<PerformanceRecord>, request: RouteRequest,
                   candidates: seq<BackendProbe>): Option<BackendProbe>
  {
    if candidates == [] then None
    else
      var first, rest := candidates[0], Fastest(records, request, candidates[1..]);
      var mine := Measured(records, first.id, request);
      if mine.None? then rest
      else if rest.None? then Some(first)
      else
        var other := Measured(records, rest.value.id, request);
        if other.None? || mine.value <= other.value then Some(first) else rest
  }

  /** `min_by_key` over the bootstrap rank: the first candidate of the best kind. */
  function BestRanked(candidates: seq<BackendProbe>): Option<BackendProbe> {
    if candidates == [] then None
    else
      var rest := BestRanked(candidates[1..]);
      var first := candidates[0];
      if rest.None? || BootstrapRank(first.kind) <= BootstrapRank(rest.value.kind) then Some(first) else rest
  }

  /** The measured choice, or the best-ranked candidate when none is measured. */
  function Settle(records: seq<PerformanceRecord>, request: RouteRequest,
                  candidates: seq<BackendProbe>): Option<BackendProbe>
  {
    var fastest := Fastest(records, request, candidates);
    if fastest.Some? then fastest else BestRanked(candidates)
  }

  /** The probe that `FastestCompatible::select` settles on. */
  function Routed(request: RouteRequest, probes: seq<BackendProbe>,
                  records: seq<PerformanceRecord>): Option<BackendProbe>
  {
    Settle(records, request, Compatible(request, probes))
  }

  /** `FastestCompatible::select` */
  function Select(request: RouteRequest, probes: seq<BackendProbe>, records: seq<PerformanceRecord>)
    : Result<BackendId, RuntimeError>
  {
    match Routed(request, probes, records)
    case Some(best) => Ok(best.id)
    case None => Err(NoCompatibleBackend)
  }

  lemma {:induction false} FastestIsFastest(records: seq<PerformanceRecord>,
                                            request: RouteRequest, candidates: seq<BackendProbe>)
    ensures var best := Fastest(records, request, candidates);
      && (best.None? <==> forall c :: c in candidates ==> Measured(records, c.id, request).None?)
      && (best.Some? ==>
            && best.value in candidates
            && Measured(records, best.value.id, request).Some?
            && forall c :: c in candidates && Measured(records, c.id, request).Some? ==>
                 Measured(records, best.value.id, request).value <= Measured(records, c.id, request).value)
  {
    if candidates == [] {
    } else {
      FastestIsFastest(records, request, candidates[1..]);
      assert candidates == [candidates[0]] + candidates[1..];
    }
  }

  lemma {:induction false} BestRankedIsBest(candidates: seq<BackendProbe>)
    ensures var best := BestRanked(candidates);
      && (best.None? <==> candidates == [])
      && (best.Some? ==> best.value in candidates)
      && (best.Some? ==> forall c :: c in candidates ==> BootstrapRank(best.value.kind) <= BootstrapRank(c.kind))
  {
    if candidates == [] {
    } else {
      BestRankedIsBest(candidates[1..]);
      assert candidates == [candidates[0]] + candidates[1..];
    }
  }

  /** No compatible probe beats this one: measured backends go first, the least
      measurement wins, and without any measurement the bootstrap rank decides. */
  predicate BestRoute(request: RouteRequest, probes: seq<BackendProbe>,
                      records: seq<PerformanceRecord>, p: BackendProbe)
  {
    var mine := Measured(records, p.id, request);
    && p in probes && p.Compatible(request)
    && (mine.None? ==> forall c :: c in probes && c.Compatible(request) ==> Measured(records, c.id, request).None?)
    && (mine.None? ==> forall c ::
        c in probes && c.Compatible(request) ==> BootstrapRank(p.kind) <= BootstrapRank(c.kind))
    && (mine.Some? ==> forall c :: c in probes && c.Compatible(request) && Measured(records, c.id, request).Some? ==>
          mine.value <= Measured(records, c.id, request).value)
  }

  /** What the code asks of a probe, field by field. */
  predicate Fits(p: BackendProbe, request: RouteRequest) {
    && p.available
    && request.operation in p.capabilities.operations && request.dataType in p.capabilities.dataTypes
    && (request.requiresExternalMemory ==> p.capabilities.externalMemory)
    && (request.requiresExternalSemaphore ==> p.capabilities.externalSemaphore)
    && (request.requiresZeroCopy ==> p.capabilities.zeroCopy)
  }

  /** Of two probes that fit, the one at the lower position wins unless the other one is
      strictly better: measured at all, measured lower, or of a better kind when neither is
      measured. */
  predicate Outdone(records: seq<PerformanceRecord>, request: RouteRequest, p: BackendProbe, other: BackendProbe) {
    var (mine, theirs) := (Measured(records, p.id, request), Measured(records, other.id, request));
    if theirs.Some? then mine.None? || theirs.value < mine.value
    else mine.None? && BootstrapRank(other.kind) < BootstrapRank(p.kind)
  }

  /** The routed probe is the first of the best ones: it outdoes every fitting probe before
      it, and no fitting probe after it outdoes it. */
  ghost predicate RoutedAt(request: RouteRequest, probes: seq<BackendProbe>, records: seq<PerformanceRecord>, at: nat) {
    && at < |probes| && Fits(probes[at], request)
    && (forall e {:trigger probes[e]} :: 0 <= e < at && Fits(probes[e], request) ==>
          Outdone(records, request, probes[e], probes[at]))
    && (forall e {:trigger probes[e]} :: at < e < |probes| && Fits(probes[e], request) ==>
          !Outdone(records, request, probes[at], probes[e]))
  }

  lemma OutdoneChain(records: seq<PerformanceRecord>, request: RouteRequest,
                     p: BackendProbe, q: BackendProbe, r: BackendProbe)
    ensures !Outdone(records, request, p, q) && !Outdone(records, request, q, r) ==> !Outdone(records, request, p, r)
    ensures Outdone(records, request, p, q) ==> !Outdone(records, request, q, p)
  {}

  lemma SettleCons(records: seq<PerformanceRecord>, request: RouteRequest,
                   first: BackendProbe, candidates: seq<BackendProbe>)
    ensures var later := Settle(records, request, candidates);
      Settle(records, request, [first] + candidates) ==
      if later.None? || !Outdone(records, request, first, later.value) then Some(first) else later
  {
    FastestIsFastest(records, request, candidates);
    BestRankedIsBest(candidates);
    assert ([first] + candidates)[1..] == candidates;
  }

  /** A probe in front wins unless a later one outdoes it. */
  lemma RoutedCons(request: RouteRequest, probes: seq<BackendProbe>, records: seq<PerformanceRecord>)
    requires probes != []
    ensures var later := Routed(request, probes[1..], records);
      Routed(request, probes, records) ==
      if Fits(probes[0], request) && (later.None? || !Outdone(records, request, probes[0], later.value))
      then Some(probes[0]) else later
  {
    var candidates := Compatible(request, probes[1..]);
    if Fits(probes[0], request) {
      assert Compatible(request, probes) == [probes[0]] + candidates;
      SettleCons(records, request, probes[0], candidates);
    }
  }

  lemma HeadIsFirst(request: RouteRequest, probes: seq<BackendProbe>, records: seq<PerformanceRecord>, rest: nat)
    requires probes != [] && Fits(probes[0], request) && RoutedAt(request, probes[1..], records, rest)
    requires !Outdone(records, request, probes[0], probes[1..][rest])
    ensures RoutedAt(request, probes, records, 0)
  {
    forall e {:trigger probes[e]} | 0 < e < |probes| && Fits(probes[e], request)
      ensures !Outdone(records, request, probes[0], probes[e])
    {
      assert probes[e] == probes[1..][e - 1];
      OutdoneChain(records, request, probes[0], probes[1..][rest], probes[e]);
      OutdoneChain(records, request, probes[e], probes[1..][rest], probes[e]);
    }
  }

  lemma TailIsFirst(request: RouteRequest, probes: seq<BackendProbe>, records: seq<PerformanceRecord>, rest: nat)
    requires probes != [] && RoutedAt(request, probes[1..], records, rest)
    requires Fits(probes[0], request) ==> Outdone(records, request, probes[0], probes[1..][rest])
    ensures RoutedAt(request, probes, records, rest + 1)
  {
    var at := rest + 1;
    forall e {:trigger probes[e]} | 0 <= e < at && Fits(probes[e], request)
      ensures Outdone(records, request, probes[e], probes[at])
    {
      assert e > 0 ==> probes[e] == probes[1..][e - 1];
    }
    forall e {:trigger probes[e]} | at < e < |probes| && Fits(probes[e], request)
      ensures !Outdone(records, request, probes[at], probes[e])
    {
      assert probes[e] == probes[1..][e - 1];
    }
  }

  lemma {:induction false} RoutedIsFirst(request: RouteRequest, probes: seq<BackendProbe>,
                                         records: seq<PerformanceRecord>) returns (at: nat)
    ensures var routed := Routed(request, probes, records);
      && (routed.Some? ==> RoutedAt(request, probes, records, at) && routed.value == probes[at])
      && (routed.None? ==> forall e :: 0 <= e < |probes| ==> !Fits(probes[e], request))
  {
    at := 0;
    if probes != [] {
      var rest := RoutedIsFirst(request, probes[1..], records);
      RoutedCons(request, probes, records);
      if Routed(request, probes[1..], records).None? {
        forall e | 0 < e < |probes| ensures !Fits(probes[e], request) {
          assert probes[e] == probes[1..][e - 1];
        }
      } else if Fits(probes[0], request) && !Outdone(records, request, probes[0], probes[1..][rest]) {
        HeadIsFirst(request, probes, records, rest);
      } else {
        TailIsFirst(request, probes, records, rest);
        at := rest + 1;
      }
    }
  }

  /** Routing fails exactly without a compatible backend, and otherwise returns the id
      of the routed probe, which is a best route. */
  lemma SelectExact(request: RouteRequest, probes: seq<BackendProbe>, records: seq<PerformanceRecord>)
    ensures var r, routed := Select(request, probes, records), Routed(request, probes, records);
      && (r.Err? <==> forall p :: p in probes ==> !p.Compatible(request))
      && (r.Ok? ==> routed.Some? && BestRoute(request, probes, records, routed.value) && r.value == routed.value.id)
  {
    var candidates := Compatible(request, probes);
    assert forall c :: c in candidates <==> c in probes && c.Compatible(request);
    FastestIsFastest(records, request, candidates);
    BestRankedIsBest(candidates);
  }
}
