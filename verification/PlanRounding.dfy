/** When the plan is the least among all assignments of its cost. Whatever the rounding, it
    is the least among those that are cheapest throughout (`PlanCanonical`); a detour early
    on ties with it only if a later sum rounds the difference away. */
module PlanRounding {
  import opened Wrappers
  import opened Ordering
  import opened Core
  import opened ExecutionPlan
  import opened PlanTheorems
  import opened PlanCanonical

  /** An assignment of the plan's cost. */
  ghost predicate Ties(w: Workload, plan: ExecutionPlan, ids: seq<BackendId>) {
    && IsPlan(w, plan) && w.requests != []
    && IsPath(w, ids) && |ids| == |w.requests| && PathCost(w, ids, |ids|) == plan.estimatedTotalUs
  }

  predicate NoLaterThan(plan: ExecutionPlan, ids: seq<BackendId>) {
    |plan.steps| == |ids| && ColexLeq(Backends(plan.steps), ids, |ids|)
  }

  // Differences that last ----------------------------------------------------------------

  /** Two ways to one backend that differ in cost still differ after the same next move. */
  predicate StayApart(w: Workload, a: seq<BackendId>, b: seq<BackendId>, k: nat)
    requires IsPath(w, a) && IsPath(w, b) && 0 < k < |a| && k < |b|
  {
    a[k - 1] == b[k - 1] && a[k] == b[k] && PathCost(w, a, k) < PathCost(w, b, k) ==>
      PathCost(w, a, k + 1) < PathCost(w, b, k + 1)
  }

  ghost predicate NeverMerges(w: Workload) {
    forall a, b, k {:trigger StayApart(w, a, b, k)} ::
      IsPath(w, a) && IsPath(w, b) && 0 < k < |a| && k < |b| ==> StayApart(w, a, b, k)
  }

  /** One more request on the cheapest way to a backend. */
  lemma ExtendTraced(w: Workload, layers: seq<Layer>, i: nat, via: BackendId, id: BackendId)
    returns (ids: seq<BackendId>)
    requires AreLayers(w, layers) && 0 < i < |layers| && via in layers[i - 1] && Serves(w, i, id)
    ensures IsPath(w, ids) && |ids| == i + 1 && ids[i - 1] == via && ids[i] == id
    ensures PathCost(w, ids, i) == layers[i - 1][via].totalUs
  {
    TracedCost(w, layers, i - 1, via);
    var traced := Backends(StepsTo(w, layers, i - 1, via));
    ids := traced + [id];
    forall j | 0 <= j < |ids| ensures Serves(w, j, ids[j]) {
      assert j < i ==> Serves(w, j, traced[j]);
    }
    SamePrefixCost(w, traced, ids, i);
  }

  lemma TightBefore(w: Workload, layers: seq<Layer>, ids: seq<BackendId>, n: nat)
    requires Monotone(w.planner.round) && NeverMerges(w) && AreLayers(w, layers) && IsPath(w, ids)
    requires 1 < n <= |ids| && n <= |layers| && TightAt(w, layers, ids, n)
    ensures TightAt(w, layers, ids, n - 1)
  {
    var k := n - 1;
    EntryIsLowerBound(w, layers, ids, k);
    assert Serves(w, k, ids[k]);
    var cheapest := ExtendTraced(w, layers, k, ids[k - 1], ids[k]);
    EntryIsLowerBound(w, layers, cheapest, n);
    assert StayApart(w, cheapest, ids, k);
  }

  /** Where differences last, every assignment of least cost is cheapest throughout. */
  lemma {:induction false} TightThroughout(w: Workload, layers: seq<Layer>, ids: seq<BackendId>, n: nat, k: nat)
    requires Monotone(w.planner.round) && NeverMerges(w) && AreLayers(w, layers) && IsPath(w, ids)
    requires 0 < k <= n <= |ids| && n <= |layers| && TightAt(w, layers, ids, n)
    ensures TightAt(w, layers, ids, k)
  {
    if k == n {
    } else {
      TightBefore(w, layers, ids, n);
      TightThroughout(w, layers, ids, n - 1, k);
    }
  }

  lemma ApartPlanIsCanonical(w: Workload, plan: ExecutionPlan, ids: seq<BackendId>)
    requires Monotone(w.planner.round) && NeverMerges(w) && Ties(w, plan, ids)
    ensures NoLaterThan(plan, ids)
  {
    var layers, final :| IsTrace(w, layers, final, plan);
    EntryIsLowerBound(w, layers, ids, |ids|);
    assert NoLater(layers[|layers| - 1], final, ids[|ids| - 1]);
    forall k | 0 < k <= |ids| ensures CheapestTo(w, ids, k) {
      TightThroughout(w, layers, ids, |ids|, k);
      TightIsCheapest(w, layers, ids, k);
    }
    PlanIsCanonical(w, plan, ids);
  }

  // The exact condition on a rounding ----------------------------------------------------------

  /** A request more: the move, then the operator, each sum rounded. */
  function Step(round: real -> real, total: real, move: real, charge: real): real {
    round(round(total + move) + charge)
  }

  /** Two ways to one backend, near and far, and the request after it. */
  datatype Fork = Fork(nearCharge: real, nearMove: real, farCharge: real, farMove: real, meeting: real,
                       onward: real, last: real)
  {
    predicate In(holds: real -> bool) {
      && holds(nearCharge) && holds(nearMove) && holds(farCharge) && holds(farMove)
      && holds(meeting) && holds(onward) && holds(last)
    }

    function Near(round: real -> real): real {
      Step(round, nearCharge, nearMove, meeting)
    }

    function Far(round: real -> real): real {
      Step(round, farCharge, farMove, meeting)
    }

    /** The far way costs more, and one request later it does not. */
    predicate Merges(round: real -> real) {
      && Near(round) < Far(round)
      && Step(round, Far(round), onward, last) <= Step(round, Near(round), onward, last)
    }
  }

  /** Numbers that a cost can be, and the rounding of their sums. */
  datatype Format = Format(round: real -> real, holds: real -> bool)
  {
    predicate Closed(x: real, y: real) {
      holds(x) && holds(y) ==> holds(round(x + y))
    }

    ghost predicate Valid() {
      && Monotone(round) && holds(0.0)
      && (forall x :: holds(x) ==> x >= 0.0)
      && (forall x, y :: Closed(x, y))
    }

    /** No fork of these numbers merges. */
    ghost predicate Apart() {
      forall fork: Fork {:trigger fork.Merges(round)} :: fork.In(holds) ==> !fork.Merges(round)
    }
  }

  /** What the constructors of planner and transition table let through. */
  ghost predicate Validated(planner: Planner) {
    && planner.unmeasuredUs >= 0.0 && planner.defaultTransitionUs >= 0.0 && planner.rankPenaltyUs >= 0.0
    && forall move :: move in planner.transitions ==> planner.transitions[move] >= 0.0
  }

  predicate ChargeIn(f: Format, w: Workload, i: nat, id: BackendId)
    requires i < |w.requests|
  {
    Serves(w, i, id) ==> f.holds(OperatorAt(w, i, id))
  }

  /** Every charge and every move of the workload is such a number. */
  ghost predicate Priced(f: Format, w: Workload) {
    && w.planner.round == f.round && Validated(w.planner)
    && (forall i, id {:trigger ChargeIn(f, w, i, id)} :: 0 <= i < |w.requests| ==> ChargeIn(f, w, i, id))
    && (forall from, to :: f.holds(w.planner.TransitionCost(from, to)))
  }

  /** Over all workloads of such numbers: the plan is the least among all the assignments of
      its cost. */
  ghost predicate AlwaysCanonical(f: Format) {
    forall w, plan, ids {:trigger Ties(w, plan, ids)} :: Priced(f, w) && Ties(w, plan, ids) ==> NoLaterThan(plan, ids)
  }

  lemma StepIn(f: Format, total: real, move: real, charge: real)
    requires f.Valid() && f.holds(total) && f.holds(move) && f.holds(charge)
    ensures f.holds(Step(f.round, total, move, charge))
  {
    assert f.Closed(total, move) && f.Closed(f.round(total + move), charge);
  }

  lemma {:induction false} CostIn(f: Format, w: Workload, ids: seq<BackendId>, n: nat)
    requires f.Valid() && Priced(f, w) && IsPath(w, ids) && 0 < n <= |ids|
    ensures f.holds(PathCost(w, ids, n))
  {
    assert Serves(w, n - 1, ids[n - 1]) && ChargeIn(f, w, n - 1, ids[n - 1]);
    if n == 1 {
    } else {
      CostIn(f, w, ids, n - 1);
      var move := w.planner.TransitionCost(ids[n - 2], ids[n - 1]);
      StepIn(f, PathCost(w, ids, n - 1), move, OperatorAt(w, n - 1, ids[n - 1]));
    }
  }

  /** The fork at which two assignments meet. */
  function ForkOf(w: Workload, a: seq<BackendId>, b: seq<BackendId>, k: nat): Fork
    requires IsPath(w, a) && IsPath(w, b) && 1 < k < |a| && k < |b|
  {
    assert Serves(w, k - 1, a[k - 1]) && Serves(w, k, a[k]);
    Fork(PathCost(w, a, k - 1), w.planner.TransitionCost(a[k - 2], a[k - 1]),
         PathCost(w, b, k - 1), w.planner.TransitionCost(b[k - 2], b[k - 1]), OperatorAt(w, k - 1, a[k - 1]),
         w.planner.TransitionCost(a[k - 1], a[k]), OperatorAt(w, k, a[k]))
  }

  lemma ForkCosts(w: Workload, a: seq<BackendId>, b: seq<BackendId>, k: nat)
    requires IsPath(w, a) && IsPath(w, b) && 1 < k < |a| && k < |b| && a[k - 1] == b[k - 1] && a[k] == b[k]
    ensures var fork, round := ForkOf(w, a, b, k), w.planner.round;
      && PathCost(w, a, k) == fork.Near(round) && PathCost(w, b, k) == fork.Far(round)
      && PathCost(w, a, k + 1) == Step(round, fork.Near(round), fork.onward, fork.last)
      && PathCost(w, b, k + 1) == Step(round, fork.Far(round), fork.onward, fork.last)
  {
    assert Serves(w, k - 1, b[k - 1]) && Serves(w, k, b[k]);
  }

  lemma ForkIn(f: Format, w: Workload, a: seq<BackendId>, b: seq<BackendId>, k: nat)
    requires f.Valid() && Priced(f, w) && IsPath(w, a) && IsPath(w, b) && 1 < k < |a| && k < |b|
    ensures ForkOf(w, a, b, k).In(f.holds)
  {
    CostIn(f, w, a, k - 1);
    CostIn(f, w, b, k - 1);
    assert Serves(w, k - 1, a[k - 1]) && Serves(w, k, a[k]);
    assert ChargeIn(f, w, k - 1, a[k - 1]) && ChargeIn(f, w, k, a[k]);
  }

  lemma ApartNeverMerges(f: Format, w: Workload)
    requires f.Valid() && f.Apart() && Priced(f, w)
    ensures NeverMerges(w)
  {
    forall a, b, k | IsPath(w, a) && IsPath(w, b) && 0 < k < |a| && k < |b| ensures StayApart(w, a, b, k) {
      if k > 1 && a[k - 1] == b[k - 1] && a[k] == b[k] {
        ForkIn(f, w, a, b, k);
        assert !ForkOf(w, a, b, k).Merges(f.round);
        ForkCosts(w, a, b, k);
      }
    }
  }

  // A workload for every fork -------------------------------------------------------------------

  function ForkRequest(operation: OperationKind): RouteRequest {
    RouteRequest(operation, F32, false, false, false)
  }

  function ForkProbe(id: BackendId, operation: OperationKind): BackendProbe {
    BackendProbe(id, Cpu, true, CapabilitySet([operation], [F32], false, false, false))
  }

  function ForkRecord(id: BackendId, operation: OperationKind, cost: real): PerformanceRecord {
    PerformanceRecord(id, operation, F32, Number(cost), 1)
  }

  function ForkProbes(): seq<BackendProbe> {
    [ForkProbe("a", Copy), ForkProbe("b", Copy), ForkProbe("e", Gemv), ForkProbe("f", Gemm)]
  }

  function ForkRecords(fork: Fork): seq<PerformanceRecord> {
    [ForkRecord("a", Copy, fork.farCharge), ForkRecord("b", Copy, fork.nearCharge),
     ForkRecord("e", Gemv, fork.meeting), ForkRecord("f", Gemm, fork.last)]
  }

  function ForkMoves(fork: Fork): Transitions {
    map[("a", "e") := fork.farMove, ("b", "e") := fork.nearMove, ("e", "f") := fork.onward]
  }

  /** "a" is the far way and "b" the near way to "e", and "f" comes after it. */
  function ForkWorkload(fork: Fork, round: real -> real): Workload {
    Workload(Planner(0.0, 0.0, 0.0, ForkMoves(fork), round), [ForkRequest(Copy), ForkRequest(Gemv), ForkRequest(Gemm)],
             ForkProbes(), ForkRecords(fork))
  }

  function Kept(request: RouteRequest, p: BackendProbe, rest: seq<BackendProbe>): seq<BackendProbe> {
    if p.Compatible(request) then [p] + rest else rest
  }

  lemma {:induction false} CompatibleCons(request: RouteRequest, p: BackendProbe, rest: seq<BackendProbe>)
    ensures Compatible(request, [p] + rest) == Kept(request, p, Compatible(request, rest))
  {
    assert ([p] + rest)[1..] == rest;
  }

  lemma ForkFiltered(request: RouteRequest)
    ensures Compatible(request, ForkProbes())
        == Kept(request, ForkProbe("a", Copy), Kept(request, ForkProbe("b", Copy),
             Kept(request, ForkProbe("e", Gemv), Kept(request, ForkProbe("f", Gemm), []))))
  {
    var a, b, e, f := ForkProbe("a", Copy), ForkProbe("b", Copy), ForkProbe("e", Gemv), ForkProbe("f", Gemm);
    CompatibleCons(request, f, []);
    CompatibleCons(request, e, [f] + []);
    CompatibleCons(request, b, [e] + ([f] + []));
    CompatibleCons(request, a, [b] + ([e] + ([f] + [])));
    assert ForkProbes() == [a] + ([b] + ([e] + ([f] + [])));
  }

  lemma ForkCandidates(operation: OperationKind)
    ensures Compatible(ForkRequest(operation), ForkProbes()) ==
      match operation
      case Copy => [ForkProbe("a", Copy), ForkProbe("b", Copy)]
      case Gemv => [ForkProbe("e", Gemv)]
      case Gemm => [ForkProbe("f", Gemm)]
      case _ => []
  {
    var request, a, b, e, f := ForkRequest(operation), ForkProbe("a", Copy), ForkProbe("b", Copy), ForkProbe("e", Gemv),
        ForkProbe("f", Gemm);
    ForkFiltered(request);
    assert (a.Compatible(request) <==> operation == Copy) && (b.Compatible(request) <==> operation == Copy);
    assert (e.Compatible(request) <==> operation == Gemv) && (f.Compatible(request) <==> operation == Gemm);
  }

  ghost predicate Offers(w: Workload) {
    && |w.requests| == 3
    && w.Candidates(0) == [ForkProbe("a", Copy), ForkProbe("b", Copy)]
    && w.Candidates(1) == [ForkProbe("e", Gemv)]
    && w.Candidates(2) == [ForkProbe("f", Gemm)]
  }

  lemma ForkOffers(w: Workload)
    requires w.requests == [ForkRequest(Copy), ForkRequest(Gemv), ForkRequest(Gemm)] && w.probes == ForkProbes()
    ensures Offers(w)
  {
    ForkCandidates(Copy);
    ForkCandidates(Gemv);
    ForkCandidates(Gemm);
  }

  lemma ForkServes(w: Workload, id: BackendId)
    requires Offers(w)
    ensures (Serves(w, 0, id) <==> id == "a" || id == "b")
    ensures (Serves(w, 1, id) <==> id == "e")
    ensures (Serves(w, 2, id) <==> id == "f")
  {
    var a, b, e, f := ForkProbe("a", Copy), ForkProbe("b", Copy), ForkProbe("e", Gemv), ForkProbe("f", Gemm);
    assert a in w.Candidates(0) && b in w.Candidates(0) && e in w.Candidates(1) && f in w.Candidates(2);
    RepresentativeIn(w.Candidates(0), id);
    RepresentativeIn(w.Candidates(1), id);
    RepresentativeIn(w.Candidates(2), id);
  }

  ghost predicate ForkServing(w: Workload) {
    && |w.requests| == 3
    && (forall id :: Serves(w, 0, id) <==> id == "a" || id == "b")
    && (forall id :: Serves(w, 1, id) <==> id == "e")
    && (forall id :: Serves(w, 2, id) <==> id == "f")
  }

  /** A workload that charges what the fork says. */
  ghost predicate IsFork(w: Workload, fork: Fork) {
    && ForkServing(w)
    && OperatorAt(w, 0, "a") == fork.farCharge && OperatorAt(w, 0, "b") == fork.nearCharge
    && OperatorAt(w, 1, "e") == fork.meeting && OperatorAt(w, 2, "f") == fork.last
    && w.planner.TransitionCost("a", "e") == fork.farMove && w.planner.TransitionCost("b", "e") == fork.nearMove
    && w.planner.TransitionCost("e", "f") == fork.onward
  }

  lemma OffersServe(w: Workload)
    requires Offers(w)
    ensures ForkServing(w)
  {
    forall id
      ensures Serves(w, 0, id) <==> id == "a" || id == "b"
      ensures Serves(w, 1, id) <==> id == "e"
      ensures Serves(w, 2, id) <==> id == "f"
    {
      ForkServes(w, id);
    }
  }

  lemma {:induction false} ForkMeasurements(fork: Fork)
    requires fork.In(cost => cost >= 0.0)
    ensures var records := ForkRecords(fork);
      && Measured(records, "a", ForkRequest(Copy)) == Some(fork.farCharge)
      && Measured(records, "b", ForkRequest(Copy)) == Some(fork.nearCharge)
      && Measured(records, "e", ForkRequest(Gemv)) == Some(fork.meeting)
      && Measured(records, "f", ForkRequest(Gemm)) == Some(fork.last)
  {
    var records := ForkRecords(fork);
    var last3, last2, last1 := records[1..], records[1..][1..], records[1..][1..][1..];
    assert last1 == [ForkRecord("f", Gemm, fork.last)];
    assert last2[0] == ForkRecord("e", Gemv, fork.meeting) && last3[0] == ForkRecord("b", Copy, fork.nearCharge);
    assert MedianUs(last1, "f", Gemm, F32) == Some(Number(fork.last));
    assert MedianUs(last2, "f", Gemm, F32) == Some(Number(fork.last));
    assert MedianUs(last2, "e", Gemv, F32) == Some(Number(fork.meeting));
    assert MedianUs(last3, "f", Gemm, F32) == Some(Number(fork.last));
    assert MedianUs(last3, "e", Gemv, F32) == Some(Number(fork.meeting));
    assert MedianUs(last3, "b", Copy, F32) == Some(Number(fork.nearCharge));
  }

  /** A measured id is charged its measurement. */
  lemma MeasuredCharge(w: Workload, i: nat, id: BackendId)
    requires i < |w.requests| && Serves(w, i, id) && Measured(w.records, id, w.requests[i]).Some?
    ensures OperatorAt(w, i, id) == Measured(w.records, id, w.requests[i]).value
  {
    RepresentativeIn(w.Candidates(i), id);
  }

  lemma ForkCharges(w: Workload, fork: Fork)
    requires ForkServing(w) && w.requests == [ForkRequest(Copy), ForkRequest(Gemv), ForkRequest(Gemm)]
    requires w.records == ForkRecords(fork) && fork.In(cost => cost >= 0.0)
    ensures OperatorAt(w, 0, "a") == fork.farCharge && OperatorAt(w, 0, "b") == fork.nearCharge
    ensures OperatorAt(w, 1, "e") == fork.meeting && OperatorAt(w, 2, "f") == fork.last
  {
    ForkMeasurements(fork);
    MeasuredCharge(w, 0, "a");
    MeasuredCharge(w, 0, "b");
    MeasuredCharge(w, 1, "e");
    MeasuredCharge(w, 2, "f");
  }

  ghost predicate ListsFork(w: Workload, fork: Fork) {
    && w.requests == [ForkRequest(Copy), ForkRequest(Gemv), ForkRequest(Gemm)] && w.probes == ForkProbes()
    && w.records == ForkRecords(fork) && w.planner.transitions == ForkMoves(fork)
  }

  /** Every fork of non-negative numbers has a workload. */
  lemma ListedIsFork(w: Workload, fork: Fork)
    requires ListsFork(w, fork) && fork.In(cost => cost >= 0.0)
    ensures IsFork(w, fork)
  {
    ForkOffers(w);
    OffersServe(w);
    ForkCharges(w, fork);
  }

  lemma ForkPath(w: Workload, ids: seq<BackendId>)
    requires ForkServing(w) && IsPath(w, ids) && |ids| == 3
    ensures ids == ["a", "e", "f"] || ids == ["b", "e", "f"]
  {
    assert Serves(w, 0, ids[0]) && Serves(w, 1, ids[1]) && Serves(w, 2, ids[2]);
  }

  lemma FirstCosts(w: Workload, ids: seq<BackendId>)
    requires IsPath(w, ids) && |ids| == 3
    ensures PathCost(w, ids, 1) == OperatorAt(w, 0, ids[0])
    ensures PathCost(w, ids, 2) == w.planner.Extend(OperatorAt(w, 0, ids[0]), ids[0], ids[1], OperatorAt(w, 1, ids[1]))
    ensures PathCost(w, ids, 3) == w.planner.Extend(PathCost(w, ids, 2), ids[1], ids[2], OperatorAt(w, 2, ids[2]))
  {}

  lemma ForkPathCosts(w: Workload, fork: Fork, first: BackendId)
    requires IsFork(w, fork) && (first == "a" || first == "b")
    ensures var ids, round := [first, "e", "f"], w.planner.round;
      && IsPath(w, ids)
      && PathCost(w, ids, 2) == (if first == "a" then fork.Far(round) else fork.Near(round))
      && PathCost(w, ids, 3) == Step(round, PathCost(w, ids, 2), fork.onward, fork.last)
  {
    var ids := [first, "e", "f"];
    forall i | 0 <= i < |ids| ensures Serves(w, i, ids[i]) {
      assert i == 0 || i == 1 || i == 2;
    }
    FirstCosts(w, ids);
  }

  /** Where a fork merges, the plan takes the near way although the far one costs the same
      in the end and comes first. The far way is not cheapest throughout. */
  lemma MergeHidesTie(w: Workload, fork: Fork, plan: ExecutionPlan)
    requires IsFork(w, fork) && fork.Merges(w.planner.round) && Monotone(w.planner.round) && IsPlan(w, plan)
    ensures Backends(plan.steps) == ["b", "e", "f"]
    ensures Ties(w, plan, ["a", "e", "f"]) && !NoLaterThan(plan, ["a", "e", "f"])
    ensures !CheapestTo(w, ["a", "e", "f"], 2)
  {
    var far, near := ["a", "e", "f"], ["b", "e", "f"];
    ForkPathCosts(w, fork, "a");
    ForkPathCosts(w, fork, "b");
    assert PathCost(w, far, 2) > PathCost(w, near, 2) && far[1] == near[1];
    PlanIsCheapestThroughout(w, plan);
    PlanIsOptimal(w, plan, far);
    ForkPath(w, Backends(plan.steps));
    assert CheapestTo(w, Backends(plan.steps), 2);
    assert ColexLeq(near, far, 1) == StringLeq("b", "a");
  }

  lemma ForkIsPriced(f: Format, w: Workload, fork: Fork)
    requires f.Valid() && fork.In(f.holds) && IsFork(w, fork) && w.planner.round == f.round
    requires w.planner.transitions == ForkMoves(fork) && w.planner.defaultTransitionUs == 0.0 && Validated(w.planner)
    ensures Priced(f, w)
  {
    forall i, id | 0 <= i < |w.requests| ensures ChargeIn(f, w, i, id) {
      assert i == 0 || i == 1 || i == 2;
    }
  }

  /** A merging fork of the format's numbers makes a workload of them whose plan is not the
      least. */
  lemma MergeIsHidden(f: Format, fork: Fork) returns (w: Workload, plan: ExecutionPlan)
    requires f.Valid() && fork.In(f.holds) && fork.Merges(f.round)
    ensures Priced(f, w) && Ties(w, plan, ["a", "e", "f"]) && !NoLaterThan(plan, ["a", "e", "f"])
  {
    w := ForkWorkload(fork, f.round);
    assert ListsFork(w, fork);
    ListedIsFork(w, fork);
    ForkIsPriced(f, w, fork);
    plan := ForkPlan(w, fork);
    MergeHidesTie(w, fork, plan);
  }

  lemma ForkPlan(w: Workload, fork: Fork) returns (plan: ExecutionPlan)
    requires IsFork(w, fork)
    ensures IsPlan(w, plan)
  {
    assert Serves(w, 0, "a") && Serves(w, 1, "e") && Serves(w, 2, "f");
    plan := PlanExists(w);
  }

  /** The plan is always the least among all the assignments of its cost exactly when no
      fork merges. */
  lemma CanonicalExactly(f: Format)
    requires f.Valid()
    ensures AlwaysCanonical(f) <==> f.Apart()
  {
    if f.Apart() {
      forall w, plan, ids | Priced(f, w) && Ties(w, plan, ids) ensures NoLaterThan(plan, ids) {
        ApartNeverMerges(f, w);
        ApartPlanIsCanonical(w, plan, ids);
      }
    } else {
      var fork: Fork :| fork.In(f.holds) && fork.Merges(f.round);
      var w, plan := MergeIsHidden(f, fork);
    }
  }
}
