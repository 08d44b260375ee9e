/** What the steps of a plan say, in terms of the inputs of the call alone: the fields of the
    probes, the rows of the performance table, and the recorded transitions. */
module PlanSteps {
  import opened Wrappers
  import opened Core
  import opened ExecutionPlan
  import opened PlanTheorems

  /** Position j holds the last fitting probe of an id. */
  ghost predicate LastFit(probes: seq<BackendProbe>, request: RouteRequest, id: BackendId, j: nat) {
    && j < |probes| && FitsAs(probes[j], request, id)
    && forall e :: j < e < |probes| ==> !FitsAs(probes[e], request, id)
  }

  predicate FitsAs(p: BackendProbe, request: RouteRequest, id: BackendId) {
    Fits(p, request) && p.id == id
  }

  /** How far down the bootstrap order a kind of backend is. */
  function PenaltySteps(kind: BackendKind): real {
    match kind
    case Hip => 0.0
    case Vulkan => 1.0
    case Hybrid => 2.0
    case Plugin => 3.0
    case Cpu => 4.0
  }

  predicate IsUsable(median: Float) {
    median.Number? && median.value >= 0.0
  }

  /** What a probe is charged: the first median recorded for it if that is usable, and
      otherwise the unmeasured cost plus the penalty of its kind. */
  ghost predicate IsCharge(planner: Planner, records: seq<PerformanceRecord>, request: RouteRequest,
                           p: BackendProbe, cost: real)
  {
    || (exists r: nat :: FirstRecord(records, p.id, request.operation, request.dataType, r)
          && IsUsable(records[r].median) && cost == records[r].median.value)
    || ((forall r: nat :: FirstRecord(records, p.id, request.operation, request.dataType, r) ==>
           !IsUsable(records[r].median))
        && cost == planner.round(planner.unmeasuredUs
                                 + planner.round(planner.rankPenaltyUs * PenaltySteps(p.kind))))
  }

  /** What a move costs: nothing on the same backend, the recorded cost of the ordered pair,
      or the default. */
  predicate IsMove(planner: Planner, from: BackendId, to: BackendId, cost: real) {
    && (from == to ==> cost == 0.0)
    && (from != to && (from, to) in planner.transitions ==> cost == planner.transitions[(from, to)])
    && (from != to && (from, to) !in planner.transitions ==> cost == planner.defaultTransitionUs)
  }

  ghost predicate StepIsExact(w: Workload, steps: seq<ExecutionStep>, i: nat)
    requires i < |steps| && i < |w.requests|
  {
    var step := steps[i];
    && step.request == w.requests[i]
    && (exists j: nat :: LastFit(w.probes, step.request, step.backend, j)
          && IsCharge(w.planner, w.records, step.request, w.probes[j], step.operatorUs))
    && (i == 0 ==> step.transitionUs == 0.0 && step.cumulativeUs == step.operatorUs)
    && (i > 0 ==>
          && IsMove(w.planner, steps[i - 1].backend, step.backend, step.transitionUs)
          && step.cumulativeUs
              == w.planner.round(w.planner.round(steps[i - 1].cumulativeUs + step.transitionUs) + step.operatorUs))
  }

  // The pieces ---------------------------------------------------------------------------

  lemma MoveIsExact(planner: Planner, from: BackendId, to: BackendId)
    ensures IsMove(planner, from, to, planner.TransitionCost(from, to))
  {}

  lemma BootstrapIsExact(planner: Planner, p: BackendProbe)
    ensures planner.BootstrapCost(p)
        == planner.round(planner.unmeasuredUs + planner.round(planner.rankPenaltyUs * PenaltySteps(p.kind)))
  {
    SameProduct(planner.rankPenaltyUs, BootstrapRank(p.kind) as real, PenaltySteps(p.kind));
  }

  lemma SameProduct(x: real, y: real, z: real)
    requires y == z
    ensures x * y == x * z
  {}

  lemma FirstIsUnique(records: seq<PerformanceRecord>, backend: BackendId,
                      operation: OperationKind, dataType: DataType, e: nat, r: nat)
    requires FirstRecord(records, backend, operation, dataType, e)
    requires FirstRecord(records, backend, operation, dataType, r)
    ensures e == r
  {}

  lemma ChargeIsExact(planner: Planner, records: seq<PerformanceRecord>, request: RouteRequest, p: BackendProbe)
    ensures IsCharge(planner, records, request, p, planner.OperatorCost(p, request, records))
  {
    var r := MedianIsFirst(records, p.id, request.operation, request.dataType);
    var median, cost := MedianUs(records, p.id, request.operation, request.dataType),
        planner.OperatorCost(p, request, records);
    if median.Some? && IsUsable(median.value) {
      assert FirstRecord(records, p.id, request.operation, request.dataType, r) && cost == records[r].median.value;
    } else {
      forall e: nat | FirstRecord(records, p.id, request.operation, request.dataType, e)
        ensures !IsUsable(records[e].median)
      {
        assert RecordOf(records[e], p.id, request.operation, request.dataType);
        FirstIsUnique(records, p.id, request.operation, request.dataType, e, r);
      }
      BootstrapIsExact(planner, p);
    }
  }

  lemma {:induction false} RepresentativeCons(first: BackendProbe, rest: seq<BackendProbe>, id: BackendId)
    ensures Representative([first] + rest, id) ==
      if Representative(rest, id).Some? then Representative(rest, id)
      else if first.id == id then Some(first) else None
  {
    var candidates := [first] + rest;
    if rest == [] {
      assert candidates[..0] == [];
    } else {
      assert candidates[..|candidates| - 1] == [first] + rest[..|rest| - 1];
      RepresentativeCons(first, rest[..|rest| - 1], id);
    }
  }

  /** The probe a layer entry speaks for is the last fitting one with its id. */
  lemma {:induction false} RepresentativeIsLast(probes: seq<BackendProbe>, request: RouteRequest,
                                                id: BackendId) returns (j: nat)
    ensures var charged := Representative(Compatible(request, probes), id);
      && (charged.Some? ==> LastFit(probes, request, id, j) && charged.value == probes[j])
      && (charged.None? ==> forall e :: 0 <= e < |probes| ==> !FitsAs(probes[e], request, id))
  {
    j := 0;
    if probes != [] {
      var rest := RepresentativeIsLast(probes[1..], request, id);
      forall e | 0 < e < |probes| ensures probes[e] == probes[1..][e - 1] {}
      if Fits(probes[0], request) {
        assert Compatible(request, probes) == [probes[0]] + Compatible(request, probes[1..]);
        RepresentativeCons(probes[0], Compatible(request, probes[1..]), id);
      }
      if Representative(Compatible(request, probes[1..]), id).Some? {
        j := rest + 1;
      }
    }
  }

  lemma OperatorIsCharge(w: Workload, i: nat, id: BackendId) returns (j: nat)
    requires i < |w.requests| && Serves(w, i, id)
    ensures LastFit(w.probes, w.requests[i], id, j)
    ensures IsCharge(w.planner, w.records, w.requests[i], w.probes[j], OperatorAt(w, i, id))
  {
    j := RepresentativeIsLast(w.probes, w.requests[i], id);
    ChargeIsExact(w.planner, w.records, w.requests[i], w.probes[j]);
  }

  // Whole plans ----------------------------------------------------------------------------

  /** Every step of every plan, from the inputs alone. */
  lemma PlanStepsExactly(w: Workload, plan: ExecutionPlan)
    requires IsPlan(w, plan)
    ensures |plan.steps| == |w.requests|
    ensures forall i :: 0 <= i < |plan.steps| ==> StepIsExact(w, plan.steps, i)
    ensures plan.estimatedTotalUs == if plan.steps == [] then 0.0 else plan.steps[|plan.steps| - 1].cumulativeUs
  {
    PlanLedger(w, plan);
    forall i | 0 <= i < |plan.steps| ensures StepIsExact(w, plan.steps, i) {
      StepExactly(w, plan.steps, i);
    }
  }

  lemma StepExactly(w: Workload, steps: seq<ExecutionStep>, i: nat)
    requires IsLedger(w, steps) && i < |steps|
    ensures StepIsExact(w, steps, i)
  {
    assert LedgerLine(w, steps, i);
    var step := steps[i];
    var j := OperatorIsCharge(w, i, step.backend);
    if i > 0 {
      MoveIsExact(w.planner, steps[i - 1].backend, step.backend);
    }
  }

  /** The cost of any assignment is built from the same charges and moves. */
  lemma PathCostExactly(w: Workload, ids: seq<BackendId>, n: nat) returns (charge: real, move: real, j: nat)
    requires IsPath(w, ids) && 0 < n <= |ids|
    ensures LastFit(w.probes, w.requests[n - 1], ids[n - 1], j)
    ensures IsCharge(w.planner, w.records, w.requests[n - 1], w.probes[j], charge)
    ensures n == 1 ==> PathCost(w, ids, n) == charge
    ensures n > 1 ==>
      && IsMove(w.planner, ids[n - 2], ids[n - 1], move)
      && PathCost(w, ids, n) == w.planner.round(w.planner.round(PathCost(w, ids, n - 1) + move) + charge)
  {
    assert Serves(w, n - 1, ids[n - 1]);
    charge := OperatorAt(w, n - 1, ids[n - 1]);
    move := if n > 1 then w.planner.TransitionCost(ids[n - 2], ids[n - 1]) else 0.0;
    j := OperatorIsCharge(w, n - 1, ids[n - 1]);
  }

  /** A backend may serve a request exactly when some probe of its id fits. */
  lemma ServesExactly(w: Workload, i: nat, id: BackendId)
    requires i < |w.requests|
    ensures Serves(w, i, id) <==> exists j :: 0 <= j < |w.probes| && FitsAs(w.probes[j], w.requests[i], id)
    ensures w.Candidates(i) == [] <==> forall j :: 0 <= j < |w.probes| ==> !Fits(w.probes[j], w.requests[i])
  {
    var j := RepresentativeIsLast(w.probes, w.requests[i], id);
    if w.Candidates(i) == [] {
      forall e | 0 <= e < |w.probes| ensures !Fits(w.probes[e], w.requests[i]) {
        assert w.probes[e] in w.probes;
      }
    } else {
      assert w.Candidates(i)[0] in w.probes;
    }
  }

  // Staying on one backend ---------------------------------------------------------------------

  predicate ExactAt(round: real -> real, x: real) {
    round(x) == x
  }

  ghost predicate ExactSums(round: real -> real) {
    forall x :: ExactAt(round, x)
  }

  predicate SameBackend(steps: seq<ExecutionStep>, i: nat)
    requires i < |steps|
  {
    steps[i].backend == steps[0].backend
  }

  function OperatorSum(steps: seq<ExecutionStep>, n: nat): real
    requires n <= |steps|
  {
    if n == 0 then 0.0 else OperatorSum(steps, n - 1) + steps[n - 1].operatorUs
  }

  lemma {:induction false} StayingTotal(w: Workload, steps: seq<ExecutionStep>, n: nat)
    requires ExactSums(w.planner.round) && |steps| == |w.requests| && 0 < n <= |steps|
    requires forall i :: 0 <= i < |steps| ==> StepIsExact(w, steps, i) && SameBackend(steps, i)
    ensures steps[n - 1].cumulativeUs == OperatorSum(steps, n)
  {
    assert StepIsExact(w, steps, n - 1) && SameBackend(steps, n - 1);
    if n > 1 {
      StayingTotal(w, steps, n - 1);
      assert SameBackend(steps, n - 2);
      var moved := steps[n - 2].cumulativeUs + steps[n - 1].transitionUs;
      assert ExactAt(w.planner.round, moved) && ExactAt(w.planner.round, moved + steps[n - 1].operatorUs);
    } else {
      assert OperatorSum(steps, 1) == OperatorSum(steps, 0) + steps[0].operatorUs;
    }
  }

  /** With exact sums, a plan that stays on one backend costs the sum of its operators. */
  lemma StayingIsFree(w: Workload, plan: ExecutionPlan)
    requires IsPlan(w, plan) && ExactSums(w.planner.round)
    requires forall i :: 0 <= i < |plan.steps| ==> SameBackend(plan.steps, i)
    ensures plan.estimatedTotalUs == OperatorSum(plan.steps, |plan.steps|)
  {
    PlanStepsExactly(w, plan);
    if plan.steps != [] {
      StayingTotal(w, plan.steps, |plan.steps|);
    }
  }
}
