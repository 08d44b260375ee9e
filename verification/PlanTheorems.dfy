/** What a plan is worth: its ledger adds up and no other assignment is cheaper. */
module PlanTheorems {
  import opened Wrappers
  import opened Ordering
  import opened Core
  import opened ExecutionPlan

  predicate KeepsOrder(round: real -> real, x: real, y: real) {
    x <= y ==> round(x) <= round(y)
  }

  /** Rounding never reverses two sums. */
  ghost predicate Monotone(round: real -> real) {
    forall x, y :: KeepsOrder(round, x, y)
  }

  lemma ExtendMonotone(planner: Planner, a: real, b: real, from: BackendId, to: BackendId, operatorUs: real)
    requires Monotone(planner.round) && a <= b
    ensures planner.Extend(a, from, to, operatorUs) <= planner.Extend(b, from, to, operatorUs)
  {
    ExtendBoth(planner, a, b, from, to, operatorUs, operatorUs);
  }

  lemma ExtendBoth(planner: Planner, a: real, b: real, from: BackendId, to: BackendId, x: real, y: real)
    requires Monotone(planner.round) && a <= b && x <= y
    ensures planner.Extend(a, from, to, x) <= planner.Extend(b, from, to, y)
  {
    var t := planner.TransitionCost(from, to);
    assert KeepsOrder(planner.round, a + t, b + t);
    assert KeepsOrder(planner.round, planner.round(a + t) + x, planner.round(b + t) + y);
  }

  // Assignments ------------------------------------------------------------------------

  /** One backend per request, for the first requests. */
  predicate IsPath(w: Workload, ids: seq<BackendId>) {
    0 < |ids| <= |w.requests| && forall i {:trigger Serves(w, i, ids[i])} :: 0 <= i < |ids| ==> Serves(w, i, ids[i])
  }

  /** The cost of the first n requests of an assignment, added up from left to right. */
  function PathCost(w: Workload, ids: seq<BackendId>, n: nat): real
    requires IsPath(w, ids) && 0 < n <= |ids|
  {
    assert Serves(w, n - 1, ids[n - 1]);
    if n == 1 then OperatorAt(w, 0, ids[0])
    else w.planner.Extend(PathCost(w, ids, n - 1), ids[n - 2], ids[n - 1], OperatorAt(w, n - 1, ids[n - 1]))
  }

  // Lower bound ------------------------------------------------------------------------

  lemma EntryExists(w: Workload, layers: seq<Layer>, i: nat, id: BackendId)
    requires AreLayers(w, layers) && i < |layers| && Serves(w, i, id)
    ensures id in layers[i] && IsEntry(w, i, Before(layers, i), id, layers[i][id])
  {
    assert IsLayer(w, i, Before(layers, i), layers[i]);
    EntryAt(w, layers, i, id);
  }

  /** Every layer entry is a lower bound for all assignments that end in it. */
  lemma {:induction false} EntryIsLowerBound(w: Workload, layers: seq<Layer>, ids: seq<BackendId>, n: nat)
    requires Monotone(w.planner.round) && AreLayers(w, layers) && IsPath(w, ids) && 0 < n <= |ids| && n <= |layers|
    ensures ids[n - 1] in layers[n - 1]
    ensures layers[n - 1][ids[n - 1]].totalUs <= PathCost(w, ids, n)
  {
    var last := n - 1;
    assert Serves(w, last, ids[last]);
    EntryExists(w, layers, last, ids[last]);
    if last == 0 {
    } else {
      EntryIsLowerBound(w, layers, ids, last);
      var previous, operatorUs := layers[last - 1], OperatorAt(w, last, ids[last]);
      var state := layers[last][ids[last]];
      assert NoWorse(w.planner, previous, ids[last], operatorUs, state.previous.value, ids[last - 1]);
      ExtendMonotone(w.planner, previous[ids[last - 1]].totalUs, PathCost(w, ids, last), ids[last - 1], ids[last],
                     operatorUs);
    }
  }

  // The ledger ---------------------------------------------------------------------------

  /** One line of the ledger: the right request, a backend that serves it, and a running
      total that is the previous one plus the move between the two backends plus the
      operator. */
  predicate LedgerLine(w: Workload, steps: seq<ExecutionStep>, i: nat)
    requires i < |steps| && i < |w.requests|
  {
    var step := steps[i];
    && step.request == w.requests[i]
    && Serves(w, i, step.backend)
    && step.operatorUs == OperatorAt(w, i, step.backend)
    && (i == 0 ==> step.transitionUs == 0.0 && step.cumulativeUs == step.operatorUs)
    && (i > 0 ==>
          && step.transitionUs == w.planner.TransitionCost(steps[i - 1].backend, step.backend)
          && step.cumulativeUs
              == w.planner.round(w.planner.round(steps[i - 1].cumulativeUs + step.transitionUs) + step.operatorUs))
  }

  predicate IsLedger(w: Workload, steps: seq<ExecutionStep>) {
    |steps| <= |w.requests| && forall i :: 0 <= i < |steps| ==> LedgerLine(w, steps, i)
  }

  lemma AppendLine(w: Workload, before: seq<ExecutionStep>, step: ExecutionStep)
    requires IsLedger(w, before) && |before| < |w.requests| && LedgerLine(w, before + [step], |before|)
    ensures IsLedger(w, before + [step])
  {
    var steps := before + [step];
    forall i | 0 <= i < |steps| ensures LedgerLine(w, steps, i) {
      if i < |before| {
        assert LedgerLine(w, before, i);
        assert steps[i] == before[i] && (i > 0 ==> steps[i - 1] == before[i - 1]);
      }
    }
  }

  lemma {:induction false} TraceIsLedger(w: Workload, layers: seq<Layer>, i: nat, id: BackendId)
    requires AreLayers(w, layers) && i < |layers| && id in layers[i]
    ensures var steps := StepsTo(w, layers, i, id);
      && |steps| == i + 1
      && IsLedger(w, steps)
      && steps[i].backend == id
      && steps[i].cumulativeUs == layers[i][id].totalUs
  {
    EntryAt(w, layers, i, id);
    var state := layers[i][id];
    var steps := StepsTo(w, layers, i, id);
    if i > 0 {
      var before := StepsTo(w, layers, i - 1, state.previous.value);
      TraceIsLedger(w, layers, i - 1, state.previous.value);
      assert steps == before + [steps[i]];
      AppendLine(w, before, steps[i]);
    } else {
      assert LedgerLine(w, steps, 0);
    }
  }

  /** A plan has one ledger line per request, and its total is the last running total. */
  lemma PlanLedger(w: Workload, plan: ExecutionPlan)
    requires IsPlan(w, plan)
    ensures |plan.steps| == |w.requests| && IsLedger(w, plan.steps)
    ensures plan.estimatedTotalUs == if plan.steps == [] then 0.0 else plan.steps[|plan.steps| - 1].cumulativeUs
  {
    if w.requests != [] {
      var layers, final :| IsTrace(w, layers, final, plan);
      TraceIsLedger(w, layers, |layers| - 1, final);
    }
  }

  function Backends(steps: seq<ExecutionStep>): seq<BackendId> {
    seq(|steps|, i requires 0 <= i < |steps| => steps[i].backend)
  }

  lemma LedgerPath(w: Workload, steps: seq<ExecutionStep>)
    requires IsLedger(w, steps) && steps != []
    ensures IsPath(w, Backends(steps))
  {
    var ids := Backends(steps);
    forall i | 0 <= i < |ids| ensures Serves(w, i, ids[i]) {
      assert LedgerLine(w, steps, i);
    }
  }

  lemma LedgerTotal(w: Workload, steps: seq<ExecutionStep>, i: nat)
    requires IsLedger(w, steps) && i < |steps|
    ensures Serves(w, i, steps[i].backend)
    ensures steps[i].cumulativeUs ==
      if i == 0 then OperatorAt(w, 0, steps[0].backend)
      else w.planner.Extend(steps[i - 1].cumulativeUs, steps[i - 1].backend, steps[i].backend,
                            OperatorAt(w, i, steps[i].backend))
  {
    assert LedgerLine(w, steps, i);
  }

  /** Every running total of a ledger is the cost of the assignment it records so far. */
  lemma {:induction false} LedgerCost(w: Workload, steps: seq<ExecutionStep>, n: nat)
    requires IsLedger(w, steps) && 0 < n <= |steps|
    ensures IsPath(w, Backends(steps))
    ensures steps[n - 1].cumulativeUs == PathCost(w, Backends(steps), n)
  {
    LedgerPath(w, steps);
    LedgerTotal(w, steps, n - 1);
    if n > 1 { LedgerCost(w, steps, n - 1); }
  }

  // Optimality -----------------------------------------------------------------------------

  /** For every monotone rounding: the plan is itself an assignment, its estimate is that
      assignment's cost, and no assignment of serving backends costs less. */
  lemma PlanIsOptimal(w: Workload, plan: ExecutionPlan, ids: seq<BackendId>)
    requires IsPlan(w, plan) && w.requests != [] && Monotone(w.planner.round)
    requires IsPath(w, ids) && |ids| == |w.requests|
    ensures |plan.steps| == |w.requests| && IsPath(w, Backends(plan.steps))
    ensures plan.estimatedTotalUs == PathCost(w, Backends(plan.steps), |plan.steps|)
    ensures plan.estimatedTotalUs <= PathCost(w, ids, |ids|)
  {
    PlanLedger(w, plan);
    LedgerCost(w, plan.steps, |plan.steps|);
    var layers, final :| IsTrace(w, layers, final, plan);
    EntryIsLowerBound(w, layers, ids, |ids|);
    assert NoLater(layers[|layers| - 1], final, ids[|ids| - 1]);
  }

  ghost predicate DistinctIds(probes: seq<BackendProbe>) {
    forall p, q {:trigger Apart(p, q)} :: p in probes && q in probes ==> Apart(p, q)
  }

  predicate Apart(p: BackendProbe, q: BackendProbe) {
    p.id == q.id ==> p == q
  }

  /** A probe that may be chosen for request i. */
  predicate Choice(w: Workload, i: nat, p: BackendProbe)
    requires i < |w.requests|
  {
    p in w.probes && p.Compatible(w.requests[i])
  }

  /** No probe compatible with the request is charged less, unmeasured, than the last such
      probe of its id, which is the one the planner charges for the id. */
  predicate FairFor(planner: Planner, probes: seq<BackendProbe>, request: RouteRequest, p: BackendProbe) {
    var candidates := Compatible(request, probes);
    p in candidates ==>
      var charged := Representative(candidates, p.id);
      charged.Some? && planner.BootstrapCost(charged.value) <= planner.BootstrapCost(p)
  }

  ghost predicate FairlyPriced(planner: Planner, probes: seq<BackendProbe>) {
    forall request, p :: FairFor(planner, probes, request, p)
  }

  lemma ChoiceServes(w: Workload, i: nat, p: BackendProbe)
    requires i < |w.requests| && Choice(w, i, p)
    ensures Serves(w, i, p.id)
    ensures Representative(w.Candidates(i), p.id).value.id == p.id
  {
    assert p in w.Candidates(i);
    RepresentativeIn(w.Candidates(i), p.id);
  }

  /** A measured choice is charged its measurement like its id, and a fairly priced one is
      charged at least what the planner charges its id, whatever has been measured. */
  lemma ChoiceIsDearer(w: Workload, i: nat, p: BackendProbe)
    requires i < |w.requests| && Choice(w, i, p)
    requires Measured(w.records, p.id, w.requests[i]).Some? || FairFor(w.planner, w.probes, w.requests[i], p)
    ensures Serves(w, i, p.id)
    ensures OperatorAt(w, i, p.id) <= w.planner.OperatorCost(p, w.requests[i], w.records)
  {
    ChoiceServes(w, i, p);
    assert p in w.Candidates(i);
  }

  lemma OnlyRepresentative(w: Workload, i: nat, p: BackendProbe)
    requires i < |w.requests| && DistinctIds(w.probes) && Choice(w, i, p)
    ensures Representative(w.Candidates(i), p.id) == Some(p)
  {
    ChoiceServes(w, i, p);
    RepresentativeIn(w.Candidates(i), p.id);
    assert Apart(p, Representative(w.Candidates(i), p.id).value);
  }

  lemma DistinctIsFair(planner: Planner, probes: seq<BackendProbe>)
    requires DistinctIds(probes)
    ensures FairlyPriced(planner, probes)
  {
    forall request, p ensures FairFor(planner, probes, request, p) {
      var candidates := Compatible(request, probes);
      RepresentativeIn(candidates, p.id);
      if p in candidates {
        assert Apart(p, Representative(candidates, p.id).value);
      }
    }
  }

  lemma {:induction false} RepresentativeIn(candidates: seq<BackendProbe>, id: BackendId)
    ensures var r := Representative(candidates, id);
      && (r.Some? ==> r.value in candidates && r.value.id == id)
      && ((exists c :: c in candidates && c.id == id) ==> r.Some?)
  {
    if candidates == [] {
    } else {
      RepresentativeIn(candidates[..|candidates| - 1], id);
      assert candidates == candidates[..|candidates| - 1] + [candidates[|candidates| - 1]];
    }
  }

  /** The cost of the first n requests of an assignment of probes, each charged for itself. */
  function ProbeCost(w: Workload, chosen: seq<BackendProbe>, n: nat): real
    requires 0 < n <= |chosen| <= |w.requests|
  {
    var operatorUs := w.planner.OperatorCost(chosen[n - 1], w.requests[n - 1], w.records);
    if n == 1 then operatorUs
    else w.planner.Extend(ProbeCost(w, chosen, n - 1), chosen[n - 2].id, chosen[n - 1].id, operatorUs)
  }

  function IdsOf(chosen: seq<BackendProbe>): seq<BackendId> {
    seq(|chosen|, i requires 0 <= i < |chosen| => chosen[i].id)
  }

  ghost predicate AreChoices(w: Workload, chosen: seq<BackendProbe>) {
    |chosen| <= |w.requests| && forall i :: 0 <= i < |chosen| ==> Choice(w, i, chosen[i])
  }

  lemma ChoicesServe(w: Workload, chosen: seq<BackendProbe>)
    requires AreChoices(w, chosen) && chosen != []
    ensures IsPath(w, IdsOf(chosen))
  {
    var ids := IdsOf(chosen);
    forall i | 0 <= i < |ids| ensures Serves(w, i, ids[i]) {
      assert Choice(w, i, chosen[i]);
      ChoiceServes(w, i, chosen[i]);
    }
  }

  /** Every choice costs, for itself, at least what the planner charges its id. */
  ghost predicate DearChoices(w: Workload, chosen: seq<BackendProbe>) {
    |chosen| <= |w.requests| && forall i :: 0 <= i < |chosen| ==> DearChoice(w, i, chosen[i])
  }

  predicate DearChoice(w: Workload, i: nat, p: BackendProbe)
    requires i < |w.requests|
  {
    Serves(w, i, p.id) && OperatorAt(w, i, p.id) <= w.planner.OperatorCost(p, w.requests[i], w.records)
  }

  lemma DearCharge(w: Workload, chosen: seq<BackendProbe>, i: nat)
    requires DearChoices(w, chosen) && i < |chosen|
    ensures Serves(w, i, chosen[i].id)
    ensures OperatorAt(w, i, chosen[i].id) <= w.planner.OperatorCost(chosen[i], w.requests[i], w.records)
  {
    assert DearChoice(w, i, chosen[i]);
  }

  lemma {:induction false} PathIsCheaper(w: Workload, chosen: seq<BackendProbe>, n: nat)
    requires Monotone(w.planner.round) && AreChoices(w, chosen) && DearChoices(w, chosen) && 0 < n <= |chosen|
    ensures IsPath(w, IdsOf(chosen)) && PathCost(w, IdsOf(chosen), n) <= ProbeCost(w, chosen, n)
  {
    ChoicesServe(w, chosen);
    DearCharge(w, chosen, n - 1);
    if n > 1 {
      PathIsCheaper(w, chosen, n - 1);
      var charged := OperatorAt(w, n - 1, chosen[n - 1].id);
      var own := w.planner.OperatorCost(chosen[n - 1], w.requests[n - 1], w.records);
      ExtendBoth(w.planner, PathCost(w, IdsOf(chosen), n - 1), ProbeCost(w, chosen, n - 1),
                 chosen[n - 2].id, chosen[n - 1].id, charged, own);
    }
  }

  lemma PlanBeatsDearChoices(w: Workload, plan: ExecutionPlan, chosen: seq<BackendProbe>)
    requires IsPlan(w, plan) && w.requests != [] && Monotone(w.planner.round)
    requires AreChoices(w, chosen) && DearChoices(w, chosen) && |chosen| == |w.requests|
    ensures plan.estimatedTotalUs <= ProbeCost(w, chosen, |chosen|)
  {
    PathIsCheaper(w, chosen, |chosen|);
    PlanIsOptimal(w, plan, IdsOf(chosen));
  }

  /** Under a fair price list the estimate is at most the cost of every choice of a
      compatible probe for each request, each probe charged for itself. */
  lemma FairPlanBeatsEveryChoice(w: Workload, plan: ExecutionPlan, chosen: seq<BackendProbe>)
    requires IsPlan(w, plan) && w.requests != [] && Monotone(w.planner.round)
    requires FairlyPriced(w.planner, w.probes)
    requires AreChoices(w, chosen) && |chosen| == |w.requests|
    ensures plan.estimatedTotalUs <= ProbeCost(w, chosen, |chosen|)
  {
    forall i | 0 <= i < |chosen| ensures DearChoice(w, i, chosen[i]) {
      assert Choice(w, i, chosen[i]);
      ChoiceIsDearer(w, i, chosen[i]);
    }
    PlanBeatsDearChoices(w, plan, chosen);
  }

  /** In particular with distinct probe ids, as the registry guarantees. */
  lemma PlanBeatsEveryChoice(w: Workload, plan: ExecutionPlan, chosen: seq<BackendProbe>)
    requires IsPlan(w, plan) && w.requests != [] && Monotone(w.planner.round) && DistinctIds(w.probes)
    requires AreChoices(w, chosen) && |chosen| == |w.requests|
    ensures plan.estimatedTotalUs <= ProbeCost(w, chosen, |chosen|)
  {
    DistinctIsFair(w.planner, w.probes);
    FairPlanBeatsEveryChoice(w, plan, chosen);
  }

  // The exact condition ------------------------------------------------------------------------

  ghost predicate BeatenBy(w: Workload, plan: ExecutionPlan, chosen: seq<BackendProbe>) {
    && IsPlan(w, plan) && w.requests != [] && AreChoices(w, chosen) && |chosen| == |w.requests|
    && ProbeCost(w, chosen, |chosen|) < plan.estimatedTotalUs
  }

  /** No plan of this planner over these probes, for any requests and any measurements, is
      beaten by a choice of compatible probes. */
  ghost predicate NeverBeaten(planner: Planner, probes: seq<BackendProbe>) {
    forall requests, records, plan, chosen :: !BeatenBy(Workload(planner, requests, probes, records), plan, chosen)
  }

  /** Measurements that price every other id of the list above the given cost. */
  function OutpriceOthers(probes: seq<BackendProbe>, id: BackendId,
                          request: RouteRequest, cost: real): seq<PerformanceRecord>
  {
    if probes == [] then []
    else
      var rest := OutpriceOthers(probes[1..], id, request, cost);
      if probes[0].id == id then rest
      else [PerformanceRecord(probes[0].id, request.operation, request.dataType, Number(Above(cost)), 1)] + rest
  }

  /** A usable measurement above a cost. */
  function Above(cost: real): (price: real)
    ensures price > cost && price >= 0.0
  {
    if cost < 0.0 then 1.0 else cost + 1.0
  }

  lemma {:induction false} OthersOutpriced(probes: seq<BackendProbe>, id: BackendId,
                                           request: RouteRequest, cost: real, other: BackendId)
    ensures var records := OutpriceOthers(probes, id, request, cost);
      && (other == id ==> Measured(records, other, request) == None)
      && (other != id && (exists q :: q in probes && q.id == other) ==>
          Measured(records, other, request) == Some(Above(cost)))
  {
    if probes == [] {
    } else {
      OthersOutpriced(probes[1..], id, request, cost, other);
      assert probes == [probes[0]] + probes[1..];
      var rest := OutpriceOthers(probes[1..], id, request, cost);
      if probes[0].id != id {
        assert OutpriceOthers(probes, id, request, cost)[1..] == rest;
      }
    }
  }

  ghost function BestWayIn(planner: Planner, previous: Layer, to: BackendId, operatorUs: real): (state: State)
    requires previous != map[]
    ensures IsState(planner, previous, to, operatorUs, state)
  {
    var arrivals := map id | id in previous :: Arrival(planner, previous, id, to, operatorUs);
    assert arrivals.Keys == previous.Keys && exists id :: id in previous;
    CheapestFirstOrders(arrivals);
    var best := Least(arrivals.Keys, CheapestFirst(arrivals));
    assert forall other :: other in previous ==> AtMost(CheapestFirst(arrivals), best, other);
    State(arrivals[best], operatorUs, planner.TransitionCost(best, to), Some(best))
  }

  lemma NextLayer(w: Workload, i: nat, previous: Layer) returns (layer: Layer)
    requires i < |w.requests| && w.Candidates(i) != [] && (i > 0 ==> previous != map[])
    ensures IsLayer(w, i, previous, layer)
  {
    var candidates := w.Candidates(i);
    var ids := set c | c in candidates :: c.id;
    forall id ensures id in ids <==> Serves(w, i, id) {
      RepresentativeIn(candidates, id);
    }
    layer := map id | id in ids ::
      if i == 0 then State(OperatorAt(w, 0, id), OperatorAt(w, 0, id), 0.0, None)
      else BestWayIn(w.planner, previous, id, OperatorAt(w, i, id));
    assert candidates[0].id in layer;
  }

  lemma {:induction false} LayersExist(w: Workload, n: nat) returns (layers: seq<Layer>)
    requires n <= |w.requests| && w.Routable(n)
    ensures |layers| == n && AreLayers(w, layers)
  {
    if n == 0 {
      layers := [];
    } else {
      layers := LayersExist(w, n - 1);
      LayersNonEmpty(w, layers);
      var layer := NextLayer(w, n - 1, Before(layers, n - 1));
      ExtendLayers(w, layers, layer);
      layers := layers + [layer];
    }
  }

  lemma FinalEntry(layer: Layer) returns (final: BackendId)
    requires layer != map[]
    ensures IsFinal(layer, final)
  {
    var totals := map id | id in layer :: layer[id].totalUs;
    assert totals.Keys == layer.Keys;
    CheapestFirstOrders(totals);
    assert exists id :: id in layer;
    final := Least(totals.Keys, CheapestFirst(totals));
    forall other | other in layer ensures NoLater(layer, final, other) {
      assert AtMost(CheapestFirst(totals), final, other);
    }
  }

  /** Every routable workload has a plan. */
  lemma PlanExists(w: Workload) returns (plan: ExecutionPlan)
    requires w.requests != [] && w.Routable(|w.requests|)
    ensures IsPlan(w, plan)
  {
    var layers := LayersExist(w, |w.requests|);
    LayersNonEmpty(w, layers);
    var last := layers[|layers| - 1];
    var final := FinalEntry(last);
    plan := ExecutionPlan(StepsTo(w, layers, |layers| - 1, final), last[final].totalUs);
    assert IsTrace(w, layers, final, plan);
  }

  /** Whenever a compatible probe is charged less than the last compatible probe of its id,
      some request list and measurements make that probe beat the plan, for every rounding. */
  lemma UnfairIsBeaten(planner: Planner, probes: seq<BackendProbe>, request: RouteRequest, p: BackendProbe)
    requires !FairFor(planner, probes, request, p)
    ensures exists records, plan :: BeatenBy(Workload(planner, [request], probes, records), plan, [p])
  {
    var cost := planner.BootstrapCost(p);
    var records := OutpriceOthers(probes, p.id, request, cost);
    var w := Workload(planner, [request], probes, records);
    RepresentativeIn(w.Candidates(0), p.id);
    OthersOutpriced(probes, p.id, request, cost, p.id);
    var plan := PlanExists(w);
    assert AreChoices(w, [p]) by {
      assert Choice(w, 0, p);
    }
    assert ProbeCost(w, [p], 1) == cost;
    PlanLedger(w, plan);
    assert LedgerLine(w, plan.steps, 0);
    var id := plan.steps[0].backend;
    RepresentativeIn(w.Candidates(0), id);
    OthersOutpriced(probes, p.id, request, cost, id);
    assert BeatenBy(w, plan, [p]);
  }

  /** A planner is never beaten over a probe list, whatever is requested and measured,
      exactly when it prices the list fairly. */
  lemma NeverBeatenExactly(planner: Planner, probes: seq<BackendProbe>)
    requires Monotone(planner.round)
    ensures NeverBeaten(planner, probes) <==> FairlyPriced(planner, probes)
  {
    if FairlyPriced(planner, probes) {
      forall requests, records, plan, chosen
        ensures !BeatenBy(Workload(planner, requests, probes, records), plan, chosen)
      {
        var w := Workload(planner, requests, probes, records);
        if BeatenBy(w, plan, chosen) {
          FairPlanBeatsEveryChoice(w, plan, chosen);
        }
      }
    } else {
      var request, p :| !FairFor(planner, probes, request, p);
      UnfairIsBeaten(planner, probes, request, p);
    }
  }

  /** An unfair list: the default planner with two probes of one id, first a GPU and then a
      CPU. The estimate is the CPU's 1040, although the GPU would be charged 1000. */
  lemma RepeatedIdOverwrites(request: RouteRequest, capabilities: CapabilitySet, plan: ExecutionPlan)
    requires capabilities.Supports(request)
    requires IsPlan(TwinWorkload(request, capabilities), plan)
    ensures plan.estimatedTotalUs == 1040.0
    ensures ProbeCost(TwinWorkload(request, capabilities), [TwinWorkload(request, capabilities).probes[0]], 1) == 1000.0
  {
    var w := TwinWorkload(request, capabilities);
    var slow := w.probes[1];
    assert w.probes[1..] == [slow];
    assert Compatible(request, [slow]) == [slow] + Compatible(request, []);
    assert w.Candidates(0) == w.probes;
    PlanLedger(w, plan);
    assert LedgerLine(w, plan.steps, 0);
    RepresentativeIn(w.Candidates(0), plan.steps[0].backend);
    assert Representative(w.Candidates(0), "gpu") == Some(slow);
  }

  function TwinWorkload(request: RouteRequest, capabilities: CapabilitySet): Workload {
    Workload(Planner(1000.0, 50.0, 10.0, map[], x => x), [request],
             [BackendProbe("gpu", Hip, true, capabilities), BackendProbe("gpu", Cpu, true, capabilities)], [])
  }

  // Against routing one request at a time ------------------------------------------------------

  ghost predicate AreRouted(w: Workload, routed: seq<BackendProbe>) {
    && |routed| == |w.requests|
    && forall i :: 0 <= i < |routed| ==> Routed(w.requests[i], w.probes, w.records) == Some(routed[i])
  }

  lemma RoutedAreChoices(w: Workload, routed: seq<BackendProbe>)
    requires AreRouted(w, routed)
    ensures AreChoices(w, routed)
  {
    forall i | 0 <= i < |routed| ensures Choice(w, i, routed[i]) {
      SelectExact(w.requests[i], w.probes, w.records);
    }
  }

  /** Each request's best-ranked compatible probe, the one it is routed to when nothing is
      measured, is priced fairly. */
  ghost predicate FairlyRanked(w: Workload) {
    forall i :: 0 <= i < |w.requests| ==> FairBest(w, i)
  }

  predicate FairBest(w: Workload, i: nat)
    requires i < |w.requests|
  {
    match BestRanked(w.Candidates(i))
    case Some(best) => FairFor(w.planner, w.probes, w.requests[i], best)
    case None => true
  }

  /** If each request's best-ranked probe is priced fairly, planning the whole workload
      never estimates more than the probes cost that routing each request on its own settles
      on. */
  lemma RankedPlanBeatsGreedy(w: Workload, plan: ExecutionPlan, routed: seq<BackendProbe>)
    requires IsPlan(w, plan) && w.requests != [] && Monotone(w.planner.round)
    requires FairlyRanked(w) && AreRouted(w, routed)
    ensures plan.estimatedTotalUs <= ProbeCost(w, routed, |routed|)
  {
    RoutedAreChoices(w, routed);
    forall i | 0 <= i < |routed| ensures DearChoice(w, i, routed[i]) {
      assert Choice(w, i, routed[i]) && FairBest(w, i);
      FastestIsFastest(w.records, w.requests[i], w.Candidates(i));
      ChoiceIsDearer(w, i, routed[i]);
    }
    PlanBeatsDearChoices(w, plan, routed);
  }

  /** In particular under a fair price list. */
  lemma PlanBeatsGreedy(w: Workload, plan: ExecutionPlan, routed: seq<BackendProbe>)
    requires IsPlan(w, plan) && w.requests != [] && Monotone(w.planner.round)
    requires FairlyPriced(w.planner, w.probes) && AreRouted(w, routed)
    ensures plan.estimatedTotalUs <= ProbeCost(w, routed, |routed|)
  {
    forall i | 0 <= i < |w.requests| ensures FairBest(w, i) {
      var best := BestRanked(w.Candidates(i));
      assert best.Some? ==> FairFor(w.planner, w.probes, w.requests[i], best.value);
    }
    RankedPlanBeatsGreedy(w, plan, routed);
  }

  /** Under any price list it never estimates more than the routed ids cost when each is
      charged what the planner charges that id. */
  lemma PlanBeatsRoutedIds(w: Workload, plan: ExecutionPlan, routed: seq<BackendProbe>)
    requires IsPlan(w, plan) && w.requests != [] && Monotone(w.planner.round) && AreRouted(w, routed)
    ensures IsPath(w, IdsOf(routed)) && plan.estimatedTotalUs <= PathCost(w, IdsOf(routed), |routed|)
  {
    RoutedAreChoices(w, routed);
    ChoicesServe(w, routed);
    PlanIsOptimal(w, plan, IdsOf(routed));
  }
}
