/** Whole-workload routing: a layered dynamic program over backends with operator and
    transition costs, followed by back-pointer reconstruction.

    Costs are real numbers. Every addition goes through `round`, an arbitrary rounding
    function carried by the planner, so a result that only asks `round` to be monotone
    holds for floating-point addition with any rounding mode. A sum that overflows is one
    that `round` sends to a number above all others, which stands for infinity. */
module ExecutionPlan {
  import opened Wrappers
  import opened Ordering
  import opened Core

  datatype ExecutionPlanError =
    | NoCompatibleBackend(step: nat)
    | InvalidCost(name: string, cost: Float)

  function ValidateCost(name: string, cost: Float): Result<real, ExecutionPlanError> {
    if cost.Usable() then Ok(cost.value) else Err(InvalidCost(name, cost))
  }

  type Transitions = map<(BackendId, BackendId), real>

  class TransitionCostTable {
    var costsUs: Transitions

    constructor ()
      ensures costsUs == map[]
    {
      costsUs := map[];
    }

    method Record(from: BackendId, to: BackendId, microseconds: Float) returns (outcome: Result<(), ExecutionPlanError>)
      modifies this
      ensures outcome.Ok? <==> microseconds.Usable()
      ensures outcome.Ok? ==> costsUs == old(costsUs)[(from, to) := microseconds.value]
      ensures outcome.Err? ==> outcome.error == InvalidCost("transition", microseconds) && costsUs == old(costsUs)
    {
      var cost := ValidateCost("transition", microseconds);
      if cost.Err? {
        return Err(cost.error);
      }
      costsUs := costsUs[(from, to) := cost.value];
      return Ok(());
    }
  }

  datatype PlannerConfig = PlannerConfig(unmeasuredOperatorUs: Float, defaultTransitionUs: Float,
                                         bootstrapRankPenaltyUs: Float)

  datatype Planner = Planner(unmeasuredUs: real, defaultTransitionUs: real, rankPenaltyUs: real,
                             transitions: Transitions, round: real -> real)
  {
    /** `CostAwarePlanner::new`: three finite non-negative costs, or the first that is not. */
    static function New(config: PlannerConfig, transitions: Transitions,
                        round: real -> real): (r: Result<Planner, ExecutionPlanError>)
      ensures var (operator, transition, penalty) :=
          (config.unmeasuredOperatorUs, config.defaultTransitionUs, config.bootstrapRankPenaltyUs);
        && (!operator.Usable() ==> r == Err(InvalidCost("unmeasured operator", operator)))
        && (operator.Usable() && !transition.Usable() ==> r == Err(InvalidCost("default transition", transition)))
        && (operator.Usable() && transition.Usable() && !penalty.Usable() ==>
              r == Err(InvalidCost("bootstrap rank penalty", penalty)))
        && (operator.Usable() && transition.Usable() && penalty.Usable() ==>
              && r.Ok? && r.value.transitions == transitions && r.value.round == round
              && r.value.unmeasuredUs == operator.value >= 0.0
              && r.value.defaultTransitionUs == transition.value >= 0.0
              && r.value.rankPenaltyUs == penalty.value >= 0.0)
    {
      var unmeasured :- ValidateCost("unmeasured operator", config.unmeasuredOperatorUs);
      var transition :- ValidateCost("default transition", config.defaultTransitionUs);
      var penalty :- ValidateCost("bootstrap rank penalty", config.bootstrapRankPenaltyUs);
      Ok(Planner(unmeasured, transition, penalty, transitions, round))
    }

    /** What a probe without a usable measurement is charged. */
    function BootstrapCost(probe: BackendProbe): real {
      round(unmeasuredUs + round(rankPenaltyUs * BootstrapRank(probe.kind) as real))
    }

    function OperatorCost(probe: BackendProbe, request: RouteRequest, records: seq<PerformanceRecord>): real {
      match Measured(records, probe.id, request)
      case Some(value) => value
      case None => BootstrapCost(probe)
    }

    function TransitionCost(from: BackendId, to: BackendId): real {
      if from == to then 0.0 else if (from, to) in transitions then transitions[(from, to)] else defaultTransitionUs
    }

    /** `previous.total_us + transition_us + operator_us` */
    function Extend(totalUs: real, from: BackendId, to: BackendId, operatorUs: real): real {
      round(round(totalUs + TransitionCost(from, to)) + operatorUs)
    }
  }

  datatype State = State(totalUs: real, operatorUs: real, transitionUs: real, previous: Option<BackendId>)

  type Layer = map<BackendId, State>

  datatype ExecutionStep = ExecutionStep(request: RouteRequest, backend: BackendId, operatorUs: real,
                                         transitionUs: real, cumulativeUs: real)

  datatype ExecutionPlan = ExecutionPlan(steps: seq<ExecutionStep>, estimatedTotalUs: real)

  /** One call of `plan`: a planner and its three arguments. */
  datatype Workload = Workload(planner: Planner, requests: seq<RouteRequest>, probes: seq<BackendProbe>,
                               records: seq<PerformanceRecord>)
  {
    function Candidates(i: nat): seq<BackendProbe>
      requires i < |requests|
    {
      Compatible(requests[i], probes)
    }

    predicate Routable(n: nat)
      requires n <= |requests|
    {
      forall i :: 0 <= i < n ==> Candidates(i) != []
    }
  }

  // One layer ---------------------------------------------------------------------------

  /** The probe a layer entry speaks for: the last compatible one with that id, because
      inserting a repeated id overwrites its entry. */
  function Representative(candidates: seq<BackendProbe>, id: BackendId): Option<BackendProbe> {
    if candidates == [] then None
    else
      var last := candidates[|candidates| - 1];
      if last.id == id then Some(last) else Representative(candidates[..|candidates| - 1], id)
  }

  /** Whether a backend id may serve request i. */
  predicate Serves(w: Workload, i: nat, id: BackendId)
    requires i < |w.requests|
  {
    Representative(w.Candidates(i), id).Some?
  }

  /** The operator cost charged for a backend id at request i. */
  function OperatorAt(w: Workload, i: nat, id: BackendId): real
    requires i < |w.requests| && Serves(w, i, id)
  {
    w.planner.OperatorCost(Representative(w.Candidates(i), id).value, w.requests[i], w.records)
  }

  /** What reaching `to` costs by way of a backend of the previous layer. */
  function Arrival(planner: Planner, previous: Layer, from: BackendId, to: BackendId, operatorUs: real): real
    requires from in previous
  {
    planner.Extend(previous[from].totalUs, from, to, operatorUs)
  }

  /** `min_by` over a `BTreeMap`: no other way in is cheaper, and an equally cheap one
      has a larger id. */
  predicate NoWorse(planner: Planner, previous: Layer, to: BackendId,
                    operatorUs: real, best: BackendId, other: BackendId)
    requires best in previous && other in previous
  {
    var mine, theirs := Arrival(planner, previous, best, to, operatorUs),
        Arrival(planner, previous, other, to, operatorUs);
    mine < theirs || (mine == theirs && StringLeq(best, other))
  }

  predicate IsState(planner: Planner, previous: Layer, to: BackendId, operatorUs: real, state: State) {
    && state.operatorUs == operatorUs
    && state.previous.Some?
    && state.previous.value in previous
    && state.transitionUs == planner.TransitionCost(state.previous.value, to)
    && state.totalUs == Arrival(planner, previous, state.previous.value, to, operatorUs)
    && forall other :: other in previous ==> NoWorse(planner, previous, to, operatorUs, state.previous.value, other)
  }

  /** The entry of request i for backend id, given the layer before it. */
  predicate IsEntry(w: Workload, i: nat, previous: Layer, id: BackendId, state: State)
    requires i < |w.requests|
  {
    && Serves(w, i, id)
    && if i == 0 then state == State(OperatorAt(w, 0, id), OperatorAt(w, 0, id), 0.0, None)
       else IsState(w.planner, previous, id, OperatorAt(w, i, id), state)
  }

  ghost predicate IsLayer(w: Workload, i: nat, previous: Layer, layer: Layer)
    requires i < |w.requests|
  {
    && layer != map[]
    && (forall id :: Serves(w, i, id) ==> id in layer)
    && (forall id {:trigger IsEntry(w, i, previous, id, layer[id])} ::
        id in layer ==> IsEntry(w, i, previous, id, layer[id]))
  }

  function Before(layers: seq<Layer>, i: nat): Layer
    requires i <= |layers|
  {
    if i == 0 then map[] else layers[i - 1]
  }

  ghost predicate AreLayers(w: Workload, layers: seq<Layer>) {
    && |layers| <= |w.requests|
    && forall i {:trigger IsLayer(w, i, Before(layers, i), layers[i])} ::
        0 <= i < |layers| ==> IsLayer(w, i, Before(layers, i), layers[i])
  }

  // The plan ----------------------------------------------------------------------------

  /** Walking the back pointers from entry `id` of layer i. */
  function StepsTo(w: Workload, layers: seq<Layer>, i: nat, id: BackendId): seq<ExecutionStep>
    requires i < |layers| <= |w.requests|
  {
    if id !in layers[i] then []
    else
      var state := layers[i][id];
      var step := ExecutionStep(w.requests[i], id, state.operatorUs, state.transitionUs, state.totalUs);
      if i == 0 || state.previous.None? then [step]
      else StepsTo(w, layers, i - 1, state.previous.value) + [step]
  }

  /** The entry `min_by` picks in the last layer. */
  predicate IsFinal(layer: Layer, id: BackendId) {
    id in layer && forall other :: other in layer ==> NoLater(layer, id, other)
  }

  predicate NoLater(layer: Layer, id: BackendId, other: BackendId)
    requires id in layer && other in layer
  {
    layer[id].totalUs < layer[other].totalUs || (layer[id].totalUs == layer[other].totalUs && StringLeq(id, other))
  }

  /** A successful plan: the steps traced back from the final entry of a full table. */
  ghost predicate IsPlan(w: Workload, plan: ExecutionPlan) {
    if w.requests == [] then plan == ExecutionPlan([], 0.0)
    else exists layers, final :: IsTrace(w, layers, final, plan)
  }

  ghost predicate IsTrace(w: Workload, layers: seq<Layer>, final: BackendId, plan: ExecutionPlan) {
    && w.requests != [] && |layers| == |w.requests| && AreLayers(w, layers)
    && IsFinal(layers[|layers| - 1], final)
    && plan == ExecutionPlan(StepsTo(w, layers, |layers| - 1, final), layers[|layers| - 1][final].totalUs)
  }

  // The loops ---------------------------------------------------------------------------

  /** The order of `min_by` on (cost, id) pairs visited in key order. */
  function CheapestFirst(costs: map<BackendId, real>): (BackendId, BackendId) -> bool {
    (a, b) => a in costs && b in costs && (costs[a] < costs[b] || (costs[a] == costs[b] && StringLeq(a, b)))
  }

  lemma CheapestFirstOrders(costs: map<BackendId, real>)
    ensures TotalOrderOn(costs.Keys, CheapestFirst(costs))
  {
    StringOrder();
    var cheaper := CheapestFirst(costs);
    forall a, b | a in costs.Keys && b in costs.Keys ensures Comparable(cheaper, a, b) && Distinguished(cheaper, a, b) {
      assert Comparable(StringLeq, a, b) && Distinguished(StringLeq, a, b);
    }
    forall a, b, c | a in costs.Keys && b in costs.Keys && c in costs.Keys ensures Chained(cheaper, a, b, c) {
      assert Chained(StringLeq, a, b, c);
    }
  }

  /** `min_by` over the entries of an ordered map: visit the keys in order and keep the one
      found so far unless the next is strictly cheaper. */
  method Cheapest<K(!new, ==)>(costs: map<K, real>, leq: (K, K) -> bool) returns (best: K)
    requires costs != map[] && TotalOrderOn(costs.Keys, leq)
    ensures best in costs
    ensures forall other ::
        other in costs ==> costs[best] < costs[other] || (costs[best] == costs[other] && leq(best, other))
  {
    var ids := Sorted(costs.Keys, leq);
    KeysInOrder(costs, leq, ids);
    best := ids[0];
    ghost var at: nat := 0;
    for i := 1 to |ids|
      invariant at < i && best == ids[at]
      invariant CheapestSoFar(costs, ids, at, i)
    {
      if costs[ids[i]] < costs[best] {
        CheaperFound(costs, ids, at, i);
        best, at := ids[i], i;
      }
    }
    FirstIsSmallest(costs, leq, ids, at);
  }

  ghost predicate KeysOf<K>(costs: map<K, real>, ids: seq<K>) {
    forall i :: 0 <= i < |ids| ==> ids[i] in costs
  }

  lemma KeysInOrder<K(!new)>(costs: map<K, real>, leq: (K, K) -> bool, ids: seq<K>)
    requires costs != map[] && TotalOrderOn(costs.Keys, leq) && ids == Sorted(costs.Keys, leq)
    ensures ids != [] && KeysOf(costs, ids) && CheapestSoFar(costs, ids, 0, 1)
  {
    var id :| id in costs;
    assert id in ids;
    forall i | 0 <= i < |ids| ensures ids[i] in costs {
      assert ids[i] in ids;
    }
  }

  /** The element at `at` is the first of the cheapest, as far as position j is concerned. */
  predicate NoneBefore<K(==)>(costs: map<K, real>, ids: seq<K>, at: nat, j: nat)
    requires at < |ids| && j < |ids|
  {
    ids[at] in costs && ids[j] in costs
        && (costs[ids[at]] < costs[ids[j]] || (costs[ids[at]] == costs[ids[j]] && at <= j))
  }

  ghost predicate CheapestSoFar<K>(costs: map<K, real>, ids: seq<K>, at: nat, n: nat)
    requires at < |ids| && n <= |ids|
  {
    KeysOf(costs, ids) && forall j :: 0 <= j < n ==> NoneBefore(costs, ids, at, j)
  }

  lemma CheaperFound<K>(costs: map<K, real>, ids: seq<K>, at: nat, i: nat)
    requires at < i < |ids| && CheapestSoFar(costs, ids, at, i) && ids[at] in costs && ids[i] in costs
    requires costs[ids[i]] < costs[ids[at]]
    ensures CheapestSoFar(costs, ids, i, i + 1)
  {
    forall j | 0 <= j < i + 1 ensures NoneBefore(costs, ids, i, j) {
      if j < i {
        assert NoneBefore(costs, ids, at, j);
      }
    }
  }

  lemma FirstIsSmallest<K(!new)>(costs: map<K, real>, leq: (K, K) -> bool, ids: seq<K>, at: nat)
    requires at < |ids| && Ascending(leq, ids) && CheapestSoFar(costs, ids, at, |ids|)
    requires TotalOrderOn(costs.Keys, leq) && forall id :: id in costs.Keys <==> id in ids
    ensures ids[at] in costs
    ensures forall other :: other in costs ==>
      costs[ids[at]] < costs[other] || (costs[ids[at]] == costs[other] && leq(ids[at], other))
  {
    forall other | other in costs
      ensures costs[ids[at]] < costs[other] || (costs[ids[at]] == costs[other] && leq(ids[at], other))
    {
      assert other in ids;
      var j :| 0 <= j < |ids| && ids[j] == other;
      assert NoneBefore(costs, ids, at, j);
      if at < j {
        assert InOrder(leq, ids, at, j);
      } else {
        assert Comparable(leq, ids[at], ids[at]);
      }
    }
  }

  lemma StringOrderOn(ids: set<BackendId>)
    ensures TotalOrderOn(ids, StringLeq)
  {
    StringOrder();
    forall a, b | a in ids && b in ids ensures Comparable(StringLeq, a, b) && Distinguished(StringLeq, a, b) {}
    forall a, b, c | a in ids && b in ids && c in ids ensures Chained(StringLeq, a, b, c) {}
  }

  /** The cheapest way into one candidate from the previous layer. */
  method BestState(planner: Planner, previous: Layer, to: BackendId, operatorUs: real) returns (state: State)
    requires previous != map[]
    ensures IsState(planner, previous, to, operatorUs, state)
  {
    var arrivals := map id | id in previous :: Arrival(planner, previous, id, to, operatorUs);
    assert arrivals.Keys == previous.Keys;
    assert arrivals != map[];
    StringOrderOn(arrivals.Keys);
    var best := Cheapest(arrivals, StringLeq);
    forall other | other in previous ensures NoWorse(planner, previous, to, operatorUs, best, other) {
      assert other in arrivals;
    }
    state := State(arrivals[best], operatorUs, planner.TransitionCost(best, to), Some(best));
  }

  ghost predicate PartialLayer(w: Workload, i: nat, previous: Layer, candidates: seq<BackendProbe>, layer: Layer)
    requires i < |w.requests|
  {
    && (forall id :: Representative(candidates, id).Some? ==> id in layer)
    && (forall id {:trigger Speaks(w, i, previous, candidates, id, layer[id])} ::
        id in layer ==> Speaks(w, i, previous, candidates, id, layer[id]))
  }

  predicate Speaks(w: Workload, i: nat, previous: Layer, candidates: seq<BackendProbe>, id: BackendId, state: State)
    requires i < |w.requests|
  {
    Representative(candidates, id).Some? &&
    var operatorUs := w.planner.OperatorCost(Representative(candidates, id).value, w.requests[i], w.records);
    if i == 0 then state == State(operatorUs, operatorUs, 0.0, None)
      else IsState(w.planner, previous, id, operatorUs, state)
  }

  method BuildLayer(w: Workload, i: nat, previous: Layer) returns (layer: Layer)
    requires i < |w.requests| && w.Candidates(i) != [] && (i > 0 ==> previous != map[])
    ensures IsLayer(w, i, previous, layer)
  {
    var candidates := w.Candidates(i);
    layer := map[];
    for c := 0 to |candidates|
      invariant PartialLayer(w, i, previous, candidates[..c], layer)
    {
      var candidate := candidates[c];
      var operatorUs := w.planner.OperatorCost(candidate, w.requests[i], w.records);
      var state;
      if i == 0 {
        state := State(operatorUs, operatorUs, 0.0, None);
      } else {
        state := BestState(w.planner, previous, candidate.id, operatorUs);
      }
      InsertCandidate(w, i, previous, candidates[..c], candidate, layer, state);
      assert candidates[..c + 1] == candidates[..c] + [candidate];
      layer := layer[candidate.id := state];
    }
    assert candidates[..|candidates|] == candidates;
    assert Representative(candidates, candidates[|candidates| - 1].id).Some?;
    FullLayer(w, i, previous, layer);
  }

  lemma InsertCandidate(w: Workload, i: nat, previous: Layer, candidates: seq<BackendProbe>,
                        candidate: BackendProbe, layer: Layer, state: State)
    requires i < |w.requests| && PartialLayer(w, i, previous, candidates, layer)
    requires Speaks(w, i, previous, candidates + [candidate], candidate.id, state)
    ensures PartialLayer(w, i, previous, candidates + [candidate], layer[candidate.id := state])
  {
    var longer, next := candidates + [candidate], layer[candidate.id := state];
    assert longer[..|candidates|] == candidates;
    assert forall id :: Representative(longer, id) == if candidate.id == id then Some(candidate)
      else Representative(candidates, id);
    forall id | id in next ensures Speaks(w, i, previous, longer, id, next[id]) {
      assert id != candidate.id ==> Speaks(w, i, previous, candidates, id, layer[id]);
    }
  }

  lemma FullLayer(w: Workload, i: nat, previous: Layer, layer: Layer)
    requires i < |w.requests| && layer != map[] && PartialLayer(w, i, previous, w.Candidates(i), layer)
    ensures IsLayer(w, i, previous, layer)
  {
    forall id | id in layer ensures IsEntry(w, i, previous, id, layer[id]) {
      assert Speaks(w, i, previous, w.Candidates(i), id, layer[id]);
    }
  }

  /** `CostAwarePlanner::plan`. It fails exactly at the first request that no available
      probe supports, and otherwise returns a traced plan. */
  method Plan(w: Workload) returns (plan: Result<ExecutionPlan, ExecutionPlanError>)
    ensures plan.Ok? ==> IsPlan(w, plan.value)
    ensures plan.Ok? <==> w.Routable(|w.requests|)
    ensures plan.Err? ==>
      && plan.error.NoCompatibleBackend?
      && plan.error.step < |w.requests|
      && w.Candidates(plan.error.step) == []
      && w.Routable(plan.error.step)
  {
    if w.requests == [] {
      return Ok(ExecutionPlan([], 0.0));
    }
    var layers: seq<Layer> := [];
    for index := 0 to |w.requests|
      invariant w.Routable(index) && |layers| == index && AreLayers(w, layers)
    {
      if w.Candidates(index) == [] {
        return Err(ExecutionPlanError.NoCompatibleBackend(index));
      }
      LayersNonEmpty(w, layers);
      var layer := BuildLayer(w, index, Before(layers, index));
      ExtendLayers(w, layers, layer);
      layers := layers + [layer];
    }

    var last := |w.requests| - 1;
    LayersNonEmpty(w, layers);
    var totals := map id | id in layers[last] :: layers[last][id].totalUs;
    assert totals.Keys == layers[last].Keys;
    assert totals != map[];
    StringOrderOn(totals.Keys);
    var final := Cheapest(totals, StringLeq);
    forall other | other in layers[last] ensures NoLater(layers[last], final, other) {
      assert other in totals;
    }
    var steps := Reconstruct(w, layers, final);
    plan := Ok(ExecutionPlan(steps, layers[last][final].totalUs));
    assert IsTrace(w, layers, final, plan.value);
  }

  lemma LayersNonEmpty(w: Workload, layers: seq<Layer>)
    requires AreLayers(w, layers)
    ensures forall i :: 0 <= i < |layers| ==> layers[i] != map[]
  {
    forall i | 0 <= i < |layers| ensures layers[i] != map[] {
      assert IsLayer(w, i, Before(layers, i), layers[i]);
    }
  }

  lemma ExtendLayers(w: Workload, layers: seq<Layer>, layer: Layer)
    requires AreLayers(w, layers) && |layers| < |w.requests| && IsLayer(w, |layers|, Before(layers, |layers|), layer)
    ensures AreLayers(w, layers + [layer])
  {
    var longer := layers + [layer];
    forall i | 0 <= i < |longer| ensures IsLayer(w, i, Before(longer, i), longer[i]) {
      if i < |layers| { assert IsLayer(w, i, Before(layers, i), layers[i]); }
      assert Before(longer, i) == Before(layers, i);
    }
  }

  lemma EntryAt(w: Workload, layers: seq<Layer>, i: nat, id: BackendId)
    requires AreLayers(w, layers) && i < |layers| && id in layers[i]
    ensures IsEntry(w, i, Before(layers, i), id, layers[i][id])
  {
    assert IsLayer(w, i, Before(layers, i), layers[i]);
  }

  /** The back-pointer walk: collect steps last to first, then reverse. */
  method Reconstruct(w: Workload, layers: seq<Layer>, final: BackendId) returns (steps: seq<ExecutionStep>)
    requires AreLayers(w, layers) && |layers| == |w.requests| > 0 && final in layers[|layers| - 1]
    ensures steps == StepsTo(w, layers, |layers| - 1, final)
  {
    var current := final;
    var reversed: seq<ExecutionStep> := [];
    var index := |layers|;
    ghost var expected := StepsTo(w, layers, |layers| - 1, final);
    while index > 0
      invariant 0 <= index <= |layers|
      invariant index > 0 ==>
        && current in layers[index - 1]
        && expected == StepsTo(w, layers, index - 1, current) + Reverse(reversed)
      invariant index == 0 ==> expected == Reverse(reversed)
    {
      index := index - 1;
      var state := layers[index][current];
      var step := ExecutionStep(w.requests[index], current, state.operatorUs, state.transitionUs, state.totalUs);
      ReverseAppend(reversed, step);
      EntryAt(w, layers, index, current);
      reversed := reversed + [step];
      if state.previous.None? {
        break;
      }
      current := state.previous.value;
    }
    return Reverse(reversed);
  }

  function Reverse(steps: seq<ExecutionStep>): seq<ExecutionStep> {
    if steps == [] then [] else [steps[|steps| - 1]] + Reverse(steps[..|steps| - 1])
  }

  lemma ReverseAppend(steps: seq<ExecutionStep>, step: ExecutionStep)
    ensures Reverse(steps + [step]) == [step] + Reverse(steps)
  {
    assert (steps + [step])[..|steps|] == steps;
  }
}
