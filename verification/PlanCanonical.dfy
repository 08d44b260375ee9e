/** Which of the equally cheap plans is returned, and what the plan depends on. */
module PlanCanonical {
  import opened Wrappers
  import opened Ordering
  import opened Core
  import opened ExecutionPlan
  import opened PlanTheorems

  // Canonical tie-breaking -------------------------------------------------------------------

  /** Compare the first n backends of two assignments, last first: by the last ones where
      they differ. */
  predicate ColexLeq(a: seq<BackendId>, b: seq<BackendId>, n: nat)
    requires n <= |a| && n <= |b|
  {
    n == 0 || if a[n - 1] == b[n - 1] then ColexLeq(a, b, n - 1) else StringLeq(a[n - 1], b[n - 1])
  }

  lemma {:induction false} ColexPrefix(a: seq<BackendId>, longer: seq<BackendId>, b: seq<BackendId>, n: nat)
    requires n == |a| <= |longer| && n <= |b| && longer[..n] == a
    ensures forall k :: 0 <= k <= n ==> ColexLeq(longer, b, k) == ColexLeq(a, b, k)
  {
    for k := 0 to n
      invariant forall j :: 0 <= j <= k ==> ColexLeq(longer, b, j) == ColexLeq(a, b, j)
    {
      assert longer[k] == longer[..n][k];
    }
  }

  /** Every prefix of an assignment costs exactly what the table records for its last
      backend. */
  ghost predicate Tight(w: Workload, layers: seq<Layer>, ids: seq<BackendId>, n: nat)
    requires IsPath(w, ids) && n <= |ids| && n <= |layers|
  {
    forall k :: 0 < k <= n ==> TightAt(w, layers, ids, k)
  }

  predicate TightAt(w: Workload, layers: seq<Layer>, ids: seq<BackendId>, k: nat)
    requires IsPath(w, ids) && 0 < k <= |ids| && k <= |layers|
  {
    ids[k - 1] in layers[k - 1] && PathCost(w, ids, k) == layers[k - 1][ids[k - 1]].totalUs
  }

  /** The assignment traced from an entry is an assignment, ends in the entry, and costs
      what the entry says. */
  lemma TracedCost(w: Workload, layers: seq<Layer>, i: nat, id: BackendId)
    requires AreLayers(w, layers) && i < |layers| && id in layers[i]
    ensures var traced := Backends(StepsTo(w, layers, i, id));
      |traced| == i + 1 && IsPath(w, traced) && traced[i] == id && PathCost(w, traced, i + 1) == layers[i][id].totalUs
  {
    TraceIsLedger(w, layers, i, id);
    LedgerCost(w, StepsTo(w, layers, i, id), i + 1);
  }

  lemma StepBack(w: Workload, layers: seq<Layer>, i: nat, id: BackendId)
    requires AreLayers(w, layers) && 0 < i < |layers| && id in layers[i]
    ensures var best := layers[i][id].previous;
      && best.Some? && best.value in layers[i - 1]
      && |Backends(StepsTo(w, layers, i, id))| == i + 1
      && Backends(StepsTo(w, layers, i, id))[..i] == Backends(StepsTo(w, layers, i - 1, best.value))
  {
    EntryAt(w, layers, i, id);
    TraceIsLedger(w, layers, i, id);
    TraceIsLedger(w, layers, i - 1, layers[i][id].previous.value);
  }

  /** The entry's own way in is no later than any that is equally cheap. */
  lemma EarliestWayIn(w: Workload, layers: seq<Layer>, ids: seq<BackendId>, n: nat)
    requires AreLayers(w, layers) && IsPath(w, ids) && 1 < n <= |ids| && n <= |layers|
    requires TightAt(w, layers, ids, n - 1) && TightAt(w, layers, ids, n)
    ensures layers[n - 1][ids[n - 1]].previous.Some?
    ensures StringLeq(layers[n - 1][ids[n - 1]].previous.value, ids[n - 2])
  {
    var last, id, via := n - 1, ids[n - 1], ids[n - 2];
    EntryAt(w, layers, last, id);
    assert NoWorse(w.planner, layers[last - 1], id, OperatorAt(w, last, id), layers[last][id].previous.value, via);
  }

  /** For every rounding whatever: the traced assignment is the least, last backend first,
      among all tight assignments that end in the same entry. */
  lemma {:induction false} TraceIsLeast(w: Workload, layers: seq<Layer>, ids: seq<BackendId>, n: nat)
    requires AreLayers(w, layers) && IsPath(w, ids) && 0 < n <= |ids| && n <= |layers| && Tight(w, layers, ids, n)
    ensures ids[n - 1] in layers[n - 1]
    ensures var traced := Backends(StepsTo(w, layers, n - 1, ids[n - 1])); |traced| == n && ColexLeq(traced, ids, n)
  {
    var last := n - 1;
    var id := ids[last];
    assert TightAt(w, layers, ids, n);
    TracedCost(w, layers, last, id);
    if last == 0 {
    } else {
      var traced, best := Backends(StepsTo(w, layers, last, id)), layers[last][id].previous.value;
      assert TightAt(w, layers, ids, last);
      EarliestWayIn(w, layers, ids, n);
      StepBack(w, layers, last, id);
      TracedCost(w, layers, last - 1, best);
      var before := Backends(StepsTo(w, layers, last - 1, best));
      if best == ids[last - 1] {
        TraceIsLeast(w, layers, ids, last);
      }
      ColexPrefix(before, traced, ids, last);
      assert ColexLeq(before, ids, last);
    }
  }

  // In terms of assignments alone ------------------------------------------------------------

  /** No other assignment reaches the backend of request k - 1 more cheaply. */
  ghost predicate CheapestTo(w: Workload, ids: seq<BackendId>, k: nat)
    requires IsPath(w, ids) && 0 < k <= |ids|
  {
    forall other {:trigger PathCost(w, other, k)} ::
      IsPath(w, other) && k <= |other| && other[k - 1] == ids[k - 1] ==> PathCost(w, ids, k) <= PathCost(w, other, k)
  }

  ghost predicate CheapestThroughout(w: Workload, ids: seq<BackendId>)
    requires IsPath(w, ids)
  {
    forall k :: 0 < k <= |ids| ==> CheapestTo(w, ids, k)
  }

  /** The table records the cheapest cost to each backend, so a prefix is tight exactly
      when it is a cheapest way to its last backend. */
  lemma TightIsCheapest(w: Workload, layers: seq<Layer>, ids: seq<BackendId>, k: nat)
    requires Monotone(w.planner.round) && AreLayers(w, layers) && IsPath(w, ids) && 0 < k <= |ids| && k <= |layers|
    ensures TightAt(w, layers, ids, k) <==> CheapestTo(w, ids, k)
  {
    var id := ids[k - 1];
    EntryIsLowerBound(w, layers, ids, k);
    TracedCost(w, layers, k - 1, id);
    forall other | IsPath(w, other) && k <= |other| && other[k - 1] == id
      ensures layers[k - 1][id].totalUs <= PathCost(w, other, k)
    {
      EntryIsLowerBound(w, layers, other, k);
    }
  }

  /** For every monotone rounding: among the assignments of the plan's cost that reach each
      of their backends as cheaply as any, the plan's is the least, last backend first; and
      it is one of them. */
  lemma PlanIsCanonical(w: Workload, plan: ExecutionPlan, ids: seq<BackendId>)
    requires IsPlan(w, plan) && w.requests != [] && Monotone(w.planner.round)
    requires IsPath(w, ids) && |ids| == |w.requests| && CheapestThroughout(w, ids)
    requires PathCost(w, ids, |ids|) == plan.estimatedTotalUs
    ensures |plan.steps| == |ids| && ColexLeq(Backends(plan.steps), ids, |ids|)
  {
    var layers, final :| IsTrace(w, layers, final, plan);
    var last := |layers| - 1;
    forall k | 0 < k <= |ids| ensures TightAt(w, layers, ids, k) {
      assert CheapestTo(w, ids, k);
      TightIsCheapest(w, layers, ids, k);
    }
    assert TightAt(w, layers, ids, |ids|);
    assert NoLater(layers[last], final, ids[last]);
    TraceIsLedger(w, layers, last, final);
    if ids[last] == final {
      TraceIsLeast(w, layers, ids, |ids|);
    }
  }

  lemma {:induction false} TraceIsTight(w: Workload, layers: seq<Layer>, i: nat, id: BackendId, k: nat)
    requires AreLayers(w, layers) && i < |layers| && id in layers[i] && 0 < k <= i + 1
    ensures var traced := Backends(StepsTo(w, layers, i, id));
      |traced| == i + 1 && IsPath(w, traced) && TightAt(w, layers, traced, k)
  {
    TracedCost(w, layers, i, id);
    if k == i + 1 {
    } else {
      StepBack(w, layers, i, id);
      var traced, best := Backends(StepsTo(w, layers, i, id)), layers[i][id].previous.value;
      var before := Backends(StepsTo(w, layers, i - 1, best));
      TraceIsTight(w, layers, i - 1, best, k);
      TightInLonger(w, layers, before, traced, k);
    }
  }

  lemma TightInLonger(w: Workload, layers: seq<Layer>, a: seq<BackendId>, longer: seq<BackendId>, k: nat)
    requires IsPath(w, a) && IsPath(w, longer) && 0 < k <= |a| <= |longer| && k <= |layers| && longer[..|a|] == a
    requires TightAt(w, layers, a, k)
    ensures TightAt(w, layers, longer, k)
  {
    SamePrefixCost(w, a, longer, k);
    assert longer[k - 1] == longer[..|a|][k - 1];
  }

  lemma {:induction false} SamePrefixCost(w: Workload, a: seq<BackendId>, b: seq<BackendId>, n: nat)
    requires IsPath(w, a) && IsPath(w, b) && 0 < n <= |a| <= |b| && b[..|a|] == a
    ensures PathCost(w, a, n) == PathCost(w, b, n)
  {
    assert b[n - 1] == b[..|a|][n - 1];
    if n == 1 {
    } else {
      assert b[n - 2] == b[..|a|][n - 2];
      SamePrefixCost(w, a, b, n - 1);
    }
  }

  lemma PlanIsCheapestThroughout(w: Workload, plan: ExecutionPlan)
    requires IsPlan(w, plan) && w.requests != [] && Monotone(w.planner.round)
    ensures IsPath(w, Backends(plan.steps)) && CheapestThroughout(w, Backends(plan.steps))
  {
    var layers, final :| IsTrace(w, layers, final, plan);
    TracedCost(w, layers, |layers| - 1, final);
    var ids := Backends(plan.steps);
    forall k | 0 < k <= |ids| ensures CheapestTo(w, ids, k) {
      TraceIsTight(w, layers, |layers| - 1, final, k);
      TightIsCheapest(w, layers, ids, k);
    }
  }

  // Independence of the probe order ------------------------------------------------------------

  /** Two workloads that charge the same for the same backends. */
  ghost predicate SameMarket(w: Workload, w': Workload) {
    && w.planner == w'.planner && w.requests == w'.requests
    && (forall i, id {:trigger Serves(w, i, id)} :: 0 <= i < |w.requests| ==> SameOffer(w, w', i, id))
  }

  predicate SameOffer(w: Workload, w': Workload, i: nat, id: BackendId)
    requires i < |w.requests| == |w'.requests|
  {
    Serves(w, i, id) == Serves(w', i, id) && (Serves(w, i, id) ==> OperatorAt(w, i, id) == OperatorAt(w', i, id))
  }

  lemma SameState(planner: Planner, previous: Layer, to: BackendId, operatorUs: real, s: State, s': State)
    requires IsState(planner, previous, to, operatorUs, s) && IsState(planner, previous, to, operatorUs, s')
    ensures s == s'
  {
    assert NoWorse(planner, previous, to, operatorUs, s.previous.value, s'.previous.value);
    assert NoWorse(planner, previous, to, operatorUs, s'.previous.value, s.previous.value);
    if StringLeq(s.previous.value, s'.previous.value) && StringLeq(s'.previous.value, s.previous.value) {
      StringLeqAntisymmetric(s.previous.value, s'.previous.value);
    }
  }

  lemma {:induction false} SameLayers(w: Workload, w': Workload, layers: seq<Layer>, layers': seq<Layer>, i: nat)
    requires SameMarket(w, w') && AreLayers(w, layers) && AreLayers(w', layers') && i < |layers| == |layers'|
    ensures layers[i] == layers'[i]
  {
    if i == 0 {
    } else {
      SameLayers(w, w', layers, layers', i - 1);
    }
    assert IsLayer(w, i, Before(layers, i), layers[i]) && IsLayer(w', i, Before(layers', i), layers'[i]);
    forall id | id in layers[i] || id in layers'[i]
      ensures id in layers[i] && id in layers'[i] && layers[i][id] == layers'[i][id]
    {
      SameEntry(w, w', layers, layers', i, id);
    }
  }

  lemma SameEntry(w: Workload, w': Workload, layers: seq<Layer>, layers': seq<Layer>, i: nat, id: BackendId)
    requires SameMarket(w, w') && AreLayers(w, layers) && AreLayers(w', layers') && i < |layers| == |layers'|
    requires Before(layers, i) == Before(layers', i) && (id in layers[i] || id in layers'[i])
    ensures id in layers[i] && id in layers'[i] && layers[i][id] == layers'[i][id]
  {
    if id in layers[i] { EntryAt(w, layers, i, id); } else { EntryAt(w', layers', i, id); }
    assert Serves(w, i, id) ==> SameOffer(w, w', i, id);
    assert SameOffer(w, w', i, id);
    EntryExists(w, layers, i, id);
    EntryExists(w', layers', i, id);
    if i > 0 {
      SameState(w.planner, Before(layers, i), id, OperatorAt(w, i, id), layers[i][id], layers'[i][id]);
    }
  }

  lemma {:induction false} SameSteps(w: Workload, w': Workload, layers: seq<Layer>, i: nat, id: BackendId)
    requires w.requests == w'.requests && i < |layers| <= |w.requests|
    ensures StepsTo(w, layers, i, id) == StepsTo(w', layers, i, id)
  {
    if id in layers[i] && i > 0 && layers[i][id].previous.Some? {
      SameSteps(w, w', layers, i - 1, layers[i][id].previous.value);
    }
  }

  /** The plan is a function of what each backend charges, and of nothing else. */
  lemma SamePlan(w: Workload, w': Workload, plan: ExecutionPlan, plan': ExecutionPlan)
    requires SameMarket(w, w') && IsPlan(w, plan) && IsPlan(w', plan')
    ensures plan == plan'
  {
    if w.requests != [] {
      var layers, final :| IsTrace(w, layers, final, plan);
      var layers', final' :| IsTrace(w', layers', final', plan');
      forall i | 0 <= i < |layers| ensures layers[i] == layers'[i] {
        SameLayers(w, w', layers, layers', i);
      }
      assert layers == layers';
      var last := layers[|layers| - 1];
      assert NoLater(last, final, final') && NoLater(last, final', final);
      if StringLeq(final, final') && StringLeq(final', final) {
        StringLeqAntisymmetric(final, final');
      }
      SameSteps(w, w', layers, |layers| - 1, final);
    }
  }

  /** With distinct ids the order in which probes are listed does not matter. */
  lemma PlanIgnoresProbeOrder(w: Workload, probes: seq<BackendProbe>, plan: ExecutionPlan, plan': ExecutionPlan)
    requires DistinctIds(w.probes) && multiset(probes) == multiset(w.probes)
    requires IsPlan(w, plan) && IsPlan(w.(probes := probes), plan')
    ensures plan == plan'
  {
    var w' := w.(probes := probes);
    assert forall p :: p in probes <==> p in multiset(probes);
    assert forall p :: p in w.probes <==> p in multiset(w.probes);
    forall i, id | 0 <= i < |w.requests| ensures SameOffer(w, w', i, id) {
      RepresentativeIn(w.Candidates(i), id);
      RepresentativeIn(w'.Candidates(i), id);
      var mine, theirs := Representative(w.Candidates(i), id), Representative(w'.Candidates(i), id);
      if mine.Some? { OnlyRepresentative(w', i, mine.value); }
      if theirs.Some? { OnlyRepresentative(w, i, theirs.value); }
    }
    SamePlan(w, w', plan, plan');
  }

  predicate SameMeasurement(w: Workload, records: seq<PerformanceRecord>, i: nat, id: BackendId)
    requires i < |w.requests|
  {
    Measured(records, id, w.requests[i]) == Measured(w.records, id, w.requests[i])
  }

  /** Only usable medians count: a table that differs in NaN, infinite or negative medians,
      sample counts or unrelated rows gives the same plan. */
  lemma PlanReadsUsableMedians(w: Workload, records: seq<PerformanceRecord>, plan: ExecutionPlan, plan': ExecutionPlan)
    requires forall i, id {:trigger SameMeasurement(w, records, i, id)} ::
        0 <= i < |w.requests| ==> SameMeasurement(w, records, i, id)
    requires IsPlan(w, plan) && IsPlan(w.(records := records), plan')
    ensures plan == plan'
  {
    var w' := w.(records := records);
    forall i, id | 0 <= i < |w.requests| ensures SameOffer(w, w', i, id) {
      assert w'.Candidates(i) == w.Candidates(i);
      RepresentativeIn(w.Candidates(i), id);
      assert SameMeasurement(w, records, i, id);
      var representative := Representative(w.Candidates(i), id);
      assert representative.Some? ==>
        w'.planner.OperatorCost(representative.value, w.requests[i], records)
            == w.planner.OperatorCost(representative.value, w.requests[i], w.records);
    }
    SamePlan(w, w', plan, plan');
  }
}
