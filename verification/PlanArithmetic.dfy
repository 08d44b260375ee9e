/** Which arithmetic keeps plans canonical: exact sums, whole numbers within the exact range
    and rounding down do; 64-bit floats at large do not. Sums that overflow to infinity keep
    plans optimal. */
module PlanArithmetic {
  import opened Wrappers
  import opened Ordering
  import opened Core
  import opened ExecutionPlan
  import opened PlanTheorems
  import opened PlanCanonical
  import opened PlanRounding

  // Where the condition holds --------------------------------------------------------------------

  predicate KeepsStrictOrder(round: real -> real, x: real, y: real) {
    x < y ==> round(x) < round(y)
  }

  /** Rounding keeps different sums apart, as exact arithmetic does. */
  ghost predicate StrictlyMonotone(round: real -> real) {
    forall x, y :: KeepsStrictOrder(round, x, y)
  }

  lemma StrictIsMonotone(round: real -> real)
    requires StrictlyMonotone(round)
    ensures Monotone(round)
  {
    forall x, y ensures KeepsOrder(round, x, y) {
      assert KeepsStrictOrder(round, x, y);
    }
  }

  lemma StrictNeverMerges(w: Workload)
    requires StrictlyMonotone(w.planner.round)
    ensures NeverMerges(w)
  {
    forall a, b, k | IsPath(w, a) && IsPath(w, b) && 0 < k < |a| && k < |b| ensures StayApart(w, a, b, k) {
      assert Serves(w, k, a[k]);
      var t, o := w.planner.TransitionCost(a[k - 1], a[k]), OperatorAt(w, k, a[k]);
      var near, far := PathCost(w, a, k), PathCost(w, b, k);
      assert KeepsStrictOrder(w.planner.round, near + t, far + t);
      assert KeepsStrictOrder(w.planner.round, w.planner.round(near + t) + o, w.planner.round(far + t) + o);
    }
  }

  /** With exact sums, of any sign, the plan is the least among all assignments of its cost. */
  lemma ExactPlanIsCanonical(w: Workload, plan: ExecutionPlan, ids: seq<BackendId>)
    requires StrictlyMonotone(w.planner.round) && Ties(w, plan, ids)
    ensures NoLaterThan(plan, ids)
  {
    StrictIsMonotone(w.planner.round);
    StrictNeverMerges(w);
    ApartPlanIsCanonical(w, plan, ids);
  }

  /** All the non-negative numbers. */
  function NonNegative(round: real -> real): Format {
    Format(round, x => x >= 0.0)
  }

  lemma NonNegativeIsValid(round: real -> real)
    requires Monotone(round) && round(0.0) >= 0.0
    ensures NonNegative(round).Valid()
  {
    var f := NonNegative(round);
    forall x, y ensures f.Closed(x, y) {
      assert KeepsOrder(round, 0.0, x + y);
    }
  }

  lemma BootstrapIsNonNegative(planner: Planner, probe: BackendProbe)
    requires Validated(planner) && Monotone(planner.round) && planner.round(0.0) >= 0.0
    ensures planner.BootstrapCost(probe) >= 0.0
  {
    var penalty := planner.rankPenaltyUs * BootstrapRank(probe.kind) as real;
    assert KeepsOrder(planner.round, 0.0, penalty);
    assert KeepsOrder(planner.round, 0.0, planner.unmeasuredUs + planner.round(penalty));
  }

  /** Every workload of a planner that its constructors accept is priced in them. */
  lemma ValidatedIsPriced(w: Workload)
    requires Validated(w.planner) && Monotone(w.planner.round) && w.planner.round(0.0) >= 0.0
    ensures NonNegative(w.planner.round).Valid() && Priced(NonNegative(w.planner.round), w)
  {
    NonNegativeIsValid(w.planner.round);
    var f := NonNegative(w.planner.round);
    forall i, id | 0 <= i < |w.requests| ensures ChargeIn(f, w, i, id) {
      if Serves(w, i, id) {
        BootstrapIsNonNegative(w.planner, Representative(w.Candidates(i), id).value);
      }
    }
  }

  /** With this rounding, every planner that the constructors accept is canonical on every
      workload. */
  ghost predicate CanonicalRounding(round: real -> real) {
    forall w: Workload, plan, ids {:trigger Ties(w, plan, ids)} ::
      w.planner.round == round && Validated(w.planner) && Ties(w, plan, ids) ==> NoLaterThan(plan, ids)
  }

  /** That is so exactly when no fork of non-negative numbers merges. */
  lemma CanonicalRoundingExactly(round: real -> real)
    requires Monotone(round) && round(0.0) >= 0.0
    ensures CanonicalRounding(round) <==>
      forall fork: Fork {:trigger fork.Merges(round)} :: fork.In(x => x >= 0.0) ==> !fork.Merges(round)
  {
    var f := NonNegative(round);
    NonNegativeIsValid(round);
    CanonicalExactly(f);
    if AlwaysCanonical(f) {
      forall w: Workload, plan, ids | w.planner.round == round && Validated(w.planner) && Ties(w, plan, ids)
        ensures NoLaterThan(plan, ids)
      {
        ValidatedIsPriced(w);
      }
    }
  }

  function Floored(x: real): real {
    x.Floor as real
  }

  lemma FloorOfSum(n: int, x: real)
    ensures (n as real + x).Floor == n + x.Floor
  {
    var sum := n as real + x;
    assert (n + x.Floor) as real <= sum < (n + x.Floor + 1) as real;
  }

  lemma FlooredStep(n: int, move: real, charge: real)
    ensures Step(Floored, n as real, move, charge) == (n + move.Floor + charge.Floor) as real
  {
    FloorOfSum(n, move);
    FloorOfSum(n + move.Floor, charge);
  }

  /** Two whole totals that differ still differ one request later. */
  lemma FlooredKeepsApart(fork: Fork)
    ensures !fork.Merges(Floored)
  {
    FlooredStep(fork.Near(Floored).Floor, fork.onward, fork.last);
    FlooredStep(fork.Far(Floored).Floor, fork.onward, fork.last);
  }

  lemma FlooredKeepsOrder(x: real, y: real)
    ensures KeepsOrder(Floored, x, y)
  {
    if x <= y {
      assert x.Floor <= y.Floor;
    }
  }

  lemma FlooredIsMonotone()
    ensures Monotone(Floored)
  {
    forall x, y ensures KeepsOrder(Floored, x, y) {
      FlooredKeepsOrder(x, y);
    }
  }

  lemma FlooredIsNotStrict()
    ensures !StrictlyMonotone(Floored)
  {
    assert Floored(0.0) == 0.0 && Floored(0.5) == 0.0;
    assert !KeepsStrictOrder(Floored, 0.0, 0.5);
  }

  lemma FlooredIsApart()
    ensures NonNegative(Floored).Apart()
  {
    forall fork: Fork ensures !fork.Merges(Floored) {
      FlooredKeepsApart(fork);
    }
  }

  /** Rounding down to whole numbers is far from exact, and still the plan is canonical. */
  lemma FlooredIsCanonical()
    ensures AlwaysCanonical(NonNegative(Floored)) && !StrictlyMonotone(Floored)
  {
    FlooredIsMonotone();
    FlooredIsNotStrict();
    NonNegativeIsValid(Floored);
    FlooredIsApart();
    CanonicalExactly(NonNegative(Floored));
  }

  // Where it fails ---------------------------------------------------------------------------------

  const HUGE: real := 1152921504606846976.0 // 2^60

  /** A charge of 1 instead of 0 ahead of a move of 50, and then a move of 2^60. */
  function HugeFork(): Fork {
    Fork(0.0, 50.0, 1.0, 50.0, 0.0, HUGE, 0.0)
  }

  /** What 64-bit floats do to these sums: 50, 51 and 2^60 are exact, and the neighbours of
      2^60 lie more than 100 away. */
  predicate RoundsHuge(round: real -> real) {
    && round(50.0) == 50.0 && round(51.0) == 51.0 && round(HUGE) == HUGE
    && round(50.0 + HUGE) == HUGE && round(51.0 + HUGE) == HUGE
  }

  lemma HugeForkMerges(round: real -> real)
    requires RoundsHuge(round)
    ensures HugeFork().Merges(round)
  {}

  /** So with 64-bit floats the plan need not be the least assignment of its cost: it goes
      through "b", although the way through "a" costs 2^60 as well and comes first. */
  lemma RoundingHidesTies(round: real -> real, plan: ExecutionPlan)
    requires Monotone(round) && RoundsHuge(round) && IsPlan(ForkWorkload(HugeFork(), round), plan)
    ensures var w, detour := ForkWorkload(HugeFork(), round), ["a", "e", "f"];
      && Validated(w.planner) && IsFork(w, HugeFork())
      && Backends(plan.steps) == ["b", "e", "f"] && plan.estimatedTotalUs == HUGE
      && Ties(w, plan, detour) && !NoLaterThan(plan, detour)
      && !CheapestTo(w, detour, 2)
  {
    var w := ForkWorkload(HugeFork(), round);
    assert ListsFork(w, HugeFork());
    ListedIsFork(w, HugeFork());
    HugePlan(w, plan);
  }

  lemma HugePlan(w: Workload, plan: ExecutionPlan)
    requires IsFork(w, HugeFork()) && Monotone(w.planner.round) && RoundsHuge(w.planner.round) && IsPlan(w, plan)
    ensures Backends(plan.steps) == ["b", "e", "f"] && plan.estimatedTotalUs == HUGE
    ensures Ties(w, plan, ["a", "e", "f"]) && !NoLaterThan(plan, ["a", "e", "f"])
    ensures !CheapestTo(w, ["a", "e", "f"], 2)
  {
    HugeForkMerges(w.planner.round);
    MergeHidesTie(w, HugeFork(), plan);
    ForkPathCosts(w, HugeFork(), "a");
  }

  /** No format that rounds so and holds these numbers is always canonical. */
  lemma FloatsAreNotCanonical(f: Format)
    requires f.Valid() && RoundsHuge(f.round) && f.holds(1.0) && f.holds(50.0) && f.holds(HUGE)
    ensures !AlwaysCanonical(f)
  {
    HugeForkMerges(f.round);
    assert HugeFork().In(f.holds);
    CanonicalExactly(f);
  }

  // What a caller can check ------------------------------------------------------------------------

  /** Whole numbers up to the limit are sums without error, as they are in 64-bit floats up
      to 2^53. */
  ghost predicate ExactUpTo(round: real -> real, limit: nat) {
    forall n: nat :: n <= limit ==> ExactAt(round, n)
  }

  predicate ExactAt(round: real -> real, n: nat) {
    round(n as real) == n as real
  }

  predicate Whole(x: real, bound: nat) {
    x == x.Floor as real && 0 <= x.Floor <= bound
  }

  predicate WholeCharge(w: Workload, i: nat, id: BackendId, charge: nat)
    requires i < |w.requests|
  {
    Serves(w, i, id) ==> Whole(OperatorAt(w, i, id), charge)
  }

  /** Whole charges and whole moves, up to the bounds. */
  ghost predicate WholeCosts(w: Workload, charge: nat, move: nat) {
    && (forall i, id {:trigger WholeCharge(w, i, id, charge)} ::
        0 <= i < |w.requests| ==> WholeCharge(w, i, id, charge))
    && (forall from, to :: Whole(w.planner.TransitionCost(from, to), move))
  }

  /** What n requests can add up to. */
  function Budget(n: nat, charge: nat, move: nat): nat {
    if n == 0 then 0 else Budget(n - 1, charge, move) + (charge + move)
  }

  lemma {:induction false} BudgetIsProduct(n: nat, charge: nat, move: nat)
    ensures Budget(n, charge, move) == n * (charge + move)
  {
    if n == 0 {
    } else {
      BudgetIsProduct(n - 1, charge, move);
    }
  }

  lemma {:induction false} BudgetGrows(n: nat, m: nat, charge: nat, move: nat)
    requires n <= m
    ensures Budget(n, charge, move) <= Budget(m, charge, move)
  {
    if n == m {
    } else {
      BudgetGrows(n, m - 1, charge, move);
    }
  }

  lemma WholeSum(round: real -> real, limit: nat, x: real, bound: nat, y: real, more: nat)
    requires ExactUpTo(round, limit) && Whole(x, bound) && Whole(y, more) && bound + more <= limit
    ensures round(x + y) == x + y && Whole(x + y, bound + more)
  {
    var sum: nat := x.Floor + y.Floor;
    assert x + y == sum as real && ExactAt(round, sum);
  }

  lemma WholeStep(round: real -> real, limit: nat, total: real, bound: nat,
                  moved: real, move: nat, charged: real, charge: nat)
    requires ExactUpTo(round, limit) && Whole(total, bound) && Whole(moved, move) && Whole(charged, charge)
    requires bound + (charge + move) <= limit
    ensures Step(round, total, moved, charged) == total + moved + charged
    ensures Whole(Step(round, total, moved, charged), bound + (charge + move))
  {
    WholeSum(round, limit, total, bound, moved, move);
    WholeSum(round, limit, total + moved, bound + move, charged, charge);
  }

  predicate ExactNext(w: Workload, ids: seq<BackendId>, n: nat)
    requires IsPath(w, ids) && 1 < n <= |ids|
  {
    assert Serves(w, n - 1, ids[n - 1]);
    PathCost(w, ids, n) == PathCost(w, ids, n - 1) + w.planner.TransitionCost(ids[n - 2], ids[n - 1])
      + OperatorAt(w, n - 1, ids[n - 1])
  }

  lemma {:induction false} WholePathCost(w: Workload, ids: seq<BackendId>, n: nat, charge: nat, move: nat, limit: nat)
    requires ExactUpTo(w.planner.round, limit) && WholeCosts(w, charge, move) && IsPath(w, ids) && 0 < n <= |ids|
    requires Budget(n, charge, move) <= limit
    ensures Whole(PathCost(w, ids, n), Budget(n, charge, move))
    ensures n > 1 ==> ExactNext(w, ids, n)
  {
    assert Serves(w, n - 1, ids[n - 1]) && WholeCharge(w, n - 1, ids[n - 1], charge);
    if n == 1 {
    } else {
      WholePathCost(w, ids, n - 1, charge, move, limit);
      WholeStep(w.planner.round, limit, PathCost(w, ids, n - 1), Budget(n - 1, charge, move),
                w.planner.TransitionCost(ids[n - 2], ids[n - 1]), move, OperatorAt(w, n - 1, ids[n - 1]), charge);
    }
  }

  lemma WholeNeverMerges(w: Workload, charge: nat, move: nat, limit: nat)
    requires ExactUpTo(w.planner.round, limit) && WholeCosts(w, charge, move)
    requires Budget(|w.requests|, charge, move) <= limit
    ensures NeverMerges(w)
  {
    forall a, b, k | IsPath(w, a) && IsPath(w, b) && 0 < k < |a| && k < |b| ensures StayApart(w, a, b, k) {
      BudgetGrows(k + 1, |w.requests|, charge, move);
      WholePathCost(w, a, k + 1, charge, move, limit);
      WholePathCost(w, b, k + 1, charge, move, limit);
    }
  }

  predicate WholeRecord(record: PerformanceRecord, charge: nat) {
    record.median.Usable() ==> Whole(record.median.value, charge)
  }

  /** Whole numbers wherever the planner reads a cost. The worst bootstrap rank is 4. */
  ghost predicate WholeInputs(w: Workload, charge: nat, move: nat) {
    var planner := w.planner;
    && Whole(planner.unmeasuredUs, charge) && Whole(planner.rankPenaltyUs, charge)
    && planner.unmeasuredUs + 4.0 * planner.rankPenaltyUs <= charge as real
    && Whole(planner.defaultTransitionUs, move)
    && (forall pair :: pair in planner.transitions ==> Whole(planner.transitions[pair], move))
    && (forall record :: record in w.records ==> WholeRecord(record, charge))
  }

  lemma {:induction false} MedianIsRecorded(records: seq<PerformanceRecord>, id: BackendId,
                                            request: RouteRequest, charge: nat)
    requires forall record :: record in records ==> WholeRecord(record, charge)
    ensures var measured := Measured(records, id, request);
      measured.Some? ==> Whole(measured.value, charge)
  {
    if records == [] {
    } else {
      assert records[0] in records && forall record :: record in records[1..] ==> record in records;
      MedianIsRecorded(records[1..], id, request, charge);
    }
  }

  lemma WholeBootstrap(planner: Planner, probe: BackendProbe, charge: nat, limit: nat)
    requires ExactUpTo(planner.round, limit) && charge <= limit
    requires Whole(planner.unmeasuredUs, charge) && Whole(planner.rankPenaltyUs, charge)
    requires planner.unmeasuredUs + 4.0 * planner.rankPenaltyUs <= charge as real
    ensures Whole(planner.BootstrapCost(probe), charge)
  {
    var rank, penalty: nat, base: nat := BootstrapRank(probe.kind), planner.rankPenaltyUs.Floor,
        planner.unmeasuredUs.Floor;
    var rise: nat := penalty * rank;
    assert planner.rankPenaltyUs * rank as real == rise as real;
    assert base + rise <= charge;
    assert ExactAt(planner.round, rise) && ExactAt(planner.round, base + rise);
    assert planner.unmeasuredUs + rise as real == (base + rise) as real;
  }

  lemma WholeInputsCharge(w: Workload, charge: nat, move: nat, limit: nat)
    requires ExactUpTo(w.planner.round, limit) && charge <= limit && WholeInputs(w, charge, move)
    ensures WholeCosts(w, charge, move)
  {
    forall i, id | 0 <= i < |w.requests| ensures WholeCharge(w, i, id, charge) {
      if Serves(w, i, id) {
        RepresentativeIn(w.Candidates(i), id);
        MedianIsRecorded(w.records, id, w.requests[i], charge);
        WholeBootstrap(w.planner, Representative(w.Candidates(i), id).value, charge, limit);
      }
    }
  }

  /** If all costs are whole numbers that cannot add up to more than rounding keeps exact,
      the plan is the least among all assignments of its cost. */
  lemma WholePlanIsCanonical(w: Workload, plan: ExecutionPlan, ids: seq<BackendId>, charge: nat, move: nat, limit: nat)
    requires Monotone(w.planner.round) && ExactUpTo(w.planner.round, limit)
    requires WholeInputs(w, charge, move) && |w.requests| * (charge + move) <= limit
    requires Ties(w, plan, ids)
    ensures NoLaterThan(plan, ids)
  {
    BudgetIsProduct(|w.requests|, charge, move);
    BudgetGrows(1, |w.requests|, charge, move);
    WholeInputsCharge(w, charge, move, limit);
    WholeNeverMerges(w, charge, move, limit);
    ApartPlanIsCanonical(w, plan, ids);
  }

  // Sums that overflow -------------------------------------------------------------------------------

  /** A non-negative float: a number or infinity. */
  datatype Total = Finite(value: real) | Infinite

  /** Rounding with a largest finite number; `top` is the real that stands for infinity. */
  datatype Range = Range(nearest: real -> real, largest: real, top: real)
  {
    ghost predicate Valid() {
      Monotone(nearest) && nearest(0.0) == 0.0 && 0.0 <= largest < top && largest < nearest(top)
    }

    /** A float addition: it overflows when the rounded sum exceeds the largest number. */
    function Plus(a: Total, b: Total): Total {
      if a.Infinite? || b.Infinite? || nearest(a.value + b.value) > largest then Infinite
      else Finite(nearest(a.value + b.value))
    }

    /** `total_cmp` */
    predicate Leq(a: Total, b: Total) {
      b.Infinite? || (a.Finite? && a.value <= b.value)
    }

    predicate Holds(x: real) {
      x == top || 0.0 <= x <= largest
    }

    function Of(x: real): Total {
      if x == top then Infinite else Finite(x)
    }

    /** The same rounding on the reals that stand for floats. */
    function Saturating(): Format {
      Format(x => if nearest(x) > largest then top else nearest(x), x => Holds(x))
    }
  }

  /** Saturating sums of the reals are the float sums, in the same order. */
  lemma SaturatingSum(range: Range, x: real, y: real)
    requires range.Valid() && range.Holds(x) && range.Holds(y)
    ensures range.Holds(range.Saturating().round(x + y))
    ensures range.Of(range.Saturating().round(x + y)) == range.Plus(range.Of(x), range.Of(y))
    ensures range.Leq(range.Of(x), range.Of(y)) <==> x <= y
  {
    assert KeepsOrder(range.nearest, range.top, x + y);
    assert KeepsOrder(range.nearest, 0.0, x + y);
  }

  /** A cost and the float it stands for. */
  predicate StandsFor(range: Range, cost: real, total: Total) {
    range.Holds(cost) && range.Of(cost) == total
  }

  lemma SaturatingStep(range: Range, cost: real, total: Total, move: real, charge: real)
    requires range.Valid() && StandsFor(range, cost, total) && range.Holds(move) && range.Holds(charge)
    ensures StandsFor(range, Step(range.Saturating().round, cost, move, charge),
                      range.Plus(range.Plus(total, range.Of(move)), range.Of(charge)))
  {
    SaturatingSum(range, cost, move);
    SaturatingSum(range, range.Saturating().round(cost + move), charge);
  }

  lemma SaturatingIsValid(range: Range)
    requires range.Valid()
    ensures range.Saturating().Valid()
  {
    var f := range.Saturating();
    forall x, y ensures KeepsOrder(f.round, x, y) {
      assert KeepsOrder(range.nearest, x, y);
    }
    forall x, y ensures f.Closed(x, y) {
      if f.holds(x) && f.holds(y) {
        SaturatingSum(range, x, y);
      }
    }
  }

  /** The cost of an assignment in float arithmetic, infinities included. */
  function FloatCost(range: Range, w: Workload, ids: seq<BackendId>, n: nat): Total
    requires IsPath(w, ids) && 0 < n <= |ids|
  {
    assert Serves(w, n - 1, ids[n - 1]);
    var charge := range.Of(OperatorAt(w, n - 1, ids[n - 1]));
    if n == 1 then charge
    else
      var move := range.Of(w.planner.TransitionCost(ids[n - 2], ids[n - 1]));
      range.Plus(range.Plus(FloatCost(range, w, ids, n - 1), move), charge)
  }

  lemma ChargeStands(range: Range, w: Workload, i: nat, id: BackendId)
    requires Priced(range.Saturating(), w) && i < |w.requests| && Serves(w, i, id)
    ensures range.Holds(OperatorAt(w, i, id))
  {
    assert ChargeIn(range.Saturating(), w, i, id);
  }

  lemma MoveStands(range: Range, w: Workload, from: BackendId, to: BackendId)
    requires Priced(range.Saturating(), w)
    ensures range.Holds(w.planner.TransitionCost(from, to))
  {
    assert range.Saturating().holds(w.planner.TransitionCost(from, to));
  }

  lemma {:induction false} FloatCostIsPathCost(range: Range, w: Workload, ids: seq<BackendId>, n: nat)
    requires range.Valid() && Priced(range.Saturating(), w) && IsPath(w, ids) && 0 < n <= |ids|
    ensures StandsFor(range, PathCost(w, ids, n), FloatCost(range, w, ids, n))
  {
    ChargeStands(range, w, n - 1, ids[n - 1]);
    if n == 1 {
    } else {
      FloatCostIsPathCost(range, w, ids, n - 1);
      var move := w.planner.TransitionCost(ids[n - 2], ids[n - 1]);
      MoveStands(range, w, ids[n - 2], ids[n - 1]);
      SaturatingStep(range, PathCost(w, ids, n - 1), FloatCost(range, w, ids, n - 1), move,
                     OperatorAt(w, n - 1, ids[n - 1]));
    }
  }

  /** Also where sums overflow: the estimate is the float cost of the plan's own assignment,
      and no assignment comes before it in the order of floats. */
  lemma FloatPlanIsOptimal(range: Range, w: Workload, plan: ExecutionPlan, ids: seq<BackendId>)
    requires range.Valid() && Priced(range.Saturating(), w)
    requires IsPlan(w, plan) && IsPath(w, ids) && |ids| == |w.requests|
    ensures |plan.steps| == |ids| && IsPath(w, Backends(plan.steps))
    ensures range.Of(plan.estimatedTotalUs) == FloatCost(range, w, Backends(plan.steps), |ids|)
    ensures range.Leq(range.Of(plan.estimatedTotalUs), FloatCost(range, w, ids, |ids|))
  {
    SaturatingIsValid(range);
    PlanIsOptimal(w, plan, ids);
    FloatCostIsPathCost(range, w, ids, |ids|);
    FloatCostIsPathCost(range, w, Backends(plan.steps), |ids|);
    SaturatingSum(range, plan.estimatedTotalUs, PathCost(w, ids, |ids|));
  }
}
