/**
 * The treatment-plan views: who sees a plan's goals, adding a goal, the
 * draft -> submitted -> approved/rejected workflow, and the statistics.
 */
module TreatmentPlanViews {
  import opened Wrappers
  import opened ApiModels
  import opened TreatmentPlanModels

  /** Staff see every plan; anyone else only the plans they are the BCBA of. */
  predicate CanAccessPlan(u: User, p: Plan) {
    u.isStaff || p.bcba == u.id
  }

  // ---------------------------------------------------------------------
  // Goals

  /** The goals of one priority, in creation order. */
  function WithPriority(gs: seq<Goal>, p: Priority): (r: seq<Goal>)
    ensures |r| <= |gs| && forall i :: 0 <= i < |r| ==> r[i].priority == p
    decreases |gs|
  {
    if gs == [] then []
    else WithPriority(gs[..|gs| - 1], p) + (if gs[|gs| - 1].priority == p then [gs[|gs| - 1]] else [])
  }

  /**
   * `order_by('priority', 'created_at')` on the stored codes: "high" sorts
   * before "low", which sorts before "medium"; ties stay in creation order.
   */
  function OrderGoals(gs: seq<Goal>): seq<Goal> {
    WithPriority(gs, High) + WithPriority(gs, Low) + WithPriority(gs, Medium)
  }

  /** Position of a priority in the goal list's order. */
  function Rank(p: Priority): nat {
    match p
    case High => 0
    case Low => 1
    case Medium => 2
  }

  /** The rank is the alphabetical order of the stored codes, which differ in their first letter. */
  lemma RankIsCodeOrder(a: Priority, b: Priority)
    ensures Rank(a) < Rank(b) <==> a.Code()[0] < b.Code()[0]
    ensures a == b <==> a.Code() == b.Code()
  {
  }

  /** The goals of each priority together are all the goals. */
  predicate SplitsByPriority(gs: seq<Goal>) {
    multiset(WithPriority(gs, High)) + multiset(WithPriority(gs, Low)) + multiset(WithPriority(gs, Medium)) == multiset(gs)
  }

  lemma FilterStep(init: seq<Goal>, last: Goal, p: Priority)
    ensures WithPriority(init + [last], p) == WithPriority(init, p) + (if last.priority == p then [last] else [])
  {
    assert (init + [last])[..|init|] == init;
  }

  lemma SplitStep(init: seq<Goal>, last: Goal)
    requires SplitsByPriority(init)
    ensures SplitsByPriority(init + [last])
  {
    FilterStep(init, last, High);
    FilterStep(init, last, Low);
    FilterStep(init, last, Medium);
  }

  lemma {:induction false} SplitByPriority(gs: seq<Goal>)
    ensures SplitsByPriority(gs)
    decreases |gs|
  {
    if gs != [] {
      SplitByPriority(gs[..|gs| - 1]);
      SplitStep(gs[..|gs| - 1], gs[|gs| - 1]);
      assert gs == gs[..|gs| - 1] + [gs[|gs| - 1]];
    }
  }

  /** The goal list holds exactly the plan's goals, each once. */
  lemma OrderGoalsPermutation(gs: seq<Goal>)
    ensures multiset(OrderGoals(gs)) == multiset(gs) && |OrderGoals(gs)| == |gs|
  {
    SplitByPriority(gs);
    assert |multiset(OrderGoals(gs))| == |multiset(gs)|;
  }

  /** The goal list is sorted by priority code. */
  lemma OrderGoalsSorted(gs: seq<Goal>)
    ensures var r := OrderGoals(gs);
      forall i, j :: 0 <= i < j < |r| ==> Rank(r[i].priority) <= Rank(r[j].priority)
  {
    var h, l, m := WithPriority(gs, High), WithPriority(gs, Low), WithPriority(gs, Medium);
    var r := h + l + m;
    forall i | 0 <= i < |r|
      ensures Rank(r[i].priority) == if i < |h| then 0 else if i < |h| + |l| then 1 else 2
    {
      if i < |h| {
        assert r[i] == h[i];
      } else if i < |h| + |l| {
        assert r[i] == l[i - |h|];
      } else {
        assert r[i] == m[i - |h| - |l|];
      }
    }
  }

  lemma {:induction false} FilterAppend(a: seq<Goal>, b: seq<Goal>, p: Priority)
    ensures WithPriority(a + b, p) == WithPriority(a, p) + WithPriority(b, p)
    decreases |b|
  {
    if b == [] {
      assert a + b == a;
    } else {
      var init, last := b[..|b| - 1], b[|b| - 1];
      assert b == init + [last];
      assert a + b == (a + init) + [last];
      FilterAppend(a, init, p);
      FilterStep(a + init, last, p);
      FilterStep(init, last, p);
    }
  }

  lemma {:induction false} FilterTwice(gs: seq<Goal>, q: Priority, p: Priority)
    ensures WithPriority(WithPriority(gs, q), p) == if p == q then WithPriority(gs, q) else []
    decreases |gs|
  {
    if gs != [] {
      var init, last := gs[..|gs| - 1], gs[|gs| - 1];
      var tail := if last.priority == q then [last] else [];
      assert WithPriority(gs, q) == WithPriority(init, q) + tail;
      FilterTwice(init, q, p);
      FilterAppend(WithPriority(init, q), tail, p);
      if last.priority == q {
        FilterStep([], last, p);
        assert [] + [last] == [last];
      }
    }
  }

  /**
   * Within one priority the list keeps the goals' stored order, which is
   * their creation order: the `created_at` tie-break of the ordering.
   */
  lemma OrderGoalsStable(gs: seq<Goal>, p: Priority)
    ensures WithPriority(OrderGoals(gs), p) == WithPriority(gs, p)
  {
    var h, l, m := WithPriority(gs, High), WithPriority(gs, Low), WithPriority(gs, Medium);
    FilterAppend(h + l, m, p);
    FilterAppend(h, l, p);
    FilterTwice(gs, High, p);
    FilterTwice(gs, Low, p);
    FilterTwice(gs, Medium, p);
  }

  /**
   * The goal list of `TreatmentGoalListCreateView`: `None` (404) for a
   * missing plan, an empty list for a user who may not see the plan, and
   * otherwise the plan's goals in list order.
   */
  function GoalList(plans: seq<Plan>, rows: seq<GoalRow>, u: User, planId: int): (r: Option<seq<Goal>>)
    ensures r.None? <==> !(0 <= planId < |plans|)
    ensures r.Some? && !CanAccessPlan(u, plans[planId]) ==> r.value == []
    ensures r.Some? && CanAccessPlan(u, plans[planId]) ==> multiset(r.value) == multiset(GoalsOf(rows, planId))
    ensures r.Some? && CanAccessPlan(u, plans[planId]) ==> r.value == OrderGoals(GoalsOf(rows, planId))
  {
    if !(0 <= planId < |plans|) then None
    else if !CanAccessPlan(u, plans[planId]) then Some([])
    else
      OrderGoalsPermutation(GoalsOf(rows, planId));
      Some(OrderGoals(GoalsOf(rows, planId)))
  }

  /** The goals `TreatmentGoalDetailView` may look a goal up in: the same test, unordered. */
  function GoalDetailScope(plans: seq<Plan>, rows: seq<GoalRow>, u: User, planId: int): (r: Option<seq<Goal>>)
    ensures r.None? <==> !(0 <= planId < |plans|)
    ensures r.Some? ==> (r.value == if CanAccessPlan(u, plans[planId]) then GoalsOf(rows, planId) else [])
  {
    if !(0 <= planId < |plans|) then None
    else if !CanAccessPlan(u, plans[planId]) then Some([])
    else Some(GoalsOf(rows, planId))
  }

  /** List and detail agree on who sees which goals: the same goals, with the list sorted. */
  lemma ListAndDetailAgree(plans: seq<Plan>, rows: seq<GoalRow>, u: User, planId: int)
    requires 0 <= planId < |plans|
    ensures multiset(GoalList(plans, rows, u, planId).value) == multiset(GoalDetailScope(plans, rows, u, planId).value)
  {
  }

  /**
   * `TreatmentGoalListCreateView.perform_create` with the refusal answered
   * by `deniedCode`: 404 for a missing plan, `deniedCode` for a user who
   * may not see it, otherwise the goal is attached.
   */
  method AttachGoal(table: PlanTable, u: User, planId: int, g: Goal, deniedCode: int) returns (code: int)
    requires table.Valid() && deniedCode != 201 && deniedCode != 404
    modifies table
    ensures table.Valid()
    ensures !(0 <= planId < |old(table.plans)|) ==> code == 404
    ensures 0 <= planId < |old(table.plans)| && !CanAccessPlan(u, old(table.plans)[planId]) ==> code == deniedCode
    ensures code == 201 <==> 0 <= planId < |old(table.plans)| && CanAccessPlan(u, old(table.plans)[planId])
    ensures code != 201 ==> table.goals == old(table.goals)
    ensures code == 201 ==> table.goals == old(table.goals) + [GoalRow(planId, g)]
    ensures table.plans == old(table.plans) && table.approvals == old(table.approvals)
  {
    if !(0 <= planId < |table.plans|) {
      return 404;
    }
    if !CanAccessPlan(u, table.plans[planId]) {
      return deniedCode;
    }
    table.goals := table.goals + [GoalRow(planId, g)];
    return 201;
  }

  /**
   * `perform_create` as written: the refusal raises
   * `permissions.PermissionDenied`, a name the `rest_framework.permissions`
   * module does not define (the exception lives in
   * `rest_framework.exceptions`), so the lookup itself fails and the
   * client gets 500. Nothing is stored either way.
   */
  method AddGoalAsWritten(table: PlanTable, u: User, planId: int, g: Goal) returns (code: int)
    requires table.Valid()
    modifies table
    ensures table.Valid()
    ensures !(0 <= planId < |old(table.plans)|) ==> code == 404
    ensures 0 <= planId < |old(table.plans)| && !CanAccessPlan(u, old(table.plans)[planId]) ==> code == 500
    ensures code == 201 <==> 0 <= planId < |old(table.plans)| && CanAccessPlan(u, old(table.plans)[planId])
    ensures code != 201 ==> table.goals == old(table.goals)
    ensures code == 201 ==> table.goals == old(table.goals) + [GoalRow(planId, g)]
    ensures table.plans == old(table.plans) && table.approvals == old(table.approvals)
  {
    code := AttachGoal(table, u, planId, g, 500);
  }

  /** `perform_create` with the refusal the authors meant: a permission error, 403. */
  method AddGoal(table: PlanTable, u: User, planId: int, g: Goal) returns (code: int)
    requires table.Valid()
    modifies table
    ensures table.Valid()
    ensures !(0 <= planId < |old(table.plans)|) ==> code == 404
    ensures 0 <= planId < |old(table.plans)| && !CanAccessPlan(u, old(table.plans)[planId]) ==> code == 403
    ensures code == 201 <==> 0 <= planId < |old(table.plans)| && CanAccessPlan(u, old(table.plans)[planId])
    ensures code != 201 ==> table.goals == old(table.goals)
    ensures code == 201 ==> table.goals == old(table.goals) + [GoalRow(planId, g)]
    ensures table.plans == old(table.plans) && table.approvals == old(table.approvals)
  {
    code := AttachGoal(table, u, planId, g, 403);
  }

  /** An added goal comes last among the plan's goals; no other plan's goals change. */
  lemma AddGoalAppends(rows: seq<GoalRow>, planId: nat, g: Goal, other: nat)
    ensures GoalsOf(rows + [GoalRow(planId, g)], planId) == GoalsOf(rows, planId) + [g]
    ensures other != planId ==> GoalsOf(rows + [GoalRow(planId, g)], other) == GoalsOf(rows, other)
    ensures GoalsCount(rows + [GoalRow(planId, g)], planId) == GoalsCount(rows, planId) + 1
  {
    GoalsOfAppend(rows, [GoalRow(planId, g)], planId);
    GoalsOfAppend(rows, [GoalRow(planId, g)], other);
    assert [GoalRow(planId, g)][..0] == [];
  }

  // ---------------------------------------------------------------------
  // Workflow

  datatype PlanEvent = SubmitPlan | Decide(approved: bool)

  /** The status a workflow step leads to, or `None` (400) when the plan is not in the step's source status. */
  function NextStatus(s: PlanStatus, e: PlanEvent): (r: Option<PlanStatus>)
    ensures r.Some? ==> r.value != s
  {
    match e
    case SubmitPlan => if s == Draft then Some(Submitted) else None
    case Decide(approved) => if s == Submitted then Some(if approved then Approved else Rejected) else None
  }

  /** Approved and rejected plans have no way out. */
  lemma DecidedIsFinal(s: PlanStatus, e: PlanEvent)
    requires IsDecided(s)
    ensures NextStatus(s, e).None?
  {
  }

  /** The steps applied one after another; `None` as soon as one is refused. */
  function RunEvents(s: PlanStatus, es: seq<PlanEvent>): Option<PlanStatus>
    decreases |es|
  {
    if es == [] then Some(s)
    else match NextStatus(s, es[0])
      case None => None
      case Some(t) => RunEvents(t, es[1..])
  }

  /** From any status at most two steps succeed, each step moving the plan forward. */
  lemma {:induction false} AtMostTwoSteps(s: PlanStatus, es: seq<PlanEvent>)
    requires RunEvents(s, es).Some?
    ensures |es| <= 2 - Stage(s)
    decreases |es|
  {
    if es != [] {
      var t := NextStatus(s, es[0]).value;
      AtMostTwoSteps(t, es[1..]);
    }
  }

  function Stage(s: PlanStatus): nat {
    match s
    case Draft => 0
    case Submitted => 1
    case Approved => 2
    case Rejected => 2
  }

  /** Every plan that is decided went through submission, and the decision flag picks the outcome. */
  lemma WorkflowOutcomes(approved: bool)
    ensures RunEvents(Draft, [SubmitPlan, Decide(approved)]) == Some(if approved then Approved else Rejected)
    ensures RunEvents(Draft, [Decide(approved)]).None?
  {
    var decided := if approved then Approved else Rejected;
    assert [SubmitPlan, Decide(approved)][1..] == [Decide(approved)];
    assert [Decide(approved)][1..] == [];
    assert RunEvents(decided, []) == Some(decided);
    assert RunEvents(Submitted, [Decide(approved)]) == RunEvents(decided, []);
  }

  /**
   * `submit_treatment_plan`: 404 for a missing plan, 403 unless staff or the
   * plan's BCBA, 400 unless a draft; otherwise the plan becomes submitted
   * with `submitted_at` set to now.
   */
  method Submit(table: PlanTable, u: User, planId: int, now: Timestamp) returns (code: int)
    requires table.Valid()
    modifies table
    ensures table.Valid()
    ensures !(0 <= planId < |old(table.plans)|) ==> code == 404
    ensures 0 <= planId < |old(table.plans)| && !CanAccessPlan(u, old(table.plans)[planId]) ==> code == 403
    ensures 0 <= planId < |old(table.plans)| && CanAccessPlan(u, old(table.plans)[planId]) ==>
      (code == 400 <==> NextStatus(old(table.plans)[planId].status, SubmitPlan).None?)
    ensures code != 200 ==> table.plans == old(table.plans)
    ensures code == 200 ==> (0 <= planId < |old(table.plans)| &&
      table.plans == old(table.plans)[planId := old(table.plans)[planId].(status := NextStatus(old(table.plans)[planId].status, SubmitPlan).value, submittedAt := Some(now))])
    ensures table.goals == old(table.goals) && table.approvals == old(table.approvals)
  {
    if !(0 <= planId < |table.plans|) {
      return 404;
    }
    var plan := table.plans[planId];
    if !CanAccessPlan(u, plan) {
      return 403;
    }
    if plan.status != Draft {
      return 400;
    }
    table.plans := table.plans[planId := plan.(status := Submitted, submittedAt := Some(now))];
    return 200;
  }

  /**
   * `approve_treatment_plan`: 403 for non-staff (before the lookup), 404 for
   * a missing plan, 400 unless submitted; otherwise the flag (default true)
   * decides approved or rejected, `approved_at` is set only on approval, and
   * exactly one approval record is added.
   */
  method Approve(table: PlanTable, u: User, planId: int, approvedFlag: Option<bool>, notes: Option<string>, now: Timestamp)
    returns (code: int)
    requires table.Valid()
    modifies table
    ensures table.Valid()
    ensures !u.isStaff ==> code == 403
    ensures u.isStaff && !(0 <= planId < |old(table.plans)|) ==> code == 404
    ensures u.isStaff && 0 <= planId < |old(table.plans)| ==>
      (code == 400 <==> NextStatus(old(table.plans)[planId].status, Decide(approvedFlag.GetOr(true))).None?)
    ensures code != 200 ==> table.plans == old(table.plans) && table.approvals == old(table.approvals)
    ensures code == 200 ==> (u.isStaff && 0 <= planId < |old(table.plans)| &&
      var approved := approvedFlag.GetOr(true);
      var p := old(table.plans)[planId];
      table.plans == old(table.plans)[planId := p.(status := NextStatus(p.status, Decide(approved)).value,
                                                    approvedAt := if approved then Some(now) else p.approvedAt)]
      && table.approvals == old(table.approvals) + [Approval(planId, u.id, approved, notes.GetOr(""), now)])
    ensures table.goals == old(table.goals)
  {
    if !u.isStaff {
      return 403;
    }
    if !(0 <= planId < |table.plans|) {
      return 404;
    }
    var plan := table.plans[planId];
    if plan.status != Submitted {
      return 400;
    }
    var approved := approvedFlag.GetOr(true);
    var approvalNotes := notes.GetOr("");
    plan := plan.(status := if approved then Approved else Rejected);
    if approved {
      plan := plan.(approvedAt := Some(now));
    }
    // A submitted plan has no approval record yet, so the one-to-one insert below cannot collide.
    assert !HasApproval(table.approvals, planId);
    ghost var before := table.plans;
    table.plans := table.plans[planId := plan];
    assert forall k :: 0 <= k < |table.approvals| ==> table.approvals[k].plan != planId && table.plans[table.approvals[k].plan] == before[table.approvals[k].plan];
    table.approvals := table.approvals + [Approval(planId, u.id, approved, approvalNotes, now)];
    return 200;
  }

  // ---------------------------------------------------------------------
  // Statistics

  /** The plans `treatment_plan_stats` counts: all for staff, otherwise the user's own. */
  function VisiblePlans(plans: seq<Plan>, u: User): (r: seq<Plan>)
    ensures forall i :: 0 <= i < |r| ==> r[i] in plans && CanAccessPlan(u, r[i])
    ensures u.isStaff ==> r == plans
    decreases |plans|
  {
    if plans == [] then []
    else VisiblePlans(plans[..|plans| - 1], u) + (if CanAccessPlan(u, plans[|plans| - 1]) then [plans[|plans| - 1]] else [])
  }

  function CountStatus(ps: seq<Plan>, s: PlanStatus): nat
    decreases |ps|
  {
    if ps == [] then 0 else CountStatus(ps[..|ps| - 1], s) + (if ps[|ps| - 1].status == s then 1 else 0)
  }

  function CountPriority(ps: seq<Plan>, p: Priority): nat
    decreases |ps|
  {
    if ps == [] then 0 else CountPriority(ps[..|ps| - 1], p) + (if ps[|ps| - 1].priority == p then 1 else 0)
  }

  datatype PlanStats = PlanStats(
    totalPlans: nat, draftPlans: nat, submittedPlans: nat, approvedPlans: nat, rejectedPlans: nat,
    highPriorityPlans: nat, mediumPriorityPlans: nat, lowPriorityPlans: nat)

  function Stats(plans: seq<Plan>, u: User): PlanStats {
    var ps := VisiblePlans(plans, u);
    PlanStats(|ps|, CountStatus(ps, Draft), CountStatus(ps, Submitted), CountStatus(ps, Approved), CountStatus(ps, Rejected),
              CountPriority(ps, High), CountPriority(ps, Medium), CountPriority(ps, Low))
  }

  lemma {:induction false} CountsPartition(ps: seq<Plan>)
    ensures CountStatus(ps, Draft) + CountStatus(ps, Submitted) + CountStatus(ps, Approved) + CountStatus(ps, Rejected) == |ps|
    ensures CountPriority(ps, High) + CountPriority(ps, Medium) + CountPriority(ps, Low) == |ps|
    decreases |ps|
  {
    if ps != [] {
      CountsPartition(ps[..|ps| - 1]);
    }
  }

  /** The four status counts, and the three priority counts, each add up to the total. */
  lemma StatsAddUp(plans: seq<Plan>, u: User)
    ensures var st := Stats(plans, u);
      st.draftPlans + st.submittedPlans + st.approvedPlans + st.rejectedPlans == st.totalPlans
      && st.highPriorityPlans + st.mediumPriorityPlans + st.lowPriorityPlans == st.totalPlans
  {
    CountsPartition(VisiblePlans(plans, u));
  }

  lemma {:induction false} VisibleOwnPlans(plans: seq<Plan>, u: User)
    requires !u.isStaff
    ensures |VisiblePlans(plans, u)| == CountBcba(plans, u.id)
    decreases |plans|
  {
    if plans != [] {
      VisibleOwnPlans(plans[..|plans| - 1], u);
    }
  }

  function CountBcba(ps: seq<Plan>, bcba: UserId): nat
    decreases |ps|
  {
    if ps == [] then 0 else CountBcba(ps[..|ps| - 1], bcba) + (if ps[|ps| - 1].bcba == bcba then 1 else 0)
  }

  /** A plan moving from draft to submitted shifts one from the draft count to the submitted count. */
  lemma {:induction false} SubmitShiftsCounts(ps: seq<Plan>, i: nat, q: Plan)
    requires i < |ps| && ps[i].status == Draft && q.status == Submitted
    ensures CountStatus(ps[i := q], Draft) + 1 == CountStatus(ps, Draft)
    ensures CountStatus(ps[i := q], Submitted) == CountStatus(ps, Submitted) + 1
    decreases |ps|
  {
    var n := |ps| - 1;
    if i < n {
      assert ps[i := q][..n] == ps[..n][i := q];
      SubmitShiftsCounts(ps[..n], i, q);
    } else {
      assert ps[i := q][..n] == ps[..n];
    }
  }
}
