/**
 * Creating and updating treatment plans through the plan serializers: the
 * plan row and one goal row per supplied goal on create; on update, every
 * supplied column assigned and, when a goal list is supplied (even an
 * empty one), the plan's goals replaced by exactly that list.
 */
module TreatmentPlanSerializers {
  import opened Wrappers
  import opened ApiModels
  import opened TreatmentPlanModels

  /** Validated request data; a key the client did not send is `None` (or absent from `info`). */
  datatype PlanData = PlanData(
    clientId: Option<string>,
    info: map<PlanField, string>,
    bcba: Option<UserId>,
    status: Option<PlanStatus>,
    priority: Option<Priority>,
    goals: Option<seq<Goal>>)

  /** The row `TreatmentPlanCreateSerializer.create` inserts: a new plan is a draft, medium priority unless given. */
  function NewPlan(d: PlanData): Plan
    requires d.clientId.Some? && d.bcba.Some?
  {
    Plan(d.clientId.value, d.info, d.bcba.value, DefaultPlanStatus, d.priority.GetOr(DefaultPriority), None, None)
  }

  lemma NoGoalsForNewPlan(rows: seq<GoalRow>, plan: nat)
    requires GoalsPointAtPlans(rows, plan)
    ensures GoalsOf(rows, plan) == []
  {
    if GoalsOf(rows, plan) != [] {
      GoalsOfNonEmpty(rows, plan);
    }
  }

  lemma {:induction false} GoalsOfNonEmpty(rows: seq<GoalRow>, plan: nat)
    requires GoalsOf(rows, plan) != []
    ensures exists i :: 0 <= i < |rows| && rows[i].plan == plan
    decreases |rows|
  {
    var init := rows[..|rows| - 1];
    if rows[|rows| - 1].plan != plan {
      GoalsOfNonEmpty(init, plan);
      var i :| 0 <= i < |init| && init[i].plan == plan;
      assert rows[i] == init[i];
    }
  }

  /** The goal loop: `TreatmentGoal.objects.create(treatment_plan=plan, **goal)` for each goal, in order. */
  method AppendGoals(table: PlanTable, plan: nat, gs: seq<Goal>)
    modifies table
    ensures table.goals == old(table.goals) + RowsFor(plan, gs)
    ensures table.plans == old(table.plans) && table.approvals == old(table.approvals)
  {
    var i := 0;
    while i < |gs|
      invariant 0 <= i <= |gs|
      invariant table.plans == old(table.plans) && table.approvals == old(table.approvals)
      invariant table.goals == old(table.goals) + RowsFor(plan, gs[..i])
      decreases |gs| - i
    {
      assert gs[..i + 1][..i] == gs[..i];
      table.goals := table.goals + [GoalRow(plan, gs[i])];
      i := i + 1;
    }
    assert gs[..i] == gs;
  }

  /**
   * `TreatmentPlanCreateSerializer.create` (and the same body in
   * `TreatmentPlanSerializer.create`): insert the plan, failing when the
   * client id is taken, then one goal row per supplied goal, in order.
   */
  method CreatePlan(table: PlanTable, d: PlanData) returns (id: Option<nat>)
    requires table.Valid()
    requires d.clientId.Some? && d.bcba.Some?
    modifies table
    ensures table.Valid()
    ensures id.None? <==> ClientIdTaken(old(table.plans), d.clientId.value)
    ensures id.None? ==> table.plans == old(table.plans) && table.goals == old(table.goals)
    ensures id.Some? ==> id.value == |old(table.plans)| && table.plans == old(table.plans) + [NewPlan(d)]
    ensures id.Some? ==> table.goals == old(table.goals) + RowsFor(id.value, d.goals.GetOr([]))
    ensures table.approvals == old(table.approvals)
  {
    if exists i :: 0 <= i < |table.plans| && table.plans[i].clientId == d.clientId.value {
      return None;
    }
    var plan := NewPlan(d);
    var newId := |table.plans|;
    assert forall i :: 0 <= i < |table.plans| ==> (table.plans + [plan])[i] == table.plans[i];
    table.plans := table.plans + [plan];
    var goalsData := d.goals.GetOr([]);
    AppendGoals(table, newId, goalsData);
    RowsForPointAt(old(table.goals), newId, goalsData, |table.plans|);
    return Some(newId);
  }

  /** A created plan is a draft whose goals are exactly the supplied list; no goals when none were sent. */
  lemma CreatedPlanGoals(rows: seq<GoalRow>, plans: seq<Plan>, d: PlanData)
    requires GoalsPointAtPlans(rows, |plans|) && d.clientId.Some? && d.bcba.Some?
    ensures GoalsOf(rows + RowsFor(|plans|, d.goals.GetOr([])), |plans|) == d.goals.GetOr([])
    ensures d.goals.None? ==> GoalsCount(rows + RowsFor(|plans|, d.goals.GetOr([])), |plans|) == 0
    ensures NewPlan(d).status == Draft && NewPlan(d).submittedAt.None? && NewPlan(d).approvedAt.None?
  {
    NoGoalsForNewPlan(rows, |plans|);
    GoalsOfAppend(rows, RowsFor(|plans|, d.goals.GetOr([])), |plans|);
    RowsForMeaning(|plans|, d.goals.GetOr([]), |plans|);
  }

  // ---------------------------------------------------------------------
  // Update

  /**
   * The `setattr` loop as written: every supplied column is assigned,
   * `status` included, because the serializer lists it as writable.
   */
  function AssignedAsWritten(p: Plan, d: PlanData): Plan {
    p.(clientId := d.clientId.GetOr(p.clientId), info := p.info + d.info, bcba := d.bcba.GetOr(p.bcba),
       status := d.status.GetOr(p.status), priority := d.priority.GetOr(p.priority))
  }

  /** The `setattr` loop with `status` read-only: status changes only through submit and approve. */
  function Assigned(p: Plan, d: PlanData): Plan {
    p.(clientId := d.clientId.GetOr(p.clientId), info := p.info + d.info, bcba := d.bcba.GetOr(p.bcba),
       priority := d.priority.GetOr(p.priority))
  }

  /**
   * As written, the plan's own BCBA, who is not staff and may not call
   * approve, approves the plan by updating it with `status` "approved".
   */
  lemma SelfApprovalAsWritten()
    ensures var bcba := User(7, "bcba", None, Some(Role(2, "BCBA", {})), "Active", false, true, None, None, {}, None);
      var p := Plan("C-1", map[], bcba.id, Draft, Medium, None, None);
      var d := PlanData(None, map[], None, Some(Approved), None, None);
      !bcba.isStaff && p.bcba == bcba.id && AssignedAsWritten(p, d).status == Approved && AssignedAsWritten(p, d).approvedAt.None?
  {
  }

  /**
   * What the corrected update does to a plan: the supplied columns take the
   * supplied values, the others keep theirs, and status and both decision
   * timestamps never change.
   */
  lemma AssignedMeaning(p: Plan, d: PlanData)
    ensures var q := Assigned(p, d);
      (forall f :: f in d.info ==> f in q.info && q.info[f] == d.info[f])
      && (forall f :: f in p.info && f !in d.info ==> q.info[f] == p.info[f])
      && q.info.Keys == p.info.Keys + d.info.Keys
      && (d.clientId.Some? ==> q.clientId == d.clientId.value) && (d.clientId.None? ==> q.clientId == p.clientId)
      && (d.bcba.Some? ==> q.bcba == d.bcba.value) && (d.bcba.None? ==> q.bcba == p.bcba)
      && (d.priority.Some? ==> q.priority == d.priority.value) && (d.priority.None? ==> q.priority == p.priority)
      && q.status == p.status && q.submittedAt == p.submittedAt && q.approvedAt == p.approvedAt
  {
  }

  /** The corrected update is the as-written one whenever the request does not send a status. */
  lemma AssignedAgreesWithoutStatus(p: Plan, d: PlanData)
    requires d.status.None?
    ensures Assigned(p, d) == AssignedAsWritten(p, d)
  {
  }

  /** The `setattr` loop over the supplied text columns: supplied values win, the rest stay. */
  method MergeInfo(current: map<PlanField, string>, supplied: map<PlanField, string>) returns (info: map<PlanField, string>)
    ensures info == current + supplied
  {
    info := current;
    var keys := supplied.Keys;
    while keys != {}
      invariant keys <= supplied.Keys
      invariant info.Keys == current.Keys + (supplied.Keys - keys)
      invariant forall f :: f in supplied && f !in keys ==> info[f] == supplied[f]
      invariant forall f :: f in current && f !in supplied ==> info[f] == current[f]
      invariant forall f :: f in keys && f in current ==> info[f] == current[f]
      decreases keys
    {
      var f :| f in keys;
      info := info[f := supplied[f]];
      keys := keys - {f};
    }
  }

  predicate ClientIdTakenByOther(plans: seq<Plan>, id: nat, clientId: string) {
    exists i :: 0 <= i < |plans| && i != id && plans[i].clientId == clientId
  }

  lemma KeepsUniqueIds(plans: seq<Plan>, id: nat, q: Plan)
    requires UniqueClientIds(plans) && id < |plans|
    requires !ClientIdTakenByOther(plans, id, q.clientId)
    ensures UniqueClientIds(plans[id := q])
  {
    var next := plans[id := q];
    forall i, j | 0 <= i < j < |next| ensures next[i].clientId != next[j].clientId {
      if i == id {
        assert plans[j].clientId != q.clientId;
      } else if j == id {
        assert plans[i].clientId != q.clientId;
      }
    }
  }

  /** Approval rows stay consistent when a plan's other columns change but its status does not. */
  lemma KeepsApprovals(plans: seq<Plan>, approvals: seq<Approval>, id: nat, q: Plan)
    requires ApprovalsConsistent(plans, approvals) && id < |plans| && q.status == plans[id].status
    ensures ApprovalsConsistent(plans[id := q], approvals)
  {
  }

  /**
   * `TreatmentPlanSerializer.update`: assign the supplied columns and save
   * (failing when the new client id is taken by another plan); then, when a
   * goal list was sent, delete the plan's goals and create the new ones in
   * order.
   */
  method UpdatePlan(table: PlanTable, id: nat, d: PlanData) returns (ok: bool)
    requires table.Valid() && id < |table.plans|
    modifies table
    ensures table.Valid()
    ensures ok <==> !ClientIdTakenByOther(old(table.plans), id, Assigned(old(table.plans)[id], d).clientId)
    ensures !ok ==> table.plans == old(table.plans) && table.goals == old(table.goals)
    ensures ok ==> table.plans == old(table.plans)[id := Assigned(old(table.plans)[id], d)]
    ensures ok && d.goals.None? ==> table.goals == old(table.goals)
    ensures ok && d.goals.Some? ==> table.goals == DropGoals(old(table.goals), id) + RowsFor(id, d.goals.value)
    ensures table.approvals == old(table.approvals)
  {
    var instance := table.plans[id];
    var info := MergeInfo(instance.info, d.info);
    var q := instance.(info := info);
    if d.clientId.Some? {
      q := q.(clientId := d.clientId.value);
    }
    if d.bcba.Some? {
      q := q.(bcba := d.bcba.value);
    }
    if d.priority.Some? {
      q := q.(priority := d.priority.value);
    }
    assert q == Assigned(instance, d);
    if exists i :: 0 <= i < |table.plans| && i != id && table.plans[i].clientId == q.clientId {
      return false;
    }
    KeepsUniqueIds(table.plans, id, q);
    KeepsApprovals(table.plans, table.approvals, id, q);
    table.plans := table.plans[id := q];
    ok := true;
    if d.goals.Some? {
      var goalsData := d.goals.value;
      table.goals := DropGoals(table.goals, id);
      AppendGoals(table, id, goalsData);
      RowsForPointAt(old(table.goals), id, goalsData, |table.plans|);
    }
  }

  /**
   * The goal effect of an update: with a goal list the plan's goals become
   * exactly that list (an empty list removes them all); without one they
   * stay; other plans' goals never change.
   */
  lemma UpdateGoalsMeaning(rows: seq<GoalRow>, id: nat, d: PlanData, other: nat)
    ensures var after := if d.goals.Some? then DropGoals(rows, id) + RowsFor(id, d.goals.value) else rows;
      (d.goals.Some? ==> GoalsOf(after, id) == d.goals.value && GoalsCount(after, id) == |d.goals.value|)
      && (d.goals.None? ==> GoalsOf(after, id) == GoalsOf(rows, id))
      && (other != id ==> GoalsOf(after, other) == GoalsOf(rows, other))
  {
    if d.goals.Some? {
      ReplaceGoalsMeaning(rows, id, d.goals.value, other);
    }
  }
}
