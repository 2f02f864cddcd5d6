/**
 * The treatment-plan tables: plans (draft, submitted, approved or
 * rejected), their goals and the one approval record a plan may have.
 * A plan's id is its position in the plan table.
 */
module TreatmentPlanModels {
  import opened Wrappers
  import opened ApiModels

  datatype PlanStatus = Draft | Submitted | Approved | Rejected

  const DefaultPlanStatus: PlanStatus := Draft

  datatype Priority = Low | Medium | High {
    /** The stored choice value. */
    function Code(): string {
      match this
      case Low => "low"
      case Medium => "medium"
      case High => "high"
    }
  }

  const DefaultPriority: Priority := Medium

  /** The free-text columns of a plan besides `client_id`. */
  datatype PlanField = ClientName | AssessmentTools | ClientStrengths | AreasOfNeed
                     | ReinforcementStrategies | PromptingHierarchy | BehaviorInterventions | DataCollectionMethods

  datatype Plan = Plan(
    clientId: string,
    info: map<PlanField, string>,
    bcba: UserId,
    status: PlanStatus,
    priority: Priority,
    submittedAt: Option<Timestamp>,
    approvedAt: Option<Timestamp>)

  datatype Goal = Goal(
    description: string,
    masteryCriteria: string,
    customCriteria: Option<string>,
    priority: Priority,
    isAchieved: bool,
    progressNotes: string)

  /** A goal row and the plan it belongs to. */
  datatype GoalRow = GoalRow(plan: nat, goal: Goal)

  /** `TreatmentPlanApproval`: one-to-one with its plan. */
  datatype Approval = Approval(plan: nat, approver: UserId, approved: bool, notes: string, approvedAt: Timestamp)

  /** `client_id` is unique. */
  predicate UniqueClientIds(plans: seq<Plan>) {
    forall i, j :: 0 <= i < j < |plans| ==> plans[i].clientId != plans[j].clientId
  }

  predicate ClientIdTaken(plans: seq<Plan>, clientId: string) {
    exists i :: 0 <= i < |plans| && plans[i].clientId == clientId
  }

  predicate HasApproval(approvals: seq<Approval>, plan: nat) {
    exists k :: 0 <= k < |approvals| && approvals[k].plan == plan
  }

  predicate IsDecided(s: PlanStatus) {
    s == Approved || s == Rejected
  }

  /**
   * Approval rows point at existing plans, at most one per plan, and a plan
   * with an approval row has been decided.
   */
  predicate ApprovalsConsistent(plans: seq<Plan>, approvals: seq<Approval>) {
    (forall k :: 0 <= k < |approvals| ==> approvals[k].plan < |plans| && IsDecided(plans[approvals[k].plan].status))
    && (forall k, m :: 0 <= k < m < |approvals| ==> approvals[k].plan != approvals[m].plan)
  }

  predicate GoalsPointAtPlans(goals: seq<GoalRow>, planCount: nat) {
    forall i :: 0 <= i < |goals| ==> goals[i].plan < planCount
  }

  // ---------------------------------------------------------------------
  // Goals of a plan

  /** `plan.goals.all()` in creation order. */
  function GoalsOf(rows: seq<GoalRow>, plan: nat): (r: seq<Goal>)
    ensures |r| <= |rows|
    decreases |rows|
  {
    if rows == [] then []
    else GoalsOf(rows[..|rows| - 1], plan) + (if rows[|rows| - 1].plan == plan then [rows[|rows| - 1].goal] else [])
  }

  /** `get_goals_count`. */
  function GoalsCount(rows: seq<GoalRow>, plan: nat): nat {
    |GoalsOf(rows, plan)|
  }

  /** `plan.goals.all().delete()`. */
  function DropGoals(rows: seq<GoalRow>, plan: nat): (r: seq<GoalRow>)
    ensures forall i :: 0 <= i < |r| ==> r[i].plan != plan && r[i] in rows
    decreases |rows|
  {
    if rows == [] then []
    else DropGoals(rows[..|rows| - 1], plan) + (if rows[|rows| - 1].plan != plan then [rows[|rows| - 1]] else [])
  }

  /** The rows `TreatmentGoal.objects.create(treatment_plan=plan, ...)` adds for each supplied goal, in order. */
  function RowsFor(plan: nat, gs: seq<Goal>): (r: seq<GoalRow>)
    ensures |r| == |gs| && forall i :: 0 <= i < |gs| ==> r[i] == GoalRow(plan, gs[i])
    decreases |gs|
  {
    if gs == [] then [] else RowsFor(plan, gs[..|gs| - 1]) + [GoalRow(plan, gs[|gs| - 1])]
  }

  lemma {:induction false} GoalsOfAppend(a: seq<GoalRow>, b: seq<GoalRow>, plan: nat)
    ensures GoalsOf(a + b, plan) == GoalsOf(a, plan) + GoalsOf(b, plan)
    decreases |b|
  {
    if b == [] {
      assert a + b == a;
    } else {
      assert (a + b)[..|a + b| - 1] == a + b[..|b| - 1];
      GoalsOfAppend(a, b[..|b| - 1], plan);
    }
  }

  /** Deleting a plan's goals empties its list and leaves every other plan's list as it was. */
  lemma {:induction false} DropGoalsMeaning(rows: seq<GoalRow>, plan: nat, other: nat)
    ensures GoalsOf(DropGoals(rows, plan), plan) == []
    ensures other != plan ==> GoalsOf(DropGoals(rows, plan), other) == GoalsOf(rows, other)
    decreases |rows|
  {
    if rows != [] {
      var init := rows[..|rows| - 1];
      var last := rows[|rows| - 1];
      DropGoalsMeaning(init, plan, other);
      assert GoalsOf(rows, other) == GoalsOf(init, other) + (if last.plan == other then [last.goal] else []);
      if last.plan != plan {
        assert DropGoals(rows, plan) == DropGoals(init, plan) + [last];
        GoalsOfAppend(DropGoals(init, plan), [last], plan);
        GoalsOfAppend(DropGoals(init, plan), [last], other);
        assert [last][..0] == [];
      } else {
        assert DropGoals(rows, plan) == DropGoals(init, plan);
      }
    }
  }

  /** The added rows give the plan exactly the supplied goals and give no other plan any. */
  lemma {:induction false} RowsForMeaning(plan: nat, gs: seq<Goal>, other: nat)
    ensures GoalsOf(RowsFor(plan, gs), plan) == gs
    ensures other != plan ==> GoalsOf(RowsFor(plan, gs), other) == []
    decreases |gs|
  {
    if gs != [] {
      var init := gs[..|gs| - 1];
      RowsForMeaning(plan, init, other);
      GoalsOfAppend(RowsFor(plan, init), [GoalRow(plan, gs[|gs| - 1])], plan);
      GoalsOfAppend(RowsFor(plan, init), [GoalRow(plan, gs[|gs| - 1])], other);
      assert [GoalRow(plan, gs[|gs| - 1])][..0] == [];
      assert init + [gs[|gs| - 1]] == gs;
    }
  }

  /** Replacing a plan's goals wholesale: the plan gets exactly the new list; other plans keep theirs. */
  lemma ReplaceGoalsMeaning(rows: seq<GoalRow>, plan: nat, gs: seq<Goal>, other: nat)
    ensures GoalsOf(DropGoals(rows, plan) + RowsFor(plan, gs), plan) == gs
    ensures other != plan ==> GoalsOf(DropGoals(rows, plan) + RowsFor(plan, gs), other) == GoalsOf(rows, other)
  {
    GoalsOfAppend(DropGoals(rows, plan), RowsFor(plan, gs), plan);
    GoalsOfAppend(DropGoals(rows, plan), RowsFor(plan, gs), other);
    DropGoalsMeaning(rows, plan, other);
    RowsForMeaning(plan, gs, other);
  }

  lemma RowsForPointAt(rows: seq<GoalRow>, plan: nat, gs: seq<Goal>, planCount: nat)
    requires GoalsPointAtPlans(rows, planCount) && plan < planCount
    ensures GoalsPointAtPlans(DropGoals(rows, plan) + RowsFor(plan, gs), planCount)
    ensures GoalsPointAtPlans(rows + RowsFor(plan, gs), planCount)
  {
    var d := DropGoals(rows, plan);
    forall i | 0 <= i < |d| ensures d[i].plan < planCount {
      assert d[i] in rows;
    }
  }

  /** The plan, goal and approval tables. */
  class PlanTable {
    var plans: seq<Plan>
    var goals: seq<GoalRow>
    var approvals: seq<Approval>

    ghost predicate Valid()
      reads this
    {
      UniqueClientIds(plans) && GoalsPointAtPlans(goals, |plans|) && ApprovalsConsistent(plans, approvals)
    }

    constructor ()
      ensures Valid() && plans == [] && goals == [] && approvals == []
    {
      plans, goals, approvals := [], [], [];
    }
  }
}
