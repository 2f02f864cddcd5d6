/**
 * The scheduler's appointment table and the `post_save` signal that copies a
 * newly created appointment into the therapy-session table when no session
 * with the same (client, staff, date, start, end) exists yet.
 */
module SchedulerModels {
  import opened Wrappers
  import opened Calendar
  import opened ApiModels
  import opened SessionModels

  /** A scheduled appointment (`scheduler.Session`). */
  datatype Schedule = Schedule(
    client: UserId,
    staff: Option<UserId>,
    treatmentPlan: Option<nat>,
    date: Date,
    start: int,
    end: int,
    notes: Option<string>)

  function ScheduleKey(s: Schedule): SlotKey {
    SlotKey(s.client, s.staff, s.date, s.start, s.end)
  }

  /**
   * `unique_together = ['staff', 'start_time', 'end_time']`: the date is not
   * part of the key, and a NULL staff never clashes.
   */
  predicate SameStaffTimes(a: Schedule, b: Schedule) {
    a.staff.Some? && a.staff == b.staff && a.start == b.start && a.end == b.end
  }

  predicate UniqueScheduleSlots(ss: seq<Schedule>) {
    forall i, j :: 0 <= i < j < |ss| ==> !SameStaffTimes(ss[i], ss[j])
  }

  predicate ScheduleClashes(ss: seq<Schedule>, s: Schedule) {
    exists i :: 0 <= i < |ss| && SameStaffTimes(ss[i], s)
  }

  /** Because the key has no date, one staff member cannot hold the same hours on two different days. */
  lemma SameHoursOtherDayClash(a: Schedule, b: Schedule)
    requires a.staff.Some? && a.staff == b.staff && a.start == b.start && a.end == b.end
    requires a.date != b.date
    ensures ScheduleClashes([a], b)
  {
    assert SameStaffTimes([a][0], b);
  }

  /** The therapy session the signal (and the sync command) creates for an appointment. */
  function TherapyFromSchedule(s: Schedule): TherapySession {
    TherapySession(s.client, s.staff, s.date, s.start, s.end, Scheduled,
      Some(s.notes.GetOr("")), Some("Scheduled Location"), Some("ABA"))
  }

  /** The copied session carries the appointment's slot and the scheduler's defaults. */
  lemma TherapyFromScheduleDefaults(s: Schedule)
    ensures var t := TherapyFromSchedule(s);
      KeyOf(t) == ScheduleKey(s) && t.status == Scheduled && t.status == DefaultSessionStatus
      && t.location == Some("Scheduled Location") && t.serviceType == Some("ABA")
      && (s.notes.Some? ==> t.notes == s.notes) && (s.notes.None? ==> t.notes == Some(""))
  {
  }

  /** `TherapySession.objects.filter(<the five columns>).exists()`. */
  predicate HasSlot(rows: seq<TherapySession>, key: SlotKey) {
    FindSlot(rows, key).Some?
  }

  lemma HasSlotMeans(rows: seq<TherapySession>, key: SlotKey)
    ensures HasSlot(rows, key) <==> exists i :: 0 <= i < |rows| && KeyOf(rows[i]) == key
  {
    if FindSlot(rows, key).None? {
      assert forall j :: 0 <= j < |rows| ==> KeyOf(rows[j]) != key;
    }
  }

  /** What one insert-if-absent does. */
  datatype Step = Created | Skipped | Rejected

  /**
   * Looks for a session with the appointment's five columns; inserts the
   * copy when there is none. The insert can still hit the therapy table's
   * unique constraint (same staff and hours, other client): `Rejected`.
   */
  function InsertIfAbsent(rows: seq<TherapySession>, s: Schedule): (r: (seq<TherapySession>, Step))
    ensures r.1 == Skipped <==> HasSlot(rows, ScheduleKey(s))
    ensures r.1 == Created <==> !HasSlot(rows, ScheduleKey(s)) && !Clashes(rows, TherapyFromSchedule(s))
    ensures r.1 == Created ==> r.0 == rows + [TherapyFromSchedule(s)]
    ensures r.1 != Created ==> r.0 == rows
    ensures UniqueStaffSlots(rows) ==> UniqueStaffSlots(r.0)
  {
    if HasSlot(rows, ScheduleKey(s)) then (rows, Skipped)
    else match InsertRow(rows, TherapyFromSchedule(s))
      case Some(next) => (next, Created)
      case None => (rows, Rejected)
  }

  /**
   * `create_therapy_session_from_schedule`: acts only when the appointment
   * was just created; any failure of the insert is swallowed.
   */
  function OnScheduleSaved(rows: seq<TherapySession>, s: Schedule, created: bool): (r: seq<TherapySession>)
    ensures !created ==> r == rows
    ensures r == rows || r == rows + [TherapyFromSchedule(s)]
    ensures r != rows <==> created && !HasSlot(rows, ScheduleKey(s)) && !Clashes(rows, TherapyFromSchedule(s))
    ensures UniqueStaffSlots(rows) ==> UniqueStaffSlots(r)
  {
    if created then InsertIfAbsent(rows, s).0 else rows
  }

  /** After the signal has run for a new appointment, a session with its five columns exists unless the insert was rejected. */
  lemma SignalLeavesSlot(rows: seq<TherapySession>, s: Schedule)
    requires !Clashes(rows, TherapyFromSchedule(s))
    ensures HasSlot(OnScheduleSaved(rows, s, true), ScheduleKey(s))
  {
    var r := OnScheduleSaved(rows, s, true);
    if r == rows {
      assert HasSlot(rows, ScheduleKey(s));
    } else {
      assert KeyOf(r[|rows|]) == ScheduleKey(s);
      HasSlotMeans(r, ScheduleKey(s));
    }
  }

  /** The appointment table. An appointment's id is its position plus one: ids start at 1. */
  class ScheduleTable {
    var schedules: seq<Schedule>

    ghost predicate Valid()
      reads this
    {
      UniqueScheduleSlots(schedules)
    }

    constructor ()
      ensures Valid() && schedules == []
    {
      schedules := [];
    }

    /** The appointment with the given id, when there is one. */
    function Lookup(id: int): (r: Option<Schedule>)
      reads this
      ensures r.Some? <==> 1 <= id <= |schedules|
      ensures r.Some? ==> r.value == schedules[id - 1]
    {
      if 1 <= id <= |schedules| then Some(schedules[id - 1]) else None
    }

    /**
     * Creating an appointment: the insert fails on the appointment table's
     * own constraint; otherwise the row is stored and the signal runs with
     * `created` set, and no outcome of the signal undoes the appointment.
     */
    method Create(therapy: SessionTable, s: Schedule) returns (ok: bool)
      requires Valid() && therapy.Valid()
      modifies this, therapy
      ensures Valid() && therapy.Valid()
      ensures ok <==> !ScheduleClashes(old(schedules), s)
      ensures ok ==> schedules == old(schedules) + [s]
      ensures ok ==> therapy.rows == OnScheduleSaved(old(therapy.rows), s, true)
      ensures !ok ==> schedules == old(schedules) && therapy.rows == old(therapy.rows)
      ensures therapy.timers == old(therapy.timers)
    {
      if exists i :: 0 <= i < |schedules| && SameStaffTimes(schedules[i], s) {
        ok := false;
        return;
      }
      ok := true;
      assert forall i :: 0 <= i < |schedules| ==> (schedules + [s])[i] == schedules[i];
      schedules := schedules + [s];
      if !HasSlot(therapy.rows, ScheduleKey(s)) {
        var id := therapy.Insert(TherapyFromSchedule(s));
      }
    }

    /** Saving an existing appointment: the signal sees `created` false and leaves the therapy table alone. */
    method Update(therapy: SessionTable, id: nat, s: Schedule) returns (ok: bool)
      requires Valid() && 1 <= id <= |schedules|
      modifies this
      ensures Valid()
      ensures ok <==> UniqueScheduleSlots(old(schedules)[id - 1 := s])
      ensures ok ==> schedules == old(schedules)[id - 1 := s]
      ensures !ok ==> schedules == old(schedules)
      ensures therapy.rows == old(therapy.rows)
    {
      if UniqueScheduleSlots(schedules[id - 1 := s]) {
        schedules := schedules[id - 1 := s];
        ok := true;
      } else {
        ok := false;
      }
    }
  }

  /** The scheduler's `TimeTracker` row: one per appointment, both instants optional. */
  datatype ScheduleTimeTracker = ScheduleTimeTracker(session: nat, start: Option<Timestamp>, end: Option<Timestamp>) {
    /** `duration`: the session app's minutes-between-instants rule. */
    function Duration(): real {
      IntervalMinutes(start, end)
    }
  }
}
