/**
 * The session app's views: the role/ownership permission checks, the timer
 * start/stop endpoint and the session status it drives, draft-or-submit,
 * starting a therapy session from an appointment, the auto-save rule for
 * generated notes, and the time-tracker summary.
 *
 * Sessions are identified by their position in the session table;
 * appointments by their position plus one. Response codes are the HTTP
 * status numbers the views return.
 */
module SessionViews {
  import opened Wrappers
  import opened Text
  import opened ApiModels
  import opened SessionModels
  import opened SessionSerializers
  import opened SchedulerModels

  // ---------------------------------------------------------------------
  // Permission checks

  predicate IsAdminRole(name: string) {
    name == "Admin" || name == "Superadmin"
  }

  predicate IsTherapistRole(name: string) {
    name == "RBT" || name == "BCBA"
  }

  const ClientRole: string := "Clients/Parent"

  /** `SessionTimerView._has_permission`. */
  predicate HasPermission(u: User, s: TherapySession) {
    u.role.Some? &&
    var name := u.role.value.name;
    IsAdminRole(name) || (IsTherapistRole(name) && s.staff == Some(u.id)) || (name == ClientRole && s.client == u.id)
  }

  /** The check shared by starting from an appointment and by both note endpoints. */
  predicate CanManage(u: User, staff: Option<UserId>) {
    u.role.Some? &&
    var name := u.role.value.name;
    IsAdminRole(name) || (IsTherapistRole(name) && staff == Some(u.id))
  }

  /** The check of `submit_session`: only the assigned RBT or BCBA; administrators are not exempt. */
  predicate CanSubmit(u: User, s: TherapySession) {
    u.role.Some? && IsTherapistRole(u.role.value.name) && s.staff == Some(u.id)
  }

  /**
   * How the three checks relate: submitting is the narrowest, managing
   * allows administrators as well, and the timer also admits the session's
   * own client. Nobody without a role passes any of them.
   */
  lemma PermissionLadder(u: User, s: TherapySession)
    ensures CanSubmit(u, s) ==> CanManage(u, s.staff)
    ensures CanManage(u, s.staff) ==> HasPermission(u, s)
    ensures u.role.None? ==> !HasPermission(u, s) && !CanManage(u, s.staff) && !CanSubmit(u, s)
    ensures u.role.Some? && IsAdminRole(u.role.value.name) ==> HasPermission(u, s) && CanManage(u, s.staff) && !CanSubmit(u, s)
    ensures u.HasRole(ClientRole) ==> (HasPermission(u, s) <==> s.client == u.id) && !CanManage(u, s.staff)
    ensures u.role.Some? && !IsAdminRole(u.role.value.name) && !IsTherapistRole(u.role.value.name) && u.role.value.name != ClientRole
      ==> !HasPermission(u, s)
  {
  }

  // ---------------------------------------------------------------------
  // Timer state machine

  /** One valid timer action at instant `now`: the new timer and the new session status. */
  function TimerStep(t: SessionTimer, status: SessionStatus, action: TimerAction, now: Timestamp): (SessionTimer, SessionStatus) {
    match action
    case Start =>
      if !t.isRunning then (t.(startTime := Some(now), isRunning := true), InProgress) else (t, status)
    case Stop =>
      if t.isRunning then
        var total := if t.startTime.Some? then t.totalDuration + (now - t.startTime.value) else t.totalDuration;
        (t.(endTime := Some(now), isRunning := false, totalDuration := total), Completed)
      else (t, status)
  }

  /** Starting a stopped timer stamps the start, runs it, and puts the session in progress from any status. */
  lemma StartStarts(t: SessionTimer, status: SessionStatus, now: Timestamp)
    requires !t.isRunning
    ensures var (t', st') := TimerStep(t, status, Start, now);
      t'.isRunning && t'.startTime == Some(now) && t'.endTime == t.endTime && t'.totalDuration == t.totalDuration
      && st' == InProgress
  {
  }

  /** Stopping a running timer stamps the end, adds the elapsed time when a start is known, and completes the session. */
  lemma StopAccumulates(t: SessionTimer, status: SessionStatus, now: Timestamp)
    requires t.isRunning
    ensures var (t', st') := TimerStep(t, status, Stop, now);
      !t'.isRunning && t'.endTime == Some(now) && t'.startTime == t.startTime && st' == Completed
      && (t.startTime.Some? ==> t'.totalDuration == t.totalDuration + (now - t.startTime.value))
      && (t.startTime.None? ==> t'.totalDuration == t.totalDuration)
      && CurrentDuration(t', now) == t'.totalDuration
  {
  }

  /** "start" on a running timer and "stop" on a stopped one change neither the timer nor the status. */
  lemma RepeatedActionIsNoOp(t: SessionTimer, status: SessionStatus, now: Timestamp)
    ensures t.isRunning ==> TimerStep(t, status, Start, now) == (t, status)
    ensures !t.isRunning ==> TimerStep(t, status, Stop, now) == (t, status)
  {
  }

  /** A running timer always knows when it started; the new timer and every step keep this. */
  predicate TimerConsistent(t: SessionTimer) {
    t.isRunning ==> t.startTime.Some?
  }

  lemma StepKeepsConsistent(t: SessionTimer, status: SessionStatus, action: TimerAction, now: Timestamp)
    requires TimerConsistent(t)
    ensures TimerConsistent(TimerStep(t, status, action, now).0)
    ensures TimerConsistent(NewTimer)
  {
  }

  /** While a started timer runs, `current_duration` shows only the current run, not what earlier runs accumulated. */
  lemma RunningShowsCurrentRunOnly(t: SessionTimer, status: SessionStatus, start: Timestamp, now: Timestamp)
    requires !t.isRunning
    ensures CurrentDuration(TimerStep(t, status, Start, start).0, now) == now - start
  {
  }

  datatype Run = Run(start: Timestamp, stop: Timestamp)

  /** Applying "start" then "stop" for each run in turn. */
  function ApplyRuns(t: SessionTimer, status: SessionStatus, runs: seq<Run>): (SessionTimer, SessionStatus)
    decreases |runs|
  {
    if runs == [] then (t, status)
    else
      var (t1, s1) := ApplyRuns(t, status, runs[..|runs| - 1]);
      var r := runs[|runs| - 1];
      var (t2, s2) := TimerStep(t1, s1, Start, r.start);
      TimerStep(t2, s2, Stop, r.stop)
  }

  function SumRuns(runs: seq<Run>): int
    decreases |runs|
  {
    if runs == [] then 0 else SumRuns(runs[..|runs| - 1]) + (runs[|runs| - 1].stop - runs[|runs| - 1].start)
  }

  /**
   * From a stopped timer, a sequence of start/stop pairs leaves the timer
   * stopped with the time of every run added to the total, and (after at
   * least one run) the session completed.
   */
  lemma {:induction false} RunsAccumulate(t: SessionTimer, status: SessionStatus, runs: seq<Run>)
    requires !t.isRunning
    ensures var (t', st') := ApplyRuns(t, status, runs);
      !t'.isRunning && t'.totalDuration == t.totalDuration + SumRuns(runs)
      && (runs != [] ==> st' == Completed)
    decreases |runs|
  {
    if runs != [] {
      RunsAccumulate(t, status, runs[..|runs| - 1]);
    }
  }

  /** The timer and session-status effect of one accepted request. */
  function TimerPostEffect(table: map<nat, SessionTimer>, s: TherapySession, id: nat, a: TimerAction, now: Timestamp): (SessionTimer, SessionStatus) {
    var timer := if id in table then table[id] else NewTimer;
    TimerStep(timer, s.status, a, now)
  }

  lemma StatusChangeKeepsUnique(rows: seq<TherapySession>, i: nat, st: SessionStatus)
    requires i < |rows| && UniqueStaffSlots(rows)
    ensures UniqueStaffSlots(rows[i := rows[i].(status := st)])
  {
    var next := rows[i := rows[i].(status := st)];
    forall a, b | 0 <= a < b < |next| ensures !SameStaffSlot(next[a], next[b]) {
      assert SameStaffSlot(next[a], next[b]) == SameStaffSlot(rows[a], rows[b]);
    }
  }

  lemma NotesChangeKeepsUnique(rows: seq<TherapySession>, i: nat, notes: string)
    requires i < |rows| && UniqueStaffSlots(rows)
    ensures UniqueStaffSlots(rows[i := rows[i].(notes := Some(notes))])
  {
    var next := rows[i := rows[i].(notes := Some(notes))];
    forall a, b | 0 <= a < b < |next| ensures !SameStaffSlot(next[a], next[b]) {
      assert SameStaffSlot(next[a], next[b]) == SameStaffSlot(rows[a], rows[b]);
    }
  }

  /**
   * `SessionTimerView.post`: 404 for an unknown session, 403 without
   * permission, 400 for an action other than "start"/"stop"; otherwise the
   * timer is fetched or created, stepped and saved, and the session gets the
   * status the step gives it.
   */
  method PostTimer(table: SessionTable, user: User, sessionId: int, action: string, now: Timestamp) returns (code: int)
    requires table.Valid()
    modifies table
    ensures table.Valid()
    ensures !(0 <= sessionId < |old(table.rows)|) ==> code == 404
    ensures 0 <= sessionId < |old(table.rows)| && !HasPermission(user, old(table.rows)[sessionId]) ==> code == 403
    ensures 0 <= sessionId < |old(table.rows)| && HasPermission(user, old(table.rows)[sessionId]) && ParseTimerAction(action).None? ==> code == 400
    ensures code != 200 ==> table.rows == old(table.rows) && table.timers == old(table.timers)
    ensures code == 200 <==> 0 <= sessionId < |old(table.rows)| && HasPermission(user, old(table.rows)[sessionId]) && ParseTimerAction(action).Some?
    ensures code == 200 ==>
      var (t', st') := TimerPostEffect(old(table.timers), old(table.rows)[sessionId], sessionId, ParseTimerAction(action).value, now);
      table.timers == old(table.timers)[sessionId := t'] && table.rows == old(table.rows)[sessionId := old(table.rows)[sessionId].(status := st')]
  {
    if !(0 <= sessionId < |table.rows|) {
      return 404;
    }
    var session := table.rows[sessionId];
    if !HasPermission(user, session) {
      return 403;
    }
    var a := ParseTimerAction(action);
    if a.None? {
      return 400;
    }
    var (timer, status) := TimerPostEffect(table.timers, session, sessionId, a.value, now);
    StatusChangeKeepsUnique(table.rows, sessionId, status);
    table.rows := table.rows[sessionId := session.(status := status)];
    table.timers := table.timers[sessionId := timer];
    code := 200;
  }

  // ---------------------------------------------------------------------
  // Draft or submit

  /**
   * `submit_session`: 400 when the request does not validate (unknown
   * session or submit type), 403 unless the caller is the session's RBT or
   * BCBA; "submit" completes the session, "draft" keeps its status.
   */
  method SubmitSession(table: SessionTable, user: User, sessionId: int, submitType: string) returns (code: int, status: Option<SessionStatus>)
    requires table.Valid()
    modifies table
    ensures table.Valid() && table.timers == old(table.timers)
    ensures ValidateSubmitRequest(|old(table.rows)|, sessionId, submitType).Failure? ==> code == 400
    ensures code != 200 ==> table.rows == old(table.rows) && status.None?
    ensures code == 200 <==> ValidateSubmitRequest(|old(table.rows)|, sessionId, submitType).Success? && CanSubmit(user, old(table.rows)[sessionId])
    ensures code == 403 <==> ValidateSubmitRequest(|old(table.rows)|, sessionId, submitType).Success? && !CanSubmit(user, old(table.rows)[sessionId])
    ensures code == 200 && ParseSubmitType(submitType) == Some(Submit) ==>
      table.rows == old(table.rows)[sessionId := old(table.rows)[sessionId].(status := Completed)] && status == Some(Completed)
    ensures code == 200 && ParseSubmitType(submitType) == Some(Draft) ==>
      table.rows == old(table.rows) && status == Some(old(table.rows)[sessionId].status)
  {
    var request := ValidateSubmitRequest(|table.rows|, sessionId, submitType);
    if request.Failure? {
      return 400, None;
    }
    var session := table.rows[sessionId];
    if !CanSubmit(user, session) {
      return 403, None;
    }
    if request.value.submitType == Submit {
      StatusChangeKeepsUnique(table.rows, sessionId, Completed);
      table.rows := table.rows[sessionId := session.(status := Completed)];
      return 200, Some(Completed);
    }
    return 200, Some(session.status);
  }

  // ---------------------------------------------------------------------
  // Starting a therapy session from an appointment

  /** The session `start_session_from_schedule` creates: in progress, with the request's location and service or their defaults. */
  function SessionFromSchedule(s: Schedule, location: Option<string>, serviceType: Option<string>): TherapySession {
    TherapySession(s.client, s.staff, s.date, s.start, s.end, InProgress,
      Some(s.notes.GetOr("")), Some(location.GetOr("Not specified")), Some(serviceType.GetOr("ABA")))
  }

  /** The timer created with it: running since now, nothing accumulated. */
  function StartedTimer(now: Timestamp): SessionTimer {
    SessionTimer(Some(now), None, true, 0)
  }

  /** The created session matches the appointment's five columns, is in progress, and its timer is running. */
  lemma SessionFromScheduleShape(s: Schedule, location: Option<string>, serviceType: Option<string>, now: Timestamp)
    ensures var t := SessionFromSchedule(s, location, serviceType);
      KeyOf(t) == ScheduleKey(s) && t.status == InProgress
      && (location.None? ==> t.location == Some("Not specified")) && (serviceType.None? ==> t.serviceType == Some("ABA"))
      && StartedTimer(now).isRunning && CurrentDuration(StartedTimer(now), now) == 0
  {
  }

  /**
   * `start_session_from_schedule`: 400 when `schedule_id` is missing or 0,
   * 404 when no such appointment exists, 403 unless the caller may manage
   * the appointment's staff; an existing session with the same five columns
   * is returned with 200 and nothing created; otherwise one in-progress
   * session and its running timer are created together (201), or neither
   * when the insert fails (500).
   */
  method StartFromSchedule(table: SessionTable, schedules: ScheduleTable, user: User, scheduleId: Option<int>,
                           location: Option<string>, serviceType: Option<string>, now: Timestamp)
    returns (code: int, session: Option<nat>)
    requires table.Valid()
    modifies table
    ensures table.Valid()
    ensures scheduleId.None? || scheduleId == Some(0) ==> code == 400
    ensures scheduleId.Some? && scheduleId != Some(0) && schedules.Lookup(scheduleId.value).None? ==> code == 404
    ensures code == 201 || code == 200 <==>
      scheduleId.Some? && scheduleId != Some(0) && schedules.Lookup(scheduleId.value).Some?
      && CanManage(user, schedules.Lookup(scheduleId.value).value.staff)
      && (HasSlot(old(table.rows), ScheduleKey(schedules.Lookup(scheduleId.value).value))
          || !Clashes(old(table.rows), SessionFromSchedule(schedules.Lookup(scheduleId.value).value, location, serviceType)))
    ensures code != 201 ==> table.rows == old(table.rows) && table.timers == old(table.timers)
    ensures code == 200 ==> session == FindSlot(old(table.rows), ScheduleKey(schedules.Lookup(scheduleId.value).value))
    ensures code == 201 ==>
      !HasSlot(old(table.rows), ScheduleKey(schedules.Lookup(scheduleId.value).value))
      && table.rows == old(table.rows) + [SessionFromSchedule(schedules.Lookup(scheduleId.value).value, location, serviceType)]
      && table.timers == old(table.timers)[|old(table.rows)| := StartedTimer(now)]
      && session == Some(|old(table.rows)|)
    ensures code == 403 ==> schedules.Lookup(scheduleId.value).Some? && !CanManage(user, schedules.Lookup(scheduleId.value).value.staff)
    ensures code == 500 <==>
      scheduleId.Some? && scheduleId != Some(0) && schedules.Lookup(scheduleId.value).Some?
      && CanManage(user, schedules.Lookup(scheduleId.value).value.staff)
      && !HasSlot(old(table.rows), ScheduleKey(schedules.Lookup(scheduleId.value).value))
      && Clashes(old(table.rows), SessionFromSchedule(schedules.Lookup(scheduleId.value).value, location, serviceType))
  {
    session := None;
    if scheduleId.None? || scheduleId.value == 0 {
      return 400, None;
    }
    var scheduled := schedules.Lookup(scheduleId.value);
    if scheduled.None? {
      return 404, None;
    }
    var s := scheduled.value;
    if !CanManage(user, s.staff) {
      return 403, None;
    }
    var existing := FindSlot(table.rows, ScheduleKey(s));
    if existing.Some? {
      return 200, existing;
    }
    var id := table.Insert(SessionFromSchedule(s, location, serviceType));
    if id.None? {
      return 500, None;
    }
    table.timers := table.timers[id.value := StartedTimer(now)];
    return 201, id;
  }

  /**
   * Together with the scheduler signal: once a new appointment has been
   * created and its scheduled copy inserted, starting a session from it
   * finds that copy (still "scheduled") and returns it with 200, so it
   * creates no in-progress session and starts no timer.
   */
  lemma SignalPreemptsStart(rows: seq<TherapySession>, s: Schedule)
    requires !HasSlot(rows, ScheduleKey(s)) && !Clashes(rows, TherapyFromSchedule(s))
    ensures var after := OnScheduleSaved(rows, s, true);
      FindSlot(after, ScheduleKey(s)) == Some(|rows|) && after[|rows|].status == Scheduled
  {
    var after := OnScheduleSaved(rows, s, true);
    assert after == rows + [TherapyFromSchedule(s)];
    assert KeyOf(after[|rows|]) == ScheduleKey(s);
    assert forall j :: 0 <= j < |rows| ==> after[j] == rows[j];
  }

  // ---------------------------------------------------------------------
  // Generated notes

  const AiErrorPrefix: string := "AI error"

  /** The failure texts of the notes generator. */
  const KeyMissingText: string := "AI error: OpenAI API key not configured"

  function GeneratorErrorText(detail: string): string {
    "AI error generating session notes: " + detail
  }

  /** `auto_save` as read from the request, with the endpoint's default when absent. */
  function AutoSaveFlag(flag: Option<bool>, endpointDefault: bool): bool {
    flag.GetOr(endpointDefault)
  }

  const SaveAndGenerateDefault: bool := true
  const GenerateOnlyDefault: bool := false

  /** Notes are stored exactly when auto-save is on and the text is not an error report. */
  predicate SavesNotes(autoSave: bool, generated: string) {
    autoSave && !StartsWith(generated, AiErrorPrefix)
  }

  /** Neither failure text of the generator is ever saved, whatever the flag. */
  lemma GeneratorFailuresNeverSaved(autoSave: bool, detail: string)
    ensures !SavesNotes(autoSave, KeyMissingText)
    ensures !SavesNotes(autoSave, GeneratorErrorText(detail))
  {
    assert KeyMissingText[..|AiErrorPrefix|] == AiErrorPrefix;
    assert GeneratorErrorText(detail)[..|AiErrorPrefix|] == AiErrorPrefix;
  }

  /** Without a flag, save-and-generate stores a good text and generate-only does not. */
  lemma DefaultsDiffer(generated: string)
    requires !StartsWith(generated, AiErrorPrefix)
    ensures SavesNotes(AutoSaveFlag(None, SaveAndGenerateDefault), generated)
    ensures !SavesNotes(AutoSaveFlag(None, GenerateOnlyDefault), generated)
  {
  }

  /**
   * What the `try` around the generator ends with: the generated text, an
   * `ImportError` for a missing `ocean.utils`, or another exception (a reply
   * without content, say, on which `startswith` fails).
   */
  datatype Generation = Notes(text: string) | ModuleMissing | Raised

  /**
   * The common tail of `save_session_data_and_generate_notes` and
   * `generate_ai_session_notes`: 404, then the manage check (403), then a
   * collection step that may raise (500, uncaught), then the generator (500
   * when it raises); a generated text is stored as the session notes when
   * the rule allows.
   */
  method ApplyGeneratedNotes(table: SessionTable, user: User, sessionId: int, flag: Option<bool>, endpointDefault: bool,
                             collectionFails: bool, generation: Generation)
    returns (code: int, autoSaved: bool)
    requires table.Valid()
    modifies table
    ensures table.Valid() && table.timers == old(table.timers)
    ensures !(0 <= sessionId < |old(table.rows)|) ==> code == 404 && !autoSaved
    ensures 0 <= sessionId < |old(table.rows)| && !CanManage(user, old(table.rows)[sessionId].staff) ==> code == 403 && !autoSaved
    ensures code == 500 <==> (0 <= sessionId < |old(table.rows)| && CanManage(user, old(table.rows)[sessionId].staff)
      && (collectionFails || !generation.Notes?))
    ensures code == 200 <==> (0 <= sessionId < |old(table.rows)| && CanManage(user, old(table.rows)[sessionId].staff)
      && !collectionFails && generation.Notes?)
    ensures code == 200 ==> autoSaved == SavesNotes(AutoSaveFlag(flag, endpointDefault), generation.text)
    ensures autoSaved ==> code == 200 && table.rows == old(table.rows)[sessionId := old(table.rows)[sessionId].(notes := Some(generation.text))]
    ensures !autoSaved ==> table.rows == old(table.rows)
  {
    if !(0 <= sessionId < |table.rows|) {
      return 404, false;
    }
    var session := table.rows[sessionId];
    if !CanManage(user, session.staff) {
      return 403, false;
    }
    if collectionFails || !generation.Notes? {
      return 500, false;
    }
    autoSaved := SavesNotes(AutoSaveFlag(flag, endpointDefault), generation.text);
    if autoSaved {
      NotesChangeKeepsUnique(table.rows, sessionId, generation.text);
      table.rows := table.rows[sessionId := session.(notes := Some(generation.text))];
    }
    code := 200;
  }

  /**
   * The auto-mode collection of `generate_ai_session_notes` as written: it
   * runs when the request carries none of the six payload keys, outside the
   * `try`, and reads columns the detail models do not have (an activity's
   * `description` and `client_response`, a goal's `goal_name`, an event's
   * `time`, a strategy's `description`, an incident's `time`), so it raises
   * as soon as the session has one activity, goal-progress, ABC-event,
   * strategy or incident row.
   */
  predicate CollectionFailsAsWritten(manual: bool, detailRows: nat) {
    !manual && detailRows > 0
  }

  /**
   * The session-data dictionary both endpoints build reads the staff's
   * `name` or, failing that, `username`; on a session whose staff was cleared
   * (the foreign key is nullable and set to NULL on delete) the read of
   * `username` on `None` raises.
   */
  predicate StaffMissing(rows: seq<TherapySession>, sessionId: int) {
    0 <= sessionId < |rows| && rows[sessionId].staff.None?
  }

  /**
   * `save_session_data_and_generate_notes` after its rows are stored: its
   * collection reads existing columns only, but it is inside the `try`, so a
   * session without staff gets 500 and nothing stored; `auto_save` defaults
   * to true.
   */
  method SaveAndGenerateNotes(table: SessionTable, user: User, sessionId: int, flag: Option<bool>, generation: Generation)
    returns (code: int, autoSaved: bool)
    requires table.Valid()
    modifies table
    ensures table.Valid() && table.timers == old(table.timers)
    ensures 0 <= sessionId < |old(table.rows)| && CanManage(user, old(table.rows)[sessionId].staff) && old(table.rows)[sessionId].staff.None?
      ==> code == 500 && !autoSaved && table.rows == old(table.rows)
    ensures code == 200 <==> (0 <= sessionId < |old(table.rows)| && CanManage(user, old(table.rows)[sessionId].staff)
      && old(table.rows)[sessionId].staff.Some? && generation.Notes?)
    ensures code == 200 ==> autoSaved == SavesNotes(AutoSaveFlag(flag, SaveAndGenerateDefault), generation.text)
    ensures autoSaved ==> code == 200 && table.rows == old(table.rows)[sessionId := old(table.rows)[sessionId].(notes := Some(generation.text))]
    ensures !autoSaved ==> table.rows == old(table.rows)
  {
    code, autoSaved := ApplyGeneratedNotes(table, user, sessionId, flag, SaveAndGenerateDefault,
                                           StaffMissing(table.rows, sessionId), generation);
  }

  /**
   * `generate_ai_session_notes` as written: a session without staff gets 500
   * in either mode, and in auto mode so does a session with a detail row;
   * nothing is stored then, whatever the generator says.
   */
  method GenerateNotesAsWritten(table: SessionTable, user: User, sessionId: int, manual: bool, detailRows: nat, flag: Option<bool>, generation: Generation)
    returns (code: int, autoSaved: bool)
    requires table.Valid()
    modifies table
    ensures table.Valid() && table.timers == old(table.timers)
    ensures 0 <= sessionId < |old(table.rows)| && CanManage(user, old(table.rows)[sessionId].staff) && !manual && detailRows > 0
      ==> code == 500 && !autoSaved && table.rows == old(table.rows)
    ensures 0 <= sessionId < |old(table.rows)| && CanManage(user, old(table.rows)[sessionId].staff) && old(table.rows)[sessionId].staff.None?
      ==> code == 500 && !autoSaved && table.rows == old(table.rows)
    ensures code == 200 <==> (0 <= sessionId < |old(table.rows)| && CanManage(user, old(table.rows)[sessionId].staff)
      && old(table.rows)[sessionId].staff.Some? && (manual || detailRows == 0) && generation.Notes?)
    ensures !autoSaved ==> table.rows == old(table.rows)
  {
    code, autoSaved := ApplyGeneratedNotes(table, user, sessionId, flag, GenerateOnlyDefault,
                                           StaffMissing(table.rows, sessionId) || CollectionFailsAsWritten(manual, detailRows), generation);
  }

  /**
   * `generate_ai_session_notes` with the collection reading the detail
   * models' own columns: whatever the mode and the rows, a permitted caller
   * gets 200 on a generated text unless the session has no staff, which
   * still ends in 500; `auto_save` defaults to false.
   */
  method GenerateNotes(table: SessionTable, user: User, sessionId: int, flag: Option<bool>, generation: Generation)
    returns (code: int, autoSaved: bool)
    requires table.Valid()
    modifies table
    ensures table.Valid() && table.timers == old(table.timers)
    ensures 0 <= sessionId < |old(table.rows)| && CanManage(user, old(table.rows)[sessionId].staff) && old(table.rows)[sessionId].staff.None?
      ==> code == 500 && !autoSaved && table.rows == old(table.rows)
    ensures code == 200 <==> (0 <= sessionId < |old(table.rows)| && CanManage(user, old(table.rows)[sessionId].staff)
      && old(table.rows)[sessionId].staff.Some? && generation.Notes?)
    ensures code == 200 ==> autoSaved == SavesNotes(AutoSaveFlag(flag, GenerateOnlyDefault), generation.text)
    ensures autoSaved ==> code == 200 && table.rows == old(table.rows)[sessionId := old(table.rows)[sessionId].(notes := Some(generation.text))]
    ensures !autoSaved ==> table.rows == old(table.rows)
  {
    code, autoSaved := ApplyGeneratedNotes(table, user, sessionId, flag, GenerateOnlyDefault,
                                           StaffMissing(table.rows, sessionId), generation);
  }

  // ---------------------------------------------------------------------
  // Time-tracker summary

  /** `get_time_type_display`: the label of a known type, the stored value otherwise. */
  function TimeTypeLabel(t: string): string {
    if t == "direct" then "Direct Therapy"
    else if t == "indirect" then "Indirect Therapy"
    else if t == "supervision" then "Supervision"
    else if t == "documentation" then "Documentation"
    else if t == "travel" then "Travel Time"
    else if t == "training" then "Training"
    else if t == "meeting" then "Meeting"
    else t
  }

  /** The UTC calendar day (days since the epoch) of an instant. */
  function DayOf(t: Timestamp): int {
    t / 86400
  }

  /** The role filter: therapists see entries of their sessions or entries they wrote; clients see entries of their sessions; everyone else sees all. */
  predicate SeesEntry(u: User, e: TimeEntry, sessions: seq<TherapySession>)
    requires e.session < |sessions|
  {
    match u.RoleName()
    case None => true
    case Some(name) =>
      if IsTherapistRole(name) then sessions[e.session].staff == Some(u.id) || e.createdBy == u.id
      else if name == ClientRole then sessions[e.session].client == u.id
      else true
  }

  /** The optional `start_date` / `end_date` bounds, on the day of the entry's start. */
  predicate InDateRange(e: TimeEntry, startDay: Option<int>, endDay: Option<int>) {
    (startDay.Some? ==> e.start.Some? && DayOf(e.start.value) >= startDay.value)
    && (endDay.Some? ==> e.start.Some? && DayOf(e.start.value) <= endDay.value)
  }

  predicate EntriesInTable(entries: seq<TimeEntry>, sessions: seq<TherapySession>) {
    forall i :: 0 <= i < |entries| ==> entries[i].session < |sessions|
  }

  /** The filtered queryset, in the queryset's order. */
  function SummaryQuery(entries: seq<TimeEntry>, sessions: seq<TherapySession>, u: User, startDay: Option<int>, endDay: Option<int>): (r: seq<TimeEntry>)
    requires EntriesInTable(entries, sessions)
    ensures EntriesInTable(r, sessions)
    ensures forall e :: e in r ==> e in entries && SeesEntry(u, e, sessions) && InDateRange(e, startDay, endDay)
    ensures forall i :: 0 <= i < |entries| && SeesEntry(u, entries[i], sessions) && InDateRange(entries[i], startDay, endDay) ==> entries[i] in r
    decreases |entries|
  {
    if entries == [] then []
    else
      var rest := SummaryQuery(entries[1..], sessions, u, startDay, endDay);
      assert forall i :: 1 <= i < |entries| ==> entries[i] == entries[1..][i - 1];
      if SeesEntry(u, entries[0], sessions) && InDateRange(entries[0], startDay, endDay) then [entries[0]] + rest else rest
  }

  /** One entry of `time_type_summary`. */
  datatype Bucket = Bucket(timeType: string, count: nat, totalMinutes: real, displayName: string)

  function FindBucket(bs: seq<Bucket>, t: string): (r: Option<nat>)
    ensures r.Some? ==> r.value < |bs| && bs[r.value].timeType == t
    ensures r.None? ==> forall i :: 0 <= i < |bs| ==> bs[i].timeType != t
    decreases |bs|
  {
    if bs == [] then None
    else if bs[|bs| - 1].timeType == t then Some(|bs| - 1)
    else FindBucket(bs[..|bs| - 1], t)
  }

  /** One pass of the grouping loop: bump the entry's bucket, or add it at the end with count 1. */
  function AddToBuckets(bs: seq<Bucket>, e: TimeEntry): seq<Bucket> {
    match FindBucket(bs, e.timeType)
    case Some(i) => bs[i := bs[i].(count := bs[i].count + 1, totalMinutes := bs[i].totalMinutes + e.Duration())]
    case None => bs + [Bucket(e.timeType, 1, e.Duration(), TimeTypeLabel(e.timeType))]
  }

  /** The buckets after the loop has seen `es`. */
  function Buckets(es: seq<TimeEntry>): seq<Bucket>
    decreases |es|
  {
    if es == [] then [] else AddToBuckets(Buckets(es[..|es| - 1]), es[|es| - 1])
  }

  function CountOfType(es: seq<TimeEntry>, t: string): nat
    decreases |es|
  {
    if es == [] then 0 else CountOfType(es[..|es| - 1], t) + (if es[|es| - 1].timeType == t then 1 else 0)
  }

  function MinutesOfType(es: seq<TimeEntry>, t: string): real
    decreases |es|
  {
    if es == [] then 0.0 else MinutesOfType(es[..|es| - 1], t) + (if es[|es| - 1].timeType == t then es[|es| - 1].Duration() else 0.0)
  }

  /** `sum(entry.duration for entry in queryset)`. */
  function TotalMinutes(es: seq<TimeEntry>): real
    decreases |es|
  {
    if es == [] then 0.0 else TotalMinutes(es[..|es| - 1]) + es[|es| - 1].Duration()
  }

  function SumCounts(bs: seq<Bucket>): nat
    decreases |bs|
  {
    if bs == [] then 0 else SumCounts(bs[..|bs| - 1]) + bs[|bs| - 1].count
  }

  function SumMinutes(bs: seq<Bucket>): real
    decreases |bs|
  {
    if bs == [] then 0.0 else SumMinutes(bs[..|bs| - 1]) + bs[|bs| - 1].totalMinutes
  }

  predicate DistinctTypes(bs: seq<Bucket>) {
    forall i, j :: 0 <= i < j < |bs| ==> bs[i].timeType != bs[j].timeType
  }

  lemma {:induction false} SumsAfterUpdate(bs: seq<Bucket>, i: nat, b: Bucket)
    requires i < |bs|
    ensures SumCounts(bs[i := b]) == SumCounts(bs) - bs[i].count + b.count
    ensures SumMinutes(bs[i := b]) == SumMinutes(bs) - bs[i].totalMinutes + b.totalMinutes
    decreases |bs|
  {
    var next := bs[i := b];
    if i < |bs| - 1 {
      assert next[..|next| - 1] == bs[..|bs| - 1][i := b];
      SumsAfterUpdate(bs[..|bs| - 1], i, b);
    } else {
      assert next[..|next| - 1] == bs[..|bs| - 1];
    }
  }

  lemma SumsAfterAppend(bs: seq<Bucket>, b: Bucket)
    ensures SumCounts(bs + [b]) == SumCounts(bs) + b.count
    ensures SumMinutes(bs + [b]) == SumMinutes(bs) + b.totalMinutes
  {
    assert (bs + [b])[..|bs|] == bs;
  }

  /** The search depends only on the buckets' types, in order. */
  lemma {:induction false} FindBucketByTypes(a: seq<Bucket>, b: seq<Bucket>, t: string)
    requires |a| == |b| && forall i :: 0 <= i < |a| ==> a[i].timeType == b[i].timeType
    ensures FindBucket(a, t) == FindBucket(b, t)
    decreases |a|
  {
    if a != [] {
      FindBucketByTypes(a[..|a| - 1], b[..|b| - 1], t);
    }
  }

  /** No type has two buckets, and every bucket carries its type's label. */
  lemma {:induction false} BucketsDistinct(es: seq<TimeEntry>)
    ensures DistinctTypes(Buckets(es))
    ensures forall i :: 0 <= i < |Buckets(es)| ==> Buckets(es)[i].displayName == TimeTypeLabel(Buckets(es)[i].timeType)
    decreases |es|
  {
    if es != [] {
      var init := es[..|es| - 1];
      var e := es[|es| - 1];
      BucketsDistinct(init);
      var prev := Buckets(init);
      match FindBucket(prev, e.timeType)
      case Some(j) =>
        assert Buckets(es) == prev[j := prev[j].(count := prev[j].count + 1, totalMinutes := prev[j].totalMinutes + e.Duration())];
      case None =>
        assert Buckets(es) == prev + [Bucket(e.timeType, 1, e.Duration(), TimeTypeLabel(e.timeType))];
    }
  }

  lemma {:induction false} CountOfPresent(es: seq<TimeEntry>, k: nat)
    requires k < |es|
    ensures CountOfType(es, es[k].timeType) > 0
    decreases |es|
  {
    if k < |es| - 1 {
      assert es[..|es| - 1][k] == es[k];
      CountOfPresent(es[..|es| - 1], k);
    }
  }

  /** A type has a bucket exactly when some entry has that type. */
  lemma {:induction false} BucketsCover(es: seq<TimeEntry>)
    ensures forall t :: FindBucket(Buckets(es), t).Some? <==> CountOfType(es, t) > 0
    decreases |es|
  {
    if es != [] {
      var init := es[..|es| - 1];
      var e := es[|es| - 1];
      BucketsCover(init);
      var prev := Buckets(init);
      var bs := Buckets(es);
      match FindBucket(prev, e.timeType)
      case Some(j) =>
        assert bs == prev[j := prev[j].(count := prev[j].count + 1, totalMinutes := prev[j].totalMinutes + e.Duration())];
        forall t ensures FindBucket(bs, t).Some? <==> CountOfType(es, t) > 0 {
          FindBucketByTypes(bs, prev, t);
        }
      case None =>
        assert bs == prev + [Bucket(e.timeType, 1, e.Duration(), TimeTypeLabel(e.timeType))];
        assert bs[..|bs| - 1] == prev;
    }
  }

  /** Each bucket holds the number of entries of its type and their summed duration. */
  lemma {:induction false} BucketsCount(es: seq<TimeEntry>)
    ensures forall i :: 0 <= i < |Buckets(es)| ==>
      Buckets(es)[i].count == CountOfType(es, Buckets(es)[i].timeType)
      && Buckets(es)[i].totalMinutes == MinutesOfType(es, Buckets(es)[i].timeType)
    decreases |es|
  {
    if es != [] {
      var init := es[..|es| - 1];
      var e := es[|es| - 1];
      BucketsCount(init);
      BucketsDistinct(init);
      var prev := Buckets(init);
      var bs := Buckets(es);
      match FindBucket(prev, e.timeType)
      case Some(j) =>
        assert bs == prev[j := prev[j].(count := prev[j].count + 1, totalMinutes := prev[j].totalMinutes + e.Duration())];
        forall i | 0 <= i < |bs|
          ensures bs[i].count == CountOfType(es, bs[i].timeType) && bs[i].totalMinutes == MinutesOfType(es, bs[i].timeType)
        {
          if i != j {
            assert prev[i].timeType != prev[j].timeType;
          }
        }
      case None =>
        assert bs == prev + [Bucket(e.timeType, 1, e.Duration(), TimeTypeLabel(e.timeType))];
        BucketsCover(init);
        MinutesOfAbsentType(init, e.timeType);
    }
  }

  /**
   * The buckets describe the entries exactly: one bucket per type that
   * occurs (no type twice, none for a type that does not occur), each
   * holding the number of entries of its type, at least one, and their
   * summed duration, under the type's label.
   */
  lemma BucketsDescribeEntries(es: seq<TimeEntry>)
    ensures var bs := Buckets(es);
      DistinctTypes(bs)
      && (forall i :: 0 <= i < |bs| ==>
            bs[i].count == CountOfType(es, bs[i].timeType) && bs[i].count >= 1
            && bs[i].totalMinutes == MinutesOfType(es, bs[i].timeType)
            && bs[i].displayName == TimeTypeLabel(bs[i].timeType))
      && (forall k :: 0 <= k < |es| ==> FindBucket(bs, es[k].timeType).Some?)
      && (forall t :: FindBucket(bs, t).None? ==> CountOfType(es, t) == 0)
  {
    var bs := Buckets(es);
    BucketsDistinct(es);
    BucketsCount(es);
    BucketsCover(es);
    forall k | 0 <= k < |es| ensures FindBucket(bs, es[k].timeType).Some? {
      CountOfPresent(es, k);
    }
    forall i | 0 <= i < |bs| ensures bs[i].count >= 1 {
      assert FindBucket(bs, bs[i].timeType).Some?;
    }
  }

  lemma {:induction false} MinutesOfAbsentType(es: seq<TimeEntry>, t: string)
    requires CountOfType(es, t) == 0
    ensures MinutesOfType(es, t) == 0.0
    decreases |es|
  {
    if es != [] {
      MinutesOfAbsentType(es[..|es| - 1], t);
    }
  }

  /** The per-type counts add up to `total_entries`, and the per-type durations to the total duration. */
  lemma {:induction false} BucketTotals(es: seq<TimeEntry>)
    ensures SumCounts(Buckets(es)) == |es|
    ensures SumMinutes(Buckets(es)) == TotalMinutes(es)
    decreases |es|
  {
    if es != [] {
      var init := es[..|es| - 1];
      var e := es[|es| - 1];
      BucketTotals(init);
      var prev := Buckets(init);
      assert Buckets(es) == AddToBuckets(prev, e);
      assert TotalMinutes(es) == TotalMinutes(init) + e.Duration();
      match FindBucket(prev, e.timeType)
      case Some(j) =>
        var b := prev[j].(count := prev[j].count + 1, totalMinutes := prev[j].totalMinutes + e.Duration());
        assert AddToBuckets(prev, e) == prev[j := b];
        SumsAfterUpdate(prev, j, b);
      case None =>
        var b := Bucket(e.timeType, 1, e.Duration(), TimeTypeLabel(e.timeType));
        assert AddToBuckets(prev, e) == prev + [b];
        SumsAfterAppend(prev, b);
    }
  }

  datatype SummaryReport = SummaryReport(totalEntries: nat, totalMinutes: real, totalDisplay: string, buckets: seq<Bucket>)

  /**
   * `time_tracker_summary`: filter, then count, sum and group in one pass
   * over the filtered entries.
   */
  method TimeTrackerSummary(entries: seq<TimeEntry>, sessions: seq<TherapySession>, user: User, startDay: Option<int>, endDay: Option<int>)
    returns (report: SummaryReport)
    requires EntriesInTable(entries, sessions)
    ensures var q := SummaryQuery(entries, sessions, user, startDay, endDay);
      report.totalEntries == |q| && report.totalMinutes == TotalMinutes(q) && report.buckets == Buckets(q)
      && SumCounts(report.buckets) == report.totalEntries
      && report.totalDisplay == HoursMinutes(report.totalMinutes)
  {
    var q := SummaryQuery(entries, sessions, user, startDay, endDay);
    var total := 0.0;
    var buckets: seq<Bucket> := [];
    var i := 0;
    while i < |q|
      invariant 0 <= i <= |q|
      invariant total == TotalMinutes(q[..i])
      invariant buckets == Buckets(q[..i])
      decreases |q| - i
    {
      assert q[..i + 1][..i] == q[..i];
      var e := q[i];
      total := total + e.Duration();
      buckets := AddToBuckets(buckets, e);
      i := i + 1;
    }
    assert q[..i] == q;
    BucketTotals(q);
    report := SummaryReport(|q|, total, HoursMinutes(total), buckets);
  }
}
