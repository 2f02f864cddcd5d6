/**
 * The therapy-session app's models: the session record and its status, the
 * one-to-one session timer, manual time-tracker entries with their
 * interval check and HH:MM display, and the session table with its
 * uniqueness constraint.
 *
 * Instants are integer seconds since the epoch; times of day are integer
 * seconds since midnight. Durations that the source turns into float
 * minutes are exact `real` minutes here.
 */
module SessionModels {
  import opened Wrappers
  import opened Text
  import opened Calendar
  import opened ApiModels

  // ---------------------------------------------------------------------
  // Session status

  datatype SessionStatus = Scheduled | InProgress | Completed | Cancelled {
    /** The value stored in the `status` column. */
    function Code(): string {
      match this
      case Scheduled => "scheduled"
      case InProgress => "in_progress"
      case Completed => "completed"
      case Cancelled => "cancelled"
    }
  }

  /** A new session row gets this status when none is given. */
  const DefaultSessionStatus: SessionStatus := Scheduled

  /** The choice field: a stored code names exactly one of the four statuses. */
  function ParseStatus(code: string): (r: Option<SessionStatus>)
    ensures r.Some? ==> r.value.Code() == code
    ensures r.None? ==> forall st: SessionStatus :: st.Code() != code
  {
    if code == "scheduled" then Some(Scheduled)
    else if code == "in_progress" then Some(InProgress)
    else if code == "completed" then Some(Completed)
    else if code == "cancelled" then Some(Cancelled)
    else None
  }

  /** Reading back a stored status code gives the status that was stored. */
  lemma ParseStatusCode(st: SessionStatus)
    ensures ParseStatus(st.Code()) == Some(st)
  {
  }

  // ---------------------------------------------------------------------
  // Session record

  datatype TherapySession = TherapySession(
    client: UserId,
    staff: Option<UserId>,
    date: Date,
    start: int,
    end: int,
    status: SessionStatus,
    notes: Option<string>,
    location: Option<string>,
    serviceType: Option<string>)

  /** The five columns on which a schedule is matched to a therapy session. */
  datatype SlotKey = SlotKey(client: UserId, staff: Option<UserId>, date: Date, start: int, end: int)

  function KeyOf(s: TherapySession): SlotKey {
    SlotKey(s.client, s.staff, s.date, s.start, s.end)
  }

  /**
   * `unique_together = ['staff', 'session_date', 'start_time', 'end_time']`:
   * two rows clash when they agree on those columns. A NULL staff never
   * clashes, as in SQL.
   */
  predicate SameStaffSlot(a: TherapySession, b: TherapySession) {
    a.staff.Some? && a.staff == b.staff && a.date == b.date && a.start == b.start && a.end == b.end
  }

  predicate UniqueStaffSlots(rows: seq<TherapySession>) {
    forall i, j :: 0 <= i < j < |rows| ==> !SameStaffSlot(rows[i], rows[j])
  }

  predicate Clashes(rows: seq<TherapySession>, s: TherapySession) {
    exists i :: 0 <= i < |rows| && SameStaffSlot(rows[i], s)
  }

  /** The database insert: an `IntegrityError` (`None`) when the row clashes. */
  function InsertRow(rows: seq<TherapySession>, s: TherapySession): (r: Option<seq<TherapySession>>)
    ensures r.None? <==> Clashes(rows, s)
    ensures r.Some? ==> r.value == rows + [s]
    ensures UniqueStaffSlots(rows) && r.Some? ==> UniqueStaffSlots(r.value)
  {
    if Clashes(rows, s) then None
    else
      var next := rows + [s];
      assert forall i :: 0 <= i < |rows| ==> next[i] == rows[i];
      Some(next)
  }

  /** `filter(client=…, staff=…, session_date=…, start_time=…, end_time=…).first()`: the first matching row. */
  function FindSlot(rows: seq<TherapySession>, key: SlotKey): (r: Option<nat>)
    ensures r.Some? ==> r.value < |rows| && KeyOf(rows[r.value]) == key
    ensures r.Some? ==> forall j :: 0 <= j < r.value ==> KeyOf(rows[j]) != key
    ensures r.None? ==> forall j :: 0 <= j < |rows| ==> KeyOf(rows[j]) != key
  {
    if rows == [] then None
    else if KeyOf(rows[0]) == key then Some(0)
    else
      var rest := FindSlot(rows[1..], key);
      if rest.Some? then Some(rest.value + 1) else None
  }

  // ---------------------------------------------------------------------
  // Session timer

  /** The `SessionTimer` row. `get_or_create` makes a stopped timer with nothing recorded. */
  datatype SessionTimer = SessionTimer(
    startTime: Option<Timestamp>,
    endTime: Option<Timestamp>,
    isRunning: bool,
    totalDuration: int)

  const NewTimer: SessionTimer := SessionTimer(None, None, false, 0)

  /**
   * `current_duration`: while running with a start time, the time since that
   * start (the accumulated total is NOT added); otherwise the accumulated total.
   */
  function CurrentDuration(t: SessionTimer, now: Timestamp): (d: int)
    ensures t.isRunning && t.startTime.Some? ==> d + t.startTime.value == now
    ensures !(t.isRunning && t.startTime.Some?) ==> d == t.totalDuration
  {
    if t.startTime.Some? && t.isRunning then now - t.startTime.value else t.totalDuration
  }

  // ---------------------------------------------------------------------
  // Activities

  /** `duration_minutes` carries validators for the range 1..480. */
  predicate ValidActivityMinutes(m: int) {
    1 <= m <= 480
  }

  // ---------------------------------------------------------------------
  // Time-tracker entries

  datatype TimeEntry = TimeEntry(
    session: nat,
    timeType: string,
    start: Option<Timestamp>,
    end: Option<Timestamp>,
    description: Option<string>,
    createdBy: UserId)
  {
    /** `duration`: minutes between the two instants, or 0 when either is missing. */
    function Duration(): real {
      IntervalMinutes(start, end)
    }

    /** `duration_display`: the duration as "HH:MM". */
    function DurationDisplay(): string {
      HoursMinutes(Duration())
    }
  }

  /** Minutes between two optional instants; 0 unless both are set. */
  function IntervalMinutes(start: Option<Timestamp>, end: Option<Timestamp>): (m: real)
    ensures start.None? || end.None? ==> m == 0.0
    ensures start.Some? && end.Some? ==> m * 60.0 == (end.value - start.value) as real
  {
    if start.Some? && end.Some? then (end.value - start.value) as real / 60.0 else 0.0
  }

  /** Python's `m // 60` on a float number of minutes. */
  function WholeHours(m: real): int {
    (m / 60.0).Floor
  }

  /** Python's `int(m % 60)`: the whole minutes past the last full hour. */
  function MinutesPastHour(m: real): int {
    (m - 60.0 * WholeHours(m) as real).Floor
  }

  /** `f"{int(m // 60):02d}:{int(m % 60):02d}"`. */
  function HoursMinutes(m: real): string {
    FormatInt(WholeHours(m), 2) + ":" + FormatInt(MinutesPastHour(m), 2)
  }

  /**
   * The two fields of the display split the whole minutes of `m`: the
   * minutes field lies in 0..59 and hours * 60 + minutes is `m` rounded down.
   */
  lemma HoursMinutesSplit(m: real)
    ensures 0 <= MinutesPastHour(m) < 60
    ensures WholeHours(m) * 60 + MinutesPastHour(m) == m.Floor
  {
    var h := WholeHours(m);
    assert h as real <= m / 60.0 < h as real + 1.0;
    assert 0.0 <= m - 60.0 * h as real < 60.0;
    var k := MinutesPastHour(m);
    assert k as real <= m - 60.0 * h as real < k as real + 1.0;
    assert (h * 60 + k) as real <= m < (h * 60 + k) as real + 1.0;
  }

  lemma OneOrTwoDigits(n: nat)
    ensures n < 10 ==> |NatToString(n)| == 1
    ensures 10 <= n < 100 ==> |NatToString(n)| == 2
  {
  }

  /**
   * For a duration under 100 hours the display is exactly "HH:MM", and its
   * two digit pairs read back as the whole hours and the minutes past the hour.
   */
  lemma HoursMinutesReadBack(m: real)
    requires 0.0 <= m < 6000.0
    ensures var d := HoursMinutes(m);
      |d| == 5 && d[2] == ':' && AllDigits(d[..2]) && AllDigits(d[3..])
      && DigitsValue(d[..2]) == WholeHours(m) && DigitsValue(d[3..]) == MinutesPastHour(m)
  {
    HoursMinutesSplit(m);
    var h := WholeHours(m);
    var k := MinutesPastHour(m);
    assert 0 <= h < 100;
    OneOrTwoDigits(h);
    OneOrTwoDigits(k);
    FormatIntValue(h, 2);
    FormatIntValue(k, 2);
    var d := HoursMinutes(m);
    assert d[..2] == FormatInt(h, 2);
    assert d[3..] == FormatInt(k, 2);
  }

  /** `clean`: an entry with both instants set must end strictly after it starts. */
  function Clean(e: TimeEntry): (r: Result<TimeEntry, string>)
    ensures r.Success? ==> r.value == e
    ensures r.Failure? <==> e.start.Some? && e.end.Some? && e.end.value <= e.start.value
  {
    if e.start.Some? && e.end.Some? && e.end.value <= e.start.value
    then Failure("End time must be after start time")
    else Success(e)
  }

  /** Every entry that carries both instants has a positive duration. */
  predicate StoredEntriesPositive(entries: seq<TimeEntry>) {
    forall i :: 0 <= i < |entries| && entries[i].start.Some? && entries[i].end.Some? ==>
      entries[i].Duration() > 0.0
  }

  /** An entry that passes `clean` and has both instants set lasts a positive number of minutes. */
  lemma CleanEntryPositive(e: TimeEntry)
    requires Clean(e).Success? && e.start.Some? && e.end.Some?
    ensures e.Duration() > 0.0
  {
    assert e.Duration() * 60.0 > 0.0;
  }

  /** `save` on a new entry: `clean` first, then the insert. */
  function SaveNewEntry(entries: seq<TimeEntry>, e: TimeEntry): (r: Result<seq<TimeEntry>, string>)
    ensures r.Success? <==> Clean(e).Success?
    ensures r.Success? ==> r.value == entries + [e]
    ensures r.Failure? ==> r.error == "End time must be after start time"
  {
    match Clean(e)
    case Success(ok) => Success(entries + [ok])
    case Failure(msg) => Failure(msg)
  }

  /** `save` on an existing entry: `clean` first, then the update of that row. */
  function SaveEntryAt(entries: seq<TimeEntry>, i: nat, e: TimeEntry): (r: Result<seq<TimeEntry>, string>)
    requires i < |entries|
    ensures r.Success? <==> Clean(e).Success?
    ensures r.Success? ==> r.value == entries[i := e]
  {
    match Clean(e)
    case Success(ok) => Success(entries[i := ok])
    case Failure(msg) => Failure(msg)
  }

  /** Because `save` always runs `clean`, saving keeps every stored entry's duration positive. */
  lemma SavePreservesPositive(entries: seq<TimeEntry>, e: TimeEntry, at: Option<nat>)
    requires StoredEntriesPositive(entries)
    requires at.Some? ==> at.value < |entries|
    ensures at.None? && SaveNewEntry(entries, e).Success? ==> StoredEntriesPositive(SaveNewEntry(entries, e).value)
    ensures at.Some? && SaveEntryAt(entries, at.value, e).Success? ==> StoredEntriesPositive(SaveEntryAt(entries, at.value, e).value)
  {
    if Clean(e).Success? && e.start.Some? && e.end.Some? {
      CleanEntryPositive(e);
    }
  }

  // ---------------------------------------------------------------------
  // The session table and the timer table

  /**
   * The `Session` and `SessionTimer` tables. A session's id is its position
   * in `rows`; `timers` is keyed by session id, so each session has at most
   * one timer (the one-to-one field).
   */
  class SessionTable {
    var rows: seq<TherapySession>
    var timers: map<nat, SessionTimer>

    ghost predicate Valid()
      reads this
    {
      UniqueStaffSlots(rows) && (forall k :: k in timers ==> k < |rows|)
    }

    constructor ()
      ensures Valid() && rows == [] && timers == map[]
    {
      rows := [];
      timers := map[];
    }

    /** `Session.objects.create(...)`: `None` when the unique constraint rejects the row. */
    method Insert(s: TherapySession) returns (id: Option<nat>)
      requires Valid()
      modifies this
      ensures Valid()
      ensures id.Some? <==> !Clashes(old(rows), s)
      ensures id.Some? ==> id.value == |old(rows)| && rows == old(rows) + [s]
      ensures id.None? ==> rows == old(rows)
      ensures timers == old(timers)
    {
      var r := InsertRow(rows, s);
      if r.Some? {
        id := Some(|rows|);
        rows := r.value;
      } else {
        id := None;
      }
    }
  }
}
