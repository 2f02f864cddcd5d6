/**
 * The request validation of the session app: the interval checks of the
 * time-tracker and session serializers, the timer action choice, the
 * submit request, and the time-tracker create that stamps the author.
 */
module SessionSerializers {
  import opened Wrappers
  import opened Calendar
  import opened ApiModels
  import opened SessionModels

  const EndAfterStart: string := "End time must be after start time"

  /** The writable fields of a time-tracker request; a key the client did not send is `None`. */
  datatype TimeTrackerData = TimeTrackerData(
    session: Option<nat>,
    timeType: Option<string>,
    start: Option<Timestamp>,
    end: Option<Timestamp>,
    description: Option<string>)

  /** The writable fields of a session request. */
  datatype SessionData = SessionData(
    client: Option<UserId>,
    staff: Option<UserId>,
    date: Option<Date>,
    start: Option<int>,
    end: Option<int>,
    status: Option<SessionStatus>,
    notes: Option<string>,
    location: Option<string>,
    serviceType: Option<string>)

  /** An interval is rejected exactly when both ends were sent and the end is not after the start. */
  predicate BadInterval(start: Option<int>, end: Option<int>) {
    start.Some? && end.Some? && end.value <= start.value
  }

  /**
   * `TimeTrackerSerializer.validate`, and word for word the `validate` of the
   * create and update serializers: the data come back unchanged unless the
   * interval is bad.
   */
  function ValidateTimeTracker(data: TimeTrackerData): (r: Result<TimeTrackerData, string>)
    ensures r.Failure? <==> data.start.Some? && data.end.Some? && data.end.value <= data.start.value
    ensures r.Failure? ==> r.error == EndAfterStart
    ensures r.Success? ==> r.value == data
  {
    if BadInterval(data.start, data.end) then Failure(EndAfterStart) else Success(data)
  }

  /** `SessionCreateUpdateSerializer.validate`: rejects `start >= end` when both times were sent. */
  function ValidateSession(data: SessionData): (r: Result<SessionData, string>)
    ensures r.Failure? <==> data.start.Some? && data.end.Some? && data.start.value >= data.end.value
    ensures r.Failure? ==> r.error == EndAfterStart
    ensures r.Success? ==> r.value == data
  {
    if data.start.Some? && data.end.Some? && data.start.value >= data.end.value
    then Failure(EndAfterStart)
    else Success(data)
  }

  /** A missing time makes every interval validator pass the data through unchanged. */
  lemma MissingTimePassesThrough(t: TimeTrackerData, s: SessionData)
    ensures t.start.None? || t.end.None? ==> ValidateTimeTracker(t) == Success(t)
    ensures s.start.None? || s.end.None? ==> ValidateSession(s) == Success(s)
  {
  }

  /** The default of `TimeTracker.time_type`, used when the request leaves it out. */
  const DefaultTimeType: string := "direct"

  /** The entry a create request describes, stamped with its author; a missing time type takes the default. */
  function EntryOf(data: TimeTrackerData, requester: UserId): (e: TimeEntry)
    requires data.session.Some?
    ensures e.session == data.session.value && e.createdBy == requester
    ensures e.timeType == (if data.timeType.Some? then data.timeType.value else DefaultTimeType)
    ensures e.start == data.start && e.end == data.end && e.description == data.description
  {
    TimeEntry(data.session.value, data.timeType.GetOr(DefaultTimeType), data.start, data.end, data.description, requester)
  }

  /**
   * `TimeTrackerCreateSerializer.create`: the author is the requesting user,
   * whatever the request said, and the model's `save` (via `clean`) then
   * decides whether the row is stored.
   */
  function CreateTimeTracker(entries: seq<TimeEntry>, data: TimeTrackerData, requester: UserId): (r: Result<seq<TimeEntry>, string>)
    requires data.session.Some?
    ensures r.Success? ==> |r.value| == |entries| + 1 && r.value[..|entries|] == entries
    ensures r.Success? ==> r.value[|entries|] == EntryOf(data, requester)
    ensures r.Success? ==> r.value[|entries|].createdBy == requester
    ensures r.Success? ==> r.value[|entries|].timeType == data.timeType.GetOr(DefaultTimeType)
    ensures r.Success? <==> !BadInterval(data.start, data.end)
  {
    var e := EntryOf(data, requester);
    assert Clean(e).Success? <==> !BadInterval(data.start, data.end);
    var r := SaveNewEntry(entries, e);
    if r.Success? then assert r.value[..|entries|] == entries; r else r
  }

  /**
   * The serializer check and the model check agree: a request passes
   * `validate` exactly when the entry it describes passes `clean`, so the
   * stored-entry invariant holds for whatever the create serializer stores.
   */
  lemma SerializerAgreesWithClean(data: TimeTrackerData, requester: UserId)
    requires data.session.Some?
    ensures ValidateTimeTracker(data).Success? <==> Clean(EntryOf(data, requester)).Success?
  {
  }

  /** The created entry keeps the positive-duration invariant of the entries table. */
  lemma CreateKeepsPositive(entries: seq<TimeEntry>, data: TimeTrackerData, requester: UserId)
    requires data.session.Some?
    requires StoredEntriesPositive(entries)
    ensures CreateTimeTracker(entries, data, requester).Success? ==>
      StoredEntriesPositive(CreateTimeTracker(entries, data, requester).value)
  {
    SavePreservesPositive(entries, EntryOf(data, requester), None);
  }

  // ---------------------------------------------------------------------
  // Choices

  datatype TimerAction = Start | Stop

  /** `SessionTimerStartStopSerializer`: only "start" and "stop" are accepted. */
  function ParseTimerAction(s: string): (r: Option<TimerAction>)
    ensures r == Some(Start) <==> s == "start"
    ensures r == Some(Stop) <==> s == "stop"
    ensures r.None? <==> s != "start" && s != "stop"
  {
    if s == "start" then Some(Start) else if s == "stop" then Some(Stop) else None
  }

  datatype SubmitType = Draft | Submit

  /** The `submit_type` choice field: only "draft" and "submit" are accepted. */
  function ParseSubmitType(s: string): (r: Option<SubmitType>)
    ensures r == Some(Draft) <==> s == "draft"
    ensures r == Some(Submit) <==> s == "submit"
    ensures r.None? <==> s != "draft" && s != "submit"
  {
    if s == "draft" then Some(Draft) else if s == "submit" then Some(Submit) else None
  }

  datatype SubmitRequest = SubmitRequest(sessionId: nat, submitType: SubmitType)

  /**
   * `SessionSubmitSerializer`: the session must exist ("Session not found"
   * otherwise) and the submit type must be one of the two choices.
   * Sessions are identified by their position in the session table.
   */
  function ValidateSubmitRequest(sessionCount: nat, sessionId: int, submitType: string): (r: Result<SubmitRequest, string>)
    ensures r.Success? <==> 0 <= sessionId < sessionCount && ParseSubmitType(submitType).Some?
    ensures r.Success? ==> r.value.sessionId == sessionId && Some(r.value.submitType) == ParseSubmitType(submitType)
  {
    if !(0 <= sessionId < sessionCount) then Failure("Session not found")
    else match ParseSubmitType(submitType)
      case None => Failure("\"" + submitType + "\" is not a valid choice.")
      case Some(t) => Success(SubmitRequest(sessionId, t))
  }
}
