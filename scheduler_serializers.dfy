/**
 * The scheduler's read serializers: a client's age from the date of birth,
 * the client's last and next appointment, and the clean-up every
 * representation goes through, which replaces each run of non-ASCII
 * characters in a string value by a single '?'.
 */
module SchedulerSerializers {
  import opened Wrappers
  import opened Calendar
  import opened ApiModels
  import opened SchedulerModels

  // ---------------------------------------------------------------------
  // Age

  /** `get_age`: whole years since the date of birth; `None` without one. */
  function Age(today: Date, dob: Option<Date>): (r: Option<int>)
    ensures r.None? <==> dob.None?
  {
    match dob
    case None => None
    case Some(d) => Some(today.year - d.year - (if MonthDayBefore(today, d) then 1 else 0))
  }

  /** The `years`-th birthday (same month and day) has come by `today`. */
  predicate BirthdayReached(today: Date, dob: Date, years: int) {
    DateOnOrBefore(Date(dob.year + years, dob.month, dob.day), today)
  }

  /** The age is the number of birthdays passed: the age-th has come, the next one has not. */
  lemma AgeCountsBirthdays(today: Date, dob: Date)
    ensures var a := Age(today, Some(dob)).value;
      BirthdayReached(today, dob, a) && !BirthdayReached(today, dob, a + 1)
  {
    var a := Age(today, Some(dob)).value;
    if MonthDayBefore(today, dob) {
      assert DateBefore(Date(dob.year + a, dob.month, dob.day), today);
    } else if (dob.month, dob.day) == (today.month, today.day) {
      assert Date(dob.year + a, dob.month, dob.day) == today;
    } else {
      assert DateBefore(Date(dob.year + a, dob.month, dob.day), today);
    }
  }

  /** Nobody born on or before today has a negative age. */
  lemma AgeNonNegative(today: Date, dob: Date)
    requires DateOnOrBefore(dob, today)
    ensures Age(today, Some(dob)).value >= 0
  {
  }

  // ---------------------------------------------------------------------
  // Last and next appointment

  /** The filter of `get_last_session`: the client's appointments on days before today. */
  predicate IsPast(s: Schedule, client: UserId, today: Date) {
    s.client == client && DateBefore(s.date, today)
  }

  /** The filter of `get_upcoming_session`: the client's appointments from today on. */
  predicate IsUpcoming(s: Schedule, client: UserId, today: Date) {
    s.client == client && !DateBefore(s.date, today)
  }

  lemma SlotBeforeOrder(d1: Date, t1: int, d2: Date, t2: int, d3: Date, t3: int)
    ensures !SlotBefore(d1, t1, d1, t1)
    ensures SlotBefore(d1, t1, d2, t2) && SlotBefore(d2, t2, d3, t3) ==> SlotBefore(d1, t1, d3, t3)
    ensures SlotBefore(d1, t1, d2, t2) || (d1, t1) == (d2, t2) || SlotBefore(d2, t2, d1, t1)
  {
    DateBeforeTrichotomy(d1, d2);
  }

  predicate LaterSlot(a: Schedule, b: Schedule) {
    SlotBefore(b.date, b.start, a.date, a.start)
  }

  /**
   * `order_by('-session_date', '-start_time').first()` over the past
   * appointments: the position of one with the greatest (date, start); which
   * one among equal slots is left open, as the database leaves it.
   */
  function LastSession(ss: seq<Schedule>, client: UserId, today: Date): (r: Option<nat>)
    ensures r.None? <==> forall j :: 0 <= j < |ss| ==> !IsPast(ss[j], client, today)
    ensures r.Some? ==> r.value < |ss| && IsPast(ss[r.value], client, today)
    ensures r.Some? ==> forall j :: 0 <= j < |ss| && IsPast(ss[j], client, today) ==> !LaterSlot(ss[j], ss[r.value])
    decreases |ss|
  {
    if ss == [] then None
    else
      var init := ss[..|ss| - 1];
      var last := ss[|ss| - 1];
      var prev := LastSession(init, client, today);
      assert forall j :: 0 <= j < |init| ==> init[j] == ss[j];
      if IsPast(last, client, today) && (prev.None? || LaterSlot(last, ss[prev.value])) then
        assert forall j :: 0 <= j < |ss| && IsPast(ss[j], client, today) ==> !LaterSlot(ss[j], last) by {
          forall j | 0 <= j < |ss| && IsPast(ss[j], client, today) ensures !LaterSlot(ss[j], last) {
            SlotBeforeOrder(last.date, last.start, ss[j].date, ss[j].start, last.date, last.start);
            if prev.Some? && j < |init| {
              var p := ss[prev.value];
              SlotBeforeOrder(p.date, p.start, last.date, last.start, ss[j].date, ss[j].start);
            }
          }
        }
        Some(|ss| - 1)
      else prev
  }

  /**
   * `order_by('session_date', 'start_time').first()` over the upcoming
   * appointments: the position of one with the least (date, start).
   */
  function UpcomingSession(ss: seq<Schedule>, client: UserId, today: Date): (r: Option<nat>)
    ensures r.None? <==> forall j :: 0 <= j < |ss| ==> !IsUpcoming(ss[j], client, today)
    ensures r.Some? ==> r.value < |ss| && IsUpcoming(ss[r.value], client, today)
    ensures r.Some? ==> forall j :: 0 <= j < |ss| && IsUpcoming(ss[j], client, today) ==> !LaterSlot(ss[r.value], ss[j])
    decreases |ss|
  {
    if ss == [] then None
    else
      var init := ss[..|ss| - 1];
      var last := ss[|ss| - 1];
      var prev := UpcomingSession(init, client, today);
      assert forall j :: 0 <= j < |init| ==> init[j] == ss[j];
      if IsUpcoming(last, client, today) && (prev.None? || LaterSlot(ss[prev.value], last)) then
        assert forall j :: 0 <= j < |ss| && IsUpcoming(ss[j], client, today) ==> !LaterSlot(last, ss[j]) by {
          forall j | 0 <= j < |ss| && IsUpcoming(ss[j], client, today) ensures !LaterSlot(last, ss[j]) {
            SlotBeforeOrder(last.date, last.start, ss[j].date, ss[j].start, last.date, last.start);
            if prev.Some? && j < |init| {
              var p := ss[prev.value];
              SlotBeforeOrder(ss[j].date, ss[j].start, last.date, last.start, p.date, p.start);
            }
          }
        }
        Some(|ss| - 1)
      else prev
  }

  /** The last appointment and the next one are never the same row, and the last comes first. */
  lemma LastBeforeUpcoming(ss: seq<Schedule>, client: UserId, today: Date)
    requires LastSession(ss, client, today).Some? && UpcomingSession(ss, client, today).Some?
    ensures var i := LastSession(ss, client, today).value;
      var k := UpcomingSession(ss, client, today).value;
      i != k && LaterSlot(ss[k], ss[i])
  {
    var i := LastSession(ss, client, today).value;
    var k := UpcomingSession(ss, client, today).value;
    DateBeforeTrichotomy(ss[i].date, ss[k].date);
    DateBeforeTrichotomy(ss[k].date, today);
    DateBeforeTrichotomy(ss[i].date, today);
  }

  // ---------------------------------------------------------------------
  // Non-ASCII clean-up

  predicate IsAscii(c: char) {
    c as int < 128
  }

  predicate AllAscii(s: string) {
    forall i :: 0 <= i < |s| ==> IsAscii(s[i])
  }

  /** What is left once a leading run of non-ASCII characters is consumed. */
  function DropRun(s: string): (r: string)
    ensures |r| <= |s| && r == s[|s| - |r|..]
    ensures r != [] ==> IsAscii(r[0])
    decreases |s|
  {
    if s != [] && !IsAscii(s[0]) then DropRun(s[1..]) else s
  }

  /** `re.sub(r'[^\x00-\x7F]+', '?', s)`: every maximal run of non-ASCII characters becomes one '?'. */
  function Sanitize(s: string): string
    decreases |s|
  {
    if s == [] then []
    else if IsAscii(s[0]) then [s[0]] + Sanitize(s[1..])
    else "?" + Sanitize(DropRun(s[1..]))
  }

  /** What comes out is pure ASCII. */
  lemma {:induction false} SanitizeAscii(s: string)
    ensures AllAscii(Sanitize(s))
    decreases |s|
  {
    if s != [] {
      if IsAscii(s[0]) {
        SanitizeAscii(s[1..]);
      } else {
        SanitizeAscii(DropRun(s[1..]));
      }
    }
  }

  /** An ASCII string comes out unchanged. */
  lemma {:induction false} SanitizeKeepsAscii(s: string)
    requires AllAscii(s)
    ensures Sanitize(s) == s
    decreases |s|
  {
    if s != [] {
      assert IsAscii(s[0]);
      SanitizeKeepsAscii(s[1..]);
    }
  }

  /** The result is never longer than the input. */
  lemma {:induction false} SanitizeNoLonger(s: string)
    ensures |Sanitize(s)| <= |s|
    decreases |s|
  {
    if s != [] {
      if IsAscii(s[0]) {
        SanitizeNoLonger(s[1..]);
      } else {
        SanitizeNoLonger(DropRun(s[1..]));
      }
    }
  }

  /** Cleaning twice is cleaning once, and a string is left alone exactly when it is ASCII. */
  lemma SanitizeIdempotent(s: string)
    ensures Sanitize(Sanitize(s)) == Sanitize(s)
    ensures Sanitize(s) == s <==> AllAscii(s)
  {
    SanitizeAscii(s);
    SanitizeKeepsAscii(Sanitize(s));
    if AllAscii(s) {
      SanitizeKeepsAscii(s);
    }
  }

  lemma {:induction false} DropWholeRun(run: string, b: string)
    requires forall i :: 0 <= i < |run| ==> !IsAscii(run[i])
    requires b == [] || IsAscii(b[0])
    ensures DropRun(run + b) == b
    decreases |run|
  {
    if run == [] {
      assert run + b == b;
    } else {
      assert (run + b)[1..] == run[1..] + b;
      DropWholeRun(run[1..], b);
    }
  }

  lemma ConsSplit(s: string)
    requires s != []
    ensures s == [s[0]] + s[1..]
  {
  }

  lemma ConcatAssoc(x: string, y: string, z: string)
    ensures x + y + z == x + (y + z)
  {
  }

  /** An ASCII character is copied and the rest is cleaned on its own. */
  lemma SanitizeAsciiHead(c: char, t: string)
    requires IsAscii(c)
    ensures Sanitize([c] + t) == [c] + Sanitize(t)
  {
    assert ([c] + t)[0] == c;
    assert ([c] + t)[1..] == t;
  }

  /** A non-ASCII character starts a run that becomes one '?'. */
  lemma SanitizeNonAsciiHead(c: char, t: string)
    requires !IsAscii(c)
    ensures Sanitize([c] + t) == "?" + Sanitize(DropRun(t))
  {
    assert ([c] + t)[0] == c;
    assert ([c] + t)[1..] == t;
  }

  /** A whole non-ASCII run at the front becomes one '?'. */
  lemma SanitizeRunHead(run: string, b: string)
    requires |run| > 0 && forall i :: 0 <= i < |run| ==> !IsAscii(run[i])
    requires b == [] || IsAscii(b[0])
    ensures Sanitize(run + b) == "?" + Sanitize(b)
  {
    var c, rest := run[0], run[1..];
    assert !IsAscii(c);
    calc {
      Sanitize(run + b);
      { ConsSplit(run); ConcatAssoc([c], rest, b); }
      Sanitize([c] + (rest + b));
      { SanitizeNonAsciiHead(c, rest + b); }
      "?" + Sanitize(DropRun(rest + b));
      { DropWholeRun(rest, b); }
      "?" + Sanitize(b);
    }
  }

  /** An ASCII prefix is copied unchanged in front of the cleaned rest. */
  lemma {:induction false} SanitizeAsciiPrefix(a: string, t: string)
    requires AllAscii(a)
    ensures Sanitize(a + t) == a + Sanitize(t)
    decreases |a|
  {
    if a == [] {
      assert a + t == t;
    } else {
      var c, rest := a[0], a[1..];
      assert IsAscii(c) && AllAscii(rest);
      calc {
        Sanitize(a + t);
        { ConsSplit(a); ConcatAssoc([c], rest, t); }
        Sanitize([c] + (rest + t));
        { SanitizeAsciiHead(c, rest + t); }
        [c] + Sanitize(rest + t);
        { SanitizeAsciiPrefix(rest, t); }
        [c] + (rest + Sanitize(t));
        { ConsSplit(a); ConcatAssoc([c], rest, Sanitize(t)); }
        a + Sanitize(t);
      }
    }
  }

  /** An ASCII prefix is kept, the maximal non-ASCII run after it becomes one '?', and the rest is cleaned in turn. */
  lemma RunCollapses(a: string, run: string, b: string)
    requires AllAscii(a)
    requires |run| > 0 && forall i :: 0 <= i < |run| ==> !IsAscii(run[i])
    requires b == [] || IsAscii(b[0])
    ensures Sanitize(a + run + b) == a + "?" + Sanitize(b)
  {
    ConcatAssoc(a, run, b);
    SanitizeAsciiPrefix(a, run + b);
    SanitizeRunHead(run, b);
    ConcatAssoc(a, "?", Sanitize(b));
  }

  // ---------------------------------------------------------------------
  // Representations

  /** A representation value: strings are cleaned, everything else (numbers, flags, null, nested objects) passes through. */
  datatype Value = Str(s: string) | Int(i: int) | Bool(b: bool) | Null | Nested

  function CleanValue(v: Value): Value {
    if v.Str? then Str(Sanitize(v.s)) else v
  }

  /** The representation, as the ordered `(key, value)` items of the dictionary. */
  type Representation = seq<(string, Value)>

  function CleanFields(data: Representation): (r: Representation)
    ensures |r| == |data|
  {
    seq(|data|, i requires 0 <= i < |data| => (data[i].0, CleanValue(data[i].1)))
  }

  /**
   * After the clean-up every string value is ASCII, every key and every
   * non-string value is as it was, and a second clean-up changes nothing.
   */
  lemma CleanFieldsMeaning(data: Representation)
    ensures var r := CleanFields(data);
      (forall i :: 0 <= i < |r| ==> r[i].0 == data[i].0)
      && (forall i :: 0 <= i < |r| ==> r[i].1.Str? == data[i].1.Str?)
      && (forall i :: 0 <= i < |r| && r[i].1.Str? ==> AllAscii(r[i].1.s))
      && (forall i :: 0 <= i < |r| && !data[i].1.Str? ==> r[i].1 == data[i].1)
      && CleanFields(r) == r
  {
    var r := CleanFields(data);
    forall i | 0 <= i < |r| && r[i].1.Str? ensures AllAscii(r[i].1.s) && Sanitize(r[i].1.s) == r[i].1.s {
      SanitizeIdempotent(data[i].1.s);
      SanitizeAscii(data[i].1.s);
    }
    assert CleanFields(r) == r;
  }

  /** The loop of `to_representation` (the same in the client, staff and appointment serializers). */
  method CleanRepresentation(data: Representation) returns (out: Representation)
    ensures out == CleanFields(data)
  {
    out := data;
    var i := 0;
    while i < |out|
      invariant 0 <= i <= |out| == |data|
      invariant forall j :: 0 <= j < i ==> out[j] == CleanFields(data)[j]
      invariant forall j :: i <= j < |out| ==> out[j] == data[j]
      decreases |out| - i
    {
      var field := out[i];
      if field.1.Str? {
        out := out[i := (field.0, Str(Sanitize(field.1.s)))];
      }
      assert out[i] == (data[i].0, CleanValue(data[i].1));
      i := i + 1;
    }
    assert |out| == |CleanFields(data)|;
  }
}
