/**
 * The `sync_sessions` management command: for every appointment, in the
 * order the query yields them, insert the therapy-session copy unless one
 * with the same five columns exists, counting creations and skips. There is
 * no transaction and no exception handler, so a rejected insert ends the
 * command with the earlier inserts kept.
 */
module SyncSessions {
  import opened Wrappers
  import opened ApiModels
  import opened SessionModels
  import opened SchedulerModels

  datatype SyncOutcome = SyncOutcome(rows: seq<TherapySession>, created: nat, skipped: nat, aborted: bool)

  /** The state after the loop has handled the appointments `ss`, in order. */
  function SyncRun(rows: seq<TherapySession>, ss: seq<Schedule>): SyncOutcome
    decreases |ss|
  {
    if ss == [] then SyncOutcome(rows, 0, 0, false)
    else
      var prev := SyncRun(rows, ss[..|ss| - 1]);
      if prev.aborted then prev
      else
        var (next, step) := InsertIfAbsent(prev.rows, ss[|ss| - 1]);
        match step
        case Created => SyncOutcome(next, prev.created + 1, prev.skipped, false)
        case Skipped => SyncOutcome(next, prev.created, prev.skipped + 1, false)
        case Rejected => SyncOutcome(next, prev.created, prev.skipped, true)
  }

  /** A run that completes counts every appointment exactly once, as created or as skipped. */
  lemma {:induction false} CountsAddUp(rows: seq<TherapySession>, ss: seq<Schedule>)
    ensures var o := SyncRun(rows, ss);
      o.created + o.skipped <= |ss| && (!o.aborted ==> o.created + o.skipped == |ss|)
    decreases |ss|
  {
    if ss != [] {
      CountsAddUp(rows, ss[..|ss| - 1]);
    }
  }

  /**
   * Existing therapy sessions are never modified: the table only grows, by
   * exactly one row per creation, and each new row is the copy of an
   * appointment that was handled.
   */
  lemma {:induction false} OnlyAppends(rows: seq<TherapySession>, ss: seq<Schedule>)
    ensures var o := SyncRun(rows, ss);
      |o.rows| == |rows| + o.created && o.rows[..|rows|] == rows
      && (forall j :: |rows| <= j < |o.rows| ==> exists k :: 0 <= k < |ss| && o.rows[j] == TherapyFromSchedule(ss[k]))
    decreases |ss|
  {
    if ss != [] {
      var init := ss[..|ss| - 1];
      OnlyAppends(rows, init);
      var prev := SyncRun(rows, init);
      var o := SyncRun(rows, ss);
      if !prev.aborted {
        var (next, step) := InsertIfAbsent(prev.rows, ss[|ss| - 1]);
        if step == Created {
          assert o.rows == prev.rows + [TherapyFromSchedule(ss[|ss| - 1])];
          forall j | |rows| <= j < |o.rows|
            ensures exists k :: 0 <= k < |ss| && o.rows[j] == TherapyFromSchedule(ss[k])
          {
            if j < |prev.rows| {
              var k :| 0 <= k < |init| && prev.rows[j] == TherapyFromSchedule(init[k]);
              assert o.rows[j] == TherapyFromSchedule(ss[k]);
            } else {
              assert o.rows[j] == TherapyFromSchedule(ss[|ss| - 1]);
            }
          }
        } else {
          forall j | |rows| <= j < |o.rows|
            ensures exists k :: 0 <= k < |ss| && o.rows[j] == TherapyFromSchedule(ss[k])
          {
            var k :| 0 <= k < |init| && prev.rows[j] == TherapyFromSchedule(init[k]);
            assert o.rows[j] == TherapyFromSchedule(ss[k]);
          }
        }
      }
    }
  }

  /** The therapy table's unique constraint holds after the command whenever it held before. */
  lemma {:induction false} SyncKeepsUnique(rows: seq<TherapySession>, ss: seq<Schedule>)
    requires UniqueStaffSlots(rows)
    ensures UniqueStaffSlots(SyncRun(rows, ss).rows)
    decreases |ss|
  {
    if ss != [] {
      SyncKeepsUnique(rows, ss[..|ss| - 1]);
    }
  }

  lemma HasSlotGrows(rows: seq<TherapySession>, extra: seq<TherapySession>, key: SlotKey)
    requires HasSlot(rows, key)
    ensures HasSlot(rows + extra, key)
  {
    HasSlotMeans(rows, key);
    var i :| 0 <= i < |rows| && KeyOf(rows[i]) == key;
    assert (rows + extra)[i] == rows[i];
    HasSlotMeans(rows + extra, key);
  }

  /** After a completed run every appointment handled has a therapy session with its five columns. */
  lemma {:induction false} SyncCoversAll(rows: seq<TherapySession>, ss: seq<Schedule>)
    requires !SyncRun(rows, ss).aborted
    ensures forall k :: 0 <= k < |ss| ==> HasSlot(SyncRun(rows, ss).rows, ScheduleKey(ss[k]))
    decreases |ss|
  {
    if ss != [] {
      var init := ss[..|ss| - 1];
      var prev := SyncRun(rows, init);
      SyncCoversAll(rows, init);
      var o := SyncRun(rows, ss);
      var last := ss[|ss| - 1];
      assert !InsertIfAbsent(prev.rows, last).1.Rejected?;
      assert o.rows == prev.rows || o.rows == prev.rows + [TherapyFromSchedule(last)];
      forall k | 0 <= k < |ss| ensures HasSlot(o.rows, ScheduleKey(ss[k])) {
        if k < |init| {
          assert ss[k] == init[k];
          if o.rows != prev.rows {
            HasSlotGrows(prev.rows, [TherapyFromSchedule(last)], ScheduleKey(ss[k]));
          }
        } else if o.rows == prev.rows {
          assert HasSlot(prev.rows, ScheduleKey(last));
        } else {
          assert KeyOf(o.rows[|prev.rows|]) == ScheduleKey(last);
          HasSlotMeans(o.rows, ScheduleKey(last));
        }
      }
    }
  }

  /** A run over appointments whose slots all exist skips every one of them and changes nothing. */
  lemma {:induction false} AllPresentSkipsAll(rows: seq<TherapySession>, ss: seq<Schedule>)
    requires forall k :: 0 <= k < |ss| ==> HasSlot(rows, ScheduleKey(ss[k]))
    ensures SyncRun(rows, ss) == SyncOutcome(rows, 0, |ss|, false)
    decreases |ss|
  {
    if ss != [] {
      AllPresentSkipsAll(rows, ss[..|ss| - 1]);
      assert HasSlot(rows, ScheduleKey(ss[|ss| - 1]));
    }
  }

  /** Running the command a second time creates nothing and leaves the table as it is. */
  lemma SecondRunCreatesNothing(rows: seq<TherapySession>, ss: seq<Schedule>)
    requires !SyncRun(rows, ss).aborted
    ensures var first := SyncRun(rows, ss);
      SyncRun(first.rows, ss) == SyncOutcome(first.rows, 0, |ss|, false)
  {
    SyncCoversAll(rows, ss);
    AllPresentSkipsAll(SyncRun(rows, ss).rows, ss);
  }

  /** Two appointments with the same five columns in one run: the first is copied, the second skipped. */
  lemma DuplicateCreatesOnce(rows: seq<TherapySession>, a: Schedule, b: Schedule)
    requires ScheduleKey(a) == ScheduleKey(b)
    requires !HasSlot(rows, ScheduleKey(a)) && !Clashes(rows, TherapyFromSchedule(a))
    ensures var o := SyncRun(rows, [a, b]);
      o.created == 1 && o.skipped == 1 && !o.aborted && o.rows == rows + [TherapyFromSchedule(a)]
  {
    assert [a, b][..1] == [a];
    assert [a][..0] == [];
    var after := rows + [TherapyFromSchedule(a)];
    assert InsertIfAbsent(rows, a) == (after, Created);
    assert SyncRun(rows, [a]) == SyncOutcome(after, 1, 0, false);
    assert KeyOf(after[|rows|]) == ScheduleKey(b);
    HasSlotMeans(after, ScheduleKey(b));
    assert InsertIfAbsent(after, b) == (after, Skipped);
  }

  /** Once a run has been aborted, the appointments after the failing one are not looked at. */
  lemma {:induction false} AbortedStays(rows: seq<TherapySession>, ss: seq<Schedule>, k: nat)
    requires k <= |ss| && SyncRun(rows, ss[..k]).aborted
    ensures SyncRun(rows, ss) == SyncRun(rows, ss[..k])
    decreases |ss| - k
  {
    if k < |ss| {
      assert ss[..k + 1][..k] == ss[..k];
      AbortedStays(rows, ss, k + 1);
    } else {
      assert ss[..k] == ss;
    }
  }

  /** `Command.handle`. */
  method Handle(table: SessionTable, schedules: seq<Schedule>) returns (created: nat, skipped: nat, aborted: bool)
    requires table.Valid()
    modifies table
    ensures table.Valid()
    ensures SyncRun(old(table.rows), schedules) == SyncOutcome(table.rows, created, skipped, aborted)
    ensures table.timers == old(table.timers)
  {
    created, skipped, aborted := 0, 0, false;
    var i := 0;
    while i < |schedules|
      invariant 0 <= i <= |schedules|
      invariant table.Valid() && table.timers == old(table.timers)
      invariant SyncRun(old(table.rows), schedules[..i]) == SyncOutcome(table.rows, created, skipped, false)
      decreases |schedules| - i
    {
      assert schedules[..i + 1][..i] == schedules[..i];
      var scheduled := schedules[i];
      if !HasSlot(table.rows, ScheduleKey(scheduled)) {
        var id := table.Insert(TherapyFromSchedule(scheduled));
        if id.None? {
          aborted := true;
          assert SyncRun(old(table.rows), schedules[..i + 1]) == SyncOutcome(table.rows, created, skipped, true);
          AbortedStays(old(table.rows), schedules, i + 1);
          return;
        }
        created := created + 1;
      } else {
        skipped := skipped + 1;
      }
      i := i + 1;
    }
    assert schedules[..i] == schedules;
  }
}
