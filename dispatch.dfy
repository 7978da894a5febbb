/**
 * The due-reminder cycle of check_reminders as a function of the fetched
 * snapshot and the current time, the recurrence branch it applies to each
 * fired row, and what one cycle and the next one do to the table.
 */
module Dispatch {
  import opened Wrappers
  import opened Store
  import opened Command

  /** A message handed to the chat transport. */
  datatype Outgoing = Outgoing(chatId: int, text: string)

  const ReminderPrefix: string := "Reminder: "

  function Notice(r: Fetched): Outgoing {
    Outgoing(r.chatId, ReminderPrefix + r.message)
  }

  /**
   * The new_time of the monthly and yearly branches: one month or one year of
   * the /add unit table after the time that just fired.
   */
  function NextTime(remindTime: int, interval: string): (t: int)
    requires interval == Monthly || interval == Yearly
    ensures interval == Monthly ==> t == ScheduledTime(Months, 1, remindTime)
    ensures interval == Yearly ==> t == ScheduledTime(Years, 1, remindTime)
    ensures t > remindTime
  {
    if interval == Monthly then remindTime + 30 * SecondsPerDay else remindTime + 365 * SecondsPerDay
  }

  /** What the recurrence branch does with a row that has just been sent. */
  datatype Recurrence =
    | Retire                // delete_reminder(id)
    | Persist               // forever: nothing happens to the row
    | Reschedule(next: int) // the add_reminder call with four arguments, which raises

  function Policy(interval: Option<string>, remindTime: int): (p: Recurrence)
    ensures p.Reschedule? <==> interval == Some(Monthly) || interval == Some(Yearly)
    ensures p == Persist <==> interval == Some(Forever)
    ensures p == Retire <==> interval !in {Some(Monthly), Some(Yearly), Some(Forever)}
    ensures p.Reschedule? ==> interval.Some? && p.next == NextTime(remindTime, interval.value)
    ensures p.Reschedule? ==> p.next > remindTime
  {
    if interval == Some(Monthly) then Reschedule(NextTime(remindTime, Monthly))
    else if interval == Some(Yearly) then Reschedule(NextTime(remindTime, Yearly))
    else if interval != Some(Forever) then Retire
    else Persist
  }

  predicate IsDue(r: Fetched, now: int) {
    r.remindTime <= now
  }

  /** A due row whose reschedule call raises and ends the cycle. */
  predicate Breaks(r: Fetched, now: int) {
    IsDue(r, now) && Policy(r.interval, r.remindTime).Reschedule?
  }

  /** The TypeError of the four-argument add_reminder call, with the time it was computing. */
  datatype Abort = RescheduleCallFailed(id: nat, nextTime: int)

  /** What a cycle has done so far: messages sent, ids deleted, and whether it has stopped. */
  datatype CycleResult = CycleResult(sent: seq<Outgoing>, retired: seq<nat>, aborted: Option<Abort>)

  /** The loop body of check_reminders on one row. */
  function Fire(c: CycleResult, r: Fetched, now: int): CycleResult {
    if !IsDue(r, now) then c
    else
      var sent := c.sent + [Notice(r)];
      match Policy(r.interval, r.remindTime)
      case Reschedule(next) => CycleResult(sent, c.retired, Some(RescheduleCallFailed(r.id, next)))
      case Persist => CycleResult(sent, c.retired, c.aborted)
      case Retire => CycleResult(sent, c.retired + [r.id], c.aborted)
  }

  /** The loop of check_reminders over a snapshot, stopping at the first exception. */
  function Cycle(snapshot: seq<Fetched>, now: int): CycleResult {
    if snapshot == [] then CycleResult([], [], None)
    else
      var before := Cycle(snapshot[..|snapshot| - 1], now);
      if before.aborted.Some? then before else Fire(before, snapshot[|snapshot| - 1], now)
  }

  // Reference definitions the cycle is measured against: plain filters of the snapshot.

  /** The tests the reference filters apply to a row. */
  datatype Test =
    | Due        // remind_time <= now
    | Retiring   // due, and its branch deletes it
    | Persisting // due, and forever
    | Surviving  // not deleted by its branch

  predicate Passes(r: Fetched, t: Test, now: int) {
    match t
    case Due => IsDue(r, now)
    case Retiring => IsDue(r, now) && Policy(r.interval, r.remindTime) == Retire
    case Persisting => IsDue(r, now) && Policy(r.interval, r.remindTime) == Persist
    case Surviving => !(IsDue(r, now) && Policy(r.interval, r.remindTime) == Retire)
  }

  /** The rows of s that pass t, in snapshot order. */
  function Filter(s: seq<Fetched>, t: Test, now: int): seq<Fetched> {
    if s == [] then []
    else Filter(s[..|s| - 1], t, now) + (if Passes(s[|s| - 1], t, now) then [s[|s| - 1]] else [])
  }

  function Notices(s: seq<Fetched>): seq<Outgoing> {
    if s == [] then [] else Notices(s[..|s| - 1]) + [Notice(s[|s| - 1])]
  }

  function Ids(s: seq<Fetched>): seq<nat> {
    if s == [] then [] else Ids(s[..|s| - 1]) + [s[|s| - 1].id]
  }

  function IdSet(ids: seq<nat>): set<nat> {
    set id | id in ids
  }

  predicate HasBreak(s: seq<Fetched>, now: int) {
    exists i :: 0 <= i < |s| && Breaks(s[i], now)
  }

  /** A filter keeps rows of the snapshot that pass its test, and only those. */
  lemma {:induction false} FilterKeeps(s: seq<Fetched>, t: Test, now: int)
    ensures forall i :: 0 <= i < |Filter(s, t, now)| ==>
              Passes(Filter(s, t, now)[i], t, now) && Filter(s, t, now)[i] in s
  {
    if s != [] {
      var init, x := s[..|s| - 1], s[|s| - 1];
      FilterKeeps(init, t, now);
      var f, fi := Filter(s, t, now), Filter(init, t, now);
      forall i | 0 <= i < |f|
        ensures Passes(f[i], t, now) && f[i] in s
      {
        if i < |fi| {
          assert f[i] == fi[i];
          assert fi[i] in init;
        } else {
          assert f[i] == x;
        }
      }
    }
  }

  lemma {:induction false} IdsAt(s: seq<Fetched>)
    ensures |Ids(s)| == |s|
    ensures forall i :: 0 <= i < |s| ==> Ids(s)[i] == s[i].id
  {
    if s != [] {
      IdsAt(s[..|s| - 1]);
    }
  }

  lemma HasBreakSnoc(s: seq<Fetched>, now: int)
    requires s != []
    ensures HasBreak(s, now) <==> HasBreak(s[..|s| - 1], now) || Breaks(s[|s| - 1], now)
  {
    var init := s[..|s| - 1];
    if HasBreak(s, now) {
      var i :| 0 <= i < |s| && Breaks(s[i], now);
      if i < |init| {
        assert init[i] == s[i];
      }
    }
    if HasBreak(init, now) {
      var i :| 0 <= i < |init| && Breaks(init[i], now);
      assert s[i] == init[i];
    }
  }

  lemma FilterSnoc(a: seq<Fetched>, x: Fetched, t: Test, now: int)
    ensures Filter(a + [x], t, now) == Filter(a, t, now) + (if Passes(x, t, now) then [x] else [])
  {
    assert (a + [x])[..|a|] == a;
  }

  lemma NoticesSnoc(a: seq<Fetched>, x: Fetched)
    ensures Notices(a + [x]) == Notices(a) + [Notice(x)]
  {
    assert (a + [x])[..|a|] == a;
  }

  lemma IdsSnoc(a: seq<Fetched>, x: Fetched)
    ensures Ids(a + [x]) == Ids(a) + [x.id]
  {
    assert (a + [x])[..|a|] == a;
  }

  /** One more row after a prefix that the cycle processed to the end. */
  lemma CycleStep(init: seq<Fetched>, x: Fetched, now: int)
    requires Cycle(init, now)
             == CycleResult(Notices(Filter(init, Due, now)), Ids(Filter(init, Retiring, now)), None)
    ensures Cycle(init + [x], now).sent == Notices(Filter(init + [x], Due, now))
    ensures !Breaks(x, now) ==> Cycle(init + [x], now).retired == Ids(Filter(init + [x], Retiring, now))
    ensures Breaks(x, now) ==> Cycle(init + [x], now).retired == Ids(Filter(init, Retiring, now))
    ensures Cycle(init + [x], now).aborted
            == if Breaks(x, now)
               then Some(RescheduleCallFailed(x.id, Policy(x.interval, x.remindTime).next))
               else None
  {
    var s := init + [x];
    assert s[..|s| - 1] == init && s[|s| - 1] == x;
    assert Cycle(s, now) == Fire(Cycle(init, now), x, now);
    FilterSnoc(init, x, Due, now);
    FilterSnoc(init, x, Retiring, now);
    if IsDue(x, now) {
      NoticesSnoc(Filter(init, Due, now), x);
      if Policy(x.interval, x.remindTime) == Retire {
        IdsSnoc(Filter(init, Retiring, now), x);
      } else {
        assert Filter(s, Retiring, now) == Filter(init, Retiring, now) + [] == Filter(init, Retiring, now);
      }
    } else {
      assert Filter(s, Due, now) == Filter(init, Due, now) + [] == Filter(init, Due, now);
      assert Filter(s, Retiring, now) == Filter(init, Retiring, now) + [] == Filter(init, Retiring, now);
      assert Cycle(s, now) == Cycle(init, now);
    }
  }

  /**
   * A snapshot with no due monthly or yearly row is processed to the end:
   * every due row is sent once, in snapshot order, and the retirable ones are
   * deleted in that order.
   */
  lemma {:induction false} FullCycle(s: seq<Fetched>, now: int)
    requires !HasBreak(s, now)
    ensures Cycle(s, now) == CycleResult(Notices(Filter(s, Due, now)), Ids(Filter(s, Retiring, now)), None)
  {
    if s != [] {
      var init, x := s[..|s| - 1], s[|s| - 1];
      HasBreakSnoc(s, now);
      FullCycle(init, now);
      CycleStep(init, x, now);
      assert init + [x] == s;
    }
  }

  /** The cycle over one more row of a snapshot is the loop body on that row, unless it had stopped. */
  lemma CycleExtend(s: seq<Fetched>, i: int, now: int)
    requires 0 <= i < |s|
    ensures Cycle(s[..i + 1], now)
            == if Cycle(s[..i], now).aborted.Some? then Cycle(s[..i], now) else Fire(Cycle(s[..i], now), s[i], now)
  {
    assert s[..i + 1][..i] == s[..i];
  }

  /** Once the cycle has raised, the rest of the snapshot is not looked at. */
  lemma {:induction false} AbortSticky(s: seq<Fetched>, k: int, now: int)
    requires 0 <= k <= |s|
    requires Cycle(s[..k], now).aborted.Some?
    ensures Cycle(s, now) == Cycle(s[..k], now)
  {
    if k < |s| {
      var init := s[..|s| - 1];
      assert init[..k] == s[..k];
      AbortSticky(init, k, now);
    } else {
      assert s[..k] == s;
    }
  }

  /**
   * A snapshot whose first due monthly or yearly row is at k: every due row
   * up to k is sent, the retirable ones before k are deleted, and the cycle
   * ends with the failed reschedule of row k; nothing after k is looked at.
   */
  lemma BrokenCycle(s: seq<Fetched>, k: int, now: int)
    requires 0 <= k < |s| && Breaks(s[k], now) && !HasBreak(s[..k], now)
    ensures Cycle(s, now) == CycleResult(
              Notices(Filter(s[..k + 1], Due, now)),
              Ids(Filter(s[..k], Retiring, now)),
              Some(RescheduleCallFailed(s[k].id, Policy(s[k].interval, s[k].remindTime).next)))
  {
    var init, x := s[..k], s[k];
    var due := Filter(init, Due, now);
    FullCycle(init, now);
    CycleExtend(s, k, now);
    var p := Policy(x.interval, x.remindTime);
    assert Fire(Cycle(init, now), x, now)
           == CycleResult(Notices(due) + [Notice(x)], Ids(Filter(init, Retiring, now)),
                          Some(RescheduleCallFailed(x.id, p.next)));
    assert s[..k + 1] == init + [x];
    FilterSnoc(init, x, Due, now);
    NoticesSnoc(due, x);
    AbortSticky(s, k + 1, now);
  }

  /** A snapshot with a due monthly or yearly row has a first one. */
  lemma {:induction false} FirstBreak(s: seq<Fetched>, now: int)
    requires HasBreak(s, now)
    ensures exists k :: 0 <= k < |s| && Breaks(s[k], now) && !HasBreak(s[..k], now)
  {
    var init := s[..|s| - 1];
    HasBreakSnoc(s, now);
    if HasBreak(init, now) {
      FirstBreak(init, now);
      var k :| 0 <= k < |init| && Breaks(init[k], now) && !HasBreak(init[..k], now);
      assert init[..k] == s[..k] && init[k] == s[k];
    } else {
      assert s[..|s| - 1] == init;
    }
  }

  /** Some due row of the snapshot carries this id and is retired by its branch. */
  ghost predicate RetirableId(s: seq<Fetched>, id: nat, now: int) {
    exists m :: 0 <= m < |s| && s[m].id == id && Passes(s[m], Retiring, now)
  }

  /** Every id a cycle deletes belongs to a due snapshot row whose branch retires it. */
  lemma {:induction false} RetiredAreRetirable(s: seq<Fetched>, now: int)
    ensures forall j :: 0 <= j < |Cycle(s, now).retired| ==> RetirableId(s, Cycle(s, now).retired[j], now)
  {
    if s != [] {
      var init, x := s[..|s| - 1], s[|s| - 1];
      RetiredAreRetirable(init, now);
      var c, ci := Cycle(s, now), Cycle(init, now);
      assert c == if ci.aborted.Some? then ci else Fire(ci, x, now);
      forall j | 0 <= j < |c.retired|
        ensures RetirableId(s, c.retired[j], now)
      {
        if j < |ci.retired| {
          assert c.retired[j] == ci.retired[j];
          assert RetirableId(init, ci.retired[j], now);
          var m :| 0 <= m < |init| && init[m].id == ci.retired[j] && Passes(init[m], Retiring, now);
          assert s[m] == init[m];
        } else {
          assert ci.aborted.None? && Passes(x, Retiring, now);
          assert c.retired[j] == x.id;
          assert s[|s| - 1] == x;
        }
      }
    } else {
      assert Cycle(s, now).retired == [];
    }
  }

  /** Whatever a cycle sends is the notice of a due row of the snapshot. */
  lemma {:induction false} SentAreDue(s: seq<Fetched>, now: int)
    ensures forall i :: 0 <= i < |Cycle(s, now).sent| ==>
              exists m :: 0 <= m < |s| && IsDue(s[m], now) && Cycle(s, now).sent[i] == Notice(s[m])
  {
    if s != [] {
      var init, x := s[..|s| - 1], s[|s| - 1];
      SentAreDue(init, now);
      var c, ci := Cycle(s, now), Cycle(init, now);
      assert c == if ci.aborted.Some? then ci else Fire(ci, x, now);
      forall i | 0 <= i < |c.sent|
        ensures exists m :: 0 <= m < |s| && IsDue(s[m], now) && c.sent[i] == Notice(s[m])
      {
        if i < |ci.sent| {
          assert c.sent[i] == ci.sent[i];
          var m :| 0 <= m < |init| && IsDue(init[m], now) && ci.sent[i] == Notice(init[m]);
          assert s[m] == init[m];
        } else {
          assert c.sent[i] == Notice(x);
          assert s[|s| - 1] == x;
        }
      }
    } else {
      assert Cycle(s, now).sent == [];
    }
  }

  /**
   * With distinct ids, a row that is not due, or whose interval is monthly,
   * yearly or forever, is never deleted by a cycle.
   */
  lemma OnlyRetiredRowsDeleted(s: seq<Fetched>, now: int, k: int)
    requires Increasing(s)
    requires 0 <= k < |s|
    requires !Passes(s[k], Retiring, now)
    ensures s[k].id !in Cycle(s, now).retired
  {
    RetiredAreRetirable(s, now);
    var c := Cycle(s, now);
    forall j | 0 <= j < |c.retired|
      ensures c.retired[j] != s[k].id
    {
      assert RetirableId(s, c.retired[j], now);
      var m :| 0 <= m < |s| && s[m].id == c.retired[j] && Passes(s[m], Retiring, now);
      if m < k {
        assert s[m].id < s[k].id;
      } else if m > k {
        assert s[k].id < s[m].id;
      }
    }
  }

  /**
   * What survives a full cycle has no due monthly or yearly row, no due row
   * to retire, and its due rows are exactly the due forever rows.
   */
  lemma {:induction false} SurvivorsOfFullCycle(s: seq<Fetched>, now: int)
    requires !HasBreak(s, now)
    ensures !HasBreak(Filter(s, Surviving, now), now)
    ensures Filter(Filter(s, Surviving, now), Due, now) == Filter(s, Persisting, now)
    ensures Filter(Filter(s, Surviving, now), Retiring, now) == []
  {
    var sv := Filter(s, Surviving, now);
    if s != [] {
      var init, x := s[..|s| - 1], s[|s| - 1];
      HasBreakSnoc(s, now);
      SurvivorsOfFullCycle(init, now);
      var svi := Filter(init, Surviving, now);
      assert s[..|s| - 1] == init && s[|s| - 1] == x;
      if Passes(x, Surviving, now) {
        assert sv == svi + [x];
        FilterSnoc(svi, x, Due, now);
        FilterSnoc(svi, x, Retiring, now);
        assert !Breaks(x, now);
        assert Passes(x, Due, now) <==> Passes(x, Persisting, now);
        assert !Passes(x, Retiring, now);
        assert Filter(s, Persisting, now)
               == Filter(init, Persisting, now) + (if Passes(x, Persisting, now) then [x] else []);
      } else {
        assert sv == svi + [] == svi;
        assert !Passes(x, Persisting, now);
        assert Filter(s, Persisting, now) == Filter(init, Persisting, now) + [] == Filter(init, Persisting, now);
      }
    }
    FilterKeeps(s, Surviving, now);
    forall i | 0 <= i < |sv|
      ensures !Breaks(sv[i], now)
    {
      assert sv[i] in s;
    }
  }

  /** Rows below a bound retire only ids below it. */
  lemma RetiredIdsBelow(s: seq<Fetched>, now: int, bound: nat)
    requires forall i :: 0 <= i < |s| ==> s[i].id < bound
    ensures bound !in IdSet(Ids(Filter(s, Retiring, now)))
  {
    var rr := Filter(s, Retiring, now);
    FilterKeeps(s, Retiring, now);
    IdsAt(rr);
    forall j | 0 <= j < |rr|
      ensures Ids(rr)[j] != bound
    {
      assert rr[j] in s;
    }
  }

  /** Adding to the deleted ids one that no row carries changes nothing. */
  lemma {:induction false} WithoutFresh(s: seq<Fetched>, ids: set<nat>, id: nat)
    requires forall i :: 0 <= i < |s| ==> s[i].id < id
    ensures Without(s, ids + {id}) == Without(s, ids)
  {
    if s != [] {
      WithoutFresh(s[..|s| - 1], ids, id);
    }
  }

  /**
   * With distinct ids, deleting the ids a full cycle retires leaves exactly
   * the rows it did not retire.
   */
  lemma {:induction false} RemainingAfterFullCycle(s: seq<Fetched>, now: int)
    requires Increasing(s)
    ensures Without(s, IdSet(Ids(Filter(s, Retiring, now)))) == Filter(s, Surviving, now)
  {
    if s != [] {
      var init, x := s[..|s| - 1], s[|s| - 1];
      assert s == init + [x];
      IncreasingInit(init, x);
      RemainingAfterFullCycle(init, now);
      RetiredIdsBelow(init, now, x.id);
      RemainingStep(init, x, now);
    }
  }

  lemma IncreasingInit(init: seq<Fetched>, x: Fetched)
    requires Increasing(init + [x])
    ensures Increasing(init)
    ensures forall i :: 0 <= i < |init| ==> init[i].id < x.id
  {
    var s := init + [x];
    assert forall i :: 0 <= i < |init| ==> s[i] == init[i];
    assert s[|init|] == x;
  }

  /** The inductive step of RemainingAfterFullCycle: one more row, above every id so far. */
  lemma RemainingStep(init: seq<Fetched>, x: Fetched, now: int)
    requires forall i :: 0 <= i < |init| ==> init[i].id < x.id
    requires x.id !in IdSet(Ids(Filter(init, Retiring, now)))
    requires Without(init, IdSet(Ids(Filter(init, Retiring, now)))) == Filter(init, Surviving, now)
    ensures Without(init + [x], IdSet(Ids(Filter(init + [x], Retiring, now)))) == Filter(init + [x], Surviving, now)
  {
    var s := init + [x];
    var ri := Filter(init, Retiring, now);
    var ids := IdSet(Ids(ri));
    assert s[..|s| - 1] == init && s[|s| - 1] == x;
    if Passes(x, Retiring, now) {
      assert Filter(s, Retiring, now) == ri + [x];
      IdsSnoc(ri, x);
      assert IdSet(Ids(ri) + [x.id]) == ids + {x.id};
      assert Without(s, ids + {x.id}) == Without(init, ids + {x.id}) + [];
      WithoutFresh(init, ids, x.id);
      assert Filter(s, Surviving, now) == Filter(init, Surviving, now) + [];
    } else {
      assert Filter(s, Retiring, now) == ri + [] == ri;
      assert Without(s, ids) == Without(init, ids) + [x];
      assert Filter(s, Surviving, now) == Filter(init, Surviving, now) + [x];
    }
  }

  /**
   * Running a second cycle at the same time on what a full cycle left sends
   * every due forever row again and deletes nothing: forever rows stay due.
   */
  lemma SecondCycle(s: seq<Fetched>, now: int)
    requires Increasing(s)
    requires !HasBreak(s, now)
    ensures Cycle(Without(s, IdSet(Cycle(s, now).retired)), now)
            == CycleResult(Notices(Filter(s, Persisting, now)), [], None)
  {
    FullCycle(s, now);
    RemainingAfterFullCycle(s, now);
    SurvivorsOfFullCycle(s, now);
    FullCycle(Filter(s, Surviving, now), now);
  }
}
