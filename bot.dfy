/**
 * The two entry points that act on the table: the /add command handler and
 * one run of the periodic reminder check. Chat replies are result values and
 * outgoing reminders an outbox the check returns.
 */
module Bot {
  import opened Wrappers
  import opened Command
  import opened Store
  import opened Dispatch

  /** What /add answers in the chat. */
  datatype Reply =
    | UsageHelp                                                              // the usage line
    | BadUnit                                                                // the list of valid units
    | Scheduled(magnitude: int, unit: string, message: string, repeatCount: nat) // the confirmation
    | AddFailed                                                              // add_reminder returned False

  /** The /add handler: translate the arguments, insert the reminder, answer. */
  method Add(db: ReminderDb, chatId: int, args: seq<string>, now: int) returns (reply: Reply)
    requires db.Valid()
    modifies db
    ensures db.Valid()
    ensures db.created == old(db.created) && db.columns == old(db.columns)
    ensures reply == UsageHelp <==> SplitArgs(args).None?
    ensures reply == BadUnit <==> Translate(args, now) == InvalidUnit
    ensures reply == AddFailed <==>
              && Translate(args, now).Insert?
              && !(old(db.created) && InsertColumns <= old(db.columns)
                   && FitsInteger(chatId) && FitsInteger(Translate(args, now).repeatCount))
    ensures reply.Scheduled? ==>
              var req, p := SplitArgs(args).value, Translate(args, now);
              && reply == Scheduled(req.magnitude, req.unit, req.message, req.repeatCount)
              && db.lastId == old(db.lastId) + 1
              && (forall id :: id in old(db.rows) ==> id < db.lastId)
              && db.rows == old(db.rows)[db.lastId := Row(chatId, p.message, p.remindTime, p.interval, p.repeatCount, p.repeatCount)]
              && db.Snapshot() == old(db.Snapshot()) + [Fetched(db.lastId, chatId, p.message, p.remindTime, p.interval, p.repeatCount)]
    ensures !reply.Scheduled? ==> db.rows == old(db.rows) && db.lastId == old(db.lastId)
  {
    var plan := Translate(args, now);
    match plan
    case Usage =>
      reply := UsageHelp;
    case InvalidUnit =>
      reply := BadUnit;
    case Insert(message, remindTime, interval, repeatCount) =>
      var ok := db.AddReminder(chatId, message, remindTime, interval, repeatCount);
      if ok {
        var req := SplitArgs(args).value;
        reply := Scheduled(req.magnitude, req.unit, message, repeatCount);
      } else {
        reply := AddFailed;
      }
  }

  /** How one run of the reminder check ends. */
  datatype Outcome =
    | Completed            // every row of the snapshot was looked at
    | FetchFailed          // get_reminders raised: no table, or no repeat_remaining column
    | Raised(abort: Abort) // the four-argument add_reminder call raised

  function OutcomeOf(aborted: Option<Abort>): Outcome {
    match aborted
    case None => Completed
    case Some(a) => Raised(a)
  }

  /** The abort a recurrence raises, if any. */
  function Raises(r: Fetched, p: Recurrence): Option<Abort> {
    if p.Reschedule? then Some(RescheduleCallFailed(r.id, p.next)) else None
  }

  /**
   * The recurrence branch for a row that has just been sent: delete it, leave
   * it, or make the four-argument add_reminder call, which raises before
   * touching the table.
   */
  method Recur(db: ReminderDb, r: Fetched) returns (aborted: Option<Abort>)
    requires db.Valid() && db.created
    modifies db
    ensures db.Valid() && db.created
    ensures db.columns == old(db.columns) && db.lastId == old(db.lastId)
    ensures aborted == Raises(r, Policy(r.interval, r.remindTime))
    ensures Policy(r.interval, r.remindTime) == Retire ==> db.rows == old(db.rows) - {r.id}
    ensures Policy(r.interval, r.remindTime) != Retire ==> db.rows == old(db.rows)
  {
    if r.interval == Some(Monthly) {
      var next := NextTime(r.remindTime, Monthly);
      aborted := Some(RescheduleCallFailed(r.id, next));
    } else if r.interval == Some(Yearly) {
      var next := NextTime(r.remindTime, Yearly);
      aborted := Some(RescheduleCallFailed(r.id, next));
    } else if r.interval != Some(Forever) {
      var ok := db.DeleteReminder(r.id);
      aborted := None;
    } else {
      aborted := None;
    }
  }

  /**
   * One run of check_reminders: fetch every row, then for each due row send
   * its reminder and apply its recurrence branch, stopping at the first
   * reschedule call. Sends and deletes exactly what Cycle describes for the
   * fetched snapshot, and the table loses exactly the rows Cycle retires.
   */
  method CheckReminders(db: ReminderDb, now: int) returns (sent: seq<Outgoing>, outcome: Outcome)
    requires db.Valid()
    modifies db
    ensures db.Valid()
    ensures db.created == old(db.created) && db.columns == old(db.columns) && db.lastId == old(db.lastId)
    ensures outcome == FetchFailed <==> !(old(db.created) && RepeatRemaining in old(db.columns))
    ensures outcome == FetchFailed ==> sent == [] && db.rows == old(db.rows)
    ensures outcome != FetchFailed ==>
              var c := Cycle(old(db.Snapshot()), now);
              && sent == c.sent
              && outcome == OutcomeOf(c.aborted)
              && db.rows == old(db.rows) - IdSet(c.retired)
              && db.Snapshot() == Without(old(db.Snapshot()), IdSet(c.retired))
  {
    var ok, snapshot := db.GetReminders();
    if !ok {
      return [], FetchFailed;
    }
    ghost var rows0 := db.rows;
    ghost var retired: seq<nat> := [];
    sent := [];
    var i := 0;
    while i < |snapshot|
      invariant 0 <= i <= |snapshot|
      invariant db.Valid() && db.created && db.columns == old(db.columns) && db.lastId == old(db.lastId)
      invariant Cycle(snapshot[..i], now) == CycleResult(sent, retired, None)
      invariant db.rows == rows0 - IdSet(retired)
    {
      var r := snapshot[i];
      CycleExtend(snapshot, i, now);
      if r.remindTime <= now {
        sent := sent + [Notice(r)];
        var aborted := Recur(db, r);
        if aborted.Some? {
          AbortSticky(snapshot, i + 1, now);
          ScanRemove(rows0, IdSet(retired), db.lastId);
          return sent, Raised(aborted.value);
        }
        if Policy(r.interval, r.remindTime) == Retire {
          assert IdSet(retired + [r.id]) == IdSet(retired) + {r.id};
          RemoveOneMore(rows0, IdSet(retired), r.id);
          retired := retired + [r.id];
        }
      }
      i := i + 1;
    }
    assert snapshot[..i] == snapshot;
    ScanRemove(rows0, IdSet(retired), db.lastId);
    outcome := Completed;
  }
}
