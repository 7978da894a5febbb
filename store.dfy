/**
 * The reminders table of the bot's SQLite database, as an in-memory store:
 * whether the table exists, its column set, its rows by id, and the
 * AUTOINCREMENT counter (the largest id ever handed out).
 */
module Store {
  import opened Wrappers

  datatype Column = Id | ChatId | Message | RemindTime | RepeatInterval | RepeatCount | RepeatRemaining

  /** The columns of a table created before the repeat columns existed. */
  const BaseColumns: set<Column> := {Id, ChatId, Message, RemindTime, RepeatInterval}
  const RepeatColumns: set<Column> := {RepeatCount, RepeatRemaining}
  /** The columns CREATE TABLE declares today. */
  const AllColumns: set<Column> := BaseColumns + RepeatColumns
  /** The columns the INSERT of add_reminder names. */
  const InsertColumns: set<Column> := {ChatId, Message, RemindTime, RepeatInterval, RepeatCount, RepeatRemaining}
  /** The columns the SELECT of get_reminders names. */
  const SelectColumns: set<Column> := {Id, ChatId, Message, RemindTime, RepeatInterval, RepeatRemaining}

  /** The range of a SQLite INTEGER, the only integers a statement parameter can carry. */
  predicate FitsInteger(v: int) {
    -0x8000_0000_0000_0000 <= v <= 0x7FFF_FFFF_FFFF_FFFF
  }

  /** One stored reminder; remindTime is whole seconds at UTC+7, interval None is SQL NULL. */
  datatype Row = Row(
    chatId: int,
    message: string,
    remindTime: int,
    interval: Option<string>,
    repeatCount: int,
    repeatRemaining: int)

  /** One tuple of the SELECT in get_reminders: repeat_count is not selected. */
  datatype Fetched = Fetched(
    id: nat,
    chatId: int,
    message: string,
    remindTime: int,
    interval: Option<string>,
    remaining: int)

  function Select(id: nat, r: Row): Fetched {
    Fetched(id, r.chatId, r.message, r.remindTime, r.interval, r.repeatRemaining)
  }

  predicate Increasing(s: seq<Fetched>) {
    forall i, j :: 0 <= i < j < |s| ==> s[i].id < s[j].id
  }

  /**
   * A full-table scan over ids 1..n in rowid order, the order in which
   * SQLite returns the rows of an unordered SELECT.
   */
  function Scan(rows: map<nat, Row>, n: nat): seq<Fetched> {
    if n == 0 then []
    else Scan(rows, n - 1) + (if n in rows then [Select(n, rows[n])] else [])
  }

  /** The scan lists only stored rows, each as the SELECT reads it, in increasing id order. */
  lemma {:induction false} ScanSound(rows: map<nat, Row>, n: nat)
    ensures forall i :: 0 <= i < |Scan(rows, n)| ==> 1 <= Scan(rows, n)[i].id <= n && Scan(rows, n)[i].id in rows
    ensures forall i :: 0 <= i < |Scan(rows, n)| ==>
              Scan(rows, n)[i] == Select(Scan(rows, n)[i].id, rows[Scan(rows, n)[i].id])
    ensures Increasing(Scan(rows, n))
  {
    if n > 0 {
      ScanSound(rows, n - 1);
      var s, s1 := Scan(rows, n), Scan(rows, n - 1);
      if n in rows {
        assert s == s1 + [Select(n, rows[n])];
      } else {
        assert s == s1;
      }
    }
  }

  /** Some element of s carries this id. */
  ghost predicate Lists(s: seq<Fetched>, id: nat) {
    exists i :: 0 <= i < |s| && s[i].id == id
  }

  /** Every stored row with an id up to n is in the scan. */
  lemma {:induction false} ScanComplete(rows: map<nat, Row>, n: nat, id: nat)
    requires 1 <= id <= n && id in rows
    ensures Lists(Scan(rows, n), id)
  {
    var s := Scan(rows, n);
    if id == n {
      assert s[|s| - 1].id == id;
    } else {
      ScanComplete(rows, n - 1, id);
      var i :| 0 <= i < |Scan(rows, n - 1)| && Scan(rows, n - 1)[i].id == id;
      assert s[i] == Scan(rows, n - 1)[i];
    }
  }

  /** The scan drops the rows whose id is in ids and keeps the order of the rest. */
  function Without(s: seq<Fetched>, ids: set<nat>): seq<Fetched> {
    if s == [] then []
    else Without(s[..|s| - 1], ids) + (if s[|s| - 1].id in ids then [] else [s[|s| - 1]])
  }

  /** Deleting a set of ids from the table deletes exactly those rows from its scan. */
  lemma {:induction false} ScanRemove(rows: map<nat, Row>, ids: set<nat>, n: nat)
    ensures Scan(rows - ids, n) == Without(Scan(rows, n), ids)
  {
    if n > 0 {
      ScanRemove(rows, ids, n - 1);
      var s, s1 := Scan(rows, n), Scan(rows, n - 1);
      if n in rows {
        var last := Select(n, rows[n]);
        assert s == s1 + [last];
        assert s[..|s| - 1] == s1 && s[|s| - 1] == last;
        assert Without(s, ids) == Without(s1, ids) + (if n in ids then [] else [last]);
        if n !in ids {
          assert (rows - ids)[n] == rows[n];
        }
      } else {
        assert s == s1;
        assert n !in rows - ids;
      }
    }
  }

  /** A row stored above n does not change the scan up to n. */
  lemma {:induction false} ScanAbove(rows: map<nat, Row>, n: nat, id: nat, row: Row)
    requires id > n
    ensures Scan(rows[id := row], n) == Scan(rows, n)
  {
    if n > 0 {
      ScanAbove(rows, n - 1, id, row);
    }
  }

  /** Deleting ids one more at a time is deleting them all at once. */
  lemma RemoveOneMore(rows: map<nat, Row>, ids: set<nat>, id: nat)
    ensures (rows - ids) - {id} == rows - (ids + {id})
  {
  }

  /** The table in a state the bot can reach: AUTOINCREMENT ids, schema at least the original one. */
  ghost predicate Consistent(created: bool, columns: set<Column>, rows: map<nat, Row>, lastId: nat) {
    && (!created ==> columns == {} && rows == map[] && lastId == 0)
    && (created ==> BaseColumns <= columns)
    && (forall id :: id in rows ==> 1 <= id <= lastId)
  }

  /**
   * The migration of init_db on the rows: ADD COLUMN ... DEFAULT 1 makes
   * every existing row read 1 in each repeat column that was missing.
   */
  function Migrate(rows: map<nat, Row>, columns: set<Column>): (r: map<nat, Row>)
    ensures r.Keys == rows.Keys
    ensures forall id :: id in rows ==>
              && r[id].chatId == rows[id].chatId
              && r[id].message == rows[id].message
              && r[id].remindTime == rows[id].remindTime
              && r[id].interval == rows[id].interval
    ensures forall id :: id in rows ==>
              r[id].repeatCount == (if RepeatCount in columns then rows[id].repeatCount else 1)
    ensures forall id :: id in rows ==>
              r[id].repeatRemaining == (if RepeatRemaining in columns then rows[id].repeatRemaining else 1)
  {
    map id | id in rows ::
      rows[id].(repeatCount := if RepeatCount in columns then rows[id].repeatCount else 1,
                repeatRemaining := if RepeatRemaining in columns then rows[id].repeatRemaining else 1)
  }

  /** Once both repeat columns exist, the migration leaves every row as it is. */
  lemma MigrateSettled(rows: map<nat, Row>, columns: set<Column>)
    requires RepeatColumns <= columns
    ensures Migrate(rows, columns) == rows
  {
    assert RepeatCount in columns && RepeatRemaining in columns;
    var m := Migrate(rows, columns);
    forall id | id in rows ensures m[id] == rows[id] {
    }
  }

  /** A second init_db migrates nothing: the migration is idempotent. */
  lemma MigrateIdempotent(rows: map<nat, Row>, columns: set<Column>)
    ensures Migrate(Migrate(rows, columns), columns + AllColumns) == Migrate(rows, columns)
  {
    MigrateSettled(Migrate(rows, columns), columns + AllColumns);
  }

  class ReminderDb {
    var created: bool
    var columns: set<Column>
    var rows: map<nat, Row>
    /** The table's sqlite_sequence entry: the largest id ever assigned. */
    var lastId: nat

    ghost predicate Valid()
      reads this
    {
      Consistent(created, columns, rows, lastId)
    }

    /** rows, as get_reminders returns them. */
    function Snapshot(): seq<Fetched>
      reads this
    {
      Scan(rows, lastId)
    }

    /** A database file in any state the bot can find on start-up. */
    constructor Open(created: bool, columns: set<Column>, rows: map<nat, Row>, lastId: nat)
      requires Consistent(created, columns, rows, lastId)
      ensures Valid()
      ensures this.created == created && this.columns == columns
      ensures this.rows == rows && this.lastId == lastId
    {
      this.created := created;
      this.columns := columns;
      this.rows := rows;
      this.lastId := lastId;
    }

    /** Create the table if missing, then add each missing repeat column with default 1. */
    method InitDb()
      requires Valid()
      modifies this
      ensures Valid() && created
      ensures columns == old(columns) + AllColumns
      ensures rows == Migrate(old(rows), old(columns))
      ensures lastId == old(lastId)
    {
      if !created {
        created, columns := true, AllColumns;
      }
      var present := columns;
      if RepeatCount !in present {
        columns := columns + {RepeatCount};
        rows := map id | id in rows :: rows[id].(repeatCount := 1);
      }
      if RepeatRemaining !in present {
        columns := columns + {RepeatRemaining};
        rows := map id | id in rows :: rows[id].(repeatRemaining := 1);
      }
      assert rows == Migrate(old(rows), old(columns));
    }

    /**
     * Insert one row with repeat_remaining = repeat_count under a fresh id;
     * false (and nothing stored) when the table lacks a column the INSERT names
     * or an integer parameter does not fit a SQLite INTEGER.
     */
    method AddReminder(chatId: int, message: string, remindTime: int, interval: Option<string>, repeatCount: int)
      returns (ok: bool)
      requires Valid()
      modifies this
      ensures Valid()
      ensures ok <==> created && InsertColumns <= columns && FitsInteger(chatId) && FitsInteger(repeatCount)
      ensures created == old(created) && columns == old(columns)
      ensures ok ==> lastId == old(lastId) + 1
      ensures ok ==> forall id :: id in old(rows) ==> id < lastId
      ensures ok ==> rows == old(rows)[lastId := Row(chatId, message, remindTime, interval, repeatCount, repeatCount)]
      ensures ok ==> Snapshot() == old(Snapshot()) + [Fetched(lastId, chatId, message, remindTime, interval, repeatCount)]
      ensures !ok ==> rows == old(rows) && lastId == old(lastId)
    {
      ok := created && InsertColumns <= columns && FitsInteger(chatId) && FitsInteger(repeatCount);
      if ok {
        var id := lastId + 1;
        var row := Row(chatId, message, remindTime, interval, repeatCount, repeatCount);
        ScanAbove(rows, lastId, id, row);
        rows := rows[id := row];
        lastId := id;
      }
    }

    /** SELECT of every row; false when the table or the repeat_remaining column is missing. */
    method GetReminders() returns (ok: bool, snapshot: seq<Fetched>)
      requires Valid()
      ensures ok <==> created && RepeatRemaining in columns
      ensures ok ==> snapshot == Snapshot()
      ensures !ok ==> snapshot == []
    {
      ok := created && SelectColumns <= columns;
      if ok {
        snapshot := Snapshot();
      } else {
        snapshot := [];
      }
    }

    /**
     * What get_reminders returns lists every stored row exactly as stored,
     * once, in increasing id order.
     */
    lemma SnapshotFaithful()
      requires Valid()
      ensures forall i :: 0 <= i < |Snapshot()| ==>
                Snapshot()[i].id in rows && Snapshot()[i] == Select(Snapshot()[i].id, rows[Snapshot()[i].id])
      ensures Increasing(Snapshot())
      ensures forall id :: id in rows ==> Lists(Snapshot(), id)
    {
      ScanSound(rows, lastId);
      forall id | id in rows
        ensures Lists(Snapshot(), id)
      {
        ScanComplete(rows, lastId, id);
      }
    }

    /** DELETE of the row with this id, if any; false when the table is missing. */
    method DeleteReminder(id: nat) returns (ok: bool)
      requires Valid()
      modifies this
      ensures Valid()
      ensures ok <==> created
      ensures rows == old(rows) - {id}
      ensures created == old(created) && columns == old(columns) && lastId == old(lastId)
      ensures Snapshot() == Without(old(Snapshot()), {id})
    {
      ok := created;
      ScanRemove(rows, {id}, lastId);
      rows := rows - {id};
    }
  }
}
