# Reminder bot: a Dafny model of its table, its /add command and its reminder check

The bot keeps reminders in one SQLite table, `reminders`. The `/add`
command inserts rows into it. A scheduled job, `check_reminders`, runs every
ten seconds and does three things:

- sends every reminder that is due;
- deletes the one-shot reminders it has sent;
- tries to reschedule monthly and yearly reminders, with a call that cannot
  succeed.

This project models that core:

- **`text.dfy`** (`Text`): the Python string primitives the handler relies
  on. These are `int()` on a token, `str.isdigit()`, ASCII `str.lower()` and
  `' '.join`. It also defines a split on single spaces, used only as the
  inverse that checks the join.
- **`command.dfy`** (`Command`): the pure part of `/add`. It covers how the
  arguments are split into magnitude, unit, message and repeat count, and how
  the unit table turns them into a due time and a repeat interval.
- **`store.dfy`** (`Store`): the table as a class `ReminderDb`. Its fields are:
  - whether the table exists;
  - its column set;
  - its rows by id;
  - the AUTOINCREMENT counter, which is the largest id ever handed out.

  Its methods are `init_db`, `add_reminder`, `get_reminders` and
  `delete_reminder`. Rows are read back in increasing id order.
- **`dispatch.dfy`** (`Dispatch`):
  - the recurrence branch of the check, as a pure policy;
  - the cycle over a fetched snapshot, as a specification function `Cycle`;
  - reference filters of the snapshot (due rows, retirable rows, forever
    rows, survivors), with lemmas relating one cycle and the next one to them.
- **`bot.dfy`** (`Bot`):
  - the `/add` handler;
  - the `check_reminders` loop, proved against `Cycle`, and its recurrence
    branch.

Time is whole seconds at the bot's fixed UTC+7 offset. `now` is the current
time rounded down to the second, which is what the stored
`%Y-%m-%d %H:%M:%S` text keeps.

Behaviour of the code that the model keeps as it is:

- **Monthly and yearly reminders are never rescheduled.** The reschedule call
  passes four arguments to a five-parameter `add_reminder`. It raises before
  anything is stored, and the exception ends the run. The first due monthly
  or yearly row in id order therefore stops every run: it is sent again each
  time, and no row after it is sent or deleted. A second due monthly or yearly
  row, and every row added later (new rows get higher ids), are starved.
- **Forever rows are neither moved nor deleted,** so once due they are sent
  on every run.
- **`repeat_remaining` is fetched but never used.**
- **A failing `get_reminders` ends the run.** A missing table or missing
  `repeat_remaining` column raises out of the check.
- **A repeat count of 0 is accepted,** because `"0".isdigit()` holds.

## Model

| member | source | states |
|---|---|---|
| Text.IsDigits | bot.py:92 | str.isdigit() on ASCII: non-empty and every character 0-9; ParseDigits and DigitsRoundTrip state what int() makes of such a token |
| Text.Join | bot.py:91 | ' '.join of the message words; SplitJoin states that it loses no word boundary for space-free words |
| Text.ParseInt | bot.py:89 | int() accepts only a non-empty optional sign followed by digits and underscores; a negative value needs a leading '-' |
| Text.ParseIntRoundTrip | bot.py:89 | int(str(n)) == n for every integer n: every magnitude a user can write in decimal is read back exactly |
| Text.ParseDigits | bot.py:92 | a token that passes isdigit() is read by int() as its decimal digit value, so the count conversion never fails |
| Text.Lower | bot.py:90 | lower() keeps the length, leaves no upper-case letter, leaves every other character as it was and maps A-Z to a-z |
| Text.SplitJoin | bot.py:91 | joining space-free words with single spaces and splitting on ' ' gives the words back |
| Command.UnitNamed | bot.py:97-118 | the if/elif chain picks a unit exactly when the lower-cased token is one of its names, and none when no unit has that name |
| Command.IntervalOf | bot.py:107-115 | the repeat_interval each unit stores: monthly, yearly, forever, and None for the fixed units; UnitTable states it for every accepted name |
| Command.UnitSeconds | bot.py:97-114 | the timedelta of one unit in seconds: 1, 60, 3600, 86400, 604800, 30 and 365 days; ScheduledTime and UnitTable scale the magnitude by it |
| Command.ScheduledTime | bot.py:97-115 | each branch adds magnitude times the unit's length in seconds to now; forever adds 36500 days whatever the magnitude; for every unit but forever, the due time is later than now exactly when the magnitude is positive |
| Command.SplitArgs | bot.py:89-92 | the split succeeds exactly when there are at least two arguments and the first is an integer; the magnitude is int(args[0]) and the unit is args[1] lower-cased |
| Command.Translate | bot.py:89-118 | a usage error exactly when the split fails, an invalid unit exactly when the unit names no unit, and otherwise an insert carrying the split's message and repeat count |
| Command.UnitTable | bot.py:97-115 | every accepted unit name, in any letter case, yields an insert whose interval is None, monthly, yearly or forever as the table says and whose due time is now + v units, or now + 36500 days for forever |
| Command.SplitCommandWords | bot.py:89-92 | a command written as magnitude, unit, non-empty text and an explicit count is split back into exactly those four values, with the unit lower-cased |
| Command.LastWordDropped | bot.py:91-92 | with more than three arguments the last one never reaches the message, whatever it is, and a last word that is not all digits gives count 1 |
| Command.ShortCommand | bot.py:91-92 | with two or three arguments and any magnitude int() accepts, the message is the third argument, or empty, and the count is 1 |
| Command.CountFromLastWord | bot.py:91-92 | with more than three arguments and a last word that passes isdigit(), in any spelling, the count is that word's digit value and the message is the words between the unit and the last one |
| Command.RejectedCommands | bot.py:89-126 | fewer than two arguments or a non-integer magnitude give the usage reply, and a unit no entry names gives the invalid-unit reply |
| Store.Migrate | bot.py:43-47 | ADD COLUMN with DEFAULT 1 keeps every row and its other fields, and reads 1 in each repeat column that was missing |
| Store.MigrateSettled | bot.py:43-47 | once both repeat columns exist, the migration changes no row |
| Store.MigrateIdempotent | bot.py:27-47 | migrating again after a migration changes nothing |
| Store.ReminderDb.InitDb | bot.py:22-50 | afterwards the table exists with every current column; rows are migrated from the old column set; the id counter is unchanged |
| Store.ReminderDb.AddReminder | bot.py:53-64 | True exactly when the table has the inserted columns and the integers fit; then one row is stored with a fresh id above every earlier id, repeat_remaining equal to repeat_count, and nothing else changes, and get_reminders gains that row at its end; on False nothing changes |
| Store.ReminderDb.GetReminders | bot.py:67-73 | fails exactly when the table or the repeat_remaining column is missing; otherwise returns the table's scan |
| Store.ReminderDb.SnapshotFaithful | bot.py:70 | the scan lists every stored row, each as the SELECT reads it, in strictly increasing id order |
| Store.Select | bot.py:70 | the SELECT's projection of a stored row: its id and every column but repeat_count |
| Store.Scan | bot.py:70-71 | the rows fetchall returns, in rowid order; ScanSound, ScanComplete and ScanRemove state what it lists |
| Store.ScanSound | bot.py:70 | every scanned tuple is a stored row within the counter's range, read as the SELECT projects it, and ids strictly increase |
| Store.ScanComplete | bot.py:70 | every stored row whose id is within the counter's range appears in the scan |
| Store.ScanRemove | bot.py:79 | deleting a set of ids from the table deletes exactly the tuples with those ids from its scan, keeping the order of the rest |
| Store.ReminderDb.DeleteReminder | bot.py:76-81 | removes the row with that id and no other; nothing when the id is absent; the scan loses exactly that id |
| Dispatch.NextTime | bot.py:139-144 | the computed new time is one month (30 days) or one year (365 days) of the unit table after the time that fired, so it is later |
| Dispatch.Policy | bot.py:139-146 | reschedule exactly for monthly and yearly, at exactly remind_time + 30 days or + 365 days (NextTime), which is later; leave exactly forever rows alone; delete every other interval including None |
| Dispatch.Notice | bot.py:138 | the message send_message gets: the row's chat and "Reminder: " followed by its text; SentAreDue states every sent message is one |
| Dispatch.Fire | bot.py:136-146 | the loop body on one row: nothing unless due; otherwise send, then delete, leave, or raise as Policy says; the loop of Bot.CheckReminders keeps Cycle, built from it, as its invariant |
| Dispatch.Cycle | bot.py:135-146 | the for loop over the fetched rows, stopping at the first raise; FullCycle, BrokenCycle and FirstBreak state what it sends and deletes on every snapshot |
| Dispatch.FullCycle | bot.py:133-146 | with no due monthly or yearly row, the run sends exactly the due rows in snapshot order and deletes exactly the due rows that are not monthly, yearly or forever, in order |
| Dispatch.BrokenCycle | bot.py:133-146 | when the first due monthly or yearly row is at k, the run sends the due rows up to k, deletes the retirable ones before k, and ends with the failed reschedule of row k and its new time |
| Dispatch.FirstBreak | bot.py:135-144 | a snapshot with a due monthly or yearly row has a first one, so every run is described by FullCycle or BrokenCycle |
| Dispatch.AbortSticky | bot.py:141 | once the reschedule call has raised, the rows after it change nothing |
| Dispatch.RetiredAreRetirable | bot.py:145-146 | every deleted id belongs to a due row whose interval is not monthly, yearly or forever |
| Dispatch.SentAreDue | bot.py:137-138 | every sent message is "Reminder: " + message to the chat of a due row |
| Dispatch.OnlyRetiredRowsDeleted | bot.py:137-146 | a row that is not due, or is monthly, yearly or forever, is never deleted |
| Dispatch.SurvivorsOfFullCycle | bot.py:137-146 | after a full run, no remaining row is both due and deletable, and the remaining due rows are exactly the due forever rows |
| Dispatch.RemainingAfterFullCycle | bot.py:145-146 | deleting the ids a full run retires leaves exactly the rows it does not retire, in order |
| Dispatch.SecondCycle | bot.py:132-146 | after a full run (no due monthly or yearly row in the snapshot), a second run at the same time on what is left sends exactly the due forever rows again and deletes nothing |
| Bot.Add | bot.py:87-129 | usage reply exactly on a failed split; invalid-unit reply exactly on an unknown unit; failure reply exactly when add_reminder returns False; otherwise a confirmation with the magnitude, unit, message and count, and the new table is the old one plus the planned row, with repeat_remaining equal to repeat_count, under the next id, above every earlier id; no row changes on any other reply |
| Bot.Recur | bot.py:139-146 | monthly and yearly raise with the computed new time and change nothing; other non-forever intervals delete the row; forever leaves the table as it was |
| Bot.CheckReminders | bot.py:132-146 | fails with nothing sent exactly when get_reminders fails; otherwise sends what Cycle of the fetched rows sends, ends as that Cycle ends, and the table loses exactly the rows it retires |

## Left out

- **SQLite itself.** Connections, SQL text, commits, PRAGMA and disk I/O
  errors are not modelled. The table is a map, and the only failures modelled
  are a missing table or column and an integer outside SQLite's range.
- **Text formatting of times.** The `%Y-%m-%d %H:%M:%S` text is left out:
  times are whole seconds. `datetime` overflow for huge magnitudes is left out
  too; it reaches the generic `except Exception` of `/add`, which is not
  modelled.
- **Python's limit on `int()` of very long digit strings.** That limit raises
  `ValueError`. The model reads any length.
- **Unicode behaviour.** `int()`, `isdigit()` and `lower()` are modelled on
  ASCII only. Whitespace inside an argument cannot occur, because Telegram
  splits arguments on whitespace.
- **Telegram transport.** Replies are `Reply` values, not the Indonesian
  texts. Sending is an infallible append to the returned outbox. A failing
  `send_message`, which would end the run, is not modelled.
- **Other I/O.** The `/start` handler, the token file, logging and `main` are
  left out. They do I/O and hold no logic of the table.
- **Scheduling.** The ten-second scheduler and `asyncio.run` are left out.
  One run of the check is one call of `Bot.CheckReminders`, and runs do not
  overlap an `/add`.
- **Store.ReminderDb.GetReminders:** its contract only ties the result to the
  scan. What the scan contains is stated by `SnapshotFaithful`, `ScanSound`
  and `ScanComplete`.
- **Row order.** The order of an unordered SELECT is taken to be increasing
  rowid, the order of a SQLite table scan.
