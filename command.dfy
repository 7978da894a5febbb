/**
 * The pure part of the /add command handler: how its arguments are split into
 * a magnitude, a unit, a message and a repeat count, and how the unit table
 * turns them into a due time and a repeat interval. Time is whole seconds at
 * the bot's fixed UTC+7 offset.
 */
module Command {
  import opened Wrappers
  import opened Text

  const SecondsPerMinute: int := 60
  const SecondsPerHour: int := 3600
  const SecondsPerDay: int := 86400
  const SecondsPerWeek: int := 604800

  /** The texts stored in the repeat_interval column. */
  const Monthly: string := "monthly"
  const Yearly: string := "yearly"
  const Forever: string := "forever"

  datatype Unit = Seconds | Minutes | Hours | Days | Weeks | Months | Years | Always

  /** Every token the unit table accepts for a unit, singular and plural. */
  function Names(u: Unit): set<string> {
    match u
    case Seconds => {"second", "seconds"}
    case Minutes => {"minute", "minutes"}
    case Hours => {"hour", "hours"}
    case Days => {"day", "days"}
    case Weeks => {"week", "weeks"}
    case Months => {"month", "months"}
    case Years => {"year", "years"}
    case Always => {"forever"}
  }

  /** The if/elif chain over the lower-cased unit token. */
  function UnitNamed(token: string): (r: Option<Unit>)
    ensures r.Some? ==> token in Names(r.value)
    ensures r.None? ==> forall u :: token !in Names(u)
  {
    if token in ["second", "seconds"] then Some(Seconds)
    else if token in ["minute", "minutes"] then Some(Minutes)
    else if token in ["hour", "hours"] then Some(Hours)
    else if token in ["day", "days"] then Some(Days)
    else if token in ["week", "weeks"] then Some(Weeks)
    else if token in ["month", "months"] then Some(Months)
    else if token in ["year", "years"] then Some(Years)
    else if token == "forever" then Some(Always)
    else None
  }

  /** Each accepted token names one unit only, so the chain picks that unit. */
  lemma NamedUnit(token: string, u: Unit)
    requires token in Names(u)
    ensures UnitNamed(token) == Some(u)
  {
    match u
    case Seconds =>
    case Minutes =>
    case Hours =>
    case Days =>
    case Weeks =>
    case Months =>
    case Years =>
    case Always =>
  }

  /** The repeat_interval a unit stores: None for the fixed units. */
  function IntervalOf(u: Unit): Option<string> {
    match u
    case Months => Some(Monthly)
    case Years => Some(Yearly)
    case Always => Some(Forever)
    case _ => None
  }

  /** The length of one unit in seconds; the forever offset does not scale. */
  function UnitSeconds(u: Unit): int {
    match u
    case Seconds => 1
    case Minutes => SecondsPerMinute
    case Hours => SecondsPerHour
    case Days => SecondsPerDay
    case Weeks => SecondsPerWeek
    case Months => 30 * SecondsPerDay
    case Years => 365 * SecondsPerDay
    case Always => 36500 * SecondsPerDay
  }

  /** now + the timedelta each branch of the unit table builds. */
  function ScheduledTime(u: Unit, magnitude: int, now: int): (t: int)
    ensures u == Always ==> t == now + 36500 * SecondsPerDay
    ensures u != Always ==> t - now == magnitude * UnitSeconds(u)
    ensures u != Always ==> (magnitude > 0 <==> t > now) && (magnitude == 0 <==> t == now)
  {
    match u
    case Seconds => now + magnitude
    case Minutes => now + magnitude * 60
    case Hours => now + magnitude * 3600
    case Days => now + magnitude * 86400
    case Weeks => now + magnitude * 7 * 86400
    case Months => now + 30 * magnitude * 86400
    case Years => now + 365 * magnitude * 86400
    case Always => now + 36500 * 86400
  }

  /** The four values the handler reads off its arguments before any unit check. */
  datatype AddRequest = AddRequest(magnitude: int, unit: string, message: string, repeatCount: nat)

  /**
   * The argument split: None when there are fewer than two arguments or the
   * first is not an integer (the IndexError / ValueError the handler turns
   * into the usage reply).
   */
  function SplitArgs(args: seq<string>): (r: Option<AddRequest>)
    ensures r.Some? <==> |args| >= 2 && ParseInt(args[0]).Some?
    ensures r.Some? ==> r.value.magnitude == ParseInt(args[0]).value
    ensures r.Some? ==> r.value.unit == Lower(args[1])
  {
    if |args| < 2 then None
    else match ParseInt(args[0])
      case None => None
      case Some(v) =>
        var n := |args|;
        var message := if n > 3 then Join(args[2..n - 1], " ") else Join(args[2..], " ");
        var count := if n > 3 && IsDigits(args[n - 1]) then DigitsValue(args[n - 1]) else 1;
        Some(AddRequest(v, Lower(args[1]), message, count))
  }

  /** What the handler does with one /add command. */
  datatype AddPlan =
    | Usage
    | InvalidUnit
    | Insert(message: string, remindTime: int, interval: Option<string>, repeatCount: nat)

  function Translate(args: seq<string>, now: int): (p: AddPlan)
    ensures p == Usage <==> SplitArgs(args).None?
    ensures p == InvalidUnit <==> SplitArgs(args).Some? && UnitNamed(SplitArgs(args).value.unit).None?
    ensures p.Insert? ==> p.message == SplitArgs(args).value.message
    ensures p.Insert? ==> p.repeatCount == SplitArgs(args).value.repeatCount
  {
    match SplitArgs(args)
    case None => Usage
    case Some(req) =>
      match UnitNamed(req.unit)
      case None => InvalidUnit
      case Some(u) => Insert(req.message, ScheduledTime(u, req.magnitude, now), IntervalOf(u), req.repeatCount)
  }

  /**
   * The unit table: every accepted token, in any letter case, schedules at
   * now + magnitude units with the unit's interval, except forever, which
   * ignores the magnitude.
   */
  lemma UnitTable(args: seq<string>, now: int, u: Unit)
    requires |args| >= 2 && ParseInt(args[0]).Some?
    requires Lower(args[1]) in Names(u)
    ensures Translate(args, now).Insert?
    ensures Translate(args, now).interval == IntervalOf(u)
    ensures u != Always ==> Translate(args, now).remindTime == now + ParseInt(args[0]).value * UnitSeconds(u)
    ensures u == Always ==> Translate(args, now).remindTime == now + 36500 * SecondsPerDay
  {
    NamedUnit(Lower(args[1]), u);
  }

  /** The words as a user types them after /add: magnitude, unit, text, count. */
  function CommandWords(magnitude: int, unit: string, words: seq<string>, count: nat): seq<string> {
    [IntToString(magnitude), unit] + words + [NatToDigits(count)]
  }

  /**
   * A command written with a non-empty text and an explicit repeat count is
   * split back into exactly the magnitude, the lower-cased unit, the text and
   * the count it was written from.
   */
  lemma SplitCommandWords(magnitude: int, unit: string, words: seq<string>, count: nat)
    requires |words| > 0
    ensures SplitArgs(CommandWords(magnitude, unit, words, count))
            == Some(AddRequest(magnitude, Lower(unit), Join(words, " "), count))
  {
    var args := CommandWords(magnitude, unit, words, count);
    ParseIntRoundTrip(magnitude);
    assert args[0] == IntToString(magnitude);
    assert args[2..|args| - 1] == words;
    ParseDigits(NatToDigits(count));
    DigitsRoundTrip(count);
  }

  /**
   * With more than three arguments the last one never reaches the message,
   * whether or not it is a repeat count.
   */
  lemma LastWordDropped(args: seq<string>, last1: string, last2: string)
    requires |args| >= 3 && ParseInt(args[0]).Some?
    ensures SplitArgs(args + [last1]).Some? && SplitArgs(args + [last2]).Some?
    ensures SplitArgs(args + [last1]).value.message == SplitArgs(args + [last2]).value.message
                                                    == Join(args[2..], " ")
    ensures !IsDigits(last1) ==> SplitArgs(args + [last1]).value.repeatCount == 1
  {
    assert (args + [last1])[0] == args[0] && (args + [last2])[0] == args[0];
    assert (args + [last1])[2..|args|] == args[2..] == (args + [last2])[2..|args|];
  }

  /**
   * With two or three arguments and any accepted magnitude spelling ("05",
   * "+5", "1_000"), the text is the third argument, or empty, and the count is 1.
   */
  lemma ShortCommand(args: seq<string>)
    requires 2 <= |args| <= 3 && ParseInt(args[0]).Some?
    ensures SplitArgs(args).Some?
    ensures SplitArgs(args).value.message == (if |args| == 3 then args[2] else "")
    ensures SplitArgs(args).value.repeatCount == 1
  {
  }

  /**
   * With more than three arguments a last word that passes isdigit(), in any
   * spelling ("007" included), is the repeat count, read as its digit value.
   */
  lemma CountFromLastWord(args: seq<string>)
    requires |args| > 3 && ParseInt(args[0]).Some? && IsDigits(args[|args| - 1])
    ensures SplitArgs(args).Some?
    ensures SplitArgs(args).value.repeatCount == DigitsValue(args[|args| - 1])
    ensures SplitArgs(args).value.message == Join(args[2..|args| - 1], " ")
  {
  }

  /** A bad unit or a bad magnitude never yields a row to insert. */
  lemma RejectedCommands(args: seq<string>, now: int)
    ensures |args| < 2 ==> Translate(args, now) == Usage
    ensures |args| >= 2 && ParseInt(args[0]).None? ==> Translate(args, now) == Usage
    ensures (|args| >= 2 && ParseInt(args[0]).Some? && forall u :: Lower(args[1]) !in Names(u))
            ==> Translate(args, now) == InvalidUnit
  {
  }
}
