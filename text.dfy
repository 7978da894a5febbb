/**
 * The string operations of Python that the add command relies on, restricted
 * to ASCII: int() on a decimal literal, str.isdigit(), str.lower() and
 * " ".join(...).
 */
module Text {
  import opened Wrappers

  predicate IsDigit(c: char) {
    '0' <= c <= '9'
  }

  /** str.isdigit(): non-empty and every character a decimal digit. */
  predicate IsDigits(s: string) {
    |s| > 0 && forall i :: 0 <= i < |s| ==> IsDigit(s[i])
  }

  predicate AllDigits(s: string) {
    forall i :: 0 <= i < |s| ==> IsDigit(s[i])
  }

  function DigitValue(c: char): (d: nat)
    requires IsDigit(c)
    ensures d < 10
  {
    c as int - '0' as int
  }

  function DigitChar(d: nat): (c: char)
    requires d < 10
    ensures IsDigit(c) && DigitValue(c) == d
  {
    ('0' as int + d) as char
  }

  /** The value of a string of decimal digits, most significant first. */
  function DigitsValue(s: string): nat
    requires AllDigits(s)
  {
    if s == [] then 0 else DigitsValue(s[..|s| - 1]) * 10 + DigitValue(s[|s| - 1])
  }

  /**
   * The body of an integer literal as int() accepts it: digits, with single
   * underscores allowed between two digits.
   */
  predicate Grouped(s: string) {
    && |s| > 0
    && IsDigit(s[0])
    && IsDigit(s[|s| - 1])
    && (forall i :: 0 <= i < |s| ==> IsDigit(s[i]) || s[i] == '_')
    && (forall i :: 0 <= i < |s| - 1 && s[i] == '_' ==> s[i + 1] != '_')
  }

  function DropUnderscores(s: string): (r: string)
    ensures forall i :: 0 <= i < |r| ==> r[i] != '_' && r[i] in s
    ensures (forall i :: 0 <= i < |s| ==> s[i] != '_') ==> r == s
  {
    if s == [] then []
    else (if s[0] == '_' then [] else [s[0]]) + DropUnderscores(s[1..])
  }

  function GroupedValue(s: string): nat
    requires Grouped(s)
  {
    DigitsValue(DropUnderscores(s))
  }

  /**
   * int(s) for a token that holds no whitespace: an optional sign followed by
   * a grouped run of digits; None stands for the ValueError.
   */
  function ParseInt(s: string): (r: Option<int>)
    ensures r.Some? ==> |s| > 0
    ensures r.Some? ==> forall i :: 0 <= i < |s| ==>
                          IsDigit(s[i]) || s[i] == '_' || (i == 0 && s[i] in "+-")
    ensures r.Some? && r.value < 0 ==> s[0] == '-'
  {
    if |s| > 0 && (s[0] == '+' || s[0] == '-') then
      var body := s[1..];
      if Grouped(body) then
        var v: int := GroupedValue(body);
        Some(if s[0] == '-' then -v else v)
      else None
    else if Grouped(s) then Some(GroupedValue(s))
    else None
  }

  /** Decimal rendering of a natural number, without leading zeros. */
  function NatToDigits(n: nat): (s: string)
    ensures IsDigits(s)
    ensures s[0] == '0' ==> n == 0
  {
    if n < 10 then [DigitChar(n)] else NatToDigits(n / 10) + [DigitChar(n % 10)]
  }

  /** str(n) for a Python int. */
  function IntToString(n: int): string {
    if n < 0 then "-" + NatToDigits(-n) else NatToDigits(n)
  }

  lemma {:induction false} DigitsRoundTrip(n: nat)
    ensures DigitsValue(NatToDigits(n)) == n
  {
    var s := NatToDigits(n);
    if n >= 10 {
      DigitsRoundTrip(n / 10);
      assert s[..|s| - 1] == NatToDigits(n / 10);
    }
  }

  /** int() reads back every integer that str() writes. */
  lemma ParseIntRoundTrip(n: int)
    ensures ParseInt(IntToString(n)) == Some(n)
  {
    var m: nat := if n < 0 then -n else n;
    var d := NatToDigits(m);
    DigitsRoundTrip(m);
    DigitsGrouped(d);
    if n < 0 {
      var s := "-" + d;
      assert s[0] == '-' && s[1..] == d;
    } else {
      assert d[0] != '+' && d[0] != '-';
    }
  }

  lemma DigitsGrouped(s: string)
    requires IsDigits(s)
    ensures Grouped(s) && GroupedValue(s) == DigitsValue(s)
  {
    assert DropUnderscores(s) == s;
  }

  /** Whatever passes isdigit() is read by int() as its digit value. */
  lemma ParseDigits(s: string)
    requires IsDigits(s)
    ensures ParseInt(s) == Some(DigitsValue(s))
  {
    DigitsGrouped(s);
    assert s[0] != '+' && s[0] != '-';
  }

  function LowerChar(c: char): char {
    if 'A' <= c <= 'Z' then (c as int + 32) as char else c
  }

  /** str.lower() on ASCII letters. */
  function Lower(s: string): (r: string)
    ensures |r| == |s|
    ensures forall i :: 0 <= i < |r| ==> !('A' <= r[i] <= 'Z')
    ensures forall i :: 0 <= i < |s| && !('A' <= s[i] <= 'Z') ==> r[i] == s[i]
    ensures forall i :: 0 <= i < |s| && 'A' <= s[i] <= 'Z' ==> r[i] as int == s[i] as int + 32
  {
    seq(|s|, i requires 0 <= i < |s| => LowerChar(s[i]))
  }

  /** sep.join(words). */
  function Join(words: seq<string>, sep: string): string {
    if words == [] then ""
    else if |words| == 1 then words[0]
    else words[0] + sep + Join(words[1..], sep)
  }

  /**
   * Splitting on every single space. The bot never splits text itself (the
   * chat platform hands it the arguments already split); this is only the
   * inverse against which the space-join of the message is checked.
   */
  function Split(s: string): (r: seq<string>)
    ensures |r| > 0
  {
    if s == [] then [""]
    else
      var rest := Split(s[1..]);
      if s[0] == ' ' then [""] + rest else [[s[0]] + rest[0]] + rest[1..]
  }

  predicate NoSpace(w: string) {
    forall i :: 0 <= i < |w| ==> w[i] != ' '
  }

  lemma {:induction false} SplitWord(w: string, t: string)
    requires NoSpace(w)
    ensures Split(w + t) == [w + Split(t)[0]] + Split(t)[1..]
  {
    if w != [] {
      assert (w + t)[0] == w[0] && (w + t)[1..] == w[1..] + t;
      SplitWord(w[1..], t);
      assert [w[0]] + (w[1..] + Split(t)[0]) == w + Split(t)[0];
    } else {
      assert w + t == t && w + Split(t)[0] == Split(t)[0];
      assert Split(t) == [Split(t)[0]] + Split(t)[1..];
    }
  }

  /** Splitting a space-joined list of space-free words gives the words back. */
  lemma {:induction false} SplitJoin(words: seq<string>)
    requires |words| > 0
    requires forall k :: 0 <= k < |words| ==> NoSpace(words[k])
    ensures Split(Join(words, " ")) == words
  {
    if |words| == 1 {
      SplitWord(words[0], "");
      assert words[0] + "" == words[0];
      assert Split("") == [""];
      assert words == [words[0]];
    } else {
      var rest := Join(words[1..], " ");
      SplitJoin(words[1..]);
      assert Join(words, " ") == words[0] + (" " + rest);
      SplitWord(words[0], " " + rest);
      assert (" " + rest)[0] == ' ' && (" " + rest)[1..] == rest;
      var tail := Split(" " + rest);
      assert tail == [""] + words[1..];
      assert tail[0] == "" && tail[1..] == words[1..];
      assert words[0] + tail[0] == words[0];
      assert [words[0]] + words[1..] == words;
    }
  }
}
