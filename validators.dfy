/**
 * The two free-text validators of the conversation: the `HH:MM` check that
 * `validate_time_format` performs through `datetime.strptime(text, "%H:%M")`,
 * and the `[days hours minutes]` interval check of `ask_periodic_interval`.
 * Also the parse of a stored interval text that the due-reminder scan performs.
 */
module Validators {
  import opened Wrappers
  import opened Text

  // ---------------------------------------------------------------------------
  // strptime(text, "%H:%M")
  //
  // strptime turns the format into the regular expression
  //     (2[0-3]|[0-1]\d|\d):([0-5]\d|\d)
  // matches it at the start of the text (alternatives tried left to right) and
  // then fails with "unconverted data remains" unless the match covers the
  // whole text.
  // ---------------------------------------------------------------------------

  /** The first two alternatives of the hour group, `2[0-3]|[0-1]\d`, match the first two characters of `s`. */
  predicate TwoDigitHour(s: string)
  {
    |s| >= 2 && ((s[0] == '2' && '0' <= s[1] <= '3') || ((s[0] == '0' || s[0] == '1') && IsDigit(s[1])))
  }

  /** The width of the first alternative of `([0-5]\d|\d)` that matches at the start of `s`; 0 if none. */
  function MinuteWidth(s: string): (w: nat)
    ensures w <= 2 && w <= |s| && AllDigits(s[..w])
    ensures w == 2 ==> '0' <= s[0] <= '5'
  {
    if |s| >= 2 && '0' <= s[0] <= '5' && IsDigit(s[1]) then 2
    else if |s| >= 1 && IsDigit(s[0]) then 1
    else 0
  }

  /** The end of the match once the hour group has taken `k` characters: the colon, then the minute group. */
  function MatchAfterHour(s: string, k: nat): (e: Option<nat>)
    ensures e.Some? ==> k < |s| && s[k] == ':' && k + 2 <= e.value <= k + 3 && e.value <= |s|
    ensures e.Some? ==> AllDigits(s[k + 1..e.value]) && (e.value == k + 3 ==> '0' <= s[k + 1] <= '5')
  {
    if k < |s| && s[k] == ':' && MinuteWidth(s[k + 1..]) > 0 then
      var w := MinuteWidth(s[k + 1..]);
      assert s[k + 1..][..w] == s[k + 1..k + 1 + w];
      Some(k + 1 + w)
    else None
  }

  /**
   * The first match of the clock regex at the start of `s`: the width of the
   * hour group and the end of the match. The two-digit alternatives are tried
   * first (at most one of them can match); when the rest of the pattern fails
   * after them, the regex backtracks into the one-digit alternative `\d`.
   */
  function MatchClock(s: string): (m: Option<(nat, nat)>)
    ensures m.Some? ==> m.value.0 in {1, 2} && m.value.0 <= |s| && AllDigits(s[..m.value.0])
    ensures m.Some? ==> m.value.0 == 2 ==> TwoDigitHour(s)
    ensures m.Some? ==> MatchAfterHour(s, m.value.0) == Some(m.value.1)
  {
    var two := if TwoDigitHour(s) then MatchAfterHour(s, 2) else None;
    if two.Some? then Some((2, two.value))
    else if |s| >= 1 && IsDigit(s[0]) then
      match MatchAfterHour(s, 1)
      case Some(e) => Some((1, e))
      case None => None
    else None
  }

  /** The (hour, minute) that `strptime(s, "%H:%M")` yields, or None where it raises ValueError. */
  function ParseClock(s: string): Option<(nat, nat)>
  {
    match MatchClock(s)
    case None => None
    case Some((k, e)) =>
      if e != |s| then None
      else Some((Value(s[..k]), Value(s[k + 1..])))
  }

  /** `validate_time_format`: true exactly when strptime accepts the text. */
  function ValidateTimeFormat(s: string): (ok: bool)
    ensures ok <==> exists h, m :: ClockText(s, h, m)
  {
    ParseClockAgrees(s);
    ParseClock(s).Some?
  }

  /** Reference reading of `HH:MM`: one or two digits of hour 0..23, a colon, one or two digits of minute 0..59. */
  ghost predicate ClockText(s: string, h: nat, m: nat)
  {
    exists i :: 1 <= i <= 2 && i < |s| && s[i] == ':' && 1 <= |s| - i - 1 <= 2
      && AllDigits(s[..i]) && AllDigits(s[i + 1..])
      && Value(s[..i]) == h && Value(s[i + 1..]) == m && h <= 23 && m <= 59
  }

  /** An hour group the regex accepts is at most 23. */
  lemma HourAtMost23(s: string, k: nat)
    requires k in {1, 2} && k <= |s| && AllDigits(s[..k]) && (k == 2 ==> TwoDigitHour(s))
    ensures Value(s[..k]) <= 23
  {
    var h := s[..k];
    if k == 2 {
      ValueOfTwo(h);
      assert h[0] == s[0] && h[1] == s[1];
    } else {
      ValueOfOne(h);
    }
  }

  /** A minute group the regex accepts is at most 59. */
  lemma MinuteAtMost59(t: string)
    requires AllDigits(t) && 1 <= |t| <= 2 && (|t| == 2 ==> '0' <= t[0] <= '5')
    ensures Value(t) <= 59
  {
    if |t| == 2 { ValueOfTwo(t); } else { ValueOfOne(t); }
  }

  lemma ParseClockSound(s: string, h: nat, m: nat)
    requires ParseClock(s) == Some((h, m))
    ensures ClockText(s, h, m)
  {
    var (k, e) := MatchClock(s).value;
    assert e == |s|;
    var minute := s[k + 1..];
    HourAtMost23(s, k);
    MinuteAtMost59(minute);
    assert s[k] == ':' && 1 <= |s| - k - 1 <= 2;
  }

  lemma ParseClockComplete(s: string, h: nat, m: nat)
    requires ClockText(s, h, m)
    ensures ParseClock(s) == Some((h, m))
  {
    var i :| 1 <= i <= 2 && i < |s| && s[i] == ':' && 1 <= |s| - i - 1 <= 2
      && AllDigits(s[..i]) && AllDigits(s[i + 1..])
      && Value(s[..i]) == h && Value(s[i + 1..]) == m && h <= 23 && m <= 59;
    var t := s[i + 1..];
    if |t| == 2 {
      ValueOfTwo(t);
      assert t[0] == s[i + 1] && t[1] == s[i + 2];
    } else {
      ValueOfOne(t);
    }
    assert MinuteWidth(t) == |t|;
    assert MatchAfterHour(s, i) == Some(|s|);
    if i == 1 {
      assert !IsDigit(s[1]);
      assert !TwoDigitHour(s);
    } else {
      ValueOfTwo(s[..2]);
      assert s[..2][0] == s[0] && s[..2][1] == s[1];
      assert TwoDigitHour(s);
    }
    assert MatchClock(s) == Some((i, |s|));
  }

  /** `validate_time_format` accepts exactly the `H:M` texts of a time of day, and reads them as such. */
  lemma ParseClockIff(s: string, h: nat, m: nat)
    ensures ParseClock(s) == Some((h, m)) <==> ClockText(s, h, m)
  {
    if ParseClock(s) == Some((h, m)) { ParseClockSound(s, h, m); }
    if ClockText(s, h, m) { ParseClockComplete(s, h, m); }
  }

  /** strptime accepts a text exactly when it reads as some in-range `H:M`. */
  lemma ParseClockAgrees(s: string)
    ensures ParseClock(s).Some? <==> exists h, m :: ClockText(s, h, m)
  {
    if ParseClock(s).Some? {
      ParseClockSound(s, ParseClock(s).value.0, ParseClock(s).value.1);
    } else {
      forall h, m ensures !ClockText(s, h, m) {
        if ClockText(s, h, m) {
          ParseClockComplete(s, h, m);
        }
      }
    }
  }

  lemma ParseClockBounded(s: string)
    requires ParseClock(s).Some?
    ensures ParseClock(s).value.0 <= 23 && ParseClock(s).value.1 <= 59
  {
    var (h, m) := ParseClock(s).value;
    ParseClockSound(s, h, m);
  }

  lemma ClockAcceptsTwoDigits()
    ensures ParseClock("09:30") == Some((9, 30))
  {
    var s := "09:30";
    assert TwoDigitHour(s);
    assert s[3..] == "30" && s[..2] == "09";
    assert MinuteWidth(s[3..]) == 2;
    ValueOfTwo("09");
    ValueOfTwo("30");
  }

  lemma ClockAcceptsOneDigitHour()
    ensures ParseClock("9:05") == Some((9, 5))
  {
    var s := "9:05";
    assert !TwoDigitHour(s);
    assert s[2..] == "05" && s[..1] == "9";
    assert MinuteWidth(s[2..]) == 2;
    ValueOfOne("9");
    ValueOfTwo("05");
  }

  /** An hour of 24 is refused: the regex matches only the hour "2", and then the colon is missing. */
  lemma ClockRefusesHour24()
    ensures !ValidateTimeFormat("24:00")
  {
    assert !TwoDigitHour("24:00");
  }

  /** A minute of 60 leaves the "0" unconverted. */
  lemma ClockRefusesMinute60()
    ensures !ValidateTimeFormat("12:60")
  {
    var s := "12:60";
    assert TwoDigitHour(s);
    assert s[3..] == "60";
    assert MinuteWidth(s[3..]) == 1;
  }

  lemma ClockRefusesTrailing()
    ensures !ValidateTimeFormat("12:345")
  {
    var s := "12:345";
    assert TwoDigitHour(s);
    assert s[3..] == "345";
    assert MinuteWidth(s[3..]) == 2;
  }

  // ---------------------------------------------------------------------------
  // The interval of `ask_periodic_interval`: "<days> <hours> <minutes>"
  // ---------------------------------------------------------------------------

  /**
   * `re.match(r'^\d+ \d+ \d+$', s)`: three runs of digits separated by single
   * spaces; `$` matches at the end and also just before one final newline.
   */
  predicate MatchesIntervalPattern(s: string)
  {
    var a := DigitRun(s);
    a > 0 && a < |s| && s[a] == ' ' &&
    var s1 := s[a + 1..];
    var b := DigitRun(s1);
    b > 0 && b < |s1| && s1[b] == ' ' &&
    var s2 := s1[b + 1..];
    var c := DigitRun(s2);
    c > 0 && (c == |s2| || (c == |s2| - 1 && s2[c] == '\n'))
  }

  /** `days, hour, minute = map(int, s.split())`; None where Python raises ValueError. */
  function PeriodFields(s: string): Option<(int, int, int)>
  {
    var w := Words(s);
    if |w| != 3 then None
    else match (ParseInt(w[0]), ParseInt(w[1]), ParseInt(w[2]))
      case (Some(d), Some(h), Some(m)) => Some((d, h, m))
      case _ => None
  }

  /** The largest magnitude of `timedelta.days`; beyond it `timedelta(...)` raises OverflowError. */
  const MaxTimedeltaDays: int := 999999999

  function Minutes(days: int, hours: int, minutes: int): int
  {
    days * 1440 + hours * 60 + minutes
  }

  /** Whether `timedelta(hours=h, minutes=m, days=d)` overflows (its day count is the floor of minutes / 1440). */
  predicate TimedeltaOverflows(days: int, hours: int, minutes: int)
  {
    var d := Minutes(days, hours, minutes) / 1440;
    d > MaxTimedeltaDays || d < -MaxTimedeltaDays
  }

  /**
   * What `ask_periodic_interval` makes of a reply: Rejected where it raises
   * ValueError (and re-prompts), TooLong where `timedelta` raises
   * OverflowError (which the handler does not catch), Accepted otherwise.
   */
  datatype IntervalReply = Accepted(days: int, hours: int, minutes: int) | Rejected | TooLong

  function ParseInterval(s: string): IntervalReply
  {
    if !MatchesIntervalPattern(s) then Rejected
    else match PeriodFields(s)
      case None => Rejected
      case Some((d, h, m)) =>
        if d == 0 && h == 0 && m == 0 then Rejected
        else if TimedeltaOverflows(d, h, m) then TooLong
        else Accepted(d, h, m)
  }

  /**
   * The period, in minutes, that `check_reminders` builds from a stored
   * interval text (split, int, timedelta); None where that raises.
   */
  function StoredPeriod(s: string): Option<int>
  {
    match PeriodFields(s)
    case None => None
    case Some((d, h, m)) => if TimedeltaOverflows(d, h, m) then None else Some(Minutes(d, h, m))
  }

  /** Reference reading of an interval reply: digit groups `a b c`, optionally followed by one newline. */
  ghost predicate IntervalText(s: string, a: string, b: string, c: string, nl: string)
  {
    |a| > 0 && |b| > 0 && |c| > 0 && AllDigits(a) && AllDigits(b) && AllDigits(c)
    && (nl == "" || nl == "\n")
    && s == a + " " + b + " " + c + nl
  }

  /** A digit group ended by a non-digit separator. */
  lemma GroupThen(a: string, sep: char, rest: string)
    requires |a| > 0 && AllDigits(a) && !IsDigit(sep)
    ensures DigitRun(a + [sep] + rest) == |a|
    ensures (a + [sep] + rest)[|a|] == sep && (a + [sep] + rest)[|a| + 1..] == rest
  {
    assert a + [sep] + rest == a + ([sep] + rest);
    DigitRunOf(a, [sep] + rest);
  }

  lemma IntervalTextMatches(s: string, a: string, b: string, c: string, nl: string)
    requires IntervalText(s, a, b, c, nl)
    ensures MatchesIntervalPattern(s)
  {
    var rest2 := c + nl;
    var rest1 := b + [' '] + rest2;
    assert s == a + [' '] + rest1;
    GroupThen(a, ' ', rest1);
    GroupThen(b, ' ', rest2);
    DigitRunOf(c, nl);
    assert nl != "" ==> rest2[|c|] == '\n';
  }

  /** A word ended by a space splits off as the first word. */
  lemma WordThen(a: string, sep: char, rest: string)
    requires |a| > 0 && AllDigits(a) && IsSpace(sep)
    ensures Words(a + [sep] + rest) == [a] + Words(rest)
  {
    assert a + [sep] + rest == a + ([sep] + rest);
    DigitsHaveNoSpace(a);
    WordsCons(a, [sep] + rest);
    WordsSpaceLed(sep, rest);
  }

  lemma IntervalTextWords(s: string, a: string, b: string, c: string, nl: string)
    requires IntervalText(s, a, b, c, nl)
    ensures Words(s) == [a, b, c]
  {
    var rest2 := c + nl;
    var rest1 := b + [' '] + rest2;
    assert s == a + [' '] + rest1;
    WordThen(a, ' ', rest1);
    WordThen(b, ' ', rest2);
    DigitsHaveNoSpace(c);
    WordsCons(c, nl);
    if nl == "\n" {
      WordsSpaceLed('\n', "");
      assert nl == ['\n'] + "";
    }
  }

  lemma IntervalTextParses(s: string, a: string, b: string, c: string, nl: string)
    requires IntervalText(s, a, b, c, nl)
    ensures MatchesIntervalPattern(s)
    ensures PeriodFields(s) == Some((Value(a), Value(b), Value(c)))
  {
    IntervalTextMatches(s, a, b, c, nl);
    IntervalTextWords(s, a, b, c, nl);
    ParseIntOfDigits(a);
    ParseIntOfDigits(b);
    ParseIntOfDigits(c);
  }

  /** Every reply in the `days hours minutes` shape gets the verdict its three numbers call for. */
  lemma IntervalAccepted(s: string, a: string, b: string, c: string, nl: string)
    requires IntervalText(s, a, b, c, nl)
    ensures ParseInterval(s) ==
      if Value(a) == 0 && Value(b) == 0 && Value(c) == 0 then Rejected
      else if TimedeltaOverflows(Value(a), Value(b), Value(c)) then TooLong
      else Accepted(Value(a), Value(b), Value(c))
  {
    IntervalTextParses(s, a, b, c, nl);
  }

  /** A leading digit group ended by a space splits off. */
  lemma SplitGroup(s: string) returns (g: string, rest: string)
    requires 0 < DigitRun(s) < |s| && s[DigitRun(s)] == ' '
    ensures |g| > 0 && AllDigits(g) && rest == s[DigitRun(s) + 1..] && s == g + " " + rest
  {
    var x := DigitRun(s);
    g, rest := s[..x], s[x + 1..];
    assert s == s[..x] + [s[x]] + s[x + 1..];
  }

  /** The last digit group, with the newline `$` lets through. */
  lemma SplitLastGroup(s: string) returns (g: string, nl: string)
    requires 0 < DigitRun(s) && (DigitRun(s) == |s| || (DigitRun(s) == |s| - 1 && s[DigitRun(s)] == '\n'))
    ensures |g| > 0 && AllDigits(g) && (nl == "" || nl == "\n") && s == g + nl
  {
    var z := DigitRun(s);
    g, nl := s[..z], s[z..];
    if z < |s| {
      assert |nl| == 1 && nl[0] == s[z];
    }
  }

  lemma PatternShape(s: string)
    requires MatchesIntervalPattern(s)
    ensures exists a, b, c, nl :: IntervalText(s, a, b, c, nl)
  {
    var a, s1 := SplitGroup(s);
    var b, s2 := SplitGroup(s1);
    var c, nl := SplitLastGroup(s2);
    Regroup(a, b, c, nl);
    assert IntervalText(s, a, b, c, nl);
  }

  lemma Regroup(a: string, b: string, c: string, nl: string)
    ensures a + " " + (b + " " + (c + nl)) == a + " " + b + " " + c + nl
  {
  }

  /** Only replies in the `days hours minutes` shape get past the pattern check. */
  lemma IntervalSound(s: string)
    requires ParseInterval(s) != Rejected
    ensures exists a, b, c, nl :: IntervalText(s, a, b, c, nl)
  {
    PatternShape(s);
  }

  /** An accepted interval is a positive number of minutes, and the scan later reads the same period back. */
  lemma AcceptedPeriod(s: string)
    requires ParseInterval(s).Accepted?
    ensures var r := ParseInterval(s);
      r.days >= 0 && r.hours >= 0 && r.minutes >= 0
      && Minutes(r.days, r.hours, r.minutes) > 0
      && StoredPeriod(s) == Some(Minutes(r.days, r.hours, r.minutes))
  {
    IntervalSound(s);
    var a, b, c, nl :| IntervalText(s, a, b, c, nl);
    IntervalAccepted(s, a, b, c, nl);
    IntervalTextParses(s, a, b, c, nl);
  }

  lemma IntervalRefusesAllZero()
    ensures ParseInterval("0 0 0") == Rejected
  {
    ValueOfOne("0");
    assert "0 0 0" == "0" + " " + "0" + " " + "0" + "";
    IntervalAccepted("0 0 0", "0", "0", "0", "");
  }

  lemma IntervalOneDay()
    ensures ParseInterval("1 0 0") == Accepted(1, 0, 0) && Minutes(1, 0, 0) == 1440
  {
    ValueOfOne("1");
    ValueOfOne("0");
    assert "1 0 0" == "1" + " " + "0" + " " + "0" + "";
    IntervalAccepted("1 0 0", "1", "0", "0", "");
  }
}
