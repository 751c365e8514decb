/**
 * Character classes and the pieces of Python's string handling that the bot
 * relies on: ASCII decimal digits, `str.isspace`, `str.split()` with no
 * argument, and `int()` applied to one whitespace-free token.
 */
module Text {
  import opened Wrappers

  predicate IsDigit(c: char) { '0' <= c <= '9' }

  predicate AllDigits(s: string) { forall i :: 0 <= i < |s| ==> IsDigit(s[i]) }

  function DigitValue(c: char): nat
    requires IsDigit(c)
  {
    (c as int) - ('0' as int)
  }

  /** The decimal value of a string of digits (leading zeros allowed). */
  function Value(s: string): nat
    requires AllDigits(s)
    decreases |s|
  {
    if s == [] then 0 else 10 * Value(s[..|s| - 1]) + DigitValue(s[|s| - 1])
  }

  lemma ValueOfOne(s: string)
    requires AllDigits(s) && |s| == 1
    ensures Value(s) == DigitValue(s[0])
  {
    assert s[..0] == [];
  }

  lemma ValueOfTwo(s: string)
    requires AllDigits(s) && |s| == 2
    ensures Value(s) == 10 * DigitValue(s[0]) + DigitValue(s[1])
  {
    ValueOfOne(s[..1]);
  }

  /** Length of the longest run of digits at the start of `s`. */
  function DigitRun(s: string): (n: nat)
    ensures n <= |s| && AllDigits(s[..n])
    ensures n < |s| ==> !IsDigit(s[n])
  {
    if s == [] || !IsDigit(s[0]) then 0 else 1 + DigitRun(s[1..])
  }

  /** The digit run of `a + rest` is exactly `a` when `rest` does not continue it. */
  lemma DigitRunOf(a: string, rest: string)
    requires AllDigits(a)
    requires rest == [] || !IsDigit(rest[0])
    ensures DigitRun(a + rest) == |a|
  {
    var s := a + rest;
    var n := DigitRun(s);
    assert forall i :: 0 <= i < |a| ==> s[i] == a[i];
    assert rest != [] ==> s[|a|] == rest[0];
  }

  /** The characters for which Python's `str.isspace()` holds. */
  predicate IsSpace(c: char)
  {
    var n := c as int;
    (9 <= n <= 13) || (28 <= n <= 32) || n == 0x85 || n == 0xA0 || n == 0x1680
    || (0x2000 <= n <= 0x200A) || n == 0x2028 || n == 0x2029 || n == 0x202F
    || n == 0x205F || n == 0x3000
  }

  /** Length of the run of non-space characters at the start of `s`. */
  function WordLength(s: string): (n: nat)
    ensures n <= |s|
    ensures forall i :: 0 <= i < n ==> !IsSpace(s[i])
    ensures n < |s| ==> IsSpace(s[n])
  {
    if s == [] || IsSpace(s[0]) then 0 else 1 + WordLength(s[1..])
  }

  /** Python's `s.split()`: the maximal runs of non-space characters, in order. */
  function Words(s: string): (w: seq<string>)
    ensures forall i :: 0 <= i < |w| ==> |w[i]| > 0 && forall k :: 0 <= k < |w[i]| ==> !IsSpace(w[i][k])
    ensures forall i :: 0 <= i < |s| && !IsSpace(s[i]) ==> w != []
    decreases |s|
  {
    if s == [] then []
    else if IsSpace(s[0]) then Words(s[1..])
    else
      var n := WordLength(s);
      [s[..n]] + Words(s[n..])
  }

  /** Python's `int(token)` for a token without spaces: optional sign, then digits. */
  function ParseInt(t: string): (r: Option<int>)
    ensures r.Some? && AllDigits(t) ==> r.value >= 0
  {
    if |t| > 0 && (t[0] == '+' || t[0] == '-') then
      var d := t[1..];
      if |d| > 0 && AllDigits(d) then
        var v: int := Value(d);
        Some(if t[0] == '-' then -v else v)
      else None
    else if |t| > 0 && AllDigits(t) then Some(Value(t))
    else None
  }

  lemma ParseIntOfDigits(t: string)
    requires |t| > 0 && AllDigits(t)
    ensures ParseInt(t) == Some(Value(t))
  {
  }

  /** A word followed by a space-led rest splits off as the first word. */
  lemma {:induction false} WordsCons(a: string, rest: string)
    requires |a| > 0 && forall i :: 0 <= i < |a| ==> !IsSpace(a[i])
    requires rest == [] || IsSpace(rest[0])
    ensures Words(a + rest) == [a] + Words(rest)
  {
    var s := a + rest;
    var n := WordLength(s);
    assert forall i :: 0 <= i < |a| ==> s[i] == a[i];
    assert rest != [] ==> s[|a|] == rest[0];
    assert n == |a|;
    assert s[..n] == a;
    assert s[n..] == rest;
  }

  lemma WordsSpaceLed(c: char, rest: string)
    requires IsSpace(c)
    ensures Words([c] + rest) == Words(rest)
  {
    assert ([c] + rest)[1..] == rest;
  }

  lemma DigitsHaveNoSpace(a: string)
    requires AllDigits(a)
    ensures forall i :: 0 <= i < |a| ==> !IsSpace(a[i])
  {
  }
}
