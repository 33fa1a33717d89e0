/**
 * The two fixed regular expressions the progress loop searches for,
 * `Duration:\s(\d+):(\d+):(\d+\.\d+)` and `time=(\d+):(\d+):(\d+\.\d+)`,
 * as hand-written recognisers with `re.search` semantics (the leftmost
 * match wins), and the value `h * 3600 + m * 60 + s` of the captured groups
 * as an exact real.
 *
 * A greedy `\d+` followed by ':' or '.' can only succeed on the maximal run
 * of digits (a shorter run is followed by a digit), so backtracking never
 * finds another split; the last `\d+` takes the maximal run as well.
 */
module Patterns {
  import opened Sequences

  datatype Option<T> = None | Some(value: T)

  /** `\d`, restricted to ASCII digits. */
  predicate IsDigit(c: char) {
    '0' <= c <= '9'
  }

  predicate AllDigits(s: string) {
    forall i :: 0 <= i < |s| ==> IsDigit(s[i])
  }

  /** `\s` for a `str` pattern: the characters `str.isspace()` accepts. */
  predicate IsSpace(c: char) {
    || ('\t' <= c <= '\r')
    || ('\U{1C}' <= c <= '\U{1F}')
    || c == ' ' || c == '\U{85}' || c == '\U{A0}' || c == '\U{1680}'
    || ('\U{2000}' <= c <= '\U{200A}')
    || c == '\U{2028}' || c == '\U{2029}' || c == '\U{202F}' || c == '\U{205F}' || c == '\U{3000}'
  }

  /** The length of the run of digits at the front of s. */
  function DigitRun(s: string): (n: nat)
    ensures n <= |s|
    ensures n < |s| ==> !IsDigit(s[n])
  {
    if s != [] && IsDigit(s[0]) then 1 + DigitRun(s[1..]) else 0
  }

  /** The value of a decimal digit (only ever applied to digits). */
  function DigitValue(c: char): (v: nat)
    ensures v < 10
  {
    if IsDigit(c) then c as int - '0' as int else 0
  }

  /** The value of a string of decimal digits, as `int()` or `float()` reads it. */
  function Number(ds: string): nat
  {
    if ds == [] then 0 else 10 * Number(ds[..|ds| - 1]) + DigitValue(ds[|ds| - 1])
  }

  function Pow10(n: nat): (r: nat)
    ensures r >= 1
  {
    if n == 0 then 1 else 10 * Pow10(n - 1)
  }

  /** A numerator below its positive denominator gives a fraction in [0, 1). */
  lemma ProperFraction(n: nat, d: nat)
    requires n < d
    ensures 0.0 <= n as real / d as real < 1.0
  {
    assert n as real / d as real * d as real == n as real;
  }

  /** n digits read as a number stay below 10^n. */
  lemma {:induction false} NumberBelowPow10(ds: string)
    ensures Number(ds) < Pow10(|ds|)
    decreases |ds|
  {
    if ds != [] {
      NumberBelowPow10(ds[..|ds| - 1]);
    }
  }

  /** The four captured digit strings: hours, minutes, whole seconds, fraction of a second. */
  datatype Clock = Clock(hours: string, minutes: string, whole: string, fraction: string) {
    predicate Valid() {
      && hours != [] && AllDigits(hours)
      && minutes != [] && AllDigits(minutes)
      && whole != [] && AllDigits(whole)
      && fraction != [] && AllDigits(fraction)
    }

    /** The text the groups matched, separators included. */
    function Text(): string {
      hours + ":" + minutes + ":" + whole + "." + fraction
    }

    /** The whole seconds `h * 3600 + m * 60 + s`, without the fraction. */
    function WholeSeconds(): nat {
      Number(hours) * 3600 + Number(minutes) * 60 + Number(whole)
    }

    /**
     * `float(h) * 3600 + float(m) * 60 + float(s)`, exactly: the whole
     * seconds plus a fraction below one.
     */
    function Seconds(): (t: real)
      ensures WholeSeconds() as real <= t < WholeSeconds() as real + 1.0
    {
      NumberBelowPow10(fraction);
      ProperFraction(Number(fraction), Pow10(|fraction|));
      WholeSeconds() as real + Number(fraction) as real / Pow10(|fraction|) as real
    }
  }

  /** The separators between the four groups of a clock: `h:m:s.f`. */
  const ClockSeps: string := "::."

  /**
   * `(\d+)` followed by each separator in turn and a last `(\d+)`, at the
   * front of s: the digit strings, one more than there are separators.
   */
  function Fields(s: string, seps: string): (r: Option<seq<string>>)
    ensures r.Some? ==> |r.value| == |seps| + 1
    decreases |seps|
  {
    var n := DigitRun(s);
    if n == 0 then None
    else if seps == [] then Some([s[..n]])
    else if n < |s| && s[n] == seps[0] then
      var rest := Fields(s[n + 1..], seps[1..]);
      if rest.None? then None else Some([s[..n]] + rest.value)
    else None
  }

  /** `(\d+):(\d+):(\d+\.\d+)` at the front of s: four non-empty digit groups. */
  function ClockPrefix(s: string): (r: Option<Clock>)
    ensures r.Some? ==> r.value.Valid()
  {
    var f := Fields(s, ClockSeps);
    if f.None? then None
    else
      FieldsDigits(s, ClockSeps);
      Some(Clock(f.value[0], f.value[1], f.value[2], f.value[3]))
  }

  datatype Pattern = DurationPattern | TimePattern

  /** The literal text each pattern starts with. */
  function Keyword(pat: Pattern): string {
    match pat
    case DurationPattern => "Duration:"
    case TimePattern => "time="
  }

  /** The whole pattern at the front of s (`pattern.match`). */
  function MatchPrefix(s: string, pat: Pattern): (r: Option<Clock>)
    ensures r.Some? ==> Keyword(pat) <= s
  {
    var kw := Keyword(pat);
    if !(kw <= s) then None
    else
      var rest := s[|kw|..];
      match pat
      case TimePattern => ClockPrefix(rest)
      case DurationPattern =>
        if rest != [] && IsSpace(rest[0]) then ClockPrefix(rest[1..]) else None
  }

  /** `pattern.search(s)`: the groups of the leftmost match. */
  function Search(s: string, pat: Pattern): Option<Clock>
  {
    var m := MatchPrefix(s, pat);
    if m.Some? then m
    else if s == [] then None
    else Search(s[1..], pat)
  }

  // ---------------------------------------------------------------------------
  // Properties

  /** Every character DigitRun counts is a digit. */
  lemma {:induction false} DigitRunDigits(s: string)
    ensures AllDigits(s[..DigitRun(s)])
  {
    if s != [] && IsDigit(s[0]) {
      DigitRunDigits(s[1..]);
      assert s[..DigitRun(s)] == [s[0]] + s[1..][..DigitRun(s[1..])];
    }
  }

  /** Every field is a non-empty string of digits. */
  lemma {:induction false} FieldsDigits(s: string, seps: string)
    requires Fields(s, seps).Some?
    ensures forall i :: 0 <= i < |Fields(s, seps).value| ==>
      Fields(s, seps).value[i] != [] && AllDigits(Fields(s, seps).value[i])
    decreases |seps|
  {
    DigitRunDigits(s);
    if seps != [] {
      FieldsDigits(s[DigitRun(s) + 1..], seps[1..]);
    }
  }

  /** A digit string followed by a non-digit (or nothing) is measured exactly. */
  lemma {:induction false} DigitRunOf(ds: string, rest: string)
    requires AllDigits(ds)
    requires rest == [] || !IsDigit(rest[0])
    ensures DigitRun(ds + rest) == |ds|
  {
    if ds != [] {
      assert (ds + rest)[1..] == ds[1..] + rest;
      DigitRunOf(ds[1..], rest);
    }
  }

  /** Digit strings written with the separators between them. */
  function Interleave(ds: seq<string>, seps: string): string
    requires |ds| == |seps| + 1
    decreases |seps|
  {
    if seps == [] then ds[0] else ds[0] + [seps[0]] + Interleave(ds[1..], seps[1..])
  }

  /** Fields reads back the digit strings Interleave wrote, whatever non-digit text follows. */
  lemma {:induction false} FieldsOf(ds: seq<string>, seps: string, post: string)
    requires |ds| == |seps| + 1
    requires forall i :: 0 <= i < |ds| ==> ds[i] != [] && AllDigits(ds[i])
    requires forall i :: 0 <= i < |seps| ==> !IsDigit(seps[i])
    requires post == [] || !IsDigit(post[0])
    ensures Fields(Interleave(ds, seps) + post, seps) == Some(ds)
    decreases |seps|
  {
    if seps == [] {
      FieldsLast(ds[0], post);
      assert ds == [ds[0]];
    } else {
      var rest := Interleave(ds[1..], seps[1..]);
      ConcatAssoc(ds[0] + [seps[0]], rest, post);
      FieldsCons(ds[0], seps, rest + post);
      FieldsOf(ds[1..], seps[1..], post);
      assert ds == [ds[0]] + ds[1..];
    }
  }

  /** The last field is the whole run of digits before a non-digit. */
  lemma FieldsLast(d: string, post: string)
    requires d != [] && AllDigits(d)
    requires post == [] || !IsDigit(post[0])
    ensures Fields(d + post, []) == Some([d])
  {
    DigitRunOf(d, post);
    TakeConcat(d, post);
  }

  /** A field and its separator are read off, and the rest is read with the remaining separators. */
  lemma FieldsCons(d: string, seps: string, rest: string)
    requires seps != [] && d != [] && AllDigits(d) && !IsDigit(seps[0])
    ensures Fields(d + [seps[0]] + rest, seps) ==
      (var r := Fields(rest, seps[1..]); if r.None? then None else Some([d] + r.value))
  {
    Unglue(d, seps[0], rest);
    DigitRunOf(d, [seps[0]] + rest);
  }

  lemma TakeConcat<T>(a: seq<T>, b: seq<T>)
    ensures (a + b)[..|a|] == a
  {
  }

  /** Taking apart a string glued around a separator character. */
  lemma Unglue<T>(a: seq<T>, x: T, b: seq<T>)
    ensures a + [x] + b == a + ([x] + b)
    ensures (a + [x] + b)[..|a|] == a
    ensures (a + [x] + b)[|a|] == x
    ensures (a + [x] + b)[|a| + 1..] == b
  {
  }

  /** A clock's text is its four fields written with the clock separators. */
  lemma TextIsInterleave(c: Clock)
    ensures c.Text() == Interleave([c.hours, c.minutes, c.whole, c.fraction], ClockSeps)
  {
    var ds := [c.hours, c.minutes, c.whole, c.fraction];
    assert ds[1..][1..][1..] == [c.fraction];
    assert ds[1..][1..] == [c.whole, c.fraction];
    assert ds[1..] == [c.minutes, c.whole, c.fraction];
    assert ClockSeps[1..][1..][1..] == [];
    assert Interleave(ds[1..][1..][1..], ClockSeps[1..][1..][1..]) == c.fraction;
    assert Interleave(ds[1..][1..], ClockSeps[1..][1..]) == c.whole + "." + c.fraction;
    assert Interleave(ds[1..], ClockSeps[1..]) == c.minutes + ":" + c.whole + "." + c.fraction;
  }

  /** The text of a valid clock, followed by a non-digit or nothing, is recognised as that clock. */
  lemma ClockPrefixOf(c: Clock, post: string)
    requires c.Valid()
    requires post == [] || !IsDigit(post[0])
    ensures ClockPrefix(c.Text() + post) == Some(c)
  {
    var ds := [c.hours, c.minutes, c.whole, c.fraction];
    TextIsInterleave(c);
    FieldsOf(ds, ClockSeps, post);
  }

  /** The text that introduces a clock in each pattern, with a plain space after `Duration:`. */
  function Lead(pat: Pattern): (r: string)
    ensures Keyword(pat) <= r
  {
    match pat
    case DurationPattern => "Duration: "
    case TimePattern => "time="
  }

  /** `time=` in front of a text makes a match exactly where the clock recogniser does. */
  lemma MatchPrefixTime(t: string)
    ensures MatchPrefix("time=" + t, TimePattern) == ClockPrefix(t)
  {
    var s := "time=" + t;
    assert s[..5] == "time=";
    assert s[5..] == t;
  }

  /** `Duration: ` in front of a text makes a match exactly where the clock recogniser does. */
  lemma MatchPrefixDuration(t: string)
    ensures MatchPrefix("Duration: " + t, DurationPattern) == ClockPrefix(t)
  {
    var s := "Duration: " + t;
    assert s[..9] == "Duration:";
    var rest := s[9..];
    assert rest == " " + t;
    assert IsSpace(rest[0]);
    assert rest[1..] == t;
  }

  lemma DropConcat<T>(a: seq<T>, b: seq<T>)
    requires a != []
    ensures (a + b)[1..] == a[1..] + b
  {
  }

  /** A line that does not start with the keyword's first character is searched from its second character on. */
  lemma SearchSkip(s: string, pat: Pattern)
    requires s != [] && s[0] != Keyword(pat)[0]
    ensures Search(s, pat) == Search(s[1..], pat)
  {
    assert !(Keyword(pat) <= s);
  }

  /** The leftmost match is found past any text free of the keyword's first character. */
  lemma {:induction false} SearchPast(pre: string, pat: Pattern, rest: string)
    requires MatchPrefix(rest, pat).Some?
    requires Keyword(pat)[0] !in pre
    ensures Search(pre + rest, pat) == MatchPrefix(rest, pat)
  {
    if pre == [] {
      assert pre + rest == rest;
    } else {
      SearchSkip(pre + rest, pat);
      DropConcat(pre, rest);
      SearchPast(pre[1..], pat, rest);
    }
  }

  lemma MatchPrefixOf(pat: Pattern, c: Clock, post: string)
    requires c.Valid()
    requires post == [] || !IsDigit(post[0])
    ensures MatchPrefix(Lead(pat) + c.Text() + post, pat) == Some(c)
  {
    var t := c.Text() + post;
    ClockPrefixOf(c, post);
    ConcatAssoc(Lead(pat), c.Text(), post);
    if pat == TimePattern {
      MatchPrefixTime(t);
    } else {
      MatchPrefixDuration(t);
    }
  }

  /**
   * Round trip: a line made of text free of the keyword's first character,
   * then the keyword (and a space after `Duration:`), a clock, and text that
   * does not start with a digit is found, and yields that clock.
   */
  lemma SearchFindsClock(pre: string, pat: Pattern, c: Clock, post: string)
    requires c.Valid()
    requires Keyword(pat)[0] !in pre
    requires post == [] || !IsDigit(post[0])
    ensures Search(pre + Lead(pat) + c.Text() + post, pat) == Some(c)
  {
    MatchPrefixOf(pat, c, post);
    SearchPast(pre, pat, Lead(pat) + c.Text() + post);
    ConcatAssoc(pre, Lead(pat), c.Text());
    ConcatAssoc(pre, Lead(pat) + c.Text(), post);
  }

  /** A line in which the keyword starts nowhere matches nothing. */
  lemma {:induction false} SearchNeedsKeyword(s: string, pat: Pattern)
    requires forall p :: 0 <= p <= |s| ==> !(Keyword(pat) <= s[p..])
    ensures Search(s, pat) == None
  {
    assert s[0..] == s;
    if s != [] {
      forall p | 0 <= p <= |s[1..]| ensures !(Keyword(pat) <= s[1..][p..]) {
        assert s[1..][p..] == s[p + 1..];
      }
      SearchNeedsKeyword(s[1..], pat);
    }
  }

  /** `re.search` finds the leftmost match: the result is the match at the first offset that has one. */
  lemma {:induction false} SearchIsLeftmost(s: string, pat: Pattern, p: nat)
    requires p <= |s| && MatchPrefix(s[p..], pat).Some?
    requires forall q :: 0 <= q < p ==> MatchPrefix(s[q..], pat).None?
    ensures Search(s, pat) == MatchPrefix(s[p..], pat)
  {
    assert s[0..] == s;
    if p > 0 {
      forall q | 0 <= q < p - 1 ensures MatchPrefix(s[1..][q..], pat).None? {
        assert s[1..][q..] == s[q + 1..];
      }
      assert s[1..][p - 1..] == s[p..];
      SearchIsLeftmost(s[1..], pat, p - 1);
    }
  }

  /** A clock found in a line consists of four non-empty digit strings. */
  lemma {:induction false} SearchValid(s: string, pat: Pattern)
    requires Search(s, pat).Some?
    ensures Search(s, pat).value.Valid()
  {
    if MatchPrefix(s, pat).None? {
      SearchValid(s[1..], pat);
    }
  }

  /** The recognised text stops at a field boundary: at the end of s, or before a non-digit. */
  predicate StopsAt(s: string, k: nat) {
    k <= |s| && (k == |s| || !IsDigit(s[k]))
  }

  /** Conversely, the fields read are a prefix of s, written with the separators, and the run ends there. */
  lemma {:induction false} FieldsText(s: string, seps: string)
    requires Fields(s, seps).Some?
    ensures var t := Interleave(Fields(s, seps).value, seps);
      t <= s && StopsAt(s, |t|)
    decreases |seps|
  {
    var n := DigitRun(s);
    var ds := Fields(s, seps).value;
    if seps == [] {
      assert ds == [s[..n]];
    } else {
      var tail := s[n + 1..];
      var rest := Fields(tail, seps[1..]).value;
      assert ds == [s[..n]] + rest;
      assert ds[1..] == rest;
      FieldsText(tail, seps[1..]);
      var t' := Interleave(rest, seps[1..]);
      assert s[..n + 1 + |t'|] == s[..n] + [seps[0]] + t';
      assert n + 1 + |t'| == |s| || s[n + 1 + |t'|] == tail[|t'|];
    }
  }

  /** What ClockPrefix recognises is the clock's own text at the front of s, not followed by a digit. */
  lemma ClockPrefixText(s: string)
    requires ClockPrefix(s).Some?
    ensures var c := ClockPrefix(s).value;
      c.Text() <= s && StopsAt(s, |c.Text()|)
  {
    var f := Fields(s, ClockSeps).value;
    var c := ClockPrefix(s).value;
    FieldsText(s, ClockSeps);
    TextIsInterleave(c);
    assert f == [c.hours, c.minutes, c.whole, c.fraction];
  }

  /**
   * What MatchPrefix recognises is the keyword (with a whitespace character
   * after `Duration:`), then the clock's own text, not followed by a digit.
   */
  lemma MatchPrefixText(s: string, pat: Pattern)
    ensures MatchPrefix(s, pat).Some? ==>
      var c := MatchPrefix(s, pat).value;
      var k := |Lead(pat)|;
      && Keyword(pat) <= s && k <= |s|
      && (pat == DurationPattern ==> IsSpace(s[|Keyword(pat)|]))
      && c.Text() <= s[k..] && StopsAt(s[k..], |c.Text()|)
  {
    if MatchPrefix(s, pat).Some? {
      var rest := s[|Keyword(pat)|..];
      if pat == TimePattern {
        ClockPrefixText(rest);
      } else {
        ClockPrefixText(rest[1..]);
        assert rest[1..] == s[|Lead(pat)|..];
      }
    }
  }

  /** A clock found in a line is the match at some offset, and no earlier offset matches. */
  lemma {:induction false} SearchText(s: string, pat: Pattern)
    requires Search(s, pat).Some?
    ensures exists p ::
      && 0 <= p <= |s|
      && MatchPrefix(s[p..], pat) == Search(s, pat)
      && (forall q :: 0 <= q < p ==> MatchPrefix(s[q..], pat).None?)
  {
    assert s[0..] == s;
    if MatchPrefix(s, pat).None? {
      SearchText(s[1..], pat);
      var p :| 0 <= p <= |s[1..]| && MatchPrefix(s[1..][p..], pat) == Search(s[1..], pat)
        && forall q :: 0 <= q < p ==> MatchPrefix(s[1..][q..], pat).None?;
      assert s[1..][p..] == s[p + 1..];
      forall q | 0 <= q < p + 1 ensures MatchPrefix(s[q..], pat).None? {
        if q > 0 {
          assert s[1..][q - 1..] == s[q..];
        }
      }
    }
  }
}
