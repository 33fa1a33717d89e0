/**
 * The loop that reads ffmpeg's stderr line by line while the conversion
 * runs.  Until a positive `Duration:` has been read it looks only for that;
 * afterwards, when a progress callback was given, every `time=` line is
 * reported as a whole percentage of the duration, capped at 100.  The lines
 * are a parameter; the empty string plays the part of `readline()` at end of
 * stream.  Times are exact reals rather than binary floating point.
 *
 * The specification works on what the loop sees in each line (a `Scan`):
 * whether it ends the stream, and the seconds of the first `Duration:` and
 * `time=` clocks in it.
 */
module Progress {
  import opened Sequences
  import opened Patterns

  /** `min(int((curr / duration) * 100), 100)`; `int` truncates, which is flooring for curr >= 0. */
  function Percent(curr: real, duration: real): (p: int)
    requires duration > 0.0 && curr >= 0.0
    ensures 0 <= p <= 100
    ensures p == 100 <==> curr >= duration
    ensures p < 100 ==> p as real <= curr * 100.0 / duration < p as real + 1.0
  {
    RatioFacts(curr, duration);
    var q := (curr / duration * 100.0).Floor;
    if q < 100 then q else 100
  }

  /** The real-number facts Percent rests on. */
  lemma RatioFacts(curr: real, duration: real)
    requires duration > 0.0 && curr >= 0.0
    ensures curr / duration * 100.0 == curr * 100.0 / duration
    ensures curr / duration * 100.0 >= 0.0
    ensures curr >= duration <==> curr / duration >= 1.0
  {
    var x := curr / duration;
    assert x * duration == curr;
    if x < 1.0 {
      MulPos(1.0 - x, duration);
    } else {
      MulNonneg(x - 1.0, duration);
    }
  }

  lemma MulPos(a: real, b: real)
    requires a > 0.0 && b > 0.0
    ensures a * b > 0.0
  {
  }

  lemma MulNonneg(a: real, b: real)
    requires a >= 0.0 && b >= 0.0
    ensures a * b >= 0.0
  {
  }

  /** What the loop looks for in one line. */
  datatype Scan = Scan(eof: bool, duration: Option<real>, time: Option<real>)

  function SecondsOf(m: Option<Clock>): (r: Option<real>)
    ensures r.Some? <==> m.Some?
    ensures r.Some? ==> r.value >= 0.0
  {
    if m.Some? then Some(m.value.Seconds()) else None
  }

  /** End of stream, and `h * 3600 + m * 60 + s` of the first match of each pattern. */
  function ScanLine(line: string): (sc: Scan)
    ensures sc.eof <==> line == ""
    ensures sc.duration.Some? ==> sc.duration.value >= 0.0
    ensures sc.time.Some? ==> sc.time.value >= 0.0
  {
    Scan(line == "", SecondsOf(Search(line, DurationPattern)), SecondsOf(Search(line, TimePattern)))
  }

  /** Every line of the stream, scanned. */
  function Scans(lines: seq<string>): (ss: seq<Scan>)
    ensures |ss| == |lines|
    ensures AllSane(ss)
    ensures forall j {:trigger ScanLine(lines[j])} :: 0 <= j < |lines| ==> ss[j] == ScanLine(lines[j])
  {
    if lines == [] then [] else [ScanLine(lines[0])] + Scans(lines[1..])
  }

  /** A well-formed scan, as ScanLine produces: no negative time. */
  predicate Sane(sc: Scan) {
    && (sc.duration.Some? ==> sc.duration.value >= 0.0)
    && (sc.time.Some? ==> sc.time.value >= 0.0)
  }

  predicate AllSane(ss: seq<Scan>) {
    forall j :: 0 <= j < |ss| ==> Sane(ss[j])
  }

  /**
   * One pass of the loop body: the duration afterwards, and the percentage
   * handed to the callback, if any.
   */
  function Step(sc: Scan, duration: real, hasCallback: bool): (r: (real, Option<int>))
    requires duration >= 0.0 && Sane(sc)
    ensures r.0 >= 0.0
    ensures duration > 0.0 ==> r.0 == duration
    ensures r.1.Some? ==> duration > 0.0 && hasCallback && 0 <= r.1.value <= 100
  {
    if duration <= 0.0 then
      (if sc.duration.Some? then sc.duration.value else duration, None)
    else if hasCallback then
      (duration, if sc.time.Some? then Some(Percent(sc.time.value, duration)) else None)
    else
      (duration, None)
  }

  /** The callback calls one step makes. */
  function AsEvents(e: Option<int>): (r: seq<int>)
    ensures |r| <= 1
  {
    if e.Some? then [e.value] else []
  }

  /** The percentages reported for the scanned lines read from the given state up to end of stream. */
  function EmittedScans(ss: seq<Scan>, duration: real, hasCallback: bool): (r: seq<int>)
    requires duration >= 0.0 && AllSane(ss)
    ensures |r| <= |ss|
  {
    if ss == [] || ss[0].eof then []
    else
      var r := Step(ss[0], duration, hasCallback);
      AsEvents(r.1) + EmittedScans(ss[1..], r.0, hasCallback)
  }

  /** The percentages reported for a whole stream. */
  function Emitted(lines: seq<string>, hasCallback: bool): seq<int> {
    EmittedScans(Scans(lines), 0.0, hasCallback)
  }

  /** Reading one more line: its report, then the rest from the state it leaves. */
  lemma EmittedCons(ss: seq<Scan>, i: nat, duration: real, hasCallback: bool)
    requires i < |ss| && !ss[i].eof && duration >= 0.0 && AllSane(ss)
    ensures AllSane(ss[i..]) && AllSane(ss[i + 1..])
    ensures EmittedScans(ss[i..], duration, hasCallback) ==
      AsEvents(Step(ss[i], duration, hasCallback).1) + EmittedScans(ss[i + 1..], Step(ss[i], duration, hasCallback).0, hasCallback)
  {
    assert ss[i..][0] == ss[i] && ss[i..][1..] == ss[i + 1..];
  }

  /** The body of the loop for one non-empty line: the new duration, and the percentage passed to the callback, if any. */
  method ReadLine(line: string, duration: real, hasCallback: bool) returns (newDuration: real, report: Option<int>)
    requires duration >= 0.0
    ensures newDuration == Step(ScanLine(line), duration, hasCallback).0
    ensures report == Step(ScanLine(line), duration, hasCallback).1
  {
    newDuration, report := duration, None;
    if duration <= 0.0 {
      var m := Search(line, DurationPattern);
      if m.Some? {
        newDuration := m.value.Seconds();
      }
    } else {
      if hasCallback {
        var t := Search(line, TimePattern);
        if t.Some? {
          report := Some(Percent(t.value.Seconds(), duration));
        }
      }
    }
  }

  /** The loop as the converter runs it: it returns the percentages in the order the callback receives them. */
  method ParseProgress(lines: seq<string>, hasCallback: bool) returns (events: seq<int>)
    ensures events == Emitted(lines, hasCallback)
  {
    ghost var ss := Scans(lines);
    ghost var total := EmittedScans(ss, 0.0, hasCallback);
    assert ss[0..] == ss;
    events := [];
    var duration := 0.0;
    var i := 0;
    while i < |lines|
      invariant 0 <= i <= |lines|
      invariant duration >= 0.0
      invariant AllSane(ss[i..])
      invariant events + EmittedScans(ss[i..], duration, hasCallback) == total
      decreases |lines| - i
    {
      var line := lines[i];
      assert ss[i] == ScanLine(line);
      if line == "" {
        break;
      }
      ghost var r := Step(ss[i], duration, hasCallback);
      EmittedCons(ss, i, duration, hasCallback);
      ghost var events0 := events;
      var report;
      duration, report := ReadLine(line, duration, hasCallback);
      if report.Some? {
        events := events + [report.value];
      }
      assert events == events0 + AsEvents(r.1);
      ConcatAssoc(events0, AsEvents(r.1), EmittedScans(ss[i + 1..], r.0, hasCallback));
      i := i + 1;
    }
    assert ss[i..] == [] || ss[i..][0].eof;
  }

  // ---------------------------------------------------------------------------
  // A reference description of the same stream, phase by phase

  /** The scanned lines `readline()` delivers before end of stream. */
  function UntilEof(ss: seq<Scan>): (r: seq<Scan>)
    ensures r <= ss
    ensures forall j :: 0 <= j < |r| ==> !r[j].eof
    ensures |r| < |ss| ==> ss[|r|].eof
  {
    if ss == [] || ss[0].eof then [] else [ss[0]] + UntilEof(ss[1..])
  }

  /** A line that sets a positive duration and so ends the search for one. */
  predicate Announces(sc: Scan) {
    sc.duration.Some? && sc.duration.value > 0.0
  }

  /** The index of the first line from `from` on that announces a positive duration. */
  function Seek(ss: seq<Scan>, from: nat): (k: Option<nat>)
    requires from <= |ss|
    ensures k.Some? ==> from <= k.value < |ss| && Announces(ss[k.value])
    ensures forall j :: from <= j < |ss| && (k.None? || j < k.value) ==> !Announces(ss[j])
    decreases |ss| - from
  {
    if from == |ss| then None
    else if Announces(ss[from]) then Some(from)
    else Seek(ss, from + 1)
  }

  /** The times, in seconds, of the lines that carry a `time=` clock, in order. */
  function TimesOf(ss: seq<Scan>): (ts: seq<real>)
    requires AllSane(ss)
    ensures |ts| <= |ss|
    ensures forall i :: 0 <= i < |ts| ==> ts[i] >= 0.0
  {
    if ss == [] then []
    else (if ss[0].time.Some? then [ss[0].time.value] else []) + TimesOf(ss[1..])
  }

  /** Each time as a percentage of the duration. */
  function Percents(ts: seq<real>, duration: real): (ps: seq<int>)
    requires duration > 0.0
    requires forall i :: 0 <= i < |ts| ==> ts[i] >= 0.0
    ensures |ps| == |ts|
    ensures forall i :: 0 <= i < |ps| ==> 0 <= ps[i] <= 100
  {
    if ts == [] then [] else [Percent(ts[0], duration)] + Percents(ts[1..], duration)
  }

  /** What a stream reports, described phase by phase rather than line by line. */
  function Reported(ss: seq<Scan>, hasCallback: bool): seq<int>
    requires AllSane(ss)
  {
    var us := UntilEof(ss);
    var k := Seek(us, 0);
    if k.None? || !hasCallback then []
    else Percents(TimesOf(us[k.value + 1..]), us[k.value].duration.value)
  }

  // ---------------------------------------------------------------------------
  // Properties

  /** Reading stops at the first empty line: whatever follows it is never looked at. */
  lemma {:induction false} EmittedUntilEof(ss: seq<Scan>, duration: real, hasCallback: bool)
    requires duration >= 0.0 && AllSane(ss)
    ensures AllSane(UntilEof(ss))
    ensures EmittedScans(ss, duration, hasCallback) == EmittedScans(UntilEof(ss), duration, hasCallback)
  {
    if ss != [] && !ss[0].eof {
      var u := UntilEof(ss);
      assert u[0] == ss[0] && u[1..] == UntilEof(ss[1..]);
      EmittedUntilEof(ss[1..], Step(ss[0], duration, hasCallback).0, hasCallback);
    }
  }

  /** Percentages are taken time by time, so they distribute over concatenation. */
  lemma {:induction false} PercentsAppend(a: seq<real>, b: seq<real>, duration: real)
    requires duration > 0.0
    requires forall i :: 0 <= i < |a| ==> a[i] >= 0.0
    requires forall i :: 0 <= i < |b| ==> b[i] >= 0.0
    ensures Percents(a + b, duration) == Percents(a, duration) + Percents(b, duration)
  {
    if a != [] {
      assert (a + b)[1..] == a[1..] + b;
      PercentsAppend(a[1..], b, duration);
    } else {
      assert a + b == b;
    }
  }

  /** Once the duration is known it never changes, and every `time=` line is reported. */
  lemma {:induction false} TrackingPhase(ss: seq<Scan>, duration: real, hasCallback: bool)
    requires duration > 0.0 && AllSane(ss)
    requires forall j :: 0 <= j < |ss| ==> !ss[j].eof
    ensures EmittedScans(ss, duration, hasCallback) == (if hasCallback then Percents(TimesOf(ss), duration) else [])
  {
    if ss != [] {
      TrackingPhase(ss[1..], duration, hasCallback);
      var head := if ss[0].time.Some? then [ss[0].time.value] else [];
      assert TimesOf(ss) == head + TimesOf(ss[1..]);
      PercentsAppend(head, TimesOf(ss[1..]), duration);
    }
  }

  /** Before the duration is known nothing is reported, and the line that announces it is not read for a time. */
  lemma {:induction false} SeekingPhase(ss: seq<Scan>, from: nat, hasCallback: bool)
    requires from <= |ss| && AllSane(ss)
    requires forall j :: 0 <= j < |ss| ==> !ss[j].eof
    ensures AllSane(ss[from..])
    ensures EmittedScans(ss[from..], 0.0, hasCallback) ==
      (var k := Seek(ss, from);
       if k.None? || !hasCallback then []
       else Percents(TimesOf(ss[k.value + 1..]), ss[k.value].duration.value))
    decreases |ss| - from
  {
    if from < |ss| {
      var sc := ss[from];
      EmittedCons(ss, from, 0.0, hasCallback);
      var r := Step(sc, 0.0, hasCallback);
      assert AsEvents(r.1) == [];
      if Announces(sc) {
        assert Seek(ss, from) == Some(from);
        TrackingPhase(ss[from + 1..], r.0, hasCallback);
      } else {
        assert r.0 == 0.0 && Seek(ss, from) == Seek(ss, from + 1);
        SeekingPhase(ss, from + 1, hasCallback);
      }
    }
  }

  /** The loop's line-by-line behaviour agrees with the phase-by-phase description. */
  lemma EmittedIsReported(lines: seq<string>, hasCallback: bool)
    ensures AllSane(Scans(lines))
    ensures Emitted(lines, hasCallback) == Reported(Scans(lines), hasCallback)
  {
    var ss := Scans(lines);
    EmittedUntilEof(ss, 0.0, hasCallback);
    var us := UntilEof(ss);
    SeekingPhase(us, 0, hasCallback);
    assert us[0..] == us;
  }

  /** Without a callback nothing is ever reported. */
  lemma NoCallbackNoEvents(lines: seq<string>)
    ensures Emitted(lines, false) == []
  {
    EmittedIsReported(lines, false);
  }

  /** Every reported value is a percentage between 0 and 100. */
  lemma EventsInRange(lines: seq<string>, hasCallback: bool)
    ensures forall i :: 0 <= i < |Emitted(lines, hasCallback)| ==> 0 <= Emitted(lines, hasCallback)[i] <= 100
  {
    EmittedIsReported(lines, hasCallback);
  }

  /** A later time never gives a smaller percentage. */
  lemma PercentMonotone(c1: real, c2: real, duration: real)
    requires duration > 0.0 && 0.0 <= c1 <= c2
    ensures Percent(c1, duration) <= Percent(c2, duration)
  {
    assert c1 / duration <= c2 / duration by {
      assert (c2 - c1) / duration >= 0.0;
    }
  }

  predicate Ascending(ts: seq<real>) {
    forall i, j :: 0 <= i < j < |ts| ==> ts[i] <= ts[j]
  }

  predicate NonDecreasing(ps: seq<int>) {
    forall i, j :: 0 <= i < j < |ps| ==> ps[i] <= ps[j]
  }

  /** The i-th percentage is the i-th time's. */
  lemma {:induction false} PercentsAt(ts: seq<real>, duration: real, i: nat)
    requires duration > 0.0
    requires forall k :: 0 <= k < |ts| ==> ts[k] >= 0.0
    requires i < |ts|
    ensures Percents(ts, duration)[i] == Percent(ts[i], duration)
  {
    if i > 0 {
      PercentsAt(ts[1..], duration, i - 1);
    }
  }

  /** Times that only move forward give percentages that only move forward. */
  lemma PercentsNonDecreasing(ts: seq<real>, duration: real)
    requires duration > 0.0
    requires forall i :: 0 <= i < |ts| ==> ts[i] >= 0.0
    requires Ascending(ts)
    ensures NonDecreasing(Percents(ts, duration))
  {
    var ps := Percents(ts, duration);
    forall i, j | 0 <= i < j < |ps| ensures ps[i] <= ps[j] {
      PercentsAt(ts, duration, i);
      PercentsAt(ts, duration, j);
      PercentMonotone(ts[i], ts[j], duration);
    }
  }

  /** A time at or past the duration is reported as exactly 100, and only such a time is. */
  lemma FullAtDuration(ts: seq<real>, duration: real, i: nat)
    requires duration > 0.0
    requires forall k :: 0 <= k < |ts| ==> ts[k] >= 0.0
    requires i < |ts|
    ensures Percents(ts, duration)[i] == 100 <==> ts[i] >= duration
  {
    PercentsAt(ts, duration, i);
  }

  /** A line carrying `Duration: ` and a clock is scanned as that clock's seconds. */
  lemma ScanFindsDuration(pre: string, c: Clock, post: string)
    requires c.Valid()
    requires 'D' !in pre
    requires post == [] || !IsDigit(post[0])
    ensures ScanLine(pre + "Duration: " + c.Text() + post).duration == Some(c.Seconds())
  {
    SearchFindsClock(pre, DurationPattern, c, post);
  }

  /** A line carrying `time=` and a clock is scanned as that clock's seconds. */
  lemma ScanFindsTime(pre: string, c: Clock, post: string)
    requires c.Valid()
    requires 't' !in pre
    requires post == [] || !IsDigit(post[0])
    ensures ScanLine(pre + "time=" + c.Text() + post).time == Some(c.Seconds())
  {
    SearchFindsClock(pre, TimePattern, c, post);
  }
}
