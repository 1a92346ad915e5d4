/**
  The classifier's condition is exact: for durations within a tick period past a deadline there are runs
  with equally dense ticks that differ in what is reported.
 */
module KeyWindows {
  import opened Clock
  import opened KeyAutomaton
  import opened KeyOutputs
  import opened KeyTiming
  import opened KeyClassifier

  // ----- batches of ticks -----

  function TickAt(m: int): Call {
    Call(Timeout, InputEvent(0, Release), FromMicros(m), FromMicros(m))
  }

  /** Ticks `delta` apart after `from`, the last one exactly at `until`. */
  function Ticks(from: int, until: int, delta: nat): (cs: seq<Call>)
    requires delta > 0
    decreases until - from
  {
    if from >= until then []
    else if until - from <= delta then [TickAt(until)]
    else [TickAt(from + delta)] + Ticks(from + delta, until, delta)
  }

  lemma {:induction false} TicksAreTimely(from: int, until: int, delta: nat)
    requires delta > 0 && from <= until
    ensures var cs := Ticks(from, until, delta);
            && Timely(from, from, cs, delta) && LastMark(from, cs) == LastIdle(from, cs) == until
            && (forall c :: c in cs ==> Idle(c) && from < Micros(c.at) <= until)
            && (from < until ==> cs != [] && cs[|cs| - 1] == TickAt(until))
    decreases until - from
  {
    var cs := Ticks(from, until, delta);
    if from < until {
      var next := if until - from <= delta then until else from + delta;
      TicksAreTimely(next, until, delta);
      assert cs == [TickAt(next)] + Ticks(next, until, delta) && cs[1..] == Ticks(next, until, delta);
    }
  }

  /** A tick at `from` as well. */
  function Batch(from: int, until: int, delta: nat): seq<Call>
    requires delta > 0
  {
    [TickAt(from)] + Ticks(from, until, delta)
  }

  lemma {:induction false} BatchIsTimely(from: int, last: int, until: int, delta: nat)
    requires delta > 0 && last <= from <= until && from <= last + delta
    ensures var cs := Batch(from, until, delta);
            && Timely(from, last, cs, delta) && LastMark(from, cs) == LastIdle(last, cs) == until
            && AllIdle(cs) && cs != [] && cs[|cs| - 1].at == FromMicros(until)
  {
    TicksAreTimely(from, until, delta);
    assert Batch(from, until, delta)[1..] == Ticks(from, until, delta);
  }

  /** A batch lets a state expire exactly if it is long enough. */
  lemma {:induction false} BatchFires(from: int, until: int, delta: nat, limit: int)
    requires delta > 0 && from <= until
    ensures Fires(Batch(from, until, delta), FromMicros(from), limit) <==> until - from >= limit
  {
    var cs := Batch(from, until, delta);
    TicksAreTimely(from, until, delta);
    hide Timely, LastMark, LastIdle, Ticks;
    assert cs[0] in cs && cs[|cs| - 1] in cs;
    assert cs[|cs| - 1] == TickAt(until);
  }

  lemma {:induction false} TimelyJoin(now: int, last: int, a: seq<Call>, b: seq<Call>, delta: nat)
    requires Timely(now, last, a, delta) && Timely(LastMark(now, a), LastIdle(last, a), b, delta)
    ensures Timely(now, last, a + b, delta)
    ensures LastMark(now, a + b) == LastMark(LastMark(now, a), b)
    ensures LastIdle(last, a + b) == LastIdle(LastIdle(last, a), b)
    decreases a
  {
    if a == [] {
      assert a + b == b;
    } else {
      assert (a + b)[0] == a[0] && (a + b)[1..] == a[1..] + b;
      TimelyJoin(Micros(a[0].mark), Later(last, a[0]), a[1..], b, delta);
    }
  }

  lemma {:induction false} OneTimely(now: int, last: int, x: Call, delta: nat)
    requires last <= now <= Micros(x.at) <= Micros(x.mark) && Micros(x.at) <= last + delta
    ensures Timely(now, last, [x], delta)
    ensures LastMark(now, [x]) == Micros(x.mark) && LastIdle(last, [x]) == Later(last, x)
  {
    assert [x][1..] == [];
  }

  lemma {:induction false} TicksThenTimely(from: int, until: int, x: Call, delta: nat)
    requires delta > 0 && from <= until <= Micros(x.at) <= Micros(x.mark) && Micros(x.at) <= until + delta
    ensures Timely(from, from, Ticks(from, until, delta) + [x], delta)
  {
    TicksAreTimely(from, until, delta);
    OneTimely(until, until, x, delta);
    hide Timely, Ticks;
    TimelyJoin(from, from, Ticks(from, until, delta), [x], delta);
  }

  lemma {:induction false} TicksExpire(k: Key, until: int, delta: nat)
    requires k.code != 0 && Timed(k.state) && delta > 0 && Micros(k.start) <= until
    ensures var cs := Ticks(Micros(k.start), until, delta);
            if until < Micros(k.start) + Deadline(k.state) then End(k, cs) == k && Trace(k, cs) == []
            else End(k, cs).state == Expired(k.state) && Trace(k, cs) != []
  {
    var cs := Ticks(Micros(k.start), until, delta);
    TicksAreTimely(Micros(k.start), until, delta);
    hide Timely, Ticks, End, Trace;
    IdleBatch(k, cs);
    assert cs != [] ==> cs[|cs| - 1] in cs;
  }

  /** In any timed state, for any call up to `delta` past the deadline, there are ticks at most `delta`
      apart that have let the state expire before that call, and others that have not. */
  lemma {:induction false} WindowUndecided(k: Key, x: Call, delta: nat)
    requires k.code != 0 && Timed(k.state) && delta > 0 && Micros(x.at) <= Micros(x.mark)
    requires Deadline(k.state) <= TimevalDiff(x.at, k.start) < Deadline(k.state) + delta
    ensures var s, d := Micros(k.start), Deadline(k.state);
            var early, late := Ticks(s, s + d - 1, delta), Ticks(s, s + d, delta);
            && Timely(s, s, early + [x], delta) && Timely(s, s, late + [x], delta)
            && End(k, early) == k && Trace(k, early) == []
            && End(k, late).state == Expired(k.state) && Trace(k, late) != []
  {
    hide Timely, Ticks, End, Trace;
    var s, d := Micros(k.start), Deadline(k.state);
    TicksThenTimely(s, s + d - 1, x, delta);
    TicksThenTimely(s, s + d, x, delta);
    TicksExpire(k, s + d - 1, delta);
    TicksExpire(k, s + d, delta);
  }

  // ----- runs with given durations and given ticks -----

  /** A tap pressed at `from`; `t` says for how long ticks come during its hold and during its gap. */
  function TapOf(from: int, d: Span, t: Span, delta: nat): Tap
    requires delta > 0
  {
    var p, r := FromMicros(from), FromMicros(from + d.hold);
    Tap(Stamp(p, p), Batch(from, from + t.hold, delta), Stamp(r, r),
        Batch(from + d.hold, from + d.hold + t.gap, delta))
  }

  function Run(from: int, ds: seq<Span>, ts: seq<Span>, delta: nat): (taps: seq<Tap>)
    requires delta > 0 && |ds| == |ts|
    ensures |taps| == |ds|
    decreases |ds|
  {
    if ds == [] then []
    else [TapOf(from, ds[0], ts[0], delta)] + Run(from + ds[0].hold + ds[0].gap, ds[1..], ts[1..], delta)
  }

  /** Ticks stop at most `delta` before the end of each hold and gap; the last gap is ended by one. */
  predicate Fits(ds: seq<Span>, ts: seq<Span>, delta: nat) {
    && |ts| == |ds|
    && (forall i :: 0 <= i < |ds| ==> 0 <= ts[i].hold <= ds[i].hold <= ts[i].hold + delta)
    && (forall i :: 0 <= i < |ds| ==> 0 <= ts[i].gap <= ds[i].gap <= ts[i].gap + delta)
    && (ds != [] ==> ts[|ds| - 1].gap == ds[|ds| - 1].gap)
  }

  /** Durations a tap run can have: nothing negative, and a last gap past the click gap. */
  predicate Plausible(ds: seq<Span>) {
    && (forall i :: 0 <= i < |ds| ==> 0 <= ds[i].hold && 0 <= ds[i].gap)
    && (ds != [] ==> ds[|ds| - 1].gap >= KEY_CLICK_GAP)
  }

  /** A tap run from `from` on with these durations and ticks at most `delta` apart. */
  ghost predicate Realises(taps: seq<Tap>, code: int, from: int, ds: seq<Span>, delta: nat) {
    && WellFormed(taps) && Settled(taps) && Spans(taps) == ds
    && Timely(from, from, Calls(code, taps), delta)
  }

  /** When tap `n` is pressed. */
  function PressTime(from: int, ds: seq<Span>, n: nat): int
    requires n <= |ds|
    decreases n
  {
    if n == 0 then from else PressTime(from + ds[0].hold + ds[0].gap, ds[1..], n - 1)
  }

  lemma {:induction false} RunDrop(from: int, ds: seq<Span>, ts: seq<Span>, delta: nat, n: nat)
    requires delta > 0 && |ds| == |ts| && n <= |ds|
    ensures Run(from, ds, ts, delta)[n..] == Run(PressTime(from, ds, n), ds[n..], ts[n..], delta)
    decreases n
  {
    if n == 0 {
      assert ds[0..] == ds && ts[0..] == ts;
    } else {
      RunDrop(from + ds[0].hold + ds[0].gap, ds[1..], ts[1..], delta, n - 1);
      assert ds[1..][n - 1..] == ds[n..] && ts[1..][n - 1..] == ts[n..];
      var taps := Run(from, ds, ts, delta);
      assert taps[1..][n - 1..] == taps[n..];
    }
  }

  lemma {:induction false} TapOfIdle(from: int, d: Span, t: Span, delta: nat)
    requires delta > 0 && 0 <= t.hold && 0 <= t.gap
    ensures var tap := TapOf(from, d, t, delta);
            && AllIdle(tap.held) && AllIdle(tap.idle) && tap.idle != []
            && Micros(tap.idle[|tap.idle| - 1].at) == from + d.hold + t.gap
  {
    hide Batch, Ticks, Timely, LastMark, LastIdle;
    BatchIsTimely(from, from, from + t.hold, delta);
    BatchIsTimely(from + d.hold, from + d.hold, from + d.hold + t.gap, delta);
  }

  lemma {:induction false} RunHead(from: int, ds: seq<Span>, ts: seq<Span>, delta: nat)
    requires delta > 0 && |ds| == |ts| && ds != []
    ensures var from2, taps := from + ds[0].hold + ds[0].gap, Run(from, ds, ts, delta);
            && taps[0] == TapOf(from, ds[0], ts[0], delta) && taps[1..] == Run(from2, ds[1..], ts[1..], delta)
            && (|ds| > 1 ==> Micros(taps[1].press.at) == from2)
            && Micros(taps[0].press.mark) == from
            && Micros(taps[0].release.at) == Micros(taps[0].release.mark) == from + ds[0].hold
  {
  }

  lemma {:induction false} RunSpans(from: int, ds: seq<Span>, ts: seq<Span>, delta: nat)
    requires delta > 0 && Fits(ds, ts, delta)
    ensures Spans(Run(from, ds, ts, delta)) == ds
    decreases |ds|
  {
    hide Run, TapOf, FromMicros, Spans;
    if ds != [] {
      RunHead(from, ds, ts, delta);
      RunSpans(from + ds[0].hold + ds[0].gap, ds[1..], ts[1..], delta);
      TapOfIdle(from, ds[0], ts[0], delta);
      FirstSpan(Run(from, ds, ts, delta));
    }
  }

  lemma {:induction false} RunWellFormed(from: int, ds: seq<Span>, ts: seq<Span>, delta: nat)
    requires delta > 0 && Fits(ds, ts, delta)
    ensures WellFormed(Run(from, ds, ts, delta))
    decreases |ds|
  {
    hide TapOf, AllIdle;
    if ds != [] {
      RunWellFormed(from + ds[0].hold + ds[0].gap, ds[1..], ts[1..], delta);
      TapOfIdle(from, ds[0], ts[0], delta);
    }
  }

  lemma {:induction false} TapOfTimely(code: int, from: int, last: int, d: Span, t: Span, delta: nat)
    requires delta > 0 && last <= from <= last + delta
    requires 0 <= t.hold <= d.hold <= t.hold + delta && 0 <= t.gap <= d.gap <= t.gap + delta
    ensures var cs, until := TapCalls(code, TapOf(from, d, t, delta)), from + d.hold + t.gap;
            Timely(from, last, cs, delta) && LastMark(from, cs) == LastIdle(last, cs) == until
  {
    var tap := TapOf(from, d, t, delta);
    var p, r, mid, up := PressOf(code, tap), ReleaseOf(code, tap), from + t.hold, from + d.hold;
    BatchIsTimely(from, last, mid, delta);
    BatchIsTimely(up, mid, up + t.gap, delta);
    hide Timely, LastMark, LastIdle, Batch, Ticks, FromMicros;
    OneTimely(from, last, p, delta);
    OneTimely(mid, mid, r, delta);
    TimelyJoin(from, last, [p], tap.held, delta);
    TimelyJoin(from, last, [p] + tap.held, [r], delta);
    TimelyJoin(from, last, [p] + tap.held + [r], tap.idle, delta);
  }

  lemma {:induction false} EarlierStart(now: int, from: int, last: int, cs: seq<Call>, delta: nat)
    requires last <= now <= from && Timely(from, last, cs, delta)
    ensures Timely(now, last, cs, delta)
  {
  }

  lemma {:induction false} RunTimely(code: int, from: int, last: int, ds: seq<Span>, ts: seq<Span>, delta: nat)
    requires delta > 0 && Fits(ds, ts, delta) && last <= from <= last + delta
    ensures Timely(from, last, Calls(code, Run(from, ds, ts, delta)), delta)
    decreases |ds|
  {
    if ds != [] {
      var from2, until := from + ds[0].hold + ds[0].gap, from + ds[0].hold + ts[0].gap;
      var taps := Run(from, ds, ts, delta);
      assert taps[1..] == Run(from2, ds[1..], ts[1..], delta);
      TapOfTimely(code, from, last, ds[0], ts[0], delta);
      RunTimely(code, from2, until, ds[1..], ts[1..], delta);
      hide Timely, LastMark, LastIdle, TapOf, TapCalls;
      EarlierStart(until, from2, until, Calls(code, taps[1..]), delta);
      TimelyJoin(from, last, TapCalls(code, taps[0]), Calls(code, taps[1..]), delta);
    }
  }

  lemma {:induction false} RunRealises(code: int, from: int, ds: seq<Span>, ts: seq<Span>, delta: nat)
    requires delta > 0 && Fits(ds, ts, delta) && Plausible(ds)
    ensures Realises(Run(from, ds, ts, delta), code, from, ds, delta)
  {
    var taps := Run(from, ds, ts, delta);
    RunWellFormed(from, ds, ts, delta);
    RunTimely(code, from, from, ds, ts, delta);
    RunSpans(from, ds, ts, delta);
    if ds != [] {
      SpansDrop(taps, |ds| - 1);
      FirstSpan(taps[|ds| - 1..]);
    }
  }

  // ----- what such a run reports -----

  /** The ticks of a tap fall as `t` says, and it is held as long as `d` says. */
  ghost predicate Shows(tap: Tap, d: Span, t: Span) {
    && (Fires(tap.held, tap.press.mark, KEY_LONG_PRESS_TIME) <==> t.hold >= KEY_LONG_PRESS_TIME)
    && (Fires(tap.held, tap.press.mark, KEY_CLICK_GAP) <==> t.hold >= KEY_CLICK_GAP)
    && (Fires(tap.idle, tap.release.mark, KEY_CLICK_GAP) <==> t.gap >= KEY_CLICK_GAP)
    && TimevalDiff(tap.release.at, tap.press.mark) == d.hold
  }

  lemma {:induction false} TapOfShows(from: int, d: Span, t: Span, delta: nat)
    requires delta > 0 && 0 <= t.hold && 0 <= t.gap
    ensures Shows(TapOf(from, d, t, delta), d, t)
  {
    hide Batch, Fires;
    BatchFires(from, from + t.hold, delta, KEY_LONG_PRESS_TIME);
    BatchFires(from, from + t.hold, delta, KEY_CLICK_GAP);
    BatchFires(from + d.hold, from + d.hold + t.gap, delta, KEY_CLICK_GAP);
  }

  /** The gesture ticks decide on, save that a first hold past the click gap makes a single without any. */
  function TickedFirst(code: int, ds: seq<Span>, ts: seq<Span>): Gesture
    requires |ts| == |ds| > 0
  {
    if ts[0].hold >= KEY_LONG_PRESS_TIME then Long(code)
    else if ds[0].hold >= KEY_CLICK_GAP || ts[0].gap >= KEY_CLICK_GAP || |ds| == 1 then Single(code)
    else if ts[1].hold >= KEY_CLICK_GAP then HeldDouble(code)
    else if ts[1].gap >= KEY_CLICK_GAP || |ds| == 2 then Double(code)
    else Triple(code)
  }

  lemma {:induction false} ShownFirst(code: int, taps: seq<Tap>, ds: seq<Span>, ts: seq<Span>)
    requires |taps| == |ts| == |ds| > 0 && Shows(taps[0], ds[0], ts[0])
    requires |ds| > 1 ==> Shows(taps[1], ds[1], ts[1])
    ensures FirstReported(code, taps) == TickedFirst(code, ds, ts)
  {
    hide Fires, TimevalDiff;
  }

  lemma {:induction false} FirstTwoTaps(from: int, ds: seq<Span>, ts: seq<Span>, delta: nat)
    requires delta > 0 && |ts| == |ds| && ds != []
    ensures Run(from, ds, ts, delta)[0] == TapOf(from, ds[0], ts[0], delta)
    ensures |ds| > 1 ==>
              Run(from, ds, ts, delta)[1] == TapOf(from + ds[0].hold + ds[0].gap, ds[1], ts[1], delta)
  {
    hide TapOf;
  }

  lemma {:induction false} RunFirst(code: int, from: int, ds: seq<Span>, ts: seq<Span>, delta: nat)
    requires delta > 0 && Fits(ds, ts, delta) && ds != []
    ensures FirstReported(code, Run(from, ds, ts, delta)) == TickedFirst(code, ds, ts)
  {
    hide Run, TapOf, Shows, FirstReported, TickedFirst;
    FirstTwoTaps(from, ds, ts, delta);
    TapOfShows(from, ds[0], ts[0], delta);
    if |ds| > 1 {
      TapOfShows(from + ds[0].hold + ds[0].gap, ds[1], ts[1], delta);
    }
    ShownFirst(code, Run(from, ds, ts, delta), ds, ts);
  }

  /** With ticks to the very end of each duration the run reports what its durations say. */
  lemma {:induction false} FullTicks(code: int, from: int, ds: seq<Span>, delta: nat)
    requires delta > 0 && Fits(ds, ds, delta)
    ensures Reported(code, Run(from, ds, ds, delta)) == Classify(code, ds)
    decreases |ds|
  {
    if ds != [] {
      RunFirst(code, from, ds, ds, delta);
      TickedAgrees(code, ds);
      RunDrop(from, ds, ds, delta, Size(ds));
      FullTicks(code, PressTime(from, ds, Size(ds)), ds[Size(ds)..], delta);
    }
  }

  lemma {:induction false} TickedAgrees(code: int, ds: seq<Span>)
    requires ds != []
    ensures TickedFirst(code, ds, ds) == First(code, ds)
  {
  }

  /** Ticks that stop just short of the first deadline with a duration in its window. */
  function CutFirst(ds: seq<Span>, delta: nat): (ts: seq<Span>)
    requires ds != [] && !FirstClear(ds, delta)
  {
    if !Clear(ds[0].hold, KEY_LONG_PRESS_TIME, delta) then ds[0 := ds[0].(hold := KEY_LONG_PRESS_TIME - 1)]
    else if !Clear(ds[0].gap, KEY_CLICK_GAP, delta) then ds[0 := ds[0].(gap := KEY_CLICK_GAP - 1)]
    else if !Clear(ds[1].hold, KEY_CLICK_GAP, delta) then ds[1 := ds[1].(hold := KEY_CLICK_GAP - 1)]
    else ds[1 := ds[1].(gap := KEY_CLICK_GAP - 1)]
  }

  lemma {:induction false} CutFirstDiffers(code: int, from: int, ds: seq<Span>, delta: nat)
    requires delta > 0 && ds != [] && Plausible(ds) && !FirstClear(ds, delta)
    ensures var ts := CutFirst(ds, delta);
            Fits(ds, ts, delta) && FirstReported(code, Run(from, ds, ts, delta)) != First(code, ds)
  {
    RunFirst(code, from, ds, CutFirst(ds, delta), delta);
    hide Run;
  }

  lemma {:induction false} FullThenFits(ds: seq<Span>, n: nat, rest: seq<Span>, delta: nat)
    requires n <= |ds| && Plausible(ds) && Fits(ds[n..], rest, delta)
    ensures var ts := ds[..n] + rest;
            Fits(ds, ts, delta) && ts[n..] == rest && forall i :: 0 <= i < n ==> ts[i] == ds[i]
  {
    var ts := ds[..n] + rest;
    forall i | 0 <= i < |ds|
      ensures ts[i] == if i < n then ds[i] else rest[i - n]
    {
    }
    assert forall i :: n <= i < |ds| ==> ds[i] == ds[n..][i - n];
  }

  /** Ticks that are full for the first gesture report it as its durations say. */
  lemma {:induction false} FullFirst(code: int, from: int, ds: seq<Span>, ts: seq<Span>, delta: nat)
    requires delta > 0 && ds != [] && Fits(ds, ts, delta) && forall i :: 0 <= i < Size(ds) ==> ts[i] == ds[i]
    ensures FirstReported(code, Run(from, ds, ts, delta)) == First(code, ds)
  {
    assert |ts| == |ds| && ts[0] == ds[0];
    hide Run, Fits;
    RunFirst(code, from, ds, ts, delta);
  }

  /** Whichever gesture has a duration in its window, other ticks change what is reported. */
  lemma {:induction false} OtherTicks(code: int, from: int, ds: seq<Span>, delta: nat) returns (ts: seq<Span>)
    requires delta > 0 && Plausible(ds) && !Unambiguous(ds, delta)
    ensures Fits(ds, ts, delta) && Reported(code, Run(from, ds, ts, delta)) != Classify(code, ds)
    decreases |ds|
  {
    if FirstClear(ds, delta) {
      var n := Size(ds);
      var rest := OtherTicks(code, PressTime(from, ds, n), ds[n..], delta);
      ts := ds[..n] + rest;
      FullThenFits(ds, n, rest, delta);
      FullFirst(code, from, ds, ts, delta);
      RunDrop(from, ds, ts, delta, n);
      assert Reported(code, Run(from, ds, ts, delta))[1..] == Reported(code, Run(from, ds, ts, delta)[n..]);
    } else {
      ts := CutFirst(ds, delta);
      CutFirstDiffers(code, from, ds, delta);
      assert Reported(code, Run(from, ds, ts, delta))[0] != First(code, ds);
    }
  }

  // ----- exactness -----

  /** Durations with one in its window have a run that reports what they say and one that does not. */
  lemma {:induction false} WindowNeedsTicks(k: Key, code: int, from: int, ds: seq<Span>, delta: nat)
    returns (t: seq<Tap>, u: seq<Tap>)
    requires k.code != 0 && k.state == KEY_ALL_RELEASE && code != 0
    requires delta > 0 && Plausible(ds) && !Unambiguous(ds, delta)
    ensures Realises(t, code, from, ds, delta) && Realises(u, code, from, ds, delta)
    ensures Trace(k, Calls(code, t)) == RenderAll(Classify(code, ds))
    ensures Trace(k, Calls(code, u)) != RenderAll(Classify(code, ds))
  {
    var ts := OtherTicks(code, from, ds, delta);
    t, u := Run(from, ds, ds, delta), Run(from, ds, ts, delta);
    FullTicks(code, from, ds, delta);
    RunRealises(code, from, ds, ds, delta);
    RunRealises(code, from, ds, ts, delta);
    TicksDecide(k, code, t);
    TicksDecide(k, code, u);
    if RenderAll(Reported(code, u)) == RenderAll(Classify(code, ds)) {
      RenderInjective(Reported(code, u), Classify(code, ds));
    }
  }

  /** The classifier's condition is exact: all runs with these durations and ticks at most `delta` apart are
      reported alike, and as the ideal classifier says, if and only if none of the durations that a tick
      decides is within `delta` past its deadline. */
  lemma {:induction false} ClassifierExact(k: Key, code: int, from: int, ds: seq<Span>, delta: nat)
    requires k.code != 0 && k.state == KEY_ALL_RELEASE && code != 0
    requires delta > 0 && Plausible(ds)
    ensures Unambiguous(ds, delta) <==>
              forall t :: Realises(t, code, from, ds, delta) ==>
                Trace(k, Calls(code, t)) == RenderAll(Classify(code, ds))
    ensures Unambiguous(ds, delta) <==>
              forall t, u :: Realises(t, code, from, ds, delta) && Realises(u, code, from, ds, delta) ==>
                Trace(k, Calls(code, t)) == Trace(k, Calls(code, u))
  {
    if Unambiguous(ds, delta) {
      forall t | Realises(t, code, from, ds, delta)
        ensures Trace(k, Calls(code, t)) == RenderAll(Classify(code, ds))
      {
        ClassifierRefinement(k, code, t, from, from, delta);
      }
    } else {
      var t, u := WindowNeedsTicks(k, code, from, ds, delta);
    }
  }

  /** The durations asked for are those that some run has. */
  lemma {:induction false} PlausibleIff(code: int, from: int, ds: seq<Span>, delta: nat)
    requires delta > 0
    ensures Plausible(ds) <==> exists t :: Realises(t, code, from, ds, delta)
  {
    if Plausible(ds) {
      RunRealises(code, from, ds, ds, delta);
    }
    forall t | Realises(t, code, from, ds, delta)
      ensures Plausible(ds)
    {
      DurationsPlausible(code, t, from, from, delta);
    }
  }

  lemma {:induction false} DurationsPlausible(code: int, taps: seq<Tap>, now: int, last: int, delta: nat)
    requires WellFormed(taps) && Settled(taps) && Timely(now, last, Calls(code, taps), delta)
    ensures Plausible(Spans(taps))
    decreases |taps|
  {
    if taps != [] {
      TapDecided(code, taps, now, last, delta);
      SettledSuffix(taps, 1);
      SpansDrop(taps, 1);
      FirstSpan(taps);
      var now2, last2 := TimelySuffix(code, taps, 1, now, last, delta);
      DurationsPlausible(code, taps[1..], now2, last2, delta);
      hide Timely, Calls;
      var ds := Spans(taps);
      assert forall i :: 1 <= i < |ds| ==> ds[i] == ds[1..][i - 1];
      assert |taps| == 1 ==> taps[0..] == taps;
    }
  }
}
