/**
  The recogniser against an ideal classifier that sees only how long each tap was held and how long
  the gap after it was. Ticks decide some of these durations, so how often they come matters.
 */
module KeyClassifier {
  import opened Clock
  import opened KeyAutomaton
  import opened KeyOutputs
  import opened KeyTiming

  datatype Stamp = Stamp(at: TimeVal, mark: TimeVal)

  /** One tap: the press, the idle calls while the key is down, the release, the idle calls after it. */
  datatype Tap = Tap(press: Stamp, held: seq<Call>, release: Stamp, idle: seq<Call>)

  /** What the ideal classifier is given: the time a key was down and the time until the next press. */
  datatype Span = Span(hold: int, gap: int)

  function PressOf(code: int, t: Tap): Call { Call(Success, InputEvent(code, Press), t.press.at, t.press.mark) }
  function ReleaseOf(code: int, t: Tap): Call { Call(Success, InputEvent(code, Release), t.release.at, t.release.mark) }

  function TapCalls(code: int, t: Tap): seq<Call> {
    [PressOf(code, t)] + t.held + [ReleaseOf(code, t)] + t.idle
  }

  function Calls(code: int, taps: seq<Tap>): seq<Call> {
    if taps == [] then [] else TapCalls(code, taps[0]) + Calls(code, taps[1..])
  }

  /** The end of the gap after the first tap: the next press or, after the last tap, the last idle call. */
  function GapEnd(taps: seq<Tap>): TimeVal
    requires taps != []
  {
    if |taps| > 1 then taps[1].press.at
    else if taps[0].idle != [] then taps[0].idle[|taps[0].idle| - 1].at
    else taps[0].release.mark
  }

  function Spans(taps: seq<Tap>): (ds: seq<Span>)
    ensures |ds| == |taps|
  {
    if taps == [] then []
    else [Span(TimevalDiff(taps[0].release.at, taps[0].press.mark), TimevalDiff(GapEnd(taps), taps[0].release.mark))]
         + Spans(taps[1..])
  }

  /** How many taps the first gesture takes. */
  function Size(ds: seq<Span>): (n: nat)
    requires ds != []
    ensures 1 <= n <= |ds|
  {
    if ds[0].hold >= KEY_CLICK_GAP || ds[0].gap >= KEY_CLICK_GAP || |ds| == 1 then 1
    else if ds[1].hold >= KEY_CLICK_GAP || ds[1].gap >= KEY_CLICK_GAP || |ds| == 2 then 2
    else 3
  }

  function First(code: int, ds: seq<Span>): (g: Gesture)
    requires ds != []
    ensures Weight(g) == Size(ds)
  {
    if Size(ds) == 1 then (if ds[0].hold >= KEY_LONG_PRESS_TIME then Long(code) else Single(code))
    else if Size(ds) == 2 then (if ds[1].hold >= KEY_CLICK_GAP then HeldDouble(code) else Double(code))
    else Triple(code)
  }

  /** The ideal classifier. */
  function Classify(code: int, ds: seq<Span>): seq<Gesture> {
    if ds == [] then [] else [First(code, ds)] + Classify(code, ds[Size(ds)..])
  }

  /** `duration` is not in the window after `limit` in which it depends on the ticks which side it falls. */
  predicate Clear(duration: int, limit: int, delta: nat) { duration < limit || duration >= limit + delta }

  /** None of the durations of the first gesture that a tick decides is within `delta` past its deadline:
      its first hold at one second, its gaps and its second hold at the click gap. */
  predicate FirstClear(ds: seq<Span>, delta: nat)
    requires ds != []
  {
    && Clear(ds[0].hold, KEY_LONG_PRESS_TIME, delta)
    && (ds[0].hold < KEY_CLICK_GAP && |ds| > 1 ==>
          && Clear(ds[0].gap, KEY_CLICK_GAP, delta)
          && (ds[0].gap < KEY_CLICK_GAP ==>
                && Clear(ds[1].hold, KEY_CLICK_GAP, delta)
                && (ds[1].hold < KEY_CLICK_GAP && |ds| > 2 ==> Clear(ds[1].gap, KEY_CLICK_GAP, delta))))
  }

  /** The same of every gesture. */
  predicate Unambiguous(ds: seq<Span>, delta: nat) {
    ds == [] || (FirstClear(ds, delta) && Unambiguous(ds[Size(ds)..], delta))
  }

  ghost predicate WellFormed(taps: seq<Tap>) {
    forall t :: t in taps ==> AllIdle(t.held) && AllIdle(t.idle)
  }

  /** The last gap is over: an idle call came after it. */
  predicate Settled(taps: seq<Tap>) {
    taps == [] || TimevalDiff(GapEnd(taps[|taps| - 1..]), taps[|taps| - 1].release.mark) >= KEY_CLICK_GAP
  }

  // ----- a batch of idle calls -----

  /** Some call of the batch comes `limit` or more after `start`. */
  ghost predicate Fires(cs: seq<Call>, start: TimeVal, limit: int) {
    exists c :: c in cs && TimevalDiff(c.at, start) >= limit
  }

  /** Idle calls let a timed state expire if one of them is late, once, and otherwise do nothing. */
  lemma {:induction false} IdleBatch(k: Key, cs: seq<Call>)
    requires k.code != 0 && Known(k.state) && AllIdle(cs)
    ensures if Timed(k.state) && Fires(cs, k.start, Deadline(k.state))
            then End(k, cs) == k.(state := Expired(k.state))
                 && Trace(k, cs) == [Output(HandlerOf(k.state), k.code, Checking(Expired(k.state)))]
            else End(k, cs) == k && Trace(k, cs) == []
    decreases cs
  {
    if cs != [] {
      assert cs == [cs[0]] + cs[1..];
      assert Idle(cs[0]);
      IdleBatch(Next(k, cs[0]), cs[1..]);
      if Timed(k.state) && Late(k, cs[0], Deadline(k.state)) {
        assert Fires(cs, k.start, Deadline(k.state));
      }
    }
  }

  // ----- one tap, from each state a tap can begin in -----

  lemma {:induction false} RunTap(k: Key, code: int, t: Tap)
    ensures var k1 := Next(k, PressOf(code, t));
            var k2 := End(k1, t.held);
            var k3 := Next(k2, ReleaseOf(code, t));
            && End(k, TapCalls(code, t)) == End(k3, t.idle)
            && Trace(k, TapCalls(code, t))
               == Emit(k, PressOf(code, t)) + Trace(k1, t.held) + Emit(k2, ReleaseOf(code, t)) + Trace(k3, t.idle)
  {
    var p, r := PressOf(code, t), ReleaseOf(code, t);
    RunAppend(k, [p] + t.held + [r], t.idle);
    RunAppend(k, [p] + t.held, [r]);
    RunAppend(k, [p], t.held);
    RunOne(k, p);
    RunOne(End(Next(k, p), t.held), r);
  }

  ghost predicate TapReady(code: int, t: Tap) { code != 0 && AllIdle(t.held) && AllIdle(t.idle) }

  /** The recogniser after a run, ready for the next gesture, having reported `g` in the meantime. */
  ghost predicate Reports(k: Key, cs: seq<Call>, g: Gesture) {
    Trace(k, cs) == Render(g) && End(k, cs).state == KEY_ALL_RELEASE && End(k, cs).code != 0
  }

  lemma {:induction false} FirstTap(k: Key, code: int, t: Tap)
    requires k.code != 0 && k.state == KEY_ALL_RELEASE && TapReady(code, t)
    ensures var cs := TapCalls(code, t);
            if Fires(t.held, t.press.mark, KEY_LONG_PRESS_TIME) then Reports(k, cs, Long(code))
            else if TimevalDiff(t.release.at, t.press.mark) >= KEY_CLICK_GAP
                    || Fires(t.idle, t.release.mark, KEY_CLICK_GAP) then Reports(k, cs, Single(code))
            else End(k, cs) == Key(code, KEY_FIRST_RELEASE, t.release.mark) && Trace(k, cs) == []
  {
    hide End, Trace, TapCalls;
    RunTap(k, code, t);
    var k1 := Next(k, PressOf(code, t));
    assert k1 == Key(code, KEY_FIRST_PRESS, t.press.mark);
    IdleBatch(k1, t.held);
    IdleBatch(Next(End(k1, t.held), ReleaseOf(code, t)), t.idle);
  }

  lemma {:induction false} SecondTap(k: Key, code: int, t: Tap)
    requires k.code == code && k.state == KEY_FIRST_RELEASE && TapReady(code, t)
    ensures var cs := TapCalls(code, t);
            if Fires(t.held, t.press.mark, KEY_CLICK_GAP) then Reports(k, cs, HeldDouble(code))
            else if Fires(t.idle, t.release.mark, KEY_CLICK_GAP) then Reports(k, cs, Double(code))
            else End(k, cs) == Key(code, KEY_SECOND_RELEASE, t.release.mark) && Trace(k, cs) == []
  {
    hide End, Trace, TapCalls;
    RunTap(k, code, t);
    var k1 := Next(k, PressOf(code, t));
    assert k1 == Key(code, KEY_SECOND_PRESS, t.press.mark);
    IdleBatch(k1, t.held);
    IdleBatch(Next(End(k1, t.held), ReleaseOf(code, t)), t.idle);
  }

  lemma {:induction false} ThirdTap(k: Key, code: int, t: Tap)
    requires k.code == code && k.state == KEY_SECOND_RELEASE && TapReady(code, t)
    ensures Reports(k, TapCalls(code, t), Triple(code))
  {
    hide End, Trace, TapCalls;
    RunTap(k, code, t);
    var k1 := Next(k, PressOf(code, t));
    IdleBatch(k1, t.held);
    IdleBatch(Next(End(k1, t.held), ReleaseOf(code, t)), t.idle);
  }

  // ----- whole tap sequences -----

  /** The first gesture as the ticks and repeats that fall into holds and gaps decide it. */
  ghost function FirstReported(code: int, taps: seq<Tap>): (g: Gesture)
    requires taps != []
    ensures Weight(g) <= |taps|
  {
    var t := taps[0];
    if Fires(t.held, t.press.mark, KEY_LONG_PRESS_TIME) then Long(code)
    else if TimevalDiff(t.release.at, t.press.mark) >= KEY_CLICK_GAP
            || Fires(t.idle, t.release.mark, KEY_CLICK_GAP) || |taps| == 1 then Single(code)
    else
      var u := taps[1];
      if Fires(u.held, u.press.mark, KEY_CLICK_GAP) then HeldDouble(code)
      else if Fires(u.idle, u.release.mark, KEY_CLICK_GAP) || |taps| == 2 then Double(code)
      else Triple(code)
  }

  ghost function Reported(code: int, taps: seq<Tap>): seq<Gesture>
    decreases |taps|
  {
    if taps == [] then []
    else
      var g := FirstReported(code, taps);
      [g] + Reported(code, taps[Weight(g)..])
  }

  lemma {:induction false} OneTapCalls(code: int, t: Tap)
    ensures Calls(code, [t]) == TapCalls(code, t)
  {
    assert [t][1..] == [] && Calls(code, []) == [];
  }

  lemma {:induction false} CallsAppend(code: int, a: seq<Tap>, b: seq<Tap>)
    ensures Calls(code, a + b) == Calls(code, a) + Calls(code, b)
  {
    if a == [] {
      assert a + b == b;
    } else {
      assert (a + b)[0] == a[0] && (a + b)[1..] == a[1..] + b;
      CallsAppend(code, a[1..], b);
      var x, y, z := TapCalls(code, a[0]), Calls(code, a[1..]), Calls(code, b);
      assert x + (y + z) == (x + y) + z;
    }
  }

  /** A tap that reports nothing, followed by taps that report a gesture. */
  lemma {:induction false} Continue(k: Key, code: int, t: Tap, rest: seq<Tap>, g: Gesture)
    requires Trace(k, TapCalls(code, t)) == []
    requires Reports(End(k, TapCalls(code, t)), Calls(code, rest), g)
    ensures Reports(k, Calls(code, [t] + rest), g)
  {
    OneTapCalls(code, t);
    CallsAppend(code, [t], rest);
    RunAppend(k, TapCalls(code, t), Calls(code, rest));
  }

  /** After the last tap an idle call is late. */
  lemma {:induction false} LastGapFires(taps: seq<Tap>)
    requires taps != [] && Settled(taps)
    ensures var t := taps[|taps| - 1]; Fires(t.idle, t.release.mark, KEY_CLICK_GAP)
  {
    var t := taps[|taps| - 1];
    assert taps[|taps| - 1..] == [t];
    if t.idle != [] {
      assert t.idle[|t.idle| - 1] in t.idle;
    }
  }

  lemma {:induction false} FirstGestureReported(k: Key, code: int, taps: seq<Tap>)
    requires k.code != 0 && k.state == KEY_ALL_RELEASE && code != 0
    requires taps != [] && WellFormed(taps) && Settled(taps)
    ensures var g := FirstReported(code, taps); Reports(k, Calls(code, taps[..Weight(g)]), g)
  {
    hide Calls, TapCalls, End, Trace, Next, Emit, Settled, Fires;
    var g, t := FirstReported(code, taps), taps[0];
    LastGapFires(taps);
    FirstTap(k, code, t);
    if Weight(g) == 1 {
      OneTapCalls(code, t);
      assert taps[..1] == [t];
    } else {
      LaterTapsReported(End(k, TapCalls(code, t)), code, taps);
      Continue(k, code, t, taps[1..Weight(g)], g);
      assert [t] + taps[1..Weight(g)] == taps[..Weight(g)];
    }
  }

  lemma {:induction false} LaterTapsReported(k: Key, code: int, taps: seq<Tap>)
    requires code != 0 && k.code == code && k.state == KEY_FIRST_RELEASE
    requires taps != [] && WellFormed(taps) && Settled(taps) && Weight(FirstReported(code, taps)) >= 2
    ensures var g := FirstReported(code, taps); Reports(k, Calls(code, taps[1..Weight(g)]), g)
  {
    hide Calls, TapCalls, End, Trace, Next, Emit, Settled, Fires;
    var g, u := FirstReported(code, taps), taps[1];
    LastGapFires(taps);
    SecondTap(k, code, u);
    OneTapCalls(code, u);
    if Weight(g) == 2 {
      assert taps[1..2] == [u];
    } else {
      var v := taps[2];
      ThirdTap(End(k, TapCalls(code, u)), code, v);
      OneTapCalls(code, v);
      Continue(k, code, u, [v], g);
      assert [u] + [v] == taps[1..3];
    }
  }

  lemma {:induction false} SettledSuffix(taps: seq<Tap>, n: nat)
    requires n <= |taps| && WellFormed(taps) && Settled(taps)
    ensures WellFormed(taps[n..]) && Settled(taps[n..])
  {
    if n < |taps| {
      assert taps[n..][|taps| - n - 1..] == taps[|taps| - 1..];
    }
  }

  /** On every run of taps of one key, however the ticks fall, the handler calls are the gestures the ticks
      decide on, and the machine is at rest again. */
  lemma {:induction false} TicksDecide(k: Key, code: int, taps: seq<Tap>)
    requires k.code != 0 && k.state == KEY_ALL_RELEASE && code != 0
    requires WellFormed(taps) && Settled(taps)
    ensures Trace(k, Calls(code, taps)) == RenderAll(Reported(code, taps))
    ensures var e := End(k, Calls(code, taps)); e.state == KEY_ALL_RELEASE && e.code != 0
    decreases |taps|
  {
    hide Calls, Trace, End, FirstReported, WellFormed, Settled, Reports;
    if taps == [] {
      NoTaps(k, code);
    } else {
      var g := FirstReported(code, taps);
      var a, b := taps[..Weight(g)], taps[Weight(g)..];
      FirstGestureReported(k, code, taps);
      AtRest(k, Calls(code, a), g);
      SettledSuffix(taps, Weight(g));
      TicksDecide(End(k, Calls(code, a)), code, b);
      assert a + b == taps;
      Prepend(k, code, a, b, g, Reported(code, b));
    }
  }

  lemma {:induction false} NoTaps(k: Key, code: int)
    ensures Trace(k, Calls(code, [])) == RenderAll([]) && End(k, Calls(code, [])) == k
  {
  }

  lemma {:induction false} AtRest(k: Key, cs: seq<Call>, g: Gesture)
    requires Reports(k, cs, g)
    ensures End(k, cs).state == KEY_ALL_RELEASE && End(k, cs).code != 0
  {
  }

  /** One gesture and then the rest. */
  lemma {:induction false} Prepend(k: Key, code: int, a: seq<Tap>, b: seq<Tap>, g: Gesture, gs: seq<Gesture>)
    requires Reports(k, Calls(code, a), g)
    requires Trace(End(k, Calls(code, a)), Calls(code, b)) == RenderAll(gs)
    ensures Trace(k, Calls(code, a + b)) == RenderAll([g] + gs)
    ensures End(k, Calls(code, a + b)) == End(End(k, Calls(code, a)), Calls(code, b))
  {
    CallsAppend(code, a, b);
    RunAppend(k, Calls(code, a), Calls(code, b));
    assert ([g] + gs)[1..] == gs;
  }

  // ----- when ticks decide as durations do -----

  /** The ticks decide `duration` as its length does. */
  ghost predicate Faithful(cs: seq<Call>, start: TimeVal, duration: int, limit: int) {
    Fires(cs, start, limit) <==> duration >= limit
  }

  /** The ticks decide every duration of the first gesture they get to decide as its length does. */
  ghost predicate FirstDecided(taps: seq<Tap>)
    requires taps != []
  {
    var ds, t := Spans(taps), taps[0];
    && Faithful(t.held, t.press.mark, ds[0].hold, KEY_LONG_PRESS_TIME)
    && (ds[0].hold < KEY_CLICK_GAP ==>
          && Faithful(t.idle, t.release.mark, ds[0].gap, KEY_CLICK_GAP)
          && (ds[0].gap < KEY_CLICK_GAP && |taps| > 1 ==>
                var u := taps[1];
                && Faithful(u.held, u.press.mark, ds[1].hold, KEY_CLICK_GAP)
                && (ds[1].hold < KEY_CLICK_GAP ==> Faithful(u.idle, u.release.mark, ds[1].gap, KEY_CLICK_GAP))))
  }

  /** The same of every gesture. */
  ghost predicate Decided(taps: seq<Tap>)
    decreases |taps|
  {
    taps == [] || (FirstDecided(taps) && Decided(taps[Size(Spans(taps))..]))
  }

  lemma {:induction false} SpansDrop(taps: seq<Tap>, n: nat)
    requires n <= |taps|
    ensures Spans(taps[n..]) == Spans(taps)[n..]
  {
    if n > 0 {
      SpansDrop(taps[1..], n - 1);
      assert taps[1..][n - 1..] == taps[n..];
      assert Spans(taps)[1..] == Spans(taps[1..]);
      assert Spans(taps)[1..][n - 1..] == Spans(taps)[n..];
    }
  }

  /** What the first of several taps contributes to the spans. */
  lemma {:induction false} FirstSpan(taps: seq<Tap>)
    requires taps != []
    ensures Spans(taps)[0] == Span(TimevalDiff(taps[0].release.at, taps[0].press.mark),
                                   TimevalDiff(GapEnd(taps), taps[0].release.mark))
    ensures Spans(taps)[1..] == Spans(taps[1..])
  {
  }

  lemma {:induction false} FirstAgrees(code: int, taps: seq<Tap>)
    requires taps != [] && FirstDecided(taps)
    ensures FirstReported(code, taps) == First(code, Spans(taps))
  {
    FirstSpan(taps);
    hide Spans, Fires;
  }

  lemma {:induction false} DecidedAgrees(code: int, taps: seq<Tap>)
    requires Decided(taps)
    ensures Reported(code, taps) == Classify(code, Spans(taps))
    decreases |taps|
  {
    if taps != [] {
      var n := Size(Spans(taps));
      FirstAgrees(code, taps);
      SpansDrop(taps, n);
      DecidedAgrees(code, taps[n..]);
    }
  }

  /** When the ticks decide every duration as its length does, the recogniser reports what the ideal
      classifier computes from the durations alone, and is at rest again. */
  lemma {:induction false} ClassifierUnderDecision(k: Key, code: int, taps: seq<Tap>)
    requires k.code != 0 && k.state == KEY_ALL_RELEASE && code != 0
    requires WellFormed(taps) && Settled(taps) && Decided(taps)
    ensures Trace(k, Calls(code, taps)) == RenderAll(Classify(code, Spans(taps)))
    ensures End(k, Calls(code, taps)).state == KEY_ALL_RELEASE
  {
    TicksDecide(k, code, taps);
    DecidedAgrees(code, taps);
  }

  // ----- how often the ticks come -----

  function LastMark(now: int, cs: seq<Call>): int
    decreases cs
  {
    if cs == [] then now else LastMark(Micros(cs[0].mark), cs[1..])
  }

  /** A stretch of a run whose clock never runs backwards and whose idle calls are at most `delta` apart. */
  predicate Timely(now: int, last: int, cs: seq<Call>, delta: nat) {
    last <= now && Ordered(now, cs) && Dense(last, cs, delta)
  }

  lemma {:induction false} TimelySplit(now: int, last: int, a: seq<Call>, b: seq<Call>, delta: nat)
    requires Timely(now, last, a + b, delta)
    ensures Timely(now, last, a, delta)
    ensures Timely(LastMark(now, a), LastIdle(last, a), b, delta)
    decreases a
  {
    if a == [] {
      assert a + b == b;
    } else {
      var c := a[0];
      assert (a + b)[0] == c && (a + b)[1..] == a[1..] + b;
      TimelySplit(Micros(c.mark), Later(last, c), a[1..], b, delta);
    }
  }

  /** Ticks at most `delta` apart decide the time from `start` to the call `x` as its length does,
      unless it is within `delta` past the limit. */
  lemma {:induction false} SegmentDecided(cs: seq<Call>, x: Call, start: TimeVal, limit: int,
                                          now: int, last: int, delta: nat)
    requires AllIdle(cs) && Timely(now, last, cs + [x], delta)
    requires last - Micros(start) < limit
    ensures now <= Micros(x.at)
    ensures Clear(TimevalDiff(x.at, start), limit, delta) ==> Faithful(cs, start, TimevalDiff(x.at, start), limit)
    decreases cs
  {
    if cs == [] {
      assert (cs + [x])[0] == x;
    } else {
      var c := cs[0];
      assert Idle(c) && cs == [c] + cs[1..] && (cs + [x])[0] == c && (cs + [x])[1..] == cs[1..] + [x];
      if TimevalDiff(c.at, start) < limit {
        SegmentDecided(cs[1..], x, start, limit, Micros(c.mark), Micros(c.at), delta);
      } else {
        assert Fires(cs, start, limit);
        SegmentLater(cs[1..], x, Micros(c.mark), Micros(c.at), delta);
      }
    }
  }

  lemma {:induction false} SegmentLater(cs: seq<Call>, x: Call, now: int, last: int, delta: nat)
    requires Timely(now, last, cs + [x], delta)
    ensures now <= Micros(x.at)
    decreases cs
  {
    if cs == [] {
      assert (cs + [x])[0] == x;
    } else {
      assert (cs + [x])[0] == cs[0] && (cs + [x])[1..] == cs[1..] + [x];
      SegmentLater(cs[1..], x, Micros(cs[0].mark), Later(last, cs[0]), delta);
    }
  }

  /** What dense ticks decide within the first tap and the gap after it, and what is left of the run. */
  lemma {:induction false} TapDecided(code: int, taps: seq<Tap>, now: int, last: int, delta: nat)
    requires taps != [] && WellFormed(taps) && Timely(now, last, Calls(code, taps), delta)
    ensures var t, d := taps[0], Spans(taps)[0];
            && 0 <= d.hold && (|taps| > 1 ==> 0 <= d.gap)
            && (Clear(d.hold, KEY_LONG_PRESS_TIME, delta) ==>
                  Faithful(t.held, t.press.mark, d.hold, KEY_LONG_PRESS_TIME))
            && (Clear(d.hold, KEY_CLICK_GAP, delta) ==> Faithful(t.held, t.press.mark, d.hold, KEY_CLICK_GAP))
            && (|taps| > 1 && Clear(d.gap, KEY_CLICK_GAP, delta) ==>
                  Faithful(t.idle, t.release.mark, d.gap, KEY_CLICK_GAP))
    ensures var cs := TapCalls(code, taps[0]);
            Timely(LastMark(now, cs), LastIdle(last, cs), Calls(code, taps[1..]), delta)
  {
    var t := taps[0];
    var p, r, rest := PressOf(code, t), ReleaseOf(code, t), Calls(code, taps[1..]);
    var h := t.held + [r];
    TimelySplit(now, last, TapCalls(code, t), rest, delta);
    assert TapCalls(code, t) + rest == [p] + (h + (t.idle + rest));
    assert ([p] + (h + (t.idle + rest)))[1..] == h + (t.idle + rest);
    assert Timely(Micros(p.mark), last, h + (t.idle + rest), delta);
    hide Timely, TapCalls, LastIdle;
    TimelySplit(Micros(p.mark), last, h, t.idle + rest, delta);
    SegmentDecided(t.held, r, t.press.mark, KEY_LONG_PRESS_TIME, Micros(p.mark), last, delta);
    SegmentDecided(t.held, r, t.press.mark, KEY_CLICK_GAP, Micros(p.mark), last, delta);
    LastMarkOf(Micros(p.mark), t.held, r);
    if |taps| > 1 {
      GapDecided(code, taps, LastIdle(last, h), delta);
    }
  }

  lemma {:induction false} CallsBegin(code: int, taps: seq<Tap>)
    requires taps != []
    ensures Calls(code, taps) != [] && Calls(code, taps)[0] == PressOf(code, taps[0])
  {
  }

  lemma {:induction false} SplitHead<T>(a: seq<T>, b: seq<T>)
    requires b != []
    ensures a + b == (a + [b[0]]) + b[1..]
  {
  }

  lemma {:induction false} GapDecided(code: int, taps: seq<Tap>, last: int, delta: nat)
    requires |taps| > 1 && WellFormed(taps)
    requires Timely(Micros(taps[0].release.mark), last, taps[0].idle + Calls(code, taps[1..]), delta)
    ensures var d, t := Spans(taps)[0], taps[0];
            && 0 <= d.gap
            && (Clear(d.gap, KEY_CLICK_GAP, delta) ==> Faithful(t.idle, t.release.mark, d.gap, KEY_CLICK_GAP))
  {
    var t, x, rest := taps[0], PressOf(code, taps[1]), Calls(code, taps[1..]);
    var now := Micros(t.release.mark);
    CallsBegin(code, taps[1..]);
    hide Timely, Calls, TapCalls;
    SplitHead(t.idle, rest);
    TimelySplit(now, last, t.idle + [x], rest[1..], delta);
    SegmentDecided(t.idle, x, t.release.mark, KEY_CLICK_GAP, now, last, delta);
  }

  lemma {:induction false} LastMarkOf(now: int, cs: seq<Call>, x: Call)
    ensures LastMark(now, cs + [x]) == Micros(x.mark)
    decreases cs
  {
    if cs == [] {
      assert cs + [x] == [x] && [x][1..] == [];
    } else {
      assert (cs + [x])[0] == cs[0] && (cs + [x])[1..] == cs[1..] + [x];
      LastMarkOf(Micros(cs[0].mark), cs[1..], x);
    }
  }

  /** Dropping the first taps of a stretch leaves a stretch. */
  lemma {:induction false} TimelySuffix(code: int, taps: seq<Tap>, n: nat, now: int, last: int, delta: nat)
    returns (now2: int, last2: int)
    requires n <= |taps| && Timely(now, last, Calls(code, taps), delta)
    ensures Timely(now2, last2, Calls(code, taps[n..]), delta)
  {
    var a, b := taps[..n], taps[n..];
    assert a + b == taps;
    CallsAppend(code, a, b);
    TimelySplit(now, last, Calls(code, a), Calls(code, b), delta);
    now2, last2 := LastMark(now, Calls(code, a)), LastIdle(last, Calls(code, a));
  }

  /** Dense ticks decide the durations of the first gesture if those are clear of their deadlines. */
  lemma {:induction false} DensityDecidesFirst(code: int, taps: seq<Tap>, now: int, last: int, delta: nat)
    requires taps != [] && WellFormed(taps) && Settled(taps) && Timely(now, last, Calls(code, taps), delta)
    requires FirstClear(Spans(taps), delta)
    ensures FirstDecided(taps)
  {
    hide Timely, Calls, TapCalls, Spans, Settled, Fires;
    TapDecided(code, taps, now, last, delta);
    if |taps| == 1 {
      LastGapFaithful(taps);
    } else {
      var now2, last2 := TimelySuffix(code, taps, 1, now, last, delta);
      SettledSuffix(taps, 1);
      SpansDrop(taps, 1);
      TapDecided(code, taps[1..], now2, last2, delta);
      if |taps| == 2 {
        LastGapFaithful(taps[1..]);
      }
    }
  }

  lemma {:induction false} LastGapFaithful(taps: seq<Tap>)
    requires |taps| == 1 && Settled(taps)
    ensures Faithful(taps[0].idle, taps[0].release.mark, Spans(taps)[0].gap, KEY_CLICK_GAP)
  {
    LastGapFires(taps);
    assert taps[0..] == taps;
  }

  /** Dense ticks decide every duration that is clear of its deadline. */
  lemma {:induction false} DensityDecides(code: int, taps: seq<Tap>, now: int, last: int, delta: nat)
    requires WellFormed(taps) && Settled(taps) && Timely(now, last, Calls(code, taps), delta)
    requires Unambiguous(Spans(taps), delta)
    ensures Decided(taps)
    decreases |taps|
  {
    if taps != [] {
      var n := Size(Spans(taps));
      DensityDecidesFirst(code, taps, now, last, delta);
      SettledSuffix(taps, n);
      SpansDrop(taps, n);
      var now2, last2 := TimelySuffix(code, taps, n, now, last, delta);
      DensityDecides(code, taps[n..], now2, last2, delta);
    }
  }

  /** On any run of taps of one key with ticks at most `delta` apart, the recogniser reports what the
      ideal classifier computes from hold and gap durations alone, if none of the durations that a tick
      decides is within `delta` past its deadline. */
  lemma {:induction false} ClassifierRefinement(k: Key, code: int, taps: seq<Tap>, now: int, last: int, delta: nat)
    requires k.code != 0 && k.state == KEY_ALL_RELEASE && code != 0
    requires WellFormed(taps) && Settled(taps) && Timely(now, last, Calls(code, taps), delta)
    requires Unambiguous(Spans(taps), delta)
    ensures Trace(k, Calls(code, taps)) == RenderAll(Classify(code, Spans(taps)))
    ensures End(k, Calls(code, taps)).state == KEY_ALL_RELEASE
  {
    DensityDecides(code, taps, now, last, delta);
    ClassifierUnderDecision(k, code, taps);
  }
}
