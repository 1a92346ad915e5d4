/**
  Runs from boot: the first event claims its key and is taken to follow a press at time zero.
 */
module KeyBoot {
  import opened Clock
  import opened KeyAutomaton
  import opened KeyOutputs
  import opened KeyTiming
  import opened KeyClassifier

  const ZERO := TimeVal(0, 0)

  ghost predicate AllTimeouts(cs: seq<Call>) { forall c :: c in cs ==> c.poll == Timeout }

  lemma {:induction false} TimeoutsAtBoot(cs: seq<Call>)
    requires AllTimeouts(cs)
    ensures End(BOOT, cs) == BOOT && Trace(BOOT, cs) == []
    decreases cs
  {
    if cs != [] {
      assert cs[0].poll == Timeout;
      TimeoutsAtBoot(cs[1..]);
    }
  }

  /** From boot, whatever its first event is, a run is answered as if that key had been pressed at time zero. */
  lemma {:induction false} BootIsPressAtZero(k: Key, ticks: seq<Call>, first: Call, cs: seq<Call>)
    requires AllTimeouts(ticks) && first.poll == Success && first.ev.code != 0
    requires k.code != 0 && k.state == KEY_ALL_RELEASE
    ensures var press := Call(Success, InputEvent(first.ev.code, Press), ZERO, ZERO);
            && Trace(BOOT, ticks + ([first] + cs)) == Trace(k, [press] + ([first] + cs))
            && End(BOOT, ticks + ([first] + cs)) == End(k, [press] + ([first] + cs))
  {
    var press := Call(Success, InputEvent(first.ev.code, Press), ZERO, ZERO);
    ClaimStep(k, press, first);
    hide End, Trace, Next, Emit;
    TimeoutsAtBoot(ticks);
    RunAppend(BOOT, ticks, [first] + cs);
    RunCons(BOOT, first, cs);
    RunCons(k, press, [first] + cs);
    RunCons(Next(k, press), first, cs);
  }

  lemma {:induction false} ClaimStep(k: Key, press: Call, first: Call)
    requires first.poll == Success && first.ev.code != 0 && k.code != 0 && k.state == KEY_ALL_RELEASE
    requires press == Call(Success, InputEvent(first.ev.code, Press), ZERO, ZERO)
    ensures Next(BOOT, first) == Next(Next(k, press), first)
    ensures Emit(BOOT, first) == Emit(Next(k, press), first) && Emit(k, press) == []
  {
    var k1 := Key(first.ev.code, KEY_FIRST_PRESS, ZERO);
    assert Next(k, press) == k1 && Emit(k, press) == [];
    assert Synced(BOOT, first) == k1 == Synced(k1, first);
    hide *;
    SyncedDecides(BOOT, k1, first);
  }

  lemma {:induction false} SyncedDecides(k: Key, j: Key, c: Call)
    requires Synced(k, c) == Synced(j, c)
    ensures Next(k, c) == Next(j, c) && Emit(k, c) == Emit(j, c)
  {
    hide Synced;
  }

  /** What is left of a tap whose press was missed. */
  function WithoutPress(code: int, t: Tap): seq<Call> { t.held + [ReleaseOf(code, t)] + t.idle }

  lemma {:induction false} TapCallsAre(code: int, t: Tap)
    ensures TapCalls(code, t) == [PressOf(code, t)] + WithoutPress(code, t)
  {
  }

  function FromZero(t: Tap): Tap { t.(press := Stamp(ZERO, ZERO)) }

  /** The first thing seen of the tap is an event of its key: a repeat or, if there is none, the release. */
  predicate SeenFirst(code: int, t: Tap) {
    t.held != [] ==> t.held[0].poll == Success && t.held[0].ev.code == code
  }

  /** A run from boot whose first tap was under way already, or is seen whole: from rest, it is that run with
      the first tap pressed at time zero. */
  lemma {:induction false} FirstTapFromZero(k: Key, code: int, ticks: seq<Call>, t: Tap, cs: seq<Call>, pressed: bool)
    requires code != 0 && AllTimeouts(ticks) && (pressed || SeenFirst(code, t))
    requires k.code != 0 && k.state == KEY_ALL_RELEASE
    ensures var run := if pressed then TapCalls(code, t) else WithoutPress(code, t);
            Trace(BOOT, ticks + (run + cs)) == Trace(k, TapCalls(code, FromZero(t)) + cs)
            && End(BOOT, ticks + (run + cs)) == End(k, TapCalls(code, FromZero(t)) + cs)
  {
    hide End, Trace, Next, Emit, TapCalls;
    var run := if pressed then TapCalls(code, t) else WithoutPress(code, t);
    var press, tail := PressOf(code, FromZero(t)), WithoutPress(code, t) + cs;
    TapCallsAre(code, t);
    TapCallsAre(code, FromZero(t));
    assert TapCalls(code, FromZero(t)) + cs == [press] + tail;
    if pressed {
      assert run + cs == [PressOf(code, t)] + tail;
      BootIsPressAtZero(k, ticks, PressOf(code, t), tail);
      PressTwice(k, press, PressOf(code, t), tail);
    } else {
      assert tail == [tail[0]] + tail[1..];
      BootIsPressAtZero(k, ticks, tail[0], tail[1..]);
    }
  }

  /** A key pressed while it is down already. */
  lemma {:induction false} PressTwice(k: Key, press: Call, again: Call, cs: seq<Call>)
    requires k.code != 0 && k.state == KEY_ALL_RELEASE
    requires Down(press) && Down(again) && press.ev.code == again.ev.code != 0
    ensures Trace(k, [press] + ([again] + cs)) == Trace(k, [press] + cs)
    ensures End(k, [press] + ([again] + cs)) == End(k, [press] + cs)
  {
    RunCons(k, press, [again] + cs);
    RunCons(k, press, cs);
    RunCons(Next(k, press), again, cs);
    hide End, Trace;
  }

  /** Every run of taps of one key from boot, the first seen from its press, from a repeat or from its release
      on, reports what the ticks decide with the first tap held since time zero. */
  lemma {:induction false} BootRun(code: int, ticks: seq<Call>, taps: seq<Tap>, pressed: bool)
    requires code != 0 && AllTimeouts(ticks) && taps != [] && (pressed || SeenFirst(code, taps[0]))
    requires WellFormed(taps) && Settled(taps)
    ensures var run := if pressed then TapCalls(code, taps[0]) else WithoutPress(code, taps[0]);
            && Trace(BOOT, ticks + (run + Calls(code, taps[1..])))
               == RenderAll(Reported(code, [FromZero(taps[0])] + taps[1..]))
            && End(BOOT, ticks + (run + Calls(code, taps[1..]))).state == KEY_ALL_RELEASE
  {
    var k, all := Key(code, KEY_ALL_RELEASE, ZERO), [FromZero(taps[0])] + taps[1..];
    hide End, Trace, Reported;
    FirstTapFromZero(k, code, ticks, taps[0], Calls(code, taps[1..]), pressed);
    assert all[1..] == taps[1..];
    FromZeroSettled(taps);
    TicksDecide(k, code, all);
  }

  lemma {:induction false} FromZeroSettled(taps: seq<Tap>)
    requires taps != [] && WellFormed(taps) && Settled(taps)
    ensures var all := [FromZero(taps[0])] + taps[1..]; WellFormed(all) && Settled(all)
  {
    var all := [FromZero(taps[0])] + taps[1..];
    assert all[|all| - 1..] == [all[|all| - 1]] && taps[|taps| - 1..] == [taps[|taps| - 1]];
  }

  /** A key that is down at boot: if a repeat or a later tick comes a second or more after time zero, a long
      press is reported, and if not but its release comes past the click gap, a single. What follows, of
      whatever key, is reported as from rest. */
  lemma {:induction false} KeyDownAtBoot(c: int, ticks: seq<Call>, t: Tap, code: int, taps: seq<Tap>)
    requires TapReady(c, t) && SeenFirst(c, t) && AllTimeouts(ticks)
    requires code != 0 && WellFormed(taps) && Settled(taps)
    requires Fires(t.held, ZERO, KEY_LONG_PRESS_TIME) || Micros(t.release.at) >= KEY_CLICK_GAP
    ensures var g := if Fires(t.held, ZERO, KEY_LONG_PRESS_TIME) then Long(c) else Single(c);
            Trace(BOOT, ticks + (WithoutPress(c, t) + Calls(code, taps))) == RenderAll([g] + Reported(code, taps))
  {
    hide End, Trace, Reported, Fires, TapCalls, Calls;
    var k := Key(c, KEY_ALL_RELEASE, ZERO);
    var g := if Fires(t.held, ZERO, KEY_LONG_PRESS_TIME) then Long(c) else Single(c);
    var cs := TapCalls(c, FromZero(t));
    FirstTapFromZero(k, c, ticks, t, Calls(code, taps), false);
    FirstTap(k, c, FromZero(t));
    RunAppend(k, cs, Calls(code, taps));
    TicksDecide(End(k, cs), code, taps);
    assert ([g] + Reported(code, taps))[1..] == Reported(code, taps);
  }

  // ----- the first tap after boot -----

  /** The very first event is timed against the initial start time, which no press has set. With a clock
      a second or more past that, the first tap is reported as long if a tick or repeat comes while it is held,
      else as single, however long it was held. */
  lemma {:induction false} FirstTapAfterBoot(code: int, t: Tap)
    requires TapReady(code, t) && (forall c :: c in t.held ==> Micros(c.at) >= KEY_LONG_PRESS_TIME)
    requires Micros(t.release.at) >= KEY_LONG_PRESS_TIME
    ensures Reports(BOOT, TapCalls(code, t), if t.held == [] then Single(code) else Long(code))
  {
    hide End, Trace, TapCalls, Next, Emit;
    var k := Key(code, KEY_ALL_RELEASE, ZERO);
    FirstTapFromZero(k, code, [], t, [], true);
    assert [] + (TapCalls(code, t) + []) == TapCalls(code, t);
    assert TapCalls(code, FromZero(t)) + [] == TapCalls(code, FromZero(t));
    FirstTap(k, code, FromZero(t));
    assert t.held != [] ==> t.held[0] in t.held;
  }

  /** From boot the first tap is reported by itself, and what comes after it as from rest. */
  lemma {:induction false} RunAfterBoot(code: int, taps: seq<Tap>)
    requires code != 0 && taps != [] && WellFormed(taps) && Settled(taps)
    requires forall c :: c in taps[0].held ==> Micros(c.at) >= KEY_LONG_PRESS_TIME
    requires Micros(taps[0].release.at) >= KEY_LONG_PRESS_TIME
    ensures var g := if taps[0].held == [] then Single(code) else Long(code);
            && Trace(BOOT, Calls(code, taps)) == RenderAll([g] + Reported(code, taps[1..]))
            && (Decided(taps[1..]) ==>
                  Trace(BOOT, Calls(code, taps)) == RenderAll([g] + Classify(code, Spans(taps[1..]))))
    ensures End(BOOT, Calls(code, taps)).state == KEY_ALL_RELEASE
  {
    hide Calls, TapCalls, End, Trace, Next, Emit, Settled, Decided;
    var g := if taps[0].held == [] then Single(code) else Long(code);
    FirstTapAfterBoot(code, taps[0]);
    OneTapCalls(code, taps[0]);
    SettledSuffix(taps, 1);
    TicksDecide(End(BOOT, TapCalls(code, taps[0])), code, taps[1..]);
    if Decided(taps[1..]) {
      DecidedAgrees(code, taps[1..]);
    }
    assert [taps[0]] + taps[1..] == taps;
    Prepend(BOOT, code, [taps[0]], taps[1..], g, Reported(code, taps[1..]));
  }

  /** So a run from boot gets the ideal gestures if and only if its first tap was held for a second or more
      with a tick or repeat in between, or for less with none and makes a gesture of its own: held past
      the click gap, or followed by a gap that long or by nothing. */
  lemma {:induction false} RunAfterBootIdealIff(code: int, taps: seq<Tap>)
    requires code != 0 && taps != [] && WellFormed(taps) && Settled(taps) && Decided(taps[1..])
    requires forall c :: c in taps[0].held ==> Micros(c.at) >= KEY_LONG_PRESS_TIME
    requires Micros(taps[0].release.at) >= KEY_LONG_PRESS_TIME
    ensures var d := Spans(taps)[0];
            Trace(BOOT, Calls(code, taps)) == RenderAll(Classify(code, Spans(taps)))
            <==> if taps[0].held != [] then d.hold >= KEY_LONG_PRESS_TIME
                 else d.hold < KEY_LONG_PRESS_TIME
                      && (d.hold >= KEY_CLICK_GAP || d.gap >= KEY_CLICK_GAP || |taps| == 1)
  {
    hide Calls, Trace, WellFormed, Settled, Decided, Classify, Size, First, Spans, RenderAll, Reported;
    var ds, g := Spans(taps), if taps[0].held == [] then Single(code) else Long(code);
    RunAfterBoot(code, taps);
    SpansDrop(taps, 1);
    OneTapFirst(code, ds, g);
    if RenderAll([g] + Classify(code, ds[1..])) == RenderAll(Classify(code, ds)) {
      RenderInjective([g] + Classify(code, ds[1..]), Classify(code, ds));
    }
  }

  /** Reporting the first tap as `g` by itself is what the ideal classifier does just when its hold says so. */
  lemma {:induction false} OneTapFirst(code: int, ds: seq<Span>, g: Gesture)
    requires ds != [] && (g == Single(code) || g == Long(code))
    ensures Classify(code, ds) == [g] + Classify(code, ds[1..])
            <==> if g == Long(code) then ds[0].hold >= KEY_LONG_PRESS_TIME
                 else ds[0].hold < KEY_LONG_PRESS_TIME
                      && (ds[0].hold >= KEY_CLICK_GAP || ds[0].gap >= KEY_CLICK_GAP || |ds| == 1)
  {
    ClassifyStep(code, ds);
    hide Classify;
    assert g == First(code, ds) ==> Size(ds) == 1;
    assert Classify(code, ds) == [g] + Classify(code, ds[1..]) ==> Classify(code, ds)[0] == g;
  }

  lemma {:induction false} ClassifyStep(code: int, ds: seq<Span>)
    requires ds != []
    ensures Classify(code, ds) == [First(code, ds)] + Classify(code, ds[Size(ds)..])
  {
  }
}
