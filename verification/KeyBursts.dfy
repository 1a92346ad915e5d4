/** Bursts: what fast taps of one key add up to. */
module KeyBursts {
  import opened Clock
  import opened KeyAutomaton
  import opened KeyOutputs
  import opened KeyTiming
  import opened KeyClassifier

  /** Every hold, and every gap but the last, is shorter than the click gap. */
  predicate Fast(ds: seq<Span>) {
    && (forall i :: 0 <= i < |ds| ==> ds[i].hold < KEY_CLICK_GAP)
    && (forall i :: 0 <= i < |ds| - 1 ==> ds[i].gap < KEY_CLICK_GAP)
  }

  /** As many triples as fit, and then what is left over. */
  function Burst(code: int, n: nat): seq<Gesture> {
    seq(n / 3, _ => Triple(code))
    + (if n % 3 == 1 then [Single(code)] else if n % 3 == 2 then [Double(code)] else [])
  }

  lemma {:induction false} FastStep(code: int, ds: seq<Span>, delta: nat)
    requires Fast(ds) && ds != []
    ensures Size(ds) == if |ds| >= 3 then 3 else |ds|
    ensures First(code, ds) == if |ds| >= 3 then Triple(code) else if |ds| == 2 then Double(code) else Single(code)
    ensures FirstClear(ds, delta) && Fast(ds[Size(ds)..])
  {
  }

  lemma {:induction false} FastSpans(code: int, ds: seq<Span>, delta: nat)
    requires Fast(ds)
    ensures Classify(code, ds) == Burst(code, |ds|) && Unambiguous(ds, delta)
    decreases |ds|
  {
    hide Size, First, FirstClear, Fast;
    if ds != [] {
      FastStep(code, ds, delta);
      FastSpans(code, ds[Size(ds)..], delta);
      if |ds| >= 3 {
        assert Burst(code, |ds|) == [Triple(code)] + Burst(code, |ds| - 3);
      }
    }
  }

  /** A run whose clock never runs backwards is dense for a large enough bound. */
  lemma {:induction false} OrderedIsDense(now: int, last: int, first: int, cs: seq<Call>)
    requires first <= last <= now && Ordered(now, cs)
    ensures now <= LastMark(now, cs)
    ensures Dense(last, cs, LastMark(now, cs) - first)
    decreases cs
  {
    if cs != [] {
      OrderedIsDense(Micros(cs[0].mark), Later(last, cs[0]), first, cs[1..]);
    }
  }

  /** However the ticks fall, n fast taps of one key and then a late tick report n / 3 triples, and a
      single or a double for what is left, and leave the machine at rest. */
  lemma {:induction false} BurstLaw(k: Key, code: int, taps: seq<Tap>, now: int)
    requires k.code != 0 && k.state == KEY_ALL_RELEASE && code != 0
    requires WellFormed(taps) && Settled(taps) && Ordered(now, Calls(code, taps)) && Fast(Spans(taps))
    ensures Trace(k, Calls(code, taps)) == RenderAll(Burst(code, |taps|))
    ensures End(k, Calls(code, taps)).state == KEY_ALL_RELEASE
  {
    OrderedIsDense(now, now, now, Calls(code, taps));
    var delta := LastMark(now, Calls(code, taps)) - now;
    FastSpans(code, Spans(taps), delta);
    ClassifierRefinement(k, code, taps, now, now, delta);
  }
}
