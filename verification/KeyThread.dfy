/**
  From what the devices deliver to the handler calls: the event loop with the filter its comment describes
  hands the recogniser every timeout and every function-key event, in order, and nothing else.
 */
module KeyThread {
  import opened Clock
  import opened KeyAutomaton
  import opened KeyRecogniser
  import opened KeyOutputs
  import opened KeyTiming
  import opened KeyClassifier

  /** A timeout, or an event of one of the three function keys. */
  predicate Wanted(raw: RawPoll) {
    raw.poll == Success ==> raw.evType == EV_KEY && raw.ev.code in {ZIB_KEY_POWER, ZIB_KEY_BACK, ZIB_KEY_OK}
  }

  function CallOf(raw: RawPoll): Call { Call(raw.poll, raw.ev, raw.at, raw.mark) }

  function CallsOf(raws: seq<RawPoll>): (cs: seq<Call>)
    ensures |cs| == |raws| && forall i :: 0 <= i < |raws| ==> cs[i] == CallOf(raws[i])
  {
    seq(|raws|, i requires 0 <= i < |raws| => CallOf(raws[i]))
  }

  ghost predicate AllWanted(raws: seq<RawPoll>) { forall raw :: raw in raws ==> Wanted(raw) }

  ghost predicate AllForeign(raws: seq<RawPoll>) { forall raw :: raw in raws ==> !Wanted(raw) }

  /** Polls with other polls before each of them and behind the last. */
  function Woven(raws: seq<RawPoll>, others: seq<seq<RawPoll>>): seq<RawPoll>
    requires |others| == |raws| + 1
  {
    if raws == [] then others[0] else others[0] + ([raws[0]] + Woven(raws[1..], others[1..]))
  }

  lemma {:induction false} NothingForeign(raws: seq<RawPoll>)
    requires AllForeign(raws)
    ensures Dispatched(raws, IntendedFilter()) == []
  {
    if raws != [] {
      assert !Wanted(raws[0]);
      NothingForeign(raws[1..]);
    }
  }

  lemma {:induction false} WantedFirst(raw: RawPoll, raws: seq<RawPoll>)
    requires Wanted(raw)
    ensures Dispatched([raw] + raws, IntendedFilter()) == [CallOf(raw)] + Dispatched(raws, IntendedFilter())
  {
    assert ([raw] + raws)[1..] == raws;
  }

  /** Wanted polls get through whole and in order, however events of other types and keys lie between them. */
  lemma {:induction false} WantedGetThrough(raws: seq<RawPoll>, others: seq<seq<RawPoll>>)
    requires |others| == |raws| + 1 && AllWanted(raws) && forall o :: o in others ==> AllForeign(o)
    ensures Dispatched(Woven(raws, others), IntendedFilter()) == CallsOf(raws)
    decreases |raws|
  {
    hide Dispatched, Wanted;
    assert others[0] in others && forall o :: o in others[1..] ==> o in others;
    NothingForeign(others[0]);
    if raws != [] {
      var rest := Woven(raws[1..], others[1..]);
      DispatchedAppend(others[0], [raws[0]] + rest, IntendedFilter());
      WantedFirst(raws[0], rest);
      WantedGetThrough(raws[1..], others[1..]);
    }
  }

  /** Every stream of polls is such a weaving. */
  lemma {:induction false} EveryStreamIsWoven(polls: seq<RawPoll>)
    returns (raws: seq<RawPoll>, others: seq<seq<RawPoll>>)
    ensures |others| == |raws| + 1 && Woven(raws, others) == polls
    ensures AllWanted(raws) && forall o :: o in others ==> AllForeign(o)
  {
    if polls == [] {
      raws, others := [], [[]];
    } else {
      var r, o := EveryStreamIsWoven(polls[1..]);
      hide Wanted;
      if Wanted(polls[0]) {
        raws, others := [polls[0]] + r, [[]] + o;
        WeaveWanted(polls, r, o);
      } else {
        raws, others := r, [[polls[0]] + o[0]] + o[1..];
        WeaveForeign(polls, r, o);
      }
    }
  }

  lemma {:induction false} WeaveWanted(polls: seq<RawPoll>, r: seq<RawPoll>, o: seq<seq<RawPoll>>)
    requires polls != [] && |o| == |r| + 1 && Woven(r, o) == polls[1..]
    ensures Woven([polls[0]] + r, [[]] + o) == polls
  {
    var raws, others := [polls[0]] + r, [[]] + o;
    assert raws[1..] == r && others[1..] == o;
    assert Woven(raws, others) == [] + ([polls[0]] + polls[1..]);
  }

  lemma {:induction false} WeaveForeign(polls: seq<RawPoll>, r: seq<RawPoll>, o: seq<seq<RawPoll>>)
    requires polls != [] && |o| == |r| + 1 && Woven(r, o) == polls[1..]
    requires !Wanted(polls[0]) && forall x :: x in o ==> AllForeign(x)
    ensures var others := [[polls[0]] + o[0]] + o[1..];
            Woven(r, others) == polls && forall x :: x in others ==> AllForeign(x)
  {
    var others := [[polls[0]] + o[0]] + o[1..];
    assert o[0] in o && others[1..] == o[1..];
    assert AllForeign(others[0]) && forall x :: x in others[1..] ==> x in o;
    assert polls == [polls[0]] + Woven(r, o);
    if r != [] {
      var tail := [r[0]] + Woven(r[1..], o[1..]);
      assert ([polls[0]] + o[0]) + tail == [polls[0]] + (o[0] + tail);
    }
  }

  /** Taps of a function key, as devices deliver them among other events, report what the ticks decide, and if
      the ticks come at most `delta` apart and no duration is in its window, what the ideal classifier says. */
  lemma {:induction false} TapsThroughThread(k: Key, code: int, taps: seq<Tap>, raws: seq<RawPoll>,
                                             others: seq<seq<RawPoll>>)
    requires k.code != 0 && k.state == KEY_ALL_RELEASE && WellFormed(taps) && Settled(taps)
    requires AllWanted(raws) && CallsOf(raws) == Calls(code, taps) && taps != []
    requires |others| == |raws| + 1 && forall o :: o in others ==> AllForeign(o)
    ensures var cs := Dispatched(Woven(raws, others), IntendedFilter());
            && Trace(k, cs) == RenderAll(Reported(code, taps)) && End(k, cs).state == KEY_ALL_RELEASE
            && forall now, last, delta: nat ::
                 Timely(now, last, Calls(code, taps), delta) && Unambiguous(Spans(taps), delta) ==>
                   Trace(k, cs) == RenderAll(Classify(code, Spans(taps)))
  {
    WantedGetThrough(raws, others);
    assert code != 0 by {
      CallsBegin(code, taps);
      assert CallsOf(raws)[0] == CallOf(raws[0]) && raws[0] in raws;
    }
    TicksDecide(k, code, taps);
    forall now, last, delta: nat | Timely(now, last, Calls(code, taps), delta) && Unambiguous(Spans(taps), delta)
      ensures Trace(k, Calls(code, taps)) == RenderAll(Classify(code, Spans(taps)))
    {
      ClassifierRefinement(k, code, taps, now, last, delta);
    }
  }
}
