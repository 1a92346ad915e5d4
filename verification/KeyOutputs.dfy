/**
  What the handler calls of a run look like, and how many taps stand behind them.
 */
module KeyOutputs {
  import opened Clock
  import opened KeyAutomaton

  /** A finished gesture. A double tap that ends before its second hold gets long is reported
      by a release alone; a held one by a press and a release. */
  datatype Gesture =
    | Single(code: int)
    | Double(code: int)
    | HeldDouble(code: int)
    | Triple(code: int)
    | Long(code: int)

  function Render(g: Gesture): seq<Output> {
    match g
    case Single(c) => [Output(SingleKey, c, false)]
    case Double(c) => [Output(DoubleKey, c, false)]
    case HeldDouble(c) => [Output(DoubleKey, c, true), Output(DoubleKey, c, false)]
    case Triple(c) => [Output(TripleKey, c, true), Output(TripleKey, c, false)]
    case Long(c) => [Output(LongKey, c, true), Output(LongKey, c, false)]
  }

  function RenderAll(gs: seq<Gesture>): seq<Output> {
    if gs == [] then [] else Render(gs[0]) + RenderAll(gs[1..])
  }

  /** The gestures a sequence of handler calls reports, read greedily from the front. */
  function Parse(out: seq<Output>): seq<Gesture> {
    if |out| >= 1 && !out[0].press && out[0].handler == SingleKey then [Single(out[0].code)] + Parse(out[1..])
    else if |out| >= 1 && !out[0].press && out[0].handler == DoubleKey then [Double(out[0].code)] + Parse(out[1..])
    else if |out| >= 2 && out[0].press && out[0].handler != SingleKey && out[1] == out[0].(press := false) then
      [match out[0].handler
       case LongKey => Long(out[0].code)
       case TripleKey => Triple(out[0].code)
       case _ => HeldDouble(out[0].code)] + Parse(out[2..])
    else []
  }

  /** The press reported and not yet matched by a release: present exactly in the checking states. */
  function Pending(k: Key): seq<Output> {
    if Checking(k.state) then [Output(HandlerOf(k.state), k.code, true)] else []
  }

  lemma {:induction false} ParseOne(g: Gesture, tail: seq<Output>)
    ensures Parse(Render(g) + tail) == [g] + Parse(tail)
  {
    var r := Render(g);
    var out := r + tail;
    assert out[0] == r[0] && (|r| == 2 ==> out[1] == r[1]) && out[|r|..] == tail;
  }

  lemma {:induction false} ParsePending(k: Key)
    ensures Parse(RenderAll([]) + Pending(k)) == []
  {
    assert RenderAll([]) + Pending(k) == Pending(k);
  }

  /** Reading the rendering of any gestures, with or without one open press behind, gives them back. */
  lemma {:induction false} ParseRender(gs: seq<Gesture>, k: Key)
    ensures Parse(RenderAll(gs) + Pending(k)) == gs
    decreases gs
  {
    hide Parse, Render, Pending;
    if gs == [] {
      ParsePending(k);
    } else {
      var tail := RenderAll(gs[1..]) + Pending(k);
      ParseOne(gs[0], tail);
      ParseRender(gs[1..], k);
      assert RenderAll(gs) + Pending(k) == Render(gs[0]) + tail;
    }
  }

  /** A state a run can be in: the code is unset only before the first event. */
  predicate Started(k: Key) { k.code == 0 ==> k.state == KEY_ALL_RELEASE }

  /** The gesture one call completes, if any. */
  function Completed(k: Key, c: Call): seq<Gesture> {
    var out := Pending(k) + Emit(k, c);
    if Emit(k, c) == [] || Pending(Next(k, c)) != [] then [] else Parse(out)
  }

  /** A call that completes a gesture completes just one, of the key followed. */
  lemma {:induction false} CompletesOne(k: Key, c: Call)
    requires Genuine(c) && Started(k) && Completed(k, c) != []
    ensures var gs := Completed(k, c);
            |gs| == 1 && Render(gs[0]) == Pending(k) + Emit(k, c) && gs[0].code == Synced(k, c).code
  {
    var out := Pending(k) + Emit(k, c);
    assert Parse(out) == Completed(k, c);
    assert Parse([]) == [];
    if |out| == 1 {
      assert out[1..] == [];
      assert out == [Output(out[0].handler, out[0].code, false)];
    } else {
      assert |out| == 2 && out[2..] == [];
      assert out == [out[0], out[0].(press := false)];
    }
  }

  lemma {:induction false} StepOutputs(k: Key, c: Call)
    requires Genuine(c) && Started(k)
    ensures Pending(k) + Emit(k, c) == RenderAll(Completed(k, c)) + Pending(Next(k, c))
  {
    if Completed(k, c) != [] {
      CompletesOne(k, c);
      OneRendered(Completed(k, c)[0]);
      assert Completed(k, c) == [Completed(k, c)[0]];
    } else {
      NoneCompleted(k, c);
    }
  }

  lemma {:induction false} OneRendered(g: Gesture)
    ensures RenderAll([g]) == Render(g)
  {
    assert [g][1..] == [] && RenderAll([]) == [];
  }

  lemma {:induction false} NoneCompleted(k: Key, c: Call)
    requires Genuine(c) && Started(k) && Completed(k, c) == []
    ensures Pending(k) + Emit(k, c) == Pending(Next(k, c))
  {
  }

  /** The gestures reported by a run, counting a press already open at its start. */
  function Gestures(k: Key, cs: seq<Call>): seq<Gesture> {
    Parse(Pending(k) + Trace(k, cs))
  }

  /** Handler calls tell gesture sequences apart. */
  lemma {:induction false} RenderInjective(a: seq<Gesture>, b: seq<Gesture>)
    requires RenderAll(a) == RenderAll(b)
    ensures a == b
  {
    var rest := Key(0, KEY_ALL_RELEASE, TimeVal(0, 0));
    ParseRender(a, rest);
    ParseRender(b, rest);
  }

  lemma {:induction false} RenderAppend(a: seq<Gesture>, b: seq<Gesture>)
    ensures RenderAll(a + b) == RenderAll(a) + RenderAll(b)
  {
    if a == [] {
      assert a + b == b;
    } else {
      assert (a + b)[0] == a[0] && (a + b)[1..] == a[1..] + b;
      RenderAppend(a[1..], b);
    }
  }

  lemma {:induction false} Chain(p0: seq<Output>, e: seq<Output>, t: seq<Output>, g0: seq<Gesture>, p1: seq<Output>,
                                 g1: seq<Gesture>, p2: seq<Output>)
    requires p0 + e == RenderAll(g0) + p1 && p1 + t == RenderAll(g1) + p2
    ensures p0 + (e + t) == RenderAll(g0 + g1) + p2
  {
    RenderAppend(g0, g1);
    calc {
      p0 + (e + t);
      (p0 + e) + t;
      (RenderAll(g0) + p1) + t;
      RenderAll(g0) + (p1 + t);
      (RenderAll(g0) + RenderAll(g1)) + p2;
    }
  }

  /** Over every run the handler calls are whole gestures, each half-pair carrying the code of its
      other half, and then the one open press that the final state is waiting to match, if it waits. */
  lemma {:induction false} OutputLanguage(k: Key, cs: seq<Call>)
    requires Started(k) && AllGenuine(cs)
    ensures Pending(k) + Trace(k, cs) == RenderAll(Gestures(k, cs)) + Pending(End(k, cs))
    ensures cs != [] ==> Gestures(k, cs) == Completed(k, cs[0]) + Gestures(Next(k, cs[0]), cs[1..])
    decreases cs
  {
    if cs == [] {
      assert RenderAll([]) + Pending(k) == Pending(k) + Trace(k, cs);
      ParseRender([], k);
    } else {
      var c, k1, rest := cs[0], Next(k, cs[0]), cs[1..];
      assert Genuine(c);
      StepOutputs(k, c);
      OutputLanguage(k1, rest);
      Chain(Pending(k), Emit(k, c), Trace(k1, rest), Completed(k, c), Pending(k1), Gestures(k1, rest),
            Pending(End(k, cs)));
      ParseRender(Completed(k, c) + Gestures(k1, rest), End(k, cs));
    }
  }

  /** How many releases, and how many presses, of key `code` a run contains. */
  function Ups(cs: seq<Call>, code: int): nat {
    if cs == [] then 0 else (if Up(cs[0]) && cs[0].ev.code == code then 1 else 0) + Ups(cs[1..], code)
  }

  function Downs(cs: seq<Call>, code: int): nat {
    if cs == [] then 0 else (if Down(cs[0]) && cs[0].ev.code == code then 1 else 0) + Downs(cs[1..], code)
  }

  /** The taps a gesture is made of. */
  function Weight(g: Gesture): nat {
    match g case Single(_) => 1 case Long(_) => 1 case Triple(_) => 3 case _ => 2
  }

  /** The taps of key `code` that finished gestures stand for. */
  function Taps(gs: seq<Gesture>, code: int): nat {
    if gs == [] then 0 else (if gs[0].code == code then Weight(gs[0]) else 0) + Taps(gs[1..], code)
  }

  lemma {:induction false} TapsAppend(a: seq<Gesture>, b: seq<Gesture>, code: int)
    ensures Taps(a + b, code) == Taps(a, code) + Taps(b, code)
  {
    if a == [] {
      assert a + b == b;
    } else {
      assert (a + b)[0] == a[0] && (a + b)[1..] == a[1..] + b;
      TapsAppend(a[1..], b, code);
    }
  }

  /** Releases, and presses, of key `code` that the state holds towards a gesture not finished yet. */
  function HeldUps(k: Key, code: int): nat {
    if k.code != code then 0
    else if k.state in {KEY_FIRST_RELEASE, KEY_SECOND_PRESS, KEY_CHECK_DOUBLE_KEY_RELEASE} then 1
    else if k.state in {KEY_SECOND_RELEASE, KEY_CHECK_TRIPLE_KEY_RELEASE} then 2
    else 0
  }

  function HeldDowns(k: Key, code: int): nat {
    if k.code != code then 0
    else if Timed(k.state) then (k.state + 1) / 2
    else if Checking(k.state) then
      (match HandlerOf(k.state) case LongKey => 1 case DoubleKey => 2 case _ => 3)
    else 0
  }

  /** The press a run from boot is credited with when its first event is not a press. */
  function BootCredit(k: Key, cs: seq<Call>, code: int): nat {
    if k.code != 0 || cs == [] then 0
    else if cs[0].poll.Timeout? then BootCredit(k, cs[1..], code)
    else if cs[0].ev.code == code && !Down(cs[0]) then 1
    else 0
  }

  lemma {:induction false} OneTaps(g: Gesture, code: int)
    ensures Taps([g], code) == if g.code == code then Weight(g) else 0
  {
    assert [g][1..] == [] && Taps([], code) == 0;
  }

  lemma {:induction false} StepConserves(k: Key, c: Call, code: int)
    requires Started(k) && Genuine(c)
    ensures Taps(Completed(k, c), code) + HeldUps(Next(k, c), code)
            <= HeldUps(k, code) + (if Up(c) && c.ev.code == code then 1 else 0)
    ensures Taps(Completed(k, c), code) + HeldDowns(Next(k, c), code)
            <= HeldDowns(k, code) + (if Down(c) && c.ev.code == code then 1 else 0)
               + (if k.code == 0 && c.poll.Success? && c.ev.code == code && !Down(c) then 1 else 0)
  {
    hide Parse;
    if Completed(k, c) != [] {
      CompletesOne(k, c);
      OneTaps(Completed(k, c)[0], code);
      assert |Render(Completed(k, c)[0])| == |Pending(k) + Emit(k, c)|;
      assert Render(Completed(k, c)[0])[0] == (Pending(k) + Emit(k, c))[0];
      assert Completed(k, c) == [Completed(k, c)[0]];
    }
  }

  /** No gesture mixes keys or reuses a tap: for every key, the taps of its finished gestures and those
      the state still holds are covered by distinct releases, and by distinct presses, of that key. */
  lemma {:induction false} TapsConserved(k: Key, cs: seq<Call>, code: int)
    requires Started(k) && AllGenuine(cs) && code != 0
    ensures Taps(Gestures(k, cs), code) + HeldUps(End(k, cs), code) <= HeldUps(k, code) + Ups(cs, code)
    ensures Taps(Gestures(k, cs), code) + HeldDowns(End(k, cs), code)
            <= HeldDowns(k, code) + Downs(cs, code) + BootCredit(k, cs, code)
    decreases cs
  {
    hide Parse, RenderAll, Pending, Emit, Completed, HeldUps, HeldDowns, Weight;
    OutputLanguage(k, cs);
    if cs == [] {
      NothingReported(k);
    } else {
      assert Genuine(cs[0]);
      StepConserves(k, cs[0], code);
      StepStarts(k, cs[0]);
      TapsConserved(Next(k, cs[0]), cs[1..], code);
      TapsAppend(Completed(k, cs[0]), Gestures(Next(k, cs[0]), cs[1..]), code);
    }
  }

  lemma {:induction false} NothingReported(k: Key)
    ensures Gestures(k, []) == []
  {
    assert Pending(k) + Trace(k, []) == Pending(k);
    ParsePending(k);
    assert RenderAll([]) + Pending(k) == Pending(k);
  }

  lemma {:induction false} StepStarts(k: Key, c: Call)
    requires Started(k) && Genuine(c)
    ensures Started(Next(k, c))
    ensures Next(k, c).code == 0 ==> k.code == 0 && c.poll.Timeout?
  {
  }
}
