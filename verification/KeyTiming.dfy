/**
  How a run depends on time: which calls can be added or dropped, what a change of clock does,
  and how long a timed state can outlive its deadline.
 */
module KeyTiming {
  import opened Clock
  import opened KeyAutomaton

  const BOOT := Key(0, KEY_ALL_RELEASE, TimeVal(0, 0))

  predicate Known(state: int) { Checking(state) || state == KEY_ALL_RELEASE || Timed(state) }

  /** States of a gesture under way in which its key is down. */
  predicate KeyDown(state: int) { state == KEY_FIRST_PRESS || state == KEY_SECOND_PRESS }

  /** A call that brings nothing new: at rest anything but a press; in a timed state an idle call before
      the deadline, or an event of the followed key that says what is so already; while a release is
      awaited anything but that release. */
  predicate Quiet(k: Key, c: Call) {
    && Known(k.state)
    && (c.poll.Success? ==> k.code != 0)
    && if k.state == KEY_ALL_RELEASE then !Down(c)
       else if Checking(k.state) then !(Up(c) && c.ev.code == k.code)
       else if Idle(c) then !Late(k, c, Deadline(k.state))
       else c.ev.code == k.code && Down(c) == KeyDown(k.state)
  }

  /** A run without its quiet calls. */
  function Stripped(k: Key, cs: seq<Call>): seq<Call>
    decreases cs
  {
    if cs == [] then []
    else (if Quiet(k, cs[0]) then [] else [cs[0]]) + Stripped(Next(k, cs[0]), cs[1..])
  }

  lemma {:induction false} QuietStep(k: Key, c: Call)
    requires Quiet(k, c)
    ensures Next(k, c) == k && Emit(k, c) == []
  {
  }

  /** Calls that bring nothing new do not matter: a run ends where, and reports what, it does without them. */
  lemma {:induction false} Stuttering(k: Key, cs: seq<Call>)
    ensures End(k, Stripped(k, cs)) == End(k, cs)
    ensures Trace(k, Stripped(k, cs)) == Trace(k, cs)
    decreases cs
  {
    hide Next, Emit, Quiet;
    if cs != [] {
      var k1 := Next(k, cs[0]);
      Stuttering(k1, cs[1..]);
      if Quiet(k, cs[0]) {
        QuietStep(k, cs[0]);
        assert Stripped(k, cs) == Stripped(k1, cs[1..]);
      } else {
        RunAppend(k, [cs[0]], Stripped(k1, cs[1..]));
        RunOne(k, cs[0]);
      }
    }
  }

  /** Hence runs that agree up to quiet calls, put in or taken out anywhere, agree altogether. */
  lemma {:induction false} StutterEquivalent(k: Key, cs: seq<Call>, ds: seq<Call>)
    requires Stripped(k, cs) == Stripped(k, ds)
    ensures End(k, cs) == End(k, ds) && Trace(k, cs) == Trace(k, ds)
  {
    Stuttering(k, cs);
    Stuttering(k, ds);
  }

  /** A quiet call put in anywhere leaves the stripped run as it is. */
  lemma {:induction false} QuietInsertion(k: Key, a: seq<Call>, q: Call, b: seq<Call>)
    requires Quiet(End(k, a), q)
    ensures Stripped(k, a + [q] + b) == Stripped(k, a + b)
    decreases a
  {
    if a == [] {
      assert a + [q] + b == [q] + b && a + b == b;
      assert ([q] + b)[1..] == b;
    } else {
      assert (a + [q] + b)[1..] == a[1..] + [q] + b && (a + b)[1..] == a[1..] + b;
      QuietInsertion(Next(k, a[0]), a[1..], q, b);
    }
  }

  /** The same call under clocks `shift` apart; what a timeout leaves in `ev` may differ. */
  predicate SameCall(c: Call, d: Call, shift: int) {
    && c.poll == d.poll
    && (c.poll.Success? ==> c.ev == d.ev)
    && Micros(d.at) == Micros(c.at) + shift
    && Micros(d.mark) == Micros(c.mark) + shift
  }

  /** States that no run can tell apart. Once released, the machine has forgotten key and time;
      from boot it times the first gesture against the initial start time. */
  predicate SameKey(k: Key, j: Key, shift: int) {
    && k.state == j.state
    && (k.code == 0 <==> j.code == 0)
    && (k.state != KEY_ALL_RELEASE ==> k.code == j.code)
    && (Timed(k.state) || k.code == 0 ==> Micros(j.start) == Micros(k.start) + shift)
  }

  lemma {:induction false} SameStep(k: Key, j: Key, c: Call, d: Call, shift: int)
    requires SameKey(k, j, shift) && SameCall(c, d, shift) && Genuine(c)
    ensures Emit(k, c) == Emit(j, d) && SameKey(Next(k, c), Next(j, d), shift)
  {
  }

  /** Moving all timestamps by one constant, with any carry between their fields, replacing the leftovers
      a timeout sees, and restarting from any other released state change no handler call. */
  lemma {:induction false} ClockIndependence(k: Key, j: Key, cs: seq<Call>, ds: seq<Call>, shift: int)
    requires SameKey(k, j, shift) && AllGenuine(cs)
    requires |cs| == |ds| && forall i :: 0 <= i < |cs| ==> SameCall(cs[i], ds[i], shift)
    ensures Trace(k, cs) == Trace(j, ds) && SameKey(End(k, cs), End(j, ds), shift)
    decreases cs
  {
    hide Next, Emit;
    if cs != [] {
      assert Genuine(cs[0]) && SameCall(cs[0], ds[0], shift);
      SameStep(k, j, cs[0], ds[0], shift);
      ClockIndependence(Next(k, cs[0]), Next(j, ds[0]), cs[1..], ds[1..], shift);
    }
  }

  /** An event of another key ends a gesture under way without a report, and from then on everything is
      answered as from any other released state. */
  lemma {:induction false} ForeignKeyCancels(k: Key, c: Call, cs: seq<Call>, j: Key)
    requires k.code != 0 && Timed(k.state) && !Idle(c) && c.ev.code != k.code
    requires AllGenuine(cs) && j.code != 0 && j.state == KEY_ALL_RELEASE
    ensures Trace(k, [c] + cs) == Trace(j, cs) && End(k, [c] + cs).state == End(j, cs).state
  {
    RunAppend(k, [c], cs);
    RunOne(k, c);
    ClockIndependence(Next(k, c), j, cs, cs, 0);
  }

  /** Clock readings never run backwards, from `now` on. */
  predicate Ordered(now: int, cs: seq<Call>)
    decreases cs
  {
    cs == [] || (now <= Micros(cs[0].at) <= Micros(cs[0].mark) && Ordered(Micros(cs[0].mark), cs[1..]))
  }

  /** No call comes more than `delta` after the idle call before it; `last` is when that one was. */
  predicate Dense(last: int, cs: seq<Call>, delta: nat)
    decreases cs
  {
    cs == [] || (Micros(cs[0].at) - last <= delta && Dense(Later(last, cs[0]), cs[1..], delta))
  }

  function LastIdle(last: int, cs: seq<Call>): int
    decreases cs
  {
    if cs == [] then last else LastIdle(Later(last, cs[0]), cs[1..])
  }

  function Later(last: int, c: Call): int {
    if Idle(c) then Micros(c.at) else last
  }

  /** With ticks at most `delta` apart, no timed state is found `delta` or more past its deadline.
      Every prefix of such a run is such a run, so this holds after each of its calls. */
  lemma {:induction false} DeadlineBound(k: Key, now: int, last: int, cs: seq<Call>, delta: nat)
    requires k.code != 0 && AllGenuine(cs) && cs != []
    requires last <= now && Ordered(now, cs) && Dense(last, cs, delta)
    requires Timed(k.state) ==> last - Micros(k.start) < Deadline(k.state)
    ensures var e := End(k, cs);
            Timed(e.state) ==> TimevalDiff(cs[|cs| - 1].at, e.start) < Deadline(e.state) + delta
    decreases cs
  {
    var c := cs[0];
    var k1 := Next(k, c);
    assert Genuine(c);
    if |cs| == 1 {
      assert End(k1, cs[1..]) == k1;
    } else {
      DeadlineBound(k1, Micros(c.mark), Later(last, c), cs[1..], delta);
    }
  }

  lemma {:induction false} HomingStep(k: Key, up: Call, late: Call)
    requires Known(k.state) && k.code != 0 && Up(up) && up.ev.code == k.code
    requires Idle(late) && TimevalDiff(late.at, Next(k, up).start) >= KEY_CLICK_GAP
    ensures Next(Next(k, up), late).state == KEY_ALL_RELEASE
  {
  }

  /** From wherever a run from boot has got to, a release of the key it follows and one late idle call
      bring the machine back to rest. */
  lemma {:induction false} Homing(cs: seq<Call>, up: Call, late: Call)
    requires AllGenuine(cs) && End(BOOT, cs).code != 0
    requires Up(up) && up.ev.code == End(BOOT, cs).code
    requires Idle(late) && TimevalDiff(late.at, End(BOOT, cs + [up]).start) >= KEY_CLICK_GAP
    ensures End(BOOT, cs + [up, late]).state == KEY_ALL_RELEASE
  {
    KnownStatesOnly(BOOT, cs);
    hide Next;
    var k := End(BOOT, cs);
    RunAppend(BOOT, cs, [up]);
    RunAppend(BOOT, cs, [up, late]);
    var k1 := Next(k, up);
    assert [up, late][1..] == [late] && [late][1..] == [] && [up][1..] == [];
    assert End(k, [up]) == k1;
    assert End(k, [up, late]) == End(k1, [late]) == Next(k1, late);
    HomingStep(k, up, late);
  }
}
