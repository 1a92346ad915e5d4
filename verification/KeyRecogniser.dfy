/**
  The recogniser itself: the global record `last_key`, updated in place, and the thread that feeds it.
  Handler calls are recorded in the ghost field `outputs`.
 */
module KeyRecogniser {
  import opened Clock
  import opened KeyAutomaton

  const EV_KEY := 1
  const ZIB_KEY_POWER := 0x74
  const ZIB_KEY_BACK := 0x75
  const ZIB_KEY_OK := 0x76

  class Recogniser {
    var code: int
    var state: int
    var startTime: TimeVal
    var endTime: TimeVal
    ghost var outputs: seq<Output>

    function Snapshot(): Key
      reads this
    {
      Key(code, state, startTime)
    }

    /** Global data starts zeroed and `key_test` sets the state. */
    constructor ()
      ensures Snapshot() == Key(0, KEY_ALL_RELEASE, TimeVal(0, 0)) && outputs == []
    {
      code, state := 0, KEY_ALL_RELEASE;
      startTime, endTime := TimeVal(0, 0), TimeVal(0, 0);
      outputs := [];
    }

    ghost method Handle(handler: Handler, press: bool)
      modifies this`outputs
      ensures outputs == old(outputs) + [Output(handler, code, press)]
    {
      outputs := outputs + [Output(handler, code, press)];
    }

    method InputKeysAnalyse(poll: Poll, ev: InputEvent, at: TimeVal, mark: TimeVal)
      modifies this
      ensures endTime == at
      ensures Snapshot() == Next(old(Snapshot()), Call(poll, ev, at, mark))
      ensures outputs == old(outputs) + Emit(old(Snapshot()), Call(poll, ev, at, mark))
    {
      endTime := at;
      var timeDiff := TimevalDiff(endTime, startTime);
      if poll == Success {
        if code == 0 {
          code := ev.code;
          state := KEY_FIRST_PRESS;
        }
      }
      if state == KEY_ALL_RELEASE {
        if poll == Timeout || ev.value == Repeat {
        } else if ev.value == Press {
          state := KEY_FIRST_PRESS;
          code := ev.code;
          startTime := mark;
        }
      } else if state == KEY_FIRST_PRESS {
        if poll == Timeout || ev.value == Repeat {
          if timeDiff >= KEY_LONG_PRESS_TIME {
            state := KEY_CHECK_LONG_KEY_RELEASE;
            Handle(LongKey, true);
          }
        } else if ev.value == Press {
          if code != ev.code {
            state := KEY_ALL_RELEASE;
          }
        } else if code == ev.code {
          if timeDiff >= KEY_CLICK_GAP {
            state := KEY_ALL_RELEASE;
            Handle(SingleKey, false);
          } else {
            startTime := mark;
            state := KEY_FIRST_RELEASE;
          }
        } else {
          state := KEY_ALL_RELEASE;
        }
      } else if state == KEY_FIRST_RELEASE {
        if poll == Timeout || ev.value == Repeat {
          if timeDiff >= KEY_CLICK_GAP {
            state := KEY_ALL_RELEASE;
            Handle(SingleKey, false);
          }
        } else if ev.value == Release {
          if code != ev.code {
            state := KEY_ALL_RELEASE;
          }
        } else if code == ev.code {
          startTime := mark;
          state := KEY_SECOND_PRESS;
        } else {
          state := KEY_ALL_RELEASE;
        }
      } else if state == KEY_SECOND_PRESS {
        if poll == Timeout || ev.value == Repeat {
          if timeDiff >= KEY_CLICK_GAP {
            state := KEY_CHECK_DOUBLE_KEY_RELEASE;
            Handle(DoubleKey, true);
          }
        } else if ev.value == Press {
          if code != ev.code {
            state := KEY_ALL_RELEASE;
          }
        } else if code == ev.code {
          startTime := mark;
          state := KEY_SECOND_RELEASE;
        } else {
          state := KEY_ALL_RELEASE;
        }
      } else if state == KEY_SECOND_RELEASE {
        if poll == Timeout || ev.value == Repeat {
          if timeDiff >= KEY_CLICK_GAP {
            state := KEY_ALL_RELEASE;
            Handle(DoubleKey, false);
          }
        } else if ev.value == Release {
          if code != ev.code {
            state := KEY_ALL_RELEASE;
          }
        } else if code == ev.code {
          Handle(TripleKey, true);
          state := KEY_CHECK_TRIPLE_KEY_RELEASE;
        } else {
          state := KEY_ALL_RELEASE;
        }
      } else if state == KEY_CHECK_LONG_KEY_RELEASE {
        if poll == Success && ev.code == code && ev.value == Release {
          Handle(LongKey, false);
          state := KEY_ALL_RELEASE;
        }
      } else if state == KEY_CHECK_DOUBLE_KEY_RELEASE {
        if poll == Success && ev.code == code && ev.value == Release {
          Handle(DoubleKey, false);
          state := KEY_ALL_RELEASE;
        }
      } else if state == KEY_CHECK_TRIPLE_KEY_RELEASE {
        if poll == Success && ev.code == code && ev.value == Release {
          Handle(TripleKey, false);
          state := KEY_ALL_RELEASE;
        }
      } else {
        state := KEY_ALL_RELEASE;
      }
    }

    /** The event loop over a finite prefix of what `poll` delivers; `keep` is its key filter. */
    method InputThread(polls: seq<RawPoll>, keep: int -> bool)
      modifies this
      ensures Snapshot() == End(old(Snapshot()), Dispatched(polls, keep))
      ensures outputs == old(outputs) + Trace(old(Snapshot()), Dispatched(polls, keep))
    {
      hide Next, Emit, End, Trace, Dispatched;
      ghost var before := Snapshot();
      ghost var calls: seq<Call> := [];
      EmptyRun(before, keep);
      for i := 0 to |polls|
        invariant calls == Dispatched(polls[..i], keep)
        invariant Snapshot() == End(before, calls)
        invariant outputs == old(outputs) + Trace(before, calls)
      {
        var raw := polls[i];
        DispatchedSnoc(polls, i, keep);
        assert calls + [] == calls;
        if raw.poll == Timeout {
          RunSnoc(before, calls, Call(raw.poll, raw.ev, raw.at, raw.mark));
          InputKeysAnalyse(Timeout, raw.ev, raw.at, raw.mark);
        } else if raw.evType == EV_KEY {
          if keep(raw.ev.code) {
            RunSnoc(before, calls, Call(raw.poll, raw.ev, raw.at, raw.mark));
            InputKeysAnalyse(Success, raw.ev, raw.at, raw.mark);
          }
        }
        calls := calls + Forwarded(raw, keep);
      }
      assert polls[..|polls|] == polls;
    }
  }

  lemma {:induction false} EmptyRun(k: Key, keep: int -> bool)
    ensures Dispatched([], keep) == [] && End(k, []) == k && Trace(k, []) == []
  {
  }

  lemma {:induction false} RunSnoc(k: Key, cs: seq<Call>, c: Call)
    ensures End(k, cs + [c]) == Next(End(k, cs), c)
    ensures Trace(k, cs + [c]) == Trace(k, cs) + Emit(End(k, cs), c)
  {
    RunAppend(k, cs, [c]);
    RunOne(End(k, cs), c);
  }

  /** What one `ev_get` returned: a timeout, or an event of some device with its type. */
  datatype RawPoll = RawPoll(poll: Poll, evType: int, ev: InputEvent, at: TimeVal, mark: TimeVal)

  /** The call the event loop makes for one poll, if any. */
  function Forwarded(raw: RawPoll, keep: int -> bool): seq<Call> {
    if raw.poll == Timeout || (raw.evType == EV_KEY && keep(raw.ev.code))
    then [Call(raw.poll, raw.ev, raw.at, raw.mark)] else []
  }

  /** The calls the event loop makes for a stream of polls. */
  function Dispatched(polls: seq<RawPoll>, keep: int -> bool): seq<Call> {
    if polls == [] then [] else Forwarded(polls[0], keep) + Dispatched(polls[1..], keep)
  }

  lemma {:induction false} DispatchedAppend(a: seq<RawPoll>, b: seq<RawPoll>, keep: int -> bool)
    ensures Dispatched(a + b, keep) == Dispatched(a, keep) + Dispatched(b, keep)
  {
    if a == [] {
      assert a + b == b;
    } else {
      assert (a + b)[0] == a[0] && (a + b)[1..] == a[1..] + b;
      var x, y, z := Forwarded(a[0], keep), Dispatched(a[1..], keep), Dispatched(b, keep);
      assert x + (y + z) == (x + y) + z;
      DispatchedAppend(a[1..], b, keep);
    }
  }

  lemma {:induction false} DispatchedSnoc(polls: seq<RawPoll>, i: nat, keep: int -> bool)
    requires i < |polls|
    ensures Dispatched(polls[..i + 1], keep) == Dispatched(polls[..i], keep) + Forwarded(polls[i], keep)
  {
    assert polls[..i + 1] == polls[..i] + [polls[i]];
    DispatchedAppend(polls[..i], [polls[i]], keep);
    assert [polls[i]][1..] == [] && Dispatched([], keep) == [];
  }

  /** The filter as the code has it, and as the comment above it describes it. */
  function WrittenFilter(): int -> bool {
    code => code == ZIB_KEY_POWER && code == ZIB_KEY_BACK && code == ZIB_KEY_OK
  }

  function IntendedFilter(): int -> bool {
    code => code == ZIB_KEY_POWER || code == ZIB_KEY_BACK || code == ZIB_KEY_OK
  }

  predicate FunctionKey(raw: RawPoll) {
    raw.poll == Success && raw.evType == EV_KEY && IntendedFilter()(raw.ev.code)
  }

  /** With the filter as written the program never reports anything, whatever the devices deliver. */
  lemma {:induction false} WrittenFilterIsSilent(k: Key, polls: seq<RawPoll>)
    requires k.state == KEY_ALL_RELEASE
    ensures Trace(k, Dispatched(polls, WrittenFilter())) == []
    ensures End(k, Dispatched(polls, WrittenFilter())) == k
  {
    if polls != [] {
      var first, rest := Forwarded(polls[0], WrittenFilter()), Dispatched(polls[1..], WrittenFilter());
      WrittenFilterIsSilent(k, polls[1..]);
      RunAppend(k, first, rest);
      assert first == [] || (|first| == 1 && first[0].poll == Timeout);
    }
  }

  /** The written filter does what its comment says exactly on streams without a function key. */
  lemma {:induction false} FilterMeetsCommentIff(polls: seq<RawPoll>)
    ensures Dispatched(polls, WrittenFilter()) == Dispatched(polls, IntendedFilter())
            <==> forall raw :: raw in polls ==> !FunctionKey(raw)
    ensures |Dispatched(polls, WrittenFilter())| <= |Dispatched(polls, IntendedFilter())|
  {
    if polls != [] {
      FilterMeetsCommentIff(polls[1..]);
      assert polls == [polls[0]] + polls[1..];
      var w0, n0 := Forwarded(polls[0], WrittenFilter()), Forwarded(polls[0], IntendedFilter());
      var w, n := Dispatched(polls[1..], WrittenFilter()), Dispatched(polls[1..], IntendedFilter());
      if FunctionKey(polls[0]) {
        assert |w0 + w| < |n0 + n|;
      } else {
        assert w0 == n0;
        if w0 + w == n0 + n {
          assert (w0 + w)[|w0|..] == w && (n0 + n)[|n0|..] == n;
        }
      }
    }
  }
}
