/**
  The transition relation of the key-gesture recogniser, as two functions of the recogniser's
  state and one call: the next state and the handler calls made.
  Runs are folds of these over a sequence of calls.
 */
module KeyAutomaton {
  import opened Clock

  const KEY_CLICK_GAP := 200000
  const KEY_LONG_PRESS_TIME := 1000000

  const KEY_ALL_RELEASE := 0
  const KEY_FIRST_PRESS := 1
  const KEY_FIRST_RELEASE := 2
  const KEY_SECOND_PRESS := 3
  const KEY_SECOND_RELEASE := 4
  const KEY_CHECK_LONG_KEY_RELEASE := -1
  const KEY_CHECK_DOUBLE_KEY_RELEASE := -2
  const KEY_CHECK_TRIPLE_KEY_RELEASE := -3

  datatype Poll = Timeout | Success
  datatype KeyValue = Release | Press | Repeat
  datatype InputEvent = InputEvent(code: int, value: KeyValue)

  /** One call of the recogniser. `at` is the clock reading taken on entry, `mark` the later reading
      a branch takes when it restarts the timer. After a timeout `ev` holds leftovers. */
  datatype Call = Call(poll: Poll, ev: InputEvent, at: TimeVal, mark: TimeVal)

  datatype Handler = SingleKey | DoubleKey | TripleKey | LongKey
  datatype Output = Output(handler: Handler, code: int, press: bool)

  datatype Key = Key(code: int, state: int, start: TimeVal)

  predicate Idle(c: Call) { c.poll.Timeout? || c.ev.value.Repeat? }
  predicate Down(c: Call) { c.poll.Success? && c.ev.value.Press? }
  predicate Up(c: Call) { c.poll.Success? && c.ev.value.Release? }

  /** A call a driver can cause: key code 0 is reserved and never sent. */
  predicate Genuine(c: Call) { c.poll.Success? ==> c.ev.code != 0 }

  ghost predicate AllGenuine(cs: seq<Call>) { forall c :: c in cs ==> Genuine(c) }

  ghost predicate AllIdle(cs: seq<Call>) { forall c :: c in cs ==> Idle(c) }

  /** States that an idle call leaves once their deadline has passed. */
  predicate Timed(state: int) { KEY_FIRST_PRESS <= state <= KEY_SECOND_RELEASE }

  predicate Checking(state: int) { KEY_CHECK_TRIPLE_KEY_RELEASE <= state <= KEY_CHECK_LONG_KEY_RELEASE }

  function Deadline(state: int): int {
    if state == KEY_FIRST_PRESS then KEY_LONG_PRESS_TIME else KEY_CLICK_GAP
  }

  /** The handler a state calls when its deadline passes, or when the awaited release comes. */
  function HandlerOf(state: int): Handler {
    if state == KEY_FIRST_PRESS || state == KEY_CHECK_LONG_KEY_RELEASE then LongKey
    else if state == KEY_FIRST_RELEASE then SingleKey
    else if state == KEY_CHECK_TRIPLE_KEY_RELEASE then TripleKey
    else DoubleKey
  }

  /** Where a timed state goes when its deadline passes. */
  function Expired(state: int): int {
    if state == KEY_FIRST_PRESS then KEY_CHECK_LONG_KEY_RELEASE
    else if state == KEY_SECOND_PRESS then KEY_CHECK_DOUBLE_KEY_RELEASE
    else KEY_ALL_RELEASE
  }

  /** The first event ever seen claims an unset code and is taken as a first press. */
  function Synced(k: Key, c: Call): Key {
    if c.poll.Success? && k.code == 0 then Key(c.ev.code, KEY_FIRST_PRESS, k.start) else k
  }

  predicate Late(k: Key, c: Call, limit: int) { TimevalDiff(c.at, k.start) >= limit }

  function Next(before: Key, c: Call): Key {
    var k := Synced(before, c);
    var mine := c.ev.code == k.code;
    if k.state == KEY_ALL_RELEASE then
      if Down(c) then Key(c.ev.code, KEY_FIRST_PRESS, c.mark) else k
    else if Timed(k.state) then
      if Idle(c) then (if Late(k, c, Deadline(k.state)) then k.(state := Expired(k.state)) else k)
      else if !mine then k.(state := KEY_ALL_RELEASE)
      else if Down(c) == (k.state == KEY_FIRST_PRESS || k.state == KEY_SECOND_PRESS) then k
      else if k.state == KEY_FIRST_PRESS && Late(k, c, KEY_CLICK_GAP) then k.(state := KEY_ALL_RELEASE)
      else if k.state == KEY_SECOND_RELEASE then k.(state := KEY_CHECK_TRIPLE_KEY_RELEASE)
      else k.(state := k.state + 1, start := c.mark)
    else if Checking(k.state) then
      if Up(c) && mine then k.(state := KEY_ALL_RELEASE) else k
    else k.(state := KEY_ALL_RELEASE)
  }

  function Emit(before: Key, c: Call): seq<Output> {
    var k := Synced(before, c);
    var mine := c.ev.code == k.code;
    if Timed(k.state) && Idle(c) && Late(k, c, Deadline(k.state)) then
      [Output(HandlerOf(k.state), k.code, Checking(Expired(k.state)))]
    else if k.state == KEY_FIRST_PRESS && Up(c) && mine && Late(k, c, KEY_CLICK_GAP) then
      [Output(SingleKey, k.code, false)]
    else if k.state == KEY_SECOND_RELEASE && Down(c) && mine then
      [Output(TripleKey, k.code, true)]
    else if Checking(k.state) && Up(c) && mine then
      [Output(HandlerOf(k.state), k.code, false)]
    else []
  }

  /** The state after a run, and the handler calls made during it. */
  function End(k: Key, cs: seq<Call>): Key
    decreases cs
  {
    if cs == [] then k else End(Next(k, cs[0]), cs[1..])
  }

  function Trace(k: Key, cs: seq<Call>): seq<Output>
    decreases cs
  {
    if cs == [] then [] else Emit(k, cs[0]) + Trace(Next(k, cs[0]), cs[1..])
  }

  /** Running two batches of calls is running one after the other. */
  lemma {:induction false} RunAppend(k: Key, a: seq<Call>, b: seq<Call>)
    ensures End(k, a + b) == End(End(k, a), b)
    ensures Trace(k, a + b) == Trace(k, a) + Trace(End(k, a), b)
    decreases a
  {
    if a == [] {
      assert a + b == b;
    } else {
      assert (a + b)[0] == a[0] && (a + b)[1..] == a[1..] + b;
      RunAppend(Next(k, a[0]), a[1..], b);
    }
  }

  lemma {:induction false} RunCons(k: Key, c: Call, cs: seq<Call>)
    ensures End(k, [c] + cs) == End(Next(k, c), cs) && Trace(k, [c] + cs) == Emit(k, c) + Trace(Next(k, c), cs)
  {
    assert ([c] + cs)[1..] == cs;
  }

  lemma {:induction false} RunOne(k: Key, c: Call)
    ensures End(k, [c]) == Next(k, c) && Trace(k, [c]) == Emit(k, c)
  {
    assert [c][1..] == [];
    assert Trace(Next(k, c), []) == [];
  }

  /** States 5, 6 and everything else the `default` branch would catch are never entered, and should the machine
      be in one, its first call does nothing but leave it. */
  lemma {:induction false} KnownStatesOnly(k: Key, cs: seq<Call>)
    requires cs != [] || Checking(k.state) || k.state == KEY_ALL_RELEASE || Timed(k.state)
    ensures var e := End(k, cs);
            Checking(e.state) || e.state == KEY_ALL_RELEASE || Timed(e.state)
    ensures cs != [] && k.code != 0 && !(Checking(k.state) || k.state == KEY_ALL_RELEASE || Timed(k.state)) ==>
              Emit(k, cs[0]) == [] && Next(k, cs[0]) == k.(state := KEY_ALL_RELEASE)
    decreases cs
  {
    if cs != [] {
      KnownStatesOnly(Next(k, cs[0]), cs[1..]);
    }
  }
}
