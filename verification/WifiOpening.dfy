/**
  How a test opens the interface and starts its scan: what the drivers report decides whether it fails,
  what state the scan begins in, and what each part of the client does when it is left alone.
 */
module WifiOpening {
  import opened WifiTable
  import opened WifiScan

  /** What the client was told when it moved on from `pc`, if it has. */
  function ReportAt(scans: seq<ScanResult>, s: State, acts: seq<Action>, pc: ClientPc): Option<bool>
    requires |scans| == RETRIES
    decreases acts
  {
    if acts == [] then None
    else if s.client == pc && acts[0].Client? then Some(acts[0].choice)
    else match Step(scans, s, acts[0])
      case None => None
      case Some(t) => ReportAt(scans, t, acts[1..], pc)
  }

  function BlankTable(): seq<Ap> { seq(WIFI_MAX_AP, _ => BLANK) }

  /** What closing a driver left loaded leaves behind. */
  function Closed(s: State): State {
    s.(looping := false, status := CLOSED, aps := BlankTable(), apNum := 0)
  }

  predicate BeforeStart(pc: ClientPc) { pc.SemInit? || pc.ReadOpened? || pc.CloseStale? || pc.StartDriver? }

  /** The states a test from `s` passes before its drivers are started, and in which it ends if they are not. */
  predicate NotStarted(s: State, stale: Option<bool>, started: Option<bool>, e: State) {
    var b := if stale == Some(true) then Closed(s) else s;
    match e.client
    case SemInit => stale == None && started == None && e == s
    case ReadOpened => stale == None && started == None && e == s.(sem := 0, client := ReadOpened)
    case CloseStale => stale == Some(true) && started == None && e == s.(sem := 0, client := CloseStale)
    case StartDriver => stale.Some? && started == None && e == b.(sem := 0, client := StartDriver)
    case _ => stale.Some? && started == Some(false) && e == b.(sem := 0, client := Returned(StartFailed))
  }

  /** The states it passes once they are. */
  predicate Started(s: State, stale: Option<bool>, started: Option<bool>, e: State) {
    var b := if stale == Some(true) then Closed(s) else s;
    && stale.Some? && started == Some(true) && !BeforeStart(e.client) && e.client != Returned(StartFailed)
    && (e.client.ResetStatus? || e.client.ResetNum? || e.client.SpawnEvents? ==> e.scan == Unstarted && e.aps == b.aps)
    && (e.scan == Unstarted || e.scan == Command(0) ==> e.aps == b.aps)
    && (e.client.SpawnEvents? ==> e.apNum == -1)
    && (!e.client.ResetStatus? && !e.client.ResetNum? && !e.client.SpawnEvents? ==>
          && e.looping && (e.scan == Unstarted || e.scan == Command(0) ==> e.apNum == -1))
  }

  lemma {:induction false} OpeningStep(scans: seq<ScanResult>, s: State, stale: Option<bool>, e: State, a: Action)
    requires ValidScans(scans) && Fresh(s) && !s.status.isOpen && Inv(scans, e) && Step(scans, e, a).Some?
    requires NotStarted(s, stale, None, e)
    ensures var t := Step(scans, e, a).value;
            var stale2 := if e.client == ReadOpened && a.Client? then Some(a.choice) else stale;
            var started2 := if e.client == StartDriver && a.Client? then Some(a.choice) else None;
            if started2 == Some(true) then Started(s, stale2, started2, t) else NotStarted(s, stale2, started2, t)
  {
    hide Inv;
  }

  lemma {:induction false} StartedStep(scans: seq<ScanResult>, s: State, stale: Option<bool>, e: State, a: Action)
    requires ValidScans(scans) && Inv(scans, e) && Step(scans, e, a).Some?
    requires Started(s, stale, Some(true), e)
    ensures Started(s, stale, Some(true), Step(scans, e, a).value)
  {
    hide Strong, Passes, FinalTable, Found, FoundIn, Holds;
  }

  lemma {:induction false} FailedStep(scans: seq<ScanResult>, s: State, stale: Option<bool>, e: State, a: Action)
    requires |scans| == RETRIES && Fresh(s) && NotStarted(s, stale, Some(false), e) && Step(scans, e, a).Some?
    ensures Step(scans, e, a).value == e
  {
  }

  predicate Accounted(s: State, stale: Option<bool>, started: Option<bool>, e: State) {
    if started == Some(true) then Started(s, stale, started, e) else NotStarted(s, stale, started, e)
  }

  /** What was known, or else what is learnt. */
  function Or(a: Option<bool>, b: Option<bool>): Option<bool> { if a.Some? then a else b }

  lemma {:induction false} AccountedStep(scans: seq<ScanResult>, s: State, stale: Option<bool>, started: Option<bool>,
                                         e: State, a: Action)
    requires ValidScans(scans) && Fresh(s) && !s.status.isOpen && Inv(scans, e) && Step(scans, e, a).Some?
    requires Accounted(s, stale, started, e)
    ensures Accounted(s, Or(stale, if e.client == ReadOpened && a.Client? then Some(a.choice) else None),
                      Or(started, if e.client == StartDriver && a.Client? then Some(a.choice) else None),
                      Step(scans, e, a).value)
  {
    hide Inv, Step, Fresh;
    if started == Some(true) {
      StartedStep(scans, s, stale, e, a);
    } else if started == Some(false) {
      FailedStep(scans, s, stale, e, a);
    } else {
      OpeningStep(scans, s, stale, e, a);
    }
  }

  lemma {:induction false} AccountedRun(scans: seq<ScanResult>, s: State, stale: Option<bool>, started: Option<bool>,
                                        e: State, acts: seq<Action>)
    requires ValidScans(scans) && Fresh(s) && !s.status.isOpen && Inv(scans, e) && Exec(scans, e, acts).Some?
    requires Accounted(s, stale, started, e)
    ensures Accounted(s, Or(stale, ReportAt(scans, e, acts, ReadOpened)),
                      Or(started, ReportAt(scans, e, acts, StartDriver)), Exec(scans, e, acts).value)
    decreases acts
  {
    hide Inv, Step, Fresh, Accounted;
    if acts != [] {
      var a := acts[0];
      var t := Step(scans, e, a).value;
      StepKeepsInv(scans, e, a);
      AccountedStep(scans, s, stale, started, e, a);
      AccountedRun(scans, s, Or(stale, if e.client == ReadOpened && a.Client? then Some(a.choice) else None),
                   Or(started, if e.client == StartDriver && a.Client? then Some(a.choice) else None), t, acts[1..]);
    }
  }

  /** In every schedule of a test from a closed interface: if its drivers were reported not to start, it returns
      failure, with nothing changed but, where a driver was found loaded, what closing that one clears; if they
      were reported to start, it never returns failure, and the first scan begins with the scanning bit alone
      set beside the open one, the event loop running, no result counted, and the table as it was found or
      cleared. A test that has returned has had the report, and failed just when it was bad. */
  lemma {:induction false} OpeningOutcome(scans: seq<ScanResult>, s: State, acts: seq<Action>)
    requires ValidScans(scans) && Fresh(s) && !s.status.isOpen && Exec(scans, s, acts).Some?
    ensures var e, started := Exec(scans, s, acts).value, ReportAt(scans, s, acts, StartDriver);
            var b := if ReportAt(scans, s, acts, ReadOpened) == Some(true) then Closed(s) else s;
            && (started == Some(false) ==> e == b.(sem := 0, client := Returned(StartFailed)))
            && (started == Some(true) ==> e.client != Returned(StartFailed))
            && (e.client.Returned? ==> started.Some?)
            && (e.client.Returned? ==> (e.client.outcome == StartFailed <==> started == Some(false)))
            && (e.scan == Command(0) ==>
                  e.status == Status(true, true, false) && e.looping && e.apNum == -1 && e.aps == b.aps && !e.pass)
  {
    assert Inv(scans, s) && Accounted(s, None, None, s);
    AccountedRun(scans, s, None, None, s, acts);
    ReachableInv(scans, s, acts);
    hide ReportAt, Exec, Strong, Passes, FinalTable, Found, FoundIn, Holds;
  }

  /** While a scan waits for its results its command was accepted and the event loop is running, so a scan event
      is taken, ends the wait and does nothing else. */
  lemma {:induction false} EventEndsWait(scans: seq<ScanResult>, s: State, acts: seq<Action>)
    requires ValidScans(scans) && Fresh(s) && !s.status.isOpen && Exec(scans, s, acts).Some?
    requires Exec(scans, s, acts).value.scan.Waiting?
    ensures var e := Exec(scans, s, acts).value;
            && e.scan.r < RETRIES && !scans[e.scan.r].CommandFailed?
            && SignalStep(e) == Some(e.(scan := Woken(e.scan.r)))
  {
    assert Inv(scans, s) && Accounted(s, None, None, s);
    AccountedRun(scans, s, None, None, s, acts);
    ReachableInv(scans, s, acts);
    hide ReportAt, Exec, Strong, Passes, FinalTable, Found, FoundIn, Holds;
  }

  // ----- what the table holds -----

  /** The table after the first `n` scans: each writes the rows it lists over the front and leaves the rest. */
  function TableAfter(aps: seq<Ap>, scans: seq<ScanResult>, n: nat): seq<Ap>
    requires n <= |scans|
  {
    if n == 0 then aps
    else
      var before, r := TableAfter(aps, scans, n - 1), scans[n - 1];
      if r.Rows? && |r.rows| <= |before| then r.rows + before[|r.rows|..] else before
  }

  lemma {:induction false} TableSize(aps: seq<Ap>, scans: seq<ScanResult>, n: nat)
    requires n <= |scans|
    ensures |TableAfter(aps, scans, n)| == |aps|
  {
    if n > 0 {
      TableSize(aps, scans, n - 1);
    }
  }

  /** How far the scan thread has got with the table it found, `b`. */
  ghost predicate Written(b: seq<Ap>, scans: seq<ScanResult>, s: State)
    requires |scans| == RETRIES
  {
    match s.scan
    case Unstarted => s.aps == b
    case Command(r) => r < RETRIES && s.aps == TableAfter(b, scans, r)
    case Waiting(r) => r < RETRIES && s.aps == TableAfter(b, scans, r)
    case Woken(r) => r < RETRIES && s.aps == TableAfter(b, scans, r)
    case Filling(r, k) =>
      && r < RETRIES && scans[r].Rows? && k <= |scans[r].rows| <= |s.aps| == |TableAfter(b, scans, r)|
      && s.aps == scans[r].rows[..k] + TableAfter(b, scans, r)[k..]
    case Publish(r) => r < RETRIES && s.aps == TableAfter(b, scans, r + 1)
    case Search(r) => r < RETRIES && s.aps == TableAfter(b, scans, r + 1)
    case _ => s.made <= RETRIES && s.aps == TableAfter(b, scans, s.made)
  }

  lemma {:induction false} WrittenStep(b: seq<Ap>, scans: seq<ScanResult>, s: State)
    requires ValidScans(scans) && |s.aps| == |b| == WIFI_MAX_AP && ScanInv(scans, s) && ScanStep(scans, s).Some?
    requires Written(b, scans, s)
    ensures Written(b, scans, ScanStep(scans, s).value)
  {
    hide ScanStep, Written, ScanInv;
    match s.scan
    case Filling(r, k) => FillingStep(b, scans, s, r, k);
    case Command(r) => CommandStep(b, scans, s, r);
    case Waiting(r) => FetchedStep(b, scans, s, r);
    case Woken(r) => FetchedStep(b, scans, s, r);
    case _ => LaterStep(b, scans, s);
  }

  lemma {:induction false} CommandStep(b: seq<Ap>, scans: seq<ScanResult>, s: State, r: nat)
    requires ValidScans(scans) && ScanInv(scans, s) && s.scan == Command(r) && Written(b, scans, s)
    ensures ScanStep(scans, s).Some? && Written(b, scans, ScanStep(scans, s).value)
  {
    hide Found, FoundIn, Holds, FinalScan, Strong, FinalTable, NoneBefore;
  }

  /** From the publishing of a scan's count on the thread leaves the table alone. */
  lemma {:induction false} LaterStep(b: seq<Ap>, scans: seq<ScanResult>, s: State)
    requires ValidScans(scans) && ScanInv(scans, s) && Written(b, scans, s) && ScanStep(scans, s).Some?
    requires !s.scan.Command? && !s.scan.Waiting? && !s.scan.Woken? && !s.scan.Filling?
    ensures Written(b, scans, ScanStep(scans, s).value)
  {
    hide TableAfter, Found, FoundIn, Holds, FinalScan, Strong, Num;
  }

  lemma {:induction false} FetchedStep(b: seq<Ap>, scans: seq<ScanResult>, s: State, r: nat)
    requires ValidScans(scans) && |s.aps| == |b| == WIFI_MAX_AP && ScanInv(scans, s)
    requires (s.scan == Waiting(r) || s.scan == Woken(r)) && Written(b, scans, s)
    ensures ScanStep(scans, s).Some? && Written(b, scans, ScanStep(scans, s).value)
  {
    hide Found, FoundIn, Holds, FinalScan, Strong;
    assert scans[r] in scans;
    TableSize(b, scans, r);
  }

  lemma {:induction false} FillingStep(b: seq<Ap>, scans: seq<ScanResult>, s: State, r: nat, k: nat)
    requires ValidScans(scans) && |s.aps| == WIFI_MAX_AP && s.scan == Filling(r, k)
    requires Written(b, scans, s)
    ensures ScanStep(scans, s).Some? && Written(b, scans, ScanStep(scans, s).value)
  {
    var rows, t, before := scans[r].rows, ScanStep(scans, s).value, TableAfter(b, scans, r);
    if k < |rows| {
      assert t.aps == rows[..k + 1] + before[k + 1..];
    } else {
      assert rows[..k] == rows;
    }
  }

  lemma {:induction false} ActiveInv(scans: seq<ScanResult>, s: State)
    requires |scans| == RETRIES && Inv(scans, s) && !s.scan.Unstarted?
    ensures ScanInv(scans, s)
  {
    hide ScanInv;
  }

  lemma {:induction false} WrittenByAnyone(b: seq<Ap>, scans: seq<ScanResult>, s: State, a: Action)
    requires ValidScans(scans) && |b| == WIFI_MAX_AP && Inv(scans, s) && Step(scans, s, a).Some?
    requires !BeforeStart(s.client) && Written(b, scans, s)
    ensures Written(b, scans, Step(scans, s, a).value)
  {
    match a
    case Client(choice) => WrittenByClient(b, scans, s, choice);
    case Scan =>
      ActiveInv(scans, s);
      WrittenStep(b, scans, s);
    case Signal =>
  }

  /** The client touches the table only before its drivers are started. */
  lemma {:induction false} WrittenByClient(b: seq<Ap>, scans: seq<ScanResult>, s: State, choice: bool)
    requires |scans| == RETRIES && Inv(scans, s) && ClientStep(s, choice).Some?
    requires !BeforeStart(s.client) && Written(b, scans, s)
    ensures Written(b, scans, ClientStep(s, choice).value)
  {
    hide ScanInv, Strong, Passes;
    assert s.client.SpawnScan? ==> s.scan.Unstarted?;
    hide Inv;
    var t := ClientStep(s, choice).value;
    assert t.aps == s.aps && t.made == s.made && (t.scan == s.scan || (s.scan == Unstarted && t.scan == Command(0)));
  }

  lemma {:induction false} WrittenRun(scans: seq<ScanResult>, s: State, stale: Option<bool>, started: Option<bool>,
                                      e: State, acts: seq<Action>)
    requires ValidScans(scans) && Fresh(s) && !s.status.isOpen && Inv(scans, e) && Exec(scans, e, acts).Some?
    requires Accounted(s, stale, started, e)
    requires started == Some(true) ==> Written(if stale == Some(true) then BlankTable() else s.aps, scans, e)
    ensures var b := if Or(stale, ReportAt(scans, e, acts, ReadOpened)) == Some(true) then BlankTable() else s.aps;
            Or(started, ReportAt(scans, e, acts, StartDriver)) == Some(true) ==>
              Written(b, scans, Exec(scans, e, acts).value)
    decreases acts
  {
    hide Inv, Step, Accounted, Written, NotStarted, Started;
    if acts != [] {
      var a := acts[0];
      var t := Step(scans, e, a).value;
      var stale2 := Or(stale, if e.client == ReadOpened && a.Client? then Some(a.choice) else None);
      var started2 := Or(started, if e.client == StartDriver && a.Client? then Some(a.choice) else None);
      StepKeepsInv(scans, e, a);
      AccountedStep(scans, s, stale, started, e, a);
      if started2 == Some(true) {
        WrittenOnce(scans, s, stale, started, e, a);
      }
      WrittenRun(scans, s, stale2, started2, t, acts[1..]);
    }
  }

  lemma {:induction false} WrittenOnce(scans: seq<ScanResult>, s: State, stale: Option<bool>, started: Option<bool>,
                                       e: State, a: Action)
    requires ValidScans(scans) && Fresh(s) && !s.status.isOpen && Inv(scans, e) && Step(scans, e, a).Some?
    requires Accounted(s, stale, started, e)
    requires started == Some(true) ==> Written(if stale == Some(true) then BlankTable() else s.aps, scans, e)
    requires started == Some(true) || (started == None && e.client == StartDriver && a == Client(true))
    ensures var stale2 := Or(stale, if e.client == ReadOpened && a.Client? then Some(a.choice) else None);
            Written(if stale2 == Some(true) then BlankTable() else s.aps, scans, Step(scans, e, a).value)
  {
    hide Inv;
    if started == Some(true) {
      hide Step, Written;
      WrittenByAnyone(if stale == Some(true) then BlankTable() else s.aps, scans, e, a);
    }
  }

  /** When the scan thread has finished, the table is the one the test began with, as found or cleared, with the
      rows of each scan made written over its front in turn: entries behind a shorter later list are left. */
  lemma {:induction false} TableOutcome(scans: seq<ScanResult>, s: State, acts: seq<Action>)
    requires ValidScans(scans) && Fresh(s) && !s.status.isOpen && Exec(scans, s, acts).Some?
    requires Exec(scans, s, acts).value.scan == Finished
    ensures var e := Exec(scans, s, acts).value;
            var b := if ReportAt(scans, s, acts, ReadOpened) == Some(true) then BlankTable() else s.aps;
            e.made <= RETRIES && e.aps == TableAfter(b, scans, e.made)
  {
    assert Inv(scans, s) && Accounted(s, None, None, s);
    AccountedRun(scans, s, None, None, s, acts);
    WrittenRun(scans, s, None, None, s, acts);
    hide Exec, ReportAt;
  }

  // ----- the client left alone -----

  /** `n` steps of the client. */
  function Alone(n: nat): seq<Action> { seq(n, _ => Client(true)) }

  lemma {:induction false} AloneStep(scans: seq<ScanResult>, s: State, n: nat)
    requires |scans| == RETRIES
    ensures Exec(scans, s, Alone(0)) == Some(s)
    ensures n > 0 ==> Exec(scans, s, Alone(n))
                      == match ClientStep(s, true) case None => None case Some(t) => Exec(scans, t, Alone(n - 1))
  {
    if n > 0 {
      assert Alone(n)[1..] == Alone(n - 1);
    }
  }

  /** Opening once the drivers run, from any state: the open bit alone is set, nothing counts as scanned or passed,
      the event loop runs, and one more token is there. */
  lemma {:induction false} OpenInterface(scans: seq<ScanResult>, s: State)
    requires |scans| == RETRIES && s.client == ResetStatus
    ensures Exec(scans, s, Alone(6))
            == Some(s.(status := Status(true, false, false), clientReg := Status(false, false, false), apNum := -1,
                       looping := true, pass := false, sem := s.sem + 1, client := FirstWait))
  {
    hide Exec, Alone;
    var t := s.(status := CLOSED, apNum := -1, client := SpawnEvents);
    AloneStep(scans, s, 6);
    AloneStep(scans, s.(status := CLOSED, client := ResetNum), 5);
    AloneStep(scans, t, 4);
    SetOpened(scans, t.(looping := true, pass := false, client := LoadOpened));
  }

  lemma {:induction false} SetOpened(scans: seq<ScanResult>, s: State)
    requires |scans| == RETRIES && s.client == LoadOpened
    ensures var st := s.status.(isOpen := true);
            Exec(scans, s, Alone(3))
            == Some(s.(status := st, clientReg := s.status, sem := s.sem + 1, client := FirstWait))
  {
    hide Exec, Alone;
    var t := s.(clientReg := s.status, client := StoreOpened);
    var u := t.(status := s.status.(isOpen := true), client := PostOpened);
    AloneStep(scans, s, 3);
    AloneStep(scans, t, 2);
    AloneStep(scans, u, 1);
    AloneStep(scans, u.(sem := s.sem + 1, client := FirstWait), 0);
  }

  /** What starting a scan sets. */
  function ScanStarted(s: State): State {
    var st := Status(s.status.isOpen, true, false);
    s.(status := st, clientReg := s.status.(scanning := true), scan := Command(0), client := SecondWait)
  }

  /** Asking for a scan, from any state: refused on a closed interface; while one is running, only another token
      is posted and no second scan is started; else the scan bits are set and one is started. */
  lemma {:induction false} AskForScan(scans: seq<ScanResult>, s: State)
    requires |scans| == RETRIES && s.client == CheckOpened
    ensures !s.status.isOpen ==> Exec(scans, s, Alone(1)) == Some(s.(client := Returned(StartFailed)))
    ensures s.status.isOpen && s.status.scanning ==>
              Exec(scans, s, Alone(1)) == Some(s.(sem := s.sem + 1, client := SecondWait))
    ensures s.status.isOpen && !s.status.scanning ==> Exec(scans, s, Alone(6)) == Some(ScanStarted(s))
  {
    AloneStep(scans, s, 1);
    AloneStep(scans, ClientStep(s, true).value, 0);
    if s.status.isOpen && !s.status.scanning {
      SixSteps(scans, s);
    }
  }

  lemma {:induction false} SixSteps(scans: seq<ScanResult>, s: State)
    requires |scans| == RETRIES && s.client == CheckOpened && s.status.isOpen && !s.status.scanning
    ensures Exec(scans, s, Alone(6)) == Some(ScanStarted(s))
  {
    hide Exec, Alone;
    AloneStep(scans, s, 6);
    SetScanning(scans, s.(client := LoadScanning));
    ClearScanEnd(scans, s.(client := LoadScanEnd, clientReg := s.status, status := s.status.(scanning := true)));
  }

  lemma {:induction false} SetScanning(scans: seq<ScanResult>, s: State)
    requires |scans| == RETRIES && s.client == LoadScanning
    ensures var t := s.(client := LoadScanEnd, clientReg := s.status, status := s.status.(scanning := true));
            Exec(scans, s, Alone(5)) == Exec(scans, t, Alone(3))
  {
    hide Exec, Alone;
    AloneStep(scans, s, 5);
    AloneStep(scans, s.(client := StoreScanning, clientReg := s.status), 4);
  }

  lemma {:induction false} ClearScanEnd(scans: seq<ScanResult>, s: State)
    requires |scans| == RETRIES && s.client == LoadScanEnd
    ensures var st := s.status.(scanEnd := false);
            Exec(scans, s, Alone(3))
            == Some(s.(clientReg := s.status, status := st, scan := Command(0), client := SecondWait))
  {
    hide Exec, Alone;
    var t := s.(client := StoreScanEnd, clientReg := s.status);
    var u := t.(client := SpawnScan, status := s.status.(scanEnd := false));
    AloneStep(scans, s, 3);
    AloneStep(scans, t, 2);
    AloneStep(scans, u, 1);
    AloneStep(scans, u.(scan := Command(0), client := SecondWait), 0);
  }

  /** Past its first wait the client asks for a scan unless one is running or has ended. */
  lemma {:induction false} StartScan(scans: seq<ScanResult>, s: State)
    requires |scans| == RETRIES && s.client == FirstWait && s.sem > 0
    ensures Exec(scans, s, Alone(2))
            == Some(s.(sem := s.sem - 1,
                       client := if s.status.scanEnd || s.status.scanning then SecondWait else CheckOpened))
  {
    AloneStep(scans, s, 2);
    AloneStep(scans, s.(sem := s.sem - 1, client := ReadScanEnd), 1);
    AloneStep(scans, s.(sem := s.sem - 1, client := SecondWait), 0);
    AloneStep(scans, s.(sem := s.sem - 1, client := CheckOpened), 0);
  }

  /** The verdict, from any state the second wait may end in: a pass needs the end bit, something counted, and
      the last entry of the factory network to be strong, or the result left by an earlier test where there is
      no such entry. */
  lemma {:induction false} VerdictAlone(scans: seq<ScanResult>, s: State) returns (n: nat)
    requires |scans| == RETRIES && s.client == ReadVerdict && s.apNum <= |s.aps|
    ensures Exec(scans, s, Alone(n)).Some?
    ensures var e := Exec(scans, s, Alone(n)).value;
            var rows := s.aps[..if s.apNum < 0 then 0 else s.apNum];
            var pass := if Found(rows) then Strong(rows) else s.pass;
            e == if s.status.scanEnd && s.apNum > 0 then s.(pass := pass, client := Returned(Verdict(pass)))
                 else s.(client := Returned(Verdict(false)))
  {
    hide Exec, Alone, Found, Strong;
    AloneStep(scans, s, 1);
    if !s.status.scanEnd {
      n := 1;
      AloneStep(scans, s.(client := Returned(Verdict(false))), 0);
    } else if s.apNum <= 0 {
      n := 2;
      AloneStep(scans, s, 2);
      AloneStep(scans, s.(client := ReadNum), 1);
      AloneStep(scans, s.(client := Returned(Verdict(false))), 0);
    } else {
      NothingFound();
      assert s.aps[..0] == [];
      var m := JudgeAlone(scans, s.(client := Judge(0)), 0, s.pass);
      n := m + 2;
      AloneStep(scans, s, n);
      AloneStep(scans, s.(client := ReadNum), m + 1);
    }
  }

  lemma {:induction false} JudgeAlone(scans: seq<ScanResult>, s: State, i: nat, before: bool) returns (n: nat)
    requires |scans| == RETRIES && s.client == Judge(i) && i <= s.apNum <= |s.aps|
    requires s.pass == if Found(s.aps[..i]) then Strong(s.aps[..i]) else before
    ensures var rows := s.aps[..s.apNum];
            var pass := if Found(rows) then Strong(rows) else before;
            Exec(scans, s, Alone(n)) == Some(s.(pass := pass, client := Returned(Verdict(pass))))
    decreases s.apNum - i
  {
    hide Exec, Alone, Found, Strong;
    if i < s.apNum {
      StrongSnoc(s.aps, i);
      assert s.aps[..i + 1] == s.aps[..i] + [s.aps[i]];
      FoundAppend(s.aps[..i], s.aps[i]);
      var t := ClientStep(s, true).value;
      var m := JudgeAlone(scans, t, i + 1, before);
      n := m + 1;
      AloneStep(scans, s, n);
    } else {
      n := 1;
      AloneStep(scans, s, 1);
      AloneStep(scans, ClientStep(s, true).value, 0);
    }
  }
}
