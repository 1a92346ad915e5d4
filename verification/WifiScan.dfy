/**
  One run of the Wi-Fi test as three threads over shared status bits, a semaphore and the scan table:
  the test client, the scan thread it starts, and the event loop that wakes a waiting scan.
  Every read-modify-write of the status word is a load and a store, so threads can interleave within it.
 */
module WifiScan {
  import opened WifiTable

  const WIFI_MAX_AP := 20
  const RETRIES := 3
  const FACTORY_ZIB_WIFI_SSID := "zib"
  const FACTORY_ZIB_SIG_LEVEL := -80

  /** What one wifiSyncScanAP call meets: its SCAN command fails, its scan reply is refused, or the
      parser hands back rows. */
  datatype ScanResult = CommandFailed | ReplyRefused | Rows(rows: seq<Ap>)

  /** The factory's own network, and a level that passes. */
  predicate Factory(ap: Ap) { ap.name == FACTORY_ZIB_WIFI_SSID }

  predicate Loud(ap: Ap) { ap.sigLevel > FACTORY_ZIB_SIG_LEVEL }

  predicate Found(rows: seq<Ap>) { exists i :: 0 <= i < |rows| && Factory(rows[i]) }

  /** The return value of wifiSyncScanAP. */
  function Num(r: ScanResult): int { if r.Rows? then |r.rows| else -2 }

  ghost predicate ValidScans(scans: seq<ScanResult>) {
    |scans| == RETRIES && forall r :: r in scans && r.Rows? ==> |r.rows| <= WIFI_MAX_AP
  }

  predicate FoundIn(r: ScanResult) { r.Rows? && Found(r.rows) }

  datatype Status = Status(isOpen: bool, scanning: bool, scanEnd: bool)

  datatype Outcome = StartFailed | Verdict(pass: bool)

  datatype ClientPc =
    | SemInit | ReadOpened | CloseStale | StartDriver
    | ResetStatus | ResetNum | SpawnEvents | LoadOpened | StoreOpened | PostOpened
    | FirstWait | ReadScanEnd | CheckOpened
    | LoadScanning | StoreScanning | LoadScanEnd | StoreScanEnd | SpawnScan
    | SecondWait | ReadVerdict | ReadNum | Judge(i: nat)
    | Returned(outcome: Outcome)

  datatype ScanPc =
    | Unstarted
    | Command(r: nat) | Waiting(r: nat) | Woken(r: nat) | Filling(r: nat, k: nat) | Publish(r: nat) | Search(r: nat)
    | LoadClear | StoreClear | LoadEnd | StoreEnd | PostEnd | Finished

  datatype State = State(
    client: ClientPc, clientReg: Status,
    scan: ScanPc, scanReg: Status, made: nat,
    looping: bool, sem: nat, status: Status, apNum: int, aps: seq<Ap>, pass: bool)

  /** Who moves next. `choice` resolves what the client's driver calls report. */
  datatype Action = Client(choice: bool) | Scan | Signal

  const BLANK := Ap("", "", 0, 0)

  // ----- the steps; a step of a thread that cannot move is None -----

  datatype Option<T> = None | Some(value: T)

  function ClientStep(s: State, choice: bool): Option<State> {
    match s.client
    case SemInit => Some(s.(sem := 0, client := ReadOpened))
    case ReadOpened =>
      Some(s.(client := if s.status.isOpen then FirstWait else if choice then CloseStale else StartDriver))
    case CloseStale =>
      Some(s.(looping := false, status := Status(false, false, false), aps := seq(WIFI_MAX_AP, _ => BLANK), apNum := 0,
              client := StartDriver))
    case StartDriver => Some(s.(client := if choice then ResetStatus else Returned(StartFailed)))
    case ResetStatus => Some(s.(status := Status(false, false, false), client := ResetNum))
    case ResetNum => Some(s.(apNum := -1, client := SpawnEvents))
    case SpawnEvents => Some(s.(looping := true, pass := false, client := LoadOpened))
    case LoadOpened => Some(s.(clientReg := s.status, client := StoreOpened))
    case StoreOpened => Some(s.(status := s.clientReg.(isOpen := true), client := PostOpened))
    case PostOpened => Some(s.(sem := s.sem + 1, client := FirstWait))
    case FirstWait => if s.sem == 0 then None else Some(s.(sem := s.sem - 1, client := ReadScanEnd))
    case ReadScanEnd =>
      Some(s.(client := if s.status.scanEnd || s.status.scanning then SecondWait else CheckOpened))
    case CheckOpened =>
      if !s.status.isOpen then Some(s.(client := Returned(StartFailed)))
      else if s.status.scanning then Some(s.(sem := s.sem + 1, client := SecondWait))
      else Some(s.(client := LoadScanning))
    case LoadScanning => Some(s.(clientReg := s.status, client := StoreScanning))
    case StoreScanning => Some(s.(status := s.clientReg.(scanning := true), client := LoadScanEnd))
    case LoadScanEnd => Some(s.(clientReg := s.status, client := StoreScanEnd))
    case StoreScanEnd => Some(s.(status := s.clientReg.(scanEnd := false), client := SpawnScan))
    case SpawnScan => Some(s.(scan := Command(0), client := SecondWait))
    case SecondWait => if s.sem == 0 then None else Some(s.(sem := s.sem - 1, client := ReadVerdict))
    case ReadVerdict =>
      Some(s.(client := if s.status.scanEnd then ReadNum else Returned(Verdict(false))))
    case ReadNum =>
      Some(s.(client := if s.apNum > 0 then Judge(0) else Returned(Verdict(false))))
    case Judge(i) =>
      if i < s.apNum && i < |s.aps| then
        Some(s.(pass := if Factory(s.aps[i]) then Loud(s.aps[i]) else s.pass, client := Judge(i + 1)))
      else Some(s.(client := Returned(Verdict(s.pass))))
    case Returned(_) => None
  }

  /** After the wait for results, however it ended, the reply is fetched and parsed. */
  function AfterWait(scans: seq<ScanResult>, s: State, r: nat): State
    requires r < |scans|
  {
    s.(scan := if scans[r].Rows? then Filling(r, 0) else Publish(r))
  }

  function ScanStep(scans: seq<ScanResult>, s: State): Option<State>
    requires |scans| == RETRIES
  {
    match s.scan
    case Unstarted => None
    case Command(r) =>
      if r >= RETRIES then None
      else Some(s.(made := s.made + 1, scan := if scans[r].CommandFailed? then Publish(r) else Waiting(r)))
    case Waiting(r) => if r < RETRIES then Some(AfterWait(scans, s, r)) else None
    case Woken(r) => if r < RETRIES then Some(AfterWait(scans, s, r)) else None
    case Filling(r, k) =>
      if r >= RETRIES || !scans[r].Rows? then None
      else if k < |scans[r].rows| && k < |s.aps| then
        Some(s.(aps := s.aps[k := scans[r].rows[k]], scan := Filling(r, k + 1)))
      else Some(s.(scan := Publish(r)))
    case Publish(r) => if r < RETRIES then Some(s.(apNum := Num(scans[r]), scan := Search(r))) else None
    case Search(r) =>
      var found := 0 < s.apNum <= |s.aps| && Found(s.aps[..s.apNum]);
      Some(s.(scan := if found || r + 1 >= RETRIES then LoadClear else Command(r + 1)))
    case LoadClear => Some(s.(scanReg := s.status, scan := StoreClear))
    case StoreClear => Some(s.(status := s.scanReg.(scanning := false), scan := LoadEnd))
    case LoadEnd => Some(if s.apNum > 0 then s.(scanReg := s.status, scan := StoreEnd) else s.(scan := PostEnd))
    case StoreEnd => Some(s.(status := s.scanReg.(scanEnd := true), scan := PostEnd))
    case PostEnd => Some(s.(sem := s.sem + 1, scan := Finished))
    case Finished => None
  }

  /** A scan event signals the condition; only a scan that is waiting notices. */
  function SignalStep(s: State): Option<State> {
    if !s.looping then None
    else Some(if s.scan.Waiting? then s.(scan := Woken(s.scan.r)) else s)
  }

  function Step(scans: seq<ScanResult>, s: State, a: Action): Option<State>
    requires |scans| == RETRIES
  {
    match a
    case Client(choice) => ClientStep(s, choice)
    case Scan => ScanStep(scans, s)
    case Signal => SignalStep(s)
  }

  /** The state after a schedule, if every step of it could be taken. */
  function Exec(scans: seq<ScanResult>, s: State, acts: seq<Action>): Option<State>
    requires |scans| == RETRIES
    decreases acts
  {
    if acts == [] then Some(s)
    else match Step(scans, s, acts[0])
      case None => None
      case Some(t) => Exec(scans, t, acts[1..])
  }

  /** Before a test: no scan is running; whatever an earlier life of the program left behind may be there. */
  predicate Fresh(s: State) { s.client == SemInit && s.scan == Unstarted && |s.aps| == WIFI_MAX_AP && s.made == 0 }

  // ----- what a test is to return -----

  /** The scan whose table is kept: the first to list the factory network, else the last. */
  function FinalScan(scans: seq<ScanResult>): (r: nat)
    requires |scans| == RETRIES
    ensures r < RETRIES && (forall i :: 0 <= i < r ==> !FoundIn(scans[i])) && (r + 1 < RETRIES ==> FoundIn(scans[r]))
  {
    if FoundIn(scans[0]) then 0 else if FoundIn(scans[1]) then 1 else 2
  }

  /** The last entry of that name has a level above the limit. */
  predicate Strong(rows: seq<Ap>) {
    exists i :: 0 <= i < |rows| && Factory(rows[i]) && Loud(rows[i])
                && forall j :: i < j < |rows| ==> !Factory(rows[j])
  }

  predicate Passes(scans: seq<ScanResult>)
    requires |scans| == RETRIES
  {
    var r := scans[FinalScan(scans)];
    r.Rows? && Strong(r.rows)
  }

  // ----- the invariant -----

  const CLOSED := Status(false, false, false)
  const OPEN := Status(true, false, false)
  const SCANNING := Status(true, true, false)

  ghost predicate Holds(s: State, r: ScanResult) {
    r.Rows? ==> |r.rows| <= |s.aps| && s.aps[..|r.rows|] == r.rows
  }

  ghost predicate NoneBefore(scans: seq<ScanResult>, r: nat)
    requires |scans| == RETRIES
  {
    r < RETRIES && forall i :: 0 <= i < r ==> !FoundIn(scans[i])
  }

  /** The table and its size are those of the final scan, for good. */
  ghost predicate FinalTable(scans: seq<ScanResult>, s: State)
    requires |scans| == RETRIES
  {
    var f := FinalScan(scans);
    s.apNum == Num(scans[f]) && Holds(s, scans[f]) && s.made == f + 1
  }

  ghost predicate ScanInv(scans: seq<ScanResult>, s: State)
    requires |scans| == RETRIES
  {
    match s.scan
    case Unstarted => false
    case Command(r) => NoneBefore(scans, r) && s.status == SCANNING && s.made == r
    case Waiting(r) =>
      NoneBefore(scans, r) && s.status == SCANNING && s.made == r + 1 && !scans[r].CommandFailed?
    case Woken(r) =>
      NoneBefore(scans, r) && s.status == SCANNING && s.made == r + 1 && !scans[r].CommandFailed?
    case Filling(r, k) =>
      && NoneBefore(scans, r) && s.status == SCANNING && s.made == r + 1
      && scans[r].Rows? && k <= |scans[r].rows| <= |s.aps| && s.aps[..k] == scans[r].rows[..k]
    case Publish(r) => NoneBefore(scans, r) && s.status == SCANNING && s.made == r + 1 && Holds(s, scans[r])
    case Search(r) =>
      && NoneBefore(scans, r) && s.status == SCANNING && s.made == r + 1 && Holds(s, scans[r])
      && s.apNum == Num(scans[r])
    case LoadClear => FinalTable(scans, s) && s.status == SCANNING
    case StoreClear => FinalTable(scans, s) && s.status == SCANNING == s.scanReg
    case LoadEnd => FinalTable(scans, s) && s.status == OPEN
    case StoreEnd => FinalTable(scans, s) && s.status == OPEN == s.scanReg && s.apNum > 0
    case PostEnd => FinalTable(scans, s) && s.status == OPEN.(scanEnd := s.apNum > 0)
    case Finished => FinalTable(scans, s) && s.status == OPEN.(scanEnd := s.apNum > 0)
  }

  ghost predicate Inv(scans: seq<ScanResult>, s: State)
    requires |scans| == RETRIES
  {
    && |s.aps| == WIFI_MAX_AP
    && match s.client
       case SemInit => s.scan.Unstarted? && !s.status.isOpen && s.made == 0
       case ReadOpened => s.scan.Unstarted? && !s.status.isOpen && s.made == 0 && s.sem == 0
       case CloseStale => s.scan.Unstarted? && !s.status.isOpen && s.made == 0 && s.sem == 0
       case StartDriver => s.scan.Unstarted? && !s.status.isOpen && s.made == 0 && s.sem == 0
       case ResetStatus => s.scan.Unstarted? && s.made == 0 && s.sem == 0
       case ResetNum => s.scan.Unstarted? && s.made == 0 && s.sem == 0 && s.status == CLOSED
       case SpawnEvents => s.scan.Unstarted? && s.made == 0 && s.sem == 0 && s.status == CLOSED
       case LoadOpened => s.scan.Unstarted? && s.made == 0 && s.sem == 0 && s.status == CLOSED && !s.pass
       case StoreOpened => s.scan.Unstarted? && s.made == 0 && s.sem == 0 && s.clientReg == CLOSED && !s.pass
       case PostOpened => s.scan.Unstarted? && s.made == 0 && s.sem == 0 && s.status == OPEN && !s.pass
       case FirstWait => s.scan.Unstarted? && s.made == 0 && s.sem == 1 && s.status == OPEN && !s.pass
       case ReadScanEnd => s.scan.Unstarted? && s.made == 0 && s.sem == 0 && s.status == OPEN && !s.pass
       case CheckOpened => s.scan.Unstarted? && s.made == 0 && s.sem == 0 && s.status == OPEN && !s.pass
       case LoadScanning => s.scan.Unstarted? && s.made == 0 && s.sem == 0 && s.status == OPEN && !s.pass
       case StoreScanning => s.scan.Unstarted? && s.made == 0 && s.sem == 0 && s.clientReg == OPEN && !s.pass
       case LoadScanEnd => s.scan.Unstarted? && s.made == 0 && s.sem == 0 && s.status == SCANNING && !s.pass
       case StoreScanEnd => s.scan.Unstarted? && s.made == 0 && s.sem == 0 && s.clientReg == SCANNING && !s.pass
       case SpawnScan => s.scan.Unstarted? && s.made == 0 && s.sem == 0 && s.status == SCANNING && !s.pass
       case SecondWait => ScanInv(scans, s) && !s.pass && s.sem == (if s.scan.Finished? then 1 else 0)
       case ReadVerdict => s.scan.Finished? && ScanInv(scans, s) && !s.pass && s.sem == 0
       case ReadNum => s.scan.Finished? && ScanInv(scans, s) && !s.pass && s.sem == 0
       case Judge(i) =>
         && s.scan.Finished? && ScanInv(scans, s) && s.sem == 0
         && 0 < s.apNum && i <= s.apNum && s.pass == Strong(s.aps[..i])
       case Returned(StartFailed) => s.scan.Unstarted? && !s.status.isOpen && s.made == 0 && s.sem == 0
       case Returned(Verdict(v)) => s.scan.Finished? && ScanInv(scans, s) && s.sem == 0 && v == Passes(scans)
  }

  lemma {:induction false} StrongSnoc(rows: seq<Ap>, i: nat)
    requires i < |rows|
    ensures Strong(rows[..i + 1]) == if Factory(rows[i]) then Loud(rows[i]) else Strong(rows[..i])
  {
    StrongAppend(rows[..i], rows[i]);
    assert rows[..i + 1] == rows[..i] + [rows[i]];
  }

  lemma {:induction false} StrongAppend(a: seq<Ap>, x: Ap)
    ensures Strong(a + [x]) == if Factory(x) then Loud(x) else Strong(a)
  {
    var b := a + [x];
    assert b[|a|] == x && forall j :: 0 <= j < |a| ==> b[j] == a[j];
    if Factory(x) {
      assert Factory(b[|a|]);
    } else if Strong(a) {
      var k :| 0 <= k < |a| && Factory(a[k]) && Loud(a[k]) && forall j :: k < j < |a| ==> !Factory(a[j]);
      assert Factory(b[k]);
    }
  }

  lemma {:induction false} FinalIs(scans: seq<ScanResult>, r: nat)
    requires |scans| == RETRIES && NoneBefore(scans, r) && (FoundIn(scans[r]) || r + 1 == RETRIES)
    ensures FinalScan(scans) == r
  {
  }

  /** What a step of the scan thread is to keep: its part of the invariant, and the rest until it posts. */
  ghost predicate ScanStepOk(scans: seq<ScanResult>, s: State)
    requires |scans| == RETRIES && ScanStep(scans, s).Some?
  {
    var t := ScanStep(scans, s).value;
    && ScanInv(scans, t) && |t.aps| == WIFI_MAX_AP && t.client == s.client && t.pass == s.pass
    && t.sem == (if t.scan.Finished? then s.sem + 1 else s.sem) && !s.scan.Finished?
  }

  lemma {:induction false} ScanStepKeepsScanInv(scans: seq<ScanResult>, s: State)
    requires ValidScans(scans) && |s.aps| == WIFI_MAX_AP && ScanInv(scans, s) && ScanStep(scans, s).Some?
    ensures ScanStepOk(scans, s)
  {
    hide ScanStepOk;
    match s.scan
    case Filling(r, k) => FillStep(scans, s, r, k);
    case Search(r) => SearchStep(scans, s, r);
    case Command(r) => FetchStep(scans, s, r);
    case Waiting(r) => FetchStep(scans, s, r);
    case Woken(r) => FetchStep(scans, s, r);
    case Publish(r) => FetchStep(scans, s, r);
    case _ => CloseStep(scans, s);
  }

  lemma {:induction false} FetchStep(scans: seq<ScanResult>, s: State, r: nat)
    requires ValidScans(scans) && |s.aps| == WIFI_MAX_AP && ScanInv(scans, s)
    requires s.scan in {Command(r), Waiting(r), Woken(r), Publish(r)}
    ensures ScanStep(scans, s).Some? && ScanStepOk(scans, s)
  {
    hide FinalTable, FinalScan, FoundIn;
    assert scans[r] in scans;
  }

  lemma {:induction false} CloseStep(scans: seq<ScanResult>, s: State)
    requires ValidScans(scans) && |s.aps| == WIFI_MAX_AP && ScanInv(scans, s) && ScanStep(scans, s).Some?
    requires s.scan.LoadClear? || s.scan.StoreClear? || s.scan.LoadEnd? || s.scan.StoreEnd? || s.scan.PostEnd?
    ensures ScanStepOk(scans, s)
  {
    hide NoneBefore, FinalScan, FoundIn;
  }

  lemma {:induction false} FillStep(scans: seq<ScanResult>, s: State, r: nat, k: nat)
    requires ValidScans(scans) && |s.aps| == WIFI_MAX_AP && s.scan == Filling(r, k) && ScanInv(scans, s)
    ensures ScanStep(scans, s).Some? && ScanStepOk(scans, s)
  {
    hide FinalTable, FinalScan, FoundIn;
    var t, rows := ScanStep(scans, s).value, scans[r].rows;
    if k < |rows| {
      assert t.aps[..k + 1] == s.aps[..k] + [rows[k]] == rows[..k + 1];
    } else {
      assert rows[..k] == rows;
    }
  }

  lemma {:induction false} SearchStep(scans: seq<ScanResult>, s: State, r: nat)
    requires ValidScans(scans) && |s.aps| == WIFI_MAX_AP && s.scan == Search(r) && ScanInv(scans, s)
    ensures ScanStep(scans, s).Some? && ScanStepOk(scans, s)
  {
    hide FinalScan, Found;
    assert scans[r] in scans;
    assert FoundIn(scans[r]) ==> 0 < s.apNum by {
      NothingFound();
    }
    if ScanStep(scans, s).value.scan == LoadClear {
      FinalIs(scans, r);
    }
  }

  lemma {:induction false} NothingFound()
    ensures !Found([])
  {
  }

  lemma {:induction false} ScanStepKeepsInv(scans: seq<ScanResult>, s: State)
    requires ValidScans(scans) && Inv(scans, s) && ScanStep(scans, s).Some?
    ensures Inv(scans, ScanStep(scans, s).value)
  {
    hide ScanInv;
    assert !s.scan.Unstarted?;
    ScanStepKeepsScanInv(scans, s);
  }

  /** The client touches nothing the scan invariant speaks of while a scan is under way. */
  lemma {:induction false} ScanInvFrame(scans: seq<ScanResult>, s: State, client: ClientPc, sem: nat, pass: bool)
    requires |scans| == RETRIES
    ensures ScanInv(scans, s.(client := client, sem := sem, pass := pass)) == ScanInv(scans, s)
  {
  }

  lemma {:induction false} ClientStepKeepsInv(scans: seq<ScanResult>, s: State, choice: bool)
    requires ValidScans(scans) && Inv(scans, s) && ClientStep(s, choice).Some?
    ensures Inv(scans, ClientStep(s, choice).value)
  {
    hide ClientStep, Inv;
    match s.client
    case SecondWait => SecondWaitKeepsInv(scans, s, choice);
    case ReadVerdict => ReadVerdictKeepsInv(scans, s, choice);
    case ReadNum => ReadVerdictKeepsInv(scans, s, choice);
    case Judge(i) => JudgeKeepsInv(scans, s, i, choice);
    case _ => StartKeepsInv(scans, s, choice);
  }

  lemma {:induction false} StartKeepsInv(scans: seq<ScanResult>, s: State, choice: bool)
    requires ValidScans(scans) && Inv(scans, s) && ClientStep(s, choice).Some?
    requires !s.client.SecondWait? && !s.client.ReadVerdict? && !s.client.ReadNum? && !s.client.Judge?
    ensures Inv(scans, ClientStep(s, choice).value)
  {
    assert !s.client.Returned? by {
      if s.client.Returned? {
        ReturnedStays(s, choice);
      }
    }
    hide ClientStep, Inv;
    if Opening(s.client) {
      OpenKeepsInv(scans, s, choice);
    } else {
      SpawnKeepsInv(scans, s, choice);
    }
  }

  lemma {:induction false} OpenKeepsInv(scans: seq<ScanResult>, s: State, choice: bool)
    requires ValidScans(scans) && Inv(scans, s) && Opening(s.client) && ClientStep(s, choice).Some?
    ensures Inv(scans, ClientStep(s, choice).value)
  {
    hide ScanInv, Strong, Passes;
  }

  lemma {:induction false} SpawnKeepsInv(scans: seq<ScanResult>, s: State, choice: bool)
    requires ValidScans(scans) && Inv(scans, s) && (Starting(s.client) || s.client.SpawnScan?)
    requires ClientStep(s, choice).Some?
    ensures Inv(scans, ClientStep(s, choice).value)
  {
    hide Strong, Passes, FinalTable, FinalScan, Holds;
  }

  lemma {:induction false} SecondWaitKeepsInv(scans: seq<ScanResult>, s: State, choice: bool)
    requires ValidScans(scans) && Inv(scans, s) && s.client == SecondWait && ClientStep(s, choice).Some?
    ensures Inv(scans, ClientStep(s, choice).value)
  {
    hide ScanInv, Strong, Passes;
    ScanInvFrame(scans, s, ReadVerdict, s.sem - 1, s.pass);
  }

  lemma {:induction false} ReadVerdictKeepsInv(scans: seq<ScanResult>, s: State, choice: bool)
    requires ValidScans(scans) && Inv(scans, s) && (s.client == ReadVerdict || s.client == ReadNum)
    ensures Inv(scans, ClientStep(s, choice).value)
  {
    hide ScanInv, Strong, Passes;
    ScanInvFrame(scans, s, ClientStep(s, choice).value.client, s.sem, s.pass);
    NothingStrong(s.aps);
    if !(s.status.scanEnd && s.apNum > 0) {
      NothingListed(scans, s);
    }
  }

  lemma {:induction false} JudgeKeepsInv(scans: seq<ScanResult>, s: State, i: nat, choice: bool)
    requires ValidScans(scans) && Inv(scans, s) && s.client == Judge(i)
    ensures Inv(scans, ClientStep(s, choice).value)
  {
    hide ScanInv, Strong, Passes;
    var t := ClientStep(s, choice).value;
    ScanInvFrame(scans, s, t.client, t.sem, t.pass);
    if i < s.apNum && i < |s.aps| {
      StrongSnoc(s.aps, i);
    } else {
      AllJudged(scans, s, i);
    }
  }

  lemma {:induction false} NothingStrong(aps: seq<Ap>)
    ensures !Strong(aps[..0])
  {
  }

  lemma {:induction false} NothingListed(scans: seq<ScanResult>, s: State)
    requires ValidScans(scans) && ScanInv(scans, s) && s.scan.Finished? && !(s.status.scanEnd && s.apNum > 0)
    ensures !Passes(scans)
  {
  }

  lemma {:induction false} AllJudged(scans: seq<ScanResult>, s: State, i: nat)
    requires ValidScans(scans) && ScanInv(scans, s) && s.scan.Finished? && |s.aps| == WIFI_MAX_AP
    requires 0 < s.apNum && i <= s.apNum && (i >= s.apNum || i >= |s.aps|)
    ensures i <= |s.aps| && Strong(s.aps[..i]) == Passes(scans)
  {
    hide FoundIn, NoneBefore;
    var f := FinalScan(scans);
    assert scans[f] in scans;
    assert s.aps[..i] == scans[f].rows;
  }

  lemma {:induction false} StepKeepsInv(scans: seq<ScanResult>, s: State, a: Action)
    requires ValidScans(scans) && Inv(scans, s) && Step(scans, s, a).Some?
    ensures Inv(scans, Step(scans, s, a).value)
  {
    match a
    case Client(choice) => ClientStepKeepsInv(scans, s, choice);
    case Scan => ScanStepKeepsInv(scans, s);
    case Signal =>
  }

  lemma {:induction false} ReachableInv(scans: seq<ScanResult>, s: State, acts: seq<Action>)
    requires ValidScans(scans) && Inv(scans, s) && Exec(scans, s, acts).Some?
    ensures Inv(scans, Exec(scans, s, acts).value)
    decreases acts
  {
    if acts != [] {
      StepKeepsInv(scans, s, acts[0]);
      ReachableInv(scans, Step(scans, s, acts[0]).value, acts[1..]);
    }
  }

  predicate PastSecondWait(pc: ClientPc) {
    pc.ReadVerdict? || pc.ReadNum? || pc.Judge? || (pc.Returned? && pc.outcome.Verdict?)
  }

  /** In every interleaving of a test that starts on a closed interface: from its initialisation on the
      semaphore never exceeds one; once the client is past its second wait the scan thread has
      finished, the scanning bit is clear, the end bit says whether anything was listed, and the table is
      that of the final scan; and whatever verdict is returned is the one that scan deserves. */
  lemma {:induction false} ScanHandshake(scans: seq<ScanResult>, s: State, acts: seq<Action>)
    requires ValidScans(scans) && Fresh(s) && !s.status.isOpen && Exec(scans, s, acts).Some?
    ensures var e, f := Exec(scans, s, acts).value, FinalScan(scans);
            && (e.client != SemInit ==> e.sem <= 1)
            && e.made <= RETRIES
            && (PastSecondWait(e.client) ==>
                  && e.scan == Finished && e.status == Status(true, false, Num(scans[f]) > 0)
                  && e.made == f + 1 && (e.made < RETRIES ==> FoundIn(scans[f]))
                  && e.apNum == (if scans[f].Rows? then |scans[f].rows| else -2) && Holds(e, scans[f]))
            && (e.client.Returned? ==> e.client.outcome == StartFailed || e.client.outcome == Verdict(Passes(scans)))
  {
    assert Inv(scans, s);
    ReachableInv(scans, s, acts);
  }

  // ----- every test ends -----

  /** An upper bound on the steps the two threads can still take. */
  function ClientRank(pc: ClientPc): nat {
    match pc
    case SemInit => 320 case ReadOpened => 319 case CloseStale => 318 case StartDriver => 317
    case ResetStatus => 316 case ResetNum => 315 case SpawnEvents => 314 case LoadOpened => 313
    case StoreOpened => 312 case PostOpened => 311 case FirstWait => 310 case ReadScanEnd => 309
    case CheckOpened => 308 case LoadScanning => 307 case StoreScanning => 306 case LoadScanEnd => 305
    case StoreScanEnd => 304 case SpawnScan => 303
    case SecondWait => 31 case ReadVerdict => 30 case ReadNum => 29
    case Judge(i) => if i <= WIFI_MAX_AP then 28 - i else 1
    case Returned(_) => 0
  }

  function Left(r: nat): nat { if r < RETRIES then 30 * (RETRIES - r) else 0 }

  function ScanRank(pc: ScanPc): nat {
    match pc
    case Unstarted => 0
    case Command(r) => 10 + Left(r)
    case Waiting(r) => 9 + Left(r)
    case Woken(r) => 8 + Left(r)
    case Filling(r, k) => if k <= WIFI_MAX_AP && Left(r) >= 30 then 7 + Left(r) - k else 0
    case Publish(r) => if Left(r) >= 30 then Left(r) - 15 else 0
    case Search(r) => if Left(r) >= 30 then Left(r) - 16 else 0
    case LoadClear => 6 case StoreClear => 5 case LoadEnd => 4 case StoreEnd => 3 case PostEnd => 2 case Finished => 0
  }

  function Rank(s: State): nat { ClientRank(s.client) + ScanRank(s.scan) }

  /** While opening, and from the first wait to the spawning of the scan, the client moves on alone. */
  ghost predicate MovesOn(s: State, choice: bool) {
    ClientStep(s, choice).Some? ==>
      var t := ClientStep(s, choice).value; t.scan == s.scan && ClientRank(t.client) < ClientRank(s.client)
  }

  predicate Opening(pc: ClientPc) {
    pc.SemInit? || pc.ReadOpened? || pc.CloseStale? || pc.StartDriver? || pc.ResetStatus? || pc.ResetNum?
    || pc.SpawnEvents? || pc.LoadOpened? || pc.StoreOpened? || pc.PostOpened?
  }

  predicate Starting(pc: ClientPc) {
    pc.FirstWait? || pc.ReadScanEnd? || pc.CheckOpened? || pc.LoadScanning? || pc.StoreScanning? || pc.LoadScanEnd?
    || pc.StoreScanEnd?
  }

  lemma {:induction false} OpeningRanks(s: State, choice: bool)
    requires Opening(s.client)
    ensures MovesOn(s, choice)
  {
  }

  lemma {:induction false} StartingRanks(s: State, choice: bool)
    requires Starting(s.client)
    ensures MovesOn(s, choice)
  {
  }

  lemma {:induction false} JudgingRanks(s: State, choice: bool)
    requires s.client.SecondWait? || s.client.ReadVerdict? || s.client.ReadNum? || s.client.Judge?
    requires |s.aps| == WIFI_MAX_AP
    ensures MovesOn(s, choice)
  {
  }

  lemma {:induction false} SpawnRanks(s: State, choice: bool)
    requires s.client.SpawnScan? && s.scan.Unstarted?
    ensures ClientStep(s, choice).Some? && Rank(ClientStep(s, choice).value) < Rank(s)
  {
  }

  lemma {:induction false} ClientStepRanks(s: State, choice: bool)
    requires s.client.SpawnScan? ==> s.scan.Unstarted?
    requires |s.aps| == WIFI_MAX_AP
    ensures ClientStep(s, choice).Some? ==> Rank(ClientStep(s, choice).value) < Rank(s)
  {
    hide ClientStep, ClientRank, ScanRank;
    if Opening(s.client) {
      OpeningRanks(s, choice);
    } else if Starting(s.client) {
      StartingRanks(s, choice);
    } else if s.client.SpawnScan? {
      SpawnRanks(s, choice);
    } else if s.client.Returned? {
      ReturnedStays(s, choice);
    } else {
      JudgingRanks(s, choice);
    }
  }

  lemma {:induction false} ReturnedStays(s: State, choice: bool)
    requires s.client.Returned?
    ensures ClientStep(s, choice).None?
  {
  }

  lemma {:induction false} ScanStepRanks(scans: seq<ScanResult>, s: State)
    requires ValidScans(scans) && Inv(scans, s)
    ensures ScanStep(scans, s).Some? ==> Rank(ScanStep(scans, s).value) < Rank(s)
  {
    hide Strong, Passes, FoundIn, Holds, FinalTable, Found;
    if s.scan.Filling? && s.scan.r < RETRIES {
      assert scans[s.scan.r] in scans;
    }
  }

  lemma {:induction false} StepRanks(scans: seq<ScanResult>, s: State, a: Action)
    requires ValidScans(scans) && Inv(scans, s) && Step(scans, s, a).Some?
    ensures var t := Step(scans, s, a).value; if a.Signal? then Rank(t) <= Rank(s) else Rank(t) < Rank(s)
  {
    match a
    case Client(choice) =>
      ClientStepRanks(s, choice);
    case Scan =>
      ScanStepRanks(scans, s);
    case Signal =>
  }

  /** The steps of the client and of the scan thread in a schedule. */
  function Moves(acts: seq<Action>): nat {
    if acts == [] then 0 else (if acts[0].Signal? then 0 else 1) + Moves(acts[1..])
  }

  lemma {:induction false} MovesBounded(scans: seq<ScanResult>, s: State, acts: seq<Action>)
    requires ValidScans(scans) && Inv(scans, s) && Exec(scans, s, acts).Some?
    ensures Moves(acts) + Rank(Exec(scans, s, acts).value) <= Rank(s)
    decreases acts
  {
    if acts != [] {
      StepKeepsInv(scans, s, acts[0]);
      StepRanks(scans, s, acts[0]);
      MovesBounded(scans, Step(scans, s, acts[0]).value, acts[1..]);
    }
  }

  /** Until the test returns, the client or the scan thread can move: the client waits only while a scan
      is under way or a token is there. */
  lemma {:induction false} SomeoneCanMove(scans: seq<ScanResult>, s: State)
    requires ValidScans(scans) && Inv(scans, s) && !s.client.Returned?
    ensures ClientStep(s, true).Some? || ScanStep(scans, s).Some?
  {
    hide Strong, Passes, FoundIn, Holds, FinalTable, Found;
  }

  /** Every test on a closed interface ends: under any scheduling the two threads take at most 320 steps,
      and when neither can take another the client has returned. */
  lemma {:induction false} TestEnds(scans: seq<ScanResult>, s: State, acts: seq<Action>)
    requires ValidScans(scans) && Fresh(s) && !s.status.isOpen && Exec(scans, s, acts).Some?
    ensures Moves(acts) <= 320
    ensures var e := Exec(scans, s, acts).value;
            ClientStep(e, true).None? && ScanStep(scans, e).None? ==> e.client.Returned?
  {
    assert Inv(scans, s);
    MovesBounded(scans, s, acts);
    ReachableInv(scans, s, acts);
    var e := Exec(scans, s, acts).value;
    if !e.client.Returned? {
      SomeoneCanMove(scans, e);
    }
  }

  // ----- a second test -----

  ghost predicate GivesVerdict(scans: seq<ScanResult>, s: State, acts: seq<Action>)
    requires |scans| == RETRIES
  {
    var e := Exec(scans, s, acts);
    e.Some? && e.value.client.Returned? && e.value.client.outcome.Verdict?
  }

  /** On an open interface the opening that posts the first token is skipped, and nobody else posts one. */
  predicate Starved(s: State) {
    && s.scan.Unstarted? && s.status.isOpen
    && (s.client.SemInit? || (s.sem == 0 && (s.client.ReadOpened? || s.client.FirstWait?)))
  }

  lemma {:induction false} StaysStarved(scans: seq<ScanResult>, s: State, acts: seq<Action>)
    requires |scans| == RETRIES && Starved(s) && Exec(scans, s, acts).Some?
    ensures Starved(Exec(scans, s, acts).value)
    decreases acts
  {
    if acts != [] {
      assert Starved(Step(scans, s, acts[0]).value);
      StaysStarved(scans, Step(scans, s, acts[0]).value, acts[1..]);
    }
  }

  /** A schedule that lets the drivers succeed, the client run when it can and the scan thread otherwise. */
  lemma {:induction false} VerdictSchedule(scans: seq<ScanResult>, s: State) returns (acts: seq<Action>)
    requires ValidScans(scans) && Inv(scans, s) && s.client != Returned(StartFailed)
    ensures GivesVerdict(scans, s, acts)
    decreases Rank(s)
  {
    if s.client.Returned? {
      acts := [];
    } else {
      SomeoneCanMove(scans, s);
      var a := if ClientStep(s, true).Some? then Client(true) else Scan;
      assert Step(scans, s, a).Some?;
      var t := Step(scans, s, a).value;
      StepKeepsInv(scans, s, a);
      StepRanks(scans, s, a);
      StartNotRefused(scans, s, a);
      var rest := VerdictSchedule(scans, t);
      acts := [a] + rest;
      assert acts[1..] == rest;
    }
  }

  lemma {:induction false} StartNotRefused(scans: seq<ScanResult>, s: State, a: Action)
    requires ValidScans(scans) && Inv(scans, s) && s.client != Returned(StartFailed)
    requires a in {Client(true), Scan} && Step(scans, s, a).Some?
    ensures Step(scans, s, a).value.client != Returned(StartFailed)
  {
    hide Strong, Passes, ScanInv;
  }

  /** A test can come to a verdict exactly when the interface is not already open: a second test on an
      interface left open waits forever for its first token. */
  lemma {:induction false} VerdictIffClosed(scans: seq<ScanResult>, s: State)
    requires ValidScans(scans) && Fresh(s)
    ensures (exists acts :: GivesVerdict(scans, s, acts)) <==> !s.status.isOpen
  {
    if s.status.isOpen {
      forall acts | Exec(scans, s, acts).Some?
        ensures !GivesVerdict(scans, s, acts)
      {
        StaysStarved(scans, s, acts);
      }
    } else {
      assert Inv(scans, s);
      var acts := VerdictSchedule(scans, s);
    }
  }

  /** The test called again, on what the last one left behind. */
  function Again(s: State): State { s.(client := SemInit, scan := Unstarted, made := 0) }

  /** Once a test on a closed interface has returned its scan thread is gone, so it can be run again; the
      second one can come to a verdict if and only if the first failed to start. */
  lemma {:induction false} SecondTest(scans: seq<ScanResult>, s: State, acts: seq<Action>, scans2: seq<ScanResult>)
    requires ValidScans(scans) && Fresh(s) && !s.status.isOpen
    requires Exec(scans, s, acts).Some? && Exec(scans, s, acts).value.client.Returned?
    requires ValidScans(scans2)
    ensures var e := Exec(scans, s, acts).value;
            && (e.scan == Unstarted || e.scan == Finished) && Fresh(Again(e))
            && ((exists more :: GivesVerdict(scans2, Again(e), more)) <==> e.client.outcome == StartFailed)
  {
    hide Exec, GivesVerdict, FinalTable, Passes, Holds;
    assert Inv(scans, s);
    ReachableInv(scans, s, acts);
    VerdictIffClosed(scans2, Again(Exec(scans, s, acts).value));
  }

  // ----- the client's last loop, on the records themselves -----

  ghost function Listed(aps: seq<WifiAp>, n: nat): seq<Ap>
    requires n <= |aps|
    reads Objects(aps)
  {
    if n == 0 then [] else Listed(aps, n - 1) + [aps[n - 1].Contents()]
  }

  /** The loop over the table that sets the test result. */
  method WifiResult(aps: seq<WifiAp>, apNum: int, before: bool) returns (pass: bool)
    requires apNum <= |aps|
    ensures var rows := Listed(aps, if apNum < 0 then 0 else apNum);
            pass == if Found(rows) then Strong(rows) else before
  {
    pass := before;
    for i := 0 to (if apNum < 0 then 0 else apNum)
      invariant pass == if Found(Listed(aps, i)) then Strong(Listed(aps, i)) else before
    {
      var ap := aps[i].Contents();
      StrongAppend(Listed(aps, i), ap);
      FoundAppend(Listed(aps, i), ap);
      if Factory(ap) {
        pass := Loud(ap);
      }
    }
  }

  lemma {:induction false} FoundAppend(a: seq<Ap>, x: Ap)
    ensures Found(a + [x]) == (Factory(x) || Found(a))
  {
    var b := a + [x];
    assert b[|a|] == x && forall j :: 0 <= j < |a| ==> b[j] == a[j];
  }
}
