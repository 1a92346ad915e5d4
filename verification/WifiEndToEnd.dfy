/**
  From what the supplicant lists to the verdict of the test: parser and protocol put together.
 */
module WifiEndToEnd {
  import opened CStrings
  import opened WifiTable
  import opened WifiTableText
  import opened WifiScan

  /** One scan as the supplicant sees it: its command fails, its reply is something else, such as an error
      message, or it lists access points. */
  datatype Listing = NoScan | Other(text: string) | Listing(header: string, rows: seq<Row>)

  ghost predicate Printable(l: Listing) {
    match l
    case NoScan => true
    case Other(text) => NUL !in text && forall i :: !StandsAt(text, i, "bssid")
    case Listing(header, rows) => OneLine(header) && "bssid" <= header && forall r :: r in rows ==> Listable(r)
  }

  /** The scan result the parser makes of a reply, whatever memory follows it. */
  ghost predicate ComesFrom(r: ScanResult, l: Listing) {
    match l
    case NoScan => r == CommandFailed
    case Other(text) => exists beyond :: ParsedFrom(r, text, beyond)
    case Listing(header, rows) => exists beyond :: ParsedFrom(r, RenderTable(header, rows), beyond)
  }

  ghost predicate ParsedFrom(r: ScanResult, text: string, beyond: string) {
    var buf := text + [NUL] + beyond;
    if Accepted(buf, |text|) then
      ReplyInBounds(buf, |text|, WIFI_MAX_AP) && r == Rows(ScanRows(buf, |text|, WIFI_MAX_AP))
    else r == ReplyRefused
  }

  /** A reply without "bssid" in it is refused. */
  lemma {:induction false} OtherRefused(r: ScanResult, text: string, beyond: string)
    requires NUL !in text && (forall i :: !StandsAt(text, i, "bssid")) && ParsedFrom(r, text, beyond)
    ensures r == ReplyRefused
  {
    var buf, w := text + [NUL] + beyond, "bssid";
    AcceptedIff(buf, |text|);
    forall i: nat | StandsAt(buf, i, w)
      ensures StandsAt(text, i, w)
    {
      assert buf[|text|] == NUL;
      NoNulBefore(buf, i + |w|);
      CStrOfBuffer(text, buf);
      assert text[i..i + |w|] == buf[i..i + |w|] && text[..i + |w|] == buf[..i + |w|];
    }
  }

  /** The rows there is room for. */
  function Room(rows: seq<Row>): (r: seq<Row>)
    ensures r <= rows && |r| == if |rows| < WIFI_MAX_AP then |rows| else WIFI_MAX_AP
  {
    if |rows| <= WIFI_MAX_AP then rows else rows[..WIFI_MAX_AP]
  }

  predicate Ours(r: Row) { r.ssid == FACTORY_ZIB_WIFI_SSID }

  predicate ListsOurs(l: Listing) { l.Listing? && exists i :: 0 <= i < |Room(l.rows)| && Ours(Room(l.rows)[i]) }

  /** The last of our rows there is room for is strong enough. */
  predicate OursIsStrong(l: Listing) {
    l.Listing?
    && var rows := Room(l.rows);
       exists i :: 0 <= i < |rows| && Ours(rows[i]) && rows[i].sigLevel > FACTORY_ZIB_SIG_LEVEL
                   && forall j :: i < j < |rows| ==> !Ours(rows[j])
  }

  /** The first listing with our network, else the last. */
  function FinalListing(ls: seq<Listing>): (f: nat)
    requires |ls| == RETRIES
    ensures f < RETRIES
  {
    if ListsOurs(ls[0]) then 0 else if ListsOurs(ls[1]) then 1 else 2
  }

  ghost predicate AllFrom(scans: seq<ScanResult>, ls: seq<Listing>) {
    |scans| == |ls| == RETRIES && forall i :: 0 <= i < RETRIES ==> Printable(ls[i]) && ComesFrom(scans[i], ls[i])
  }

  /** A record kept has the factory's name exactly if its row has. */
  lemma {:induction false} KeptName(r: Row)
    ensures Factory(Kept(r)) <==> Ours(r)
    ensures Loud(Kept(r)) <==> r.sigLevel > FACTORY_ZIB_SIG_LEVEL
  {
  }

  lemma {:induction false} ListingKept(r: ScanResult, l: Listing)
    requires Printable(l) && ComesFrom(r, l) && l.Listing?
    ensures r.Rows? && |r.rows| == |Room(l.rows)|
    ensures forall i :: 0 <= i < |r.rows| ==> r.rows[i] == Kept(Room(l.rows)[i])
  {
    hide *;
    var beyond := ReplyOf(r, l);
    TextKept(r, l.header, l.rows, beyond);
  }

  lemma {:induction false} ReplyOf(r: ScanResult, l: Listing) returns (beyond: string)
    requires Printable(l) && ComesFrom(r, l) && l.Listing?
    ensures ParsedFrom(r, RenderTable(l.header, l.rows), beyond)
    ensures OneLine(l.header) && "bssid" <= l.header && forall row :: row in l.rows ==> Listable(row)
  {
    hide ParsedFrom, RenderTable, OneLine, Listable;
    beyond :| ParsedFrom(r, RenderTable(l.header, l.rows), beyond);
  }

  lemma {:induction false} TextKept(r: ScanResult, header: string, rows: seq<Row>, beyond: string)
    requires OneLine(header) && "bssid" <= header && forall row :: row in rows ==> Listable(row)
    requires ParsedFrom(r, RenderTable(header, rows), beyond)
    ensures r.Rows? && |r.rows| == |Room(rows)|
    ensures forall i :: 0 <= i < |r.rows| ==> r.rows[i] == Kept(Room(rows)[i])
  {
    RenderParse(header, rows, WIFI_MAX_AP, beyond);
    hide RenderTable, ReplyInBounds, ScanRows, Listable, Kept, OneLine, LineCount, RowAt, Accepted;
  }

  lemma {:induction false} NoRows(r: ScanResult, l: Listing)
    requires Printable(l) && ComesFrom(r, l) && !l.Listing?
    ensures !r.Rows?
  {
    hide ParsedFrom;
    if l.Other? {
      var beyond :| ParsedFrom(r, l.text, beyond);
      OtherRefused(r, l.text, beyond);
    }
  }

  lemma {:induction false} ListingJudged(r: ScanResult, l: Listing)
    requires Printable(l) && ComesFrom(r, l)
    ensures FoundIn(r) <==> ListsOurs(l)
    ensures r.Rows? && Strong(r.rows) <==> OursIsStrong(l)
    ensures r.Rows? ==> |r.rows| <= WIFI_MAX_AP
  {
    hide Strong, Found, Factory, Loud, Ours, Kept, Room, Printable, ParsedFrom, RenderTable;
    if l.Listing? {
      ListingKept(r, l);
      SameRows(r.rows, Room(l.rows));
    } else {
      NoRows(r, l);
    }
  }

  lemma {:induction false} SameRows(aps: seq<Ap>, rows: seq<Row>)
    requires |aps| == |rows| && forall i :: 0 <= i < |aps| ==> aps[i] == Kept(rows[i])
    ensures Found(aps) <==> exists i :: 0 <= i < |rows| && Ours(rows[i])
    ensures Strong(aps) <==>
              exists i :: 0 <= i < |rows| && Ours(rows[i]) && rows[i].sigLevel > FACTORY_ZIB_SIG_LEVEL
                          && forall j :: i < j < |rows| ==> !Ours(rows[j])
  {
    forall i | 0 <= i < |rows|
      ensures (Factory(aps[i]) <==> Ours(rows[i])) && (Loud(aps[i]) <==> rows[i].sigLevel > FACTORY_ZIB_SIG_LEVEL)
    {
      KeptName(rows[i]);
    }
    hide Factory, Loud, Ours, Kept;
  }

  lemma {:induction false} FinalListingIs(scans: seq<ScanResult>, ls: seq<Listing>)
    requires AllFrom(scans, ls)
    ensures ValidScans(scans) && FinalScan(scans) == FinalListing(ls)
    ensures Passes(scans) <==> OursIsStrong(ls[FinalListing(ls)])
  {
    hide ComesFrom, FoundIn, ListsOurs, Strong, OursIsStrong, Printable;
    forall i | 0 <= i < RETRIES
      ensures FoundIn(scans[i]) <==> ListsOurs(ls[i])
      ensures scans[i].Rows? && Strong(scans[i].rows) <==> OursIsStrong(ls[i])
      ensures scans[i].Rows? ==> |scans[i].rows| <= WIFI_MAX_AP
    {
      ListingJudged(scans[i], ls[i]);
    }
  }

  /** In every interleaving of a test on a closed interface: if the scans come from these listings, a verdict
      is a pass exactly when, among the first twenty rows of the first listing with the factory's network,
      or else of the last, the last row of that network has a level above the limit. */
  lemma {:induction false} VerdictOfListings(scans: seq<ScanResult>, ls: seq<Listing>, s: State, acts: seq<Action>)
    requires AllFrom(scans, ls) && Fresh(s) && !s.status.isOpen && Exec(scans, s, acts).Some?
    ensures var e := Exec(scans, s, acts).value;
            e.client.Returned? && e.client.outcome != StartFailed ==>
              && e.client.outcome == Verdict(OursIsStrong(ls[FinalListing(ls)]))
              && e.made == FinalListing(ls) + 1
  {
    hide AllFrom, Exec, Fresh, Passes, FinalScan, OursIsStrong, FinalListing, ValidScans;
    FinalListingIs(scans, ls);
    ScanHandshake(scans, s, acts);
  }
}
