/**
  The scan-table parser: two levels of cursors over the supplicant's reply, and bounded copies into
  the fixed buffers of the access-point records. `buf` is the memory from the start of the reply on.
 */
module WifiTable {
  import opened CStrings

  const MAC_SIZE := 32
  const NAME_SIZE := 64
  const NUMBER_SIZE := 32

  /** What a record means to its readers. */
  datatype Ap = Ap(mac: string, name: string, sigLevel: int, frequency: int)

  /** The full state of a record, including what its buffers hold past their terminators. */
  datatype RawAp = RawAp(smac: string, name: string, sigLevel: int, frequency: int)

  class WifiAp {
    const smac: array<char>
    const name: array<char>
    var sigLevel: int
    var frequency: int

    constructor ()
      ensures Valid() && fresh(smac) && fresh(name)
    {
      smac := new char[MAC_SIZE](_ => NUL);
      name := new char[NAME_SIZE](_ => NUL);
      sigLevel, frequency := 0, 0;
    }

    predicate Valid() { smac.Length == MAC_SIZE && name.Length == NAME_SIZE && smac != name }

    function Repr(): set<object> { {this, smac, name} }

    ghost function Raw(): RawAp
      reads Repr()
    {
      RawAp(smac[..], name[..], sigLevel, frequency)
    }

    function Contents(): Ap
      reads Repr()
    {
      Ap(CStr(smac[..]), CStr(name[..]), sigLevel, frequency)
    }
  }

  // ----- where the cursors go -----

  /** Where a field loop stops: at a tab or, having looked at it, at the end of the line. */
  function FieldEnd(buf: string, p: nat, end: nat): (e: nat)
    ensures p <= e && (p <= end ==> e <= end) && (p >= end ==> e == p)
    decreases end - p
  {
    if (p < |buf| && buf[p] == '\t') || p >= end then p else FieldEnd(buf, p + 1, end)
  }

  /** Past the separator, and past a second one. */
  function AfterField(buf: string, e: nat): (p: nat)
    ensures e < p <= e + 2
  {
    if e + 1 < |buf| && buf[e + 1] == '\t' then e + 2 else e + 1
  }

  datatype Marks = Marks(macEnd: nat, freq: nat, freqEnd: nat, level: nat, levelEnd: nat, flags: nat, flagsEnd: nat,
                         name: nat, nameEnd: nat)

  function FieldMarks(buf: string, begin: nat, end: nat): (m: Marks)
    ensures begin <= m.macEnd < m.freq <= m.freqEnd < m.level <= m.levelEnd
    ensures m.levelEnd < m.flags <= m.flagsEnd < m.name <= m.nameEnd
  {
    var macEnd := FieldEnd(buf, begin, end);
    var freq := AfterField(buf, macEnd);
    var freqEnd := FieldEnd(buf, freq, end);
    var level := AfterField(buf, freqEnd);
    var levelEnd := FieldEnd(buf, level, end);
    var flags := AfterField(buf, levelEnd);
    var flagsEnd := FieldEnd(buf, flags, end);
    var name := AfterField(buf, flagsEnd);
    Marks(macEnd, freq, freqEnd, level, levelEnd, flags, flagsEnd, name, FieldEnd(buf, name, end))
  }

  /** The line parser stays within `buf`, which it reads up to where its last cursor stops,
      and within the local buffer it copies the frequency into without a bound. */
  predicate LineInBounds(buf: string, begin: nat, end: nat) {
    var m := FieldMarks(buf, begin, end);
    m.nameEnd < |buf| && m.freqEnd - m.freq < NUMBER_SIZE
  }

  /** The record the cursors cut out of a line. */
  function LineAp(buf: string, begin: nat, end: nat): Ap
    requires LineInBounds(buf, begin, end)
  {
    var m := FieldMarks(buf, begin, end);
    Ap(CStr(Cut(buf[begin..m.macEnd], MAC_SIZE - 1)),
       CStr(Cut(buf[m.name..m.nameEnd], NAME_SIZE - 1)),
       Strtol(CStr(Cut(buf[m.level..m.levelEnd], NUMBER_SIZE - 1)), Decimal),
       Strtol(CStr(buf[m.freq..m.freqEnd]), Decimal))
  }

  // ----- the line parser -----

  /** The bounded copy loop shared by the address, the level and the name, with its terminator. */
  method CopyField(buf: string, begin: nat, end: nat, dst: array<char>) returns (pcur: nat)
    requires FieldEnd(buf, begin, end) < |buf| && dst.Length > 0
    modifies dst
    ensures pcur == FieldEnd(buf, begin, end)
    ensures CStr(dst[..]) == CStr(Cut(buf[begin..pcur], dst.Length - 1))
  {
    pcur := begin;
    var i := 0;
    while buf[pcur] != '\t' && pcur < end
      invariant begin <= pcur <= FieldEnd(buf, begin, end) == FieldEnd(buf, pcur, end)
      invariant i <= dst.Length - 1 && i <= pcur - begin && (i < dst.Length - 1 ==> i == pcur - begin)
      invariant dst[..i] == Cut(buf[begin..pcur], dst.Length - 1)
      decreases end - pcur
    {
      assert buf[begin..pcur + 1] == buf[begin..pcur] + [buf[pcur]];
      if i < dst.Length - 1 {
        dst[i] := buf[pcur];
        i := i + 1;
        assert dst[..i] == buf[begin..pcur] + [buf[pcur]];
      } else {
        assert dst[..i] == buf[begin..pcur + 1][..dst.Length - 1];
      }
      pcur := pcur + 1;
    }
    dst[i] := NUL;
    CStrOfBuffer(Cut(buf[begin..pcur], dst.Length - 1), dst[..]);
  }

  /** The frequency is copied without a bound into a zeroed buffer. */
  method CopyFrequency(buf: string, begin: nat, end: nat, dst: array<char>) returns (pcur: nat, fn: nat)
    requires FieldEnd(buf, begin, end) < |buf| && FieldEnd(buf, begin, end) - begin < dst.Length
    requires forall i :: 0 <= i < dst.Length ==> dst[i] == NUL
    modifies dst
    ensures pcur == FieldEnd(buf, begin, end) && fn == pcur - begin
    ensures CStr(dst[..]) == CStr(buf[begin..pcur])
  {
    pcur, fn := begin, 0;
    while buf[pcur] != '\t' && pcur < end
      invariant begin <= pcur <= FieldEnd(buf, begin, end) == FieldEnd(buf, pcur, end)
      invariant fn == pcur - begin && dst[..fn] == buf[begin..pcur]
      invariant forall i :: fn <= i < dst.Length ==> dst[i] == NUL
      decreases end - pcur
    {
      dst[fn] := buf[pcur];
      fn := fn + 1;
      pcur := pcur + 1;
    }
    CStrOfBuffer(buf[begin..pcur], dst[..]);
  }

  method SkipField(buf: string, begin: nat, end: nat) returns (pcur: nat)
    requires FieldEnd(buf, begin, end) < |buf|
    ensures pcur == FieldEnd(buf, begin, end)
  {
    pcur := begin;
    while buf[pcur] != '\t' && pcur < end
      invariant begin <= pcur <= FieldEnd(buf, begin, end) == FieldEnd(buf, pcur, end)
      decreases end - pcur
    {
      pcur := pcur + 1;
    }
  }

  method SkipTabs(buf: string, e: nat) returns (pcur: nat)
    requires e + 1 < |buf|
    ensures pcur == AfterField(buf, e)
  {
    pcur := e + 1;
    if buf[pcur] == '\t' {
      pcur := pcur + 1;
    }
  }

  method WifiParseLine(buf: string, begin: nat, end: nat, ap: WifiAp)
    requires ap.Valid() && begin <= end && LineInBounds(buf, begin, end)
    modifies ap, ap.smac, ap.name
    ensures ap.Contents() == LineAp(buf, begin, end)
  {
    hide FieldEnd, CStr, Strtol, AfterField;
    ghost var m, row := FieldMarks(buf, begin, end), LineAp(buf, begin, end);
    var siglev := new char[NUMBER_SIZE](_ => NUL);
    var freq := new char[NUMBER_SIZE](_ => NUL);
    // bssid
    var pcur := CopyField(buf, begin, end, ap.smac);
    ghost var mac := ap.smac[..];
    assert CStr(mac) == row.mac;
    pcur := SkipTabs(buf, pcur);
    assert pcur == m.freq;
    // frequency
    var fn: nat;
    pcur, fn := CopyFrequency(buf, pcur, end, freq);
    siglev[fn] := NUL;
    ap.frequency := Strtol(CStr(freq[..]), Decimal);
    assert ap.frequency == row.frequency;
    pcur := SkipTabs(buf, pcur);
    assert pcur == m.level;
    // signal level
    pcur := CopyField(buf, pcur, end, siglev);
    ap.sigLevel := Strtol(CStr(siglev[..]), Decimal);
    assert ap.sigLevel == row.sigLevel;
    pcur := SkipTabs(buf, pcur);
    assert pcur == m.flags;
    // flags
    pcur := SkipField(buf, pcur, end);
    pcur := SkipTabs(buf, pcur);
    assert pcur == m.name;
    // ssid
    assert ap.smac[..] == mac;
    pcur := CopyField(buf, pcur, end, ap.name);
    assert ap.smac[..] == mac;
    assert ap.Contents() == Ap(CStr(mac), CStr(ap.name[..]), ap.sigLevel, ap.frequency);
    assert CStr(ap.name[..]) == row.name;
  }

  // ----- the table parser -----

  /** Past the first line or, if it is never ended, at the end of the reply. */
  function SkipLine(buf: string, p: nat, len: nat): (q: nat)
    requires p < len <= |buf|
    ensures p < q <= len
    decreases len - p
  {
    if buf[p] == '\n' || p + 1 >= len then p + 1 else SkipLine(buf, p + 1, len)
  }

  /** Where a line ends: at its newline or, for want of one, one past the terminator of the reply. */
  function LineEnd(buf: string, p: nat, len: nat): (e: nat)
    requires p <= len < |buf|
    ensures p <= e <= len + 1
    decreases len - p
  {
    if buf[p] == '\n' then p else if p == len then p + 1 else LineEnd(buf, p + 1, len)
  }

  /** Where the line after `k` data lines begins; at or past `len` when there is none. */
  function LineStart(buf: string, len: nat, k: nat): nat
    requires 0 < len < |buf|
  {
    if k == 0 then SkipLine(buf, 0, len)
    else
      var p := LineStart(buf, len, k - 1);
      if p >= len then p else LineEnd(buf, p, len) + 1
  }

  /** How many data lines there are, up to `n`. */
  function LineCount(buf: string, len: nat, n: nat): (c: nat)
    requires 0 < len < |buf|
    ensures c <= n && (forall k :: 0 <= k < c ==> LineStart(buf, len, k) < len)
    ensures c < n ==> LineStart(buf, len, c) >= len
  {
    if n == 0 then 0
    else
      var c := LineCount(buf, len, n - 1);
      if c == n - 1 && LineStart(buf, len, n - 1) < len then n else c
  }

  ghost predicate Separate(aps: seq<WifiAp>) {
    && (forall k :: 0 <= k < |aps| ==> aps[k].Valid())
    && (forall j, k :: 0 <= j < k < |aps| ==> aps[j].Repr() !! aps[k].Repr())
  }

  predicate Accepted(buf: string, len: int) { len > 0 && Contains(CStr(buf), "bssid") }

  /** The word stands at position `i`, ahead of any terminator. */
  predicate StandsAt(buf: string, i: nat, w: string) {
    i + |w| <= |buf| && NUL !in buf[..i + |w|] && buf[i..i + |w|] == w
  }

  lemma {:induction false} NoNulBefore(buf: string, n: nat)
    requires n <= |buf| && NUL !in buf[..n]
    ensures n <= |CStr(buf)|
  {
    if n > 0 {
      assert buf[0] == buf[..n][0] && buf[..n][1..] == buf[1..][..n - 1];
      NoNulBefore(buf[1..], n - 1);
    }
  }

  lemma {:induction false} ContainsIff(buf: string, w: string)
    ensures Contains(CStr(buf), w) <==> exists i :: StandsAt(buf, i, w)
  {
    hide CStr;
    var s := CStr(buf);
    if i :| 0 <= i <= |s| && w <= s[i..] {
      FoundStands(buf, i, w);
    }
    if i: nat :| StandsAt(buf, i, w) {
      StandsFound(buf, i, w);
    }
  }

  lemma {:induction false} FoundStands(buf: string, i: nat, w: string)
    requires i <= |CStr(buf)| && w <= CStr(buf)[i..]
    ensures StandsAt(buf, i, w)
  {
    hide CStr;
    var s, n := CStr(buf), |w|;
    assert i + n <= |s| && s[i..][..n] == s[i..i + n];
    assert buf[..i + n] == s[..i + n] && buf[i..i + n] == s[i..i + n];
  }

  lemma {:induction false} StandsFound(buf: string, i: nat, w: string)
    requires StandsAt(buf, i, w)
    ensures i <= |CStr(buf)| && w <= CStr(buf)[i..]
  {
    hide CStr;
    var s, n := CStr(buf), |w|;
    NoNulBefore(buf, i + n);
    assert s[i..][..n] == s[i..i + n] == buf[i..i + n];
  }

  /** A reply is accepted exactly if it has a length and "bssid" stands somewhere ahead of its terminator. */
  lemma {:induction false} AcceptedIff(buf: string, len: int)
    ensures Accepted(buf, len) <==> len > 0 && exists i :: StandsAt(buf, i, "bssid")
  {
    ContainsIff(buf, "bssid");
  }

  ghost function Objects(aps: seq<WifiAp>): (r: set<object>)
    ensures forall k :: 0 <= k < |aps| ==> aps[k].Repr() <= r
  {
    (set k | 0 <= k < |aps| :: aps[k] as object)
    + (set k | 0 <= k < |aps| :: aps[k].smac as object)
    + (set k | 0 <= k < |aps| :: aps[k].name as object)
  }

  /** One round of the table loop: find the end of the line, parse it, step over the newline. */
  method ParseNext(buf: string, line: nat, pend: nat, ap: WifiAp) returns (pcur: nat)
    requires line < pend < |buf| && ap.Valid() && LineInBounds(buf, line, LineEnd(buf, line, pend))
    modifies ap, ap.smac, ap.name
    ensures pcur == LineEnd(buf, line, pend) + 1
    ensures ap.Contents() == LineAp(buf, line, LineEnd(buf, line, pend))
  {
    hide LineAp, LineInBounds, WifiAp.Contents;
    pcur := line;
    while buf[pcur] != '\n' && pcur < pend
      invariant line <= pcur <= pend && LineEnd(buf, pcur, pend) == LineEnd(buf, line, pend)
      decreases pend - pcur
    {
      pcur := pcur + 1;
    }
    if buf[pcur] != '\n' {
      pcur := pcur + 1;
    }
    WifiParseLine(buf, line, pcur, ap);
    pcur := pcur + 1;
  }

  predicate RowInBounds(buf: string, len: nat, k: nat)
    requires 0 < len < |buf| && LineStart(buf, len, k) < len
  {
    var p := LineStart(buf, len, k);
    LineInBounds(buf, p, LineEnd(buf, p, len))
  }

  /** The record the cursors cut out of data line `k`. */
  function RowAt(buf: string, len: nat, k: nat): Ap
    requires 0 < len < |buf| && LineStart(buf, len, k) < len && RowInBounds(buf, len, k)
  {
    var p := LineStart(buf, len, k);
    LineAp(buf, p, LineEnd(buf, p, len))
  }

  /** A terminated reply whose lines can be parsed within bounds. */
  predicate ReplyInBounds(buf: string, len: int, maxnum: int) {
    && 0 < len < |buf| && 0 < maxnum
    && forall k :: 0 <= k < LineCount(buf, len, maxnum) ==> RowInBounds(buf, len, k)
  }

  /** The records a scan reply yields. */
  function ScanRows(buf: string, len: int, maxnum: int): (rows: seq<Ap>)
    requires ReplyInBounds(buf, len, maxnum)
    ensures |rows| == LineCount(buf, len, maxnum)
    ensures forall k :: 0 <= k < |rows| ==> rows[k] == RowAt(buf, len, k)
  {
    seq(LineCount(buf, len, maxnum), k requires 0 <= k < LineCount(buf, len, maxnum) => RowAt(buf, len, k))
  }

  /** The first records hold `rows`, and the others are as they were before. */
  twostate predicate Filled(aps: seq<WifiAp>, rows: seq<Ap>)
    reads Objects(aps)
  {
    && |rows| <= |aps|
    && (forall k :: 0 <= k < |rows| ==> aps[k].Contents() == rows[k])
    && (forall k :: |rows| <= k < |aps| ==> aps[k].Raw() == old(aps[k].Raw()))
  }

  /** Parsing into one record leaves the others alone. */
  method ParseInto(buf: string, len: nat, aps: seq<WifiAp>, num: nat, line: nat) returns (pcur: nat)
    requires Separate(aps) && num < |aps| && 0 < len < |buf|
    requires line == LineStart(buf, len, num) < len && RowInBounds(buf, len, num)
    modifies aps[num].Repr()
    ensures pcur == LineStart(buf, len, num + 1)
    ensures aps[num].Contents() == RowAt(buf, len, num)
    ensures forall k :: 0 <= k < |aps| && k != num ==>
              aps[k].Raw() == old(aps[k].Raw()) && aps[k].Contents() == old(aps[k].Contents())
  {
    pcur := ParseNext(buf, line, len, aps[num]);
    forall k | 0 <= k < |aps| && k != num
      ensures aps[k].Raw() == old(aps[k].Raw()) && aps[k].Contents() == old(aps[k].Contents())
    {
      assert aps[k].Repr() !! aps[num].Repr();
    }
  }

  method SkipHeader(buf: string, len: nat) returns (pcur: nat)
    requires 0 < len < |buf|
    ensures pcur == LineStart(buf, len, 0)
  {
    pcur := 0;
    while buf[pcur] != '\n' && pcur + 1 < len
      invariant pcur < len && SkipLine(buf, pcur, len) == SkipLine(buf, 0, len)
      decreases len - pcur
    {
      pcur := pcur + 1;
    }
    pcur := pcur + 1;
  }

  method ReadTable(buf: string, len: nat, aps: seq<WifiAp>, maxnum: nat) returns (num: nat)
    requires Separate(aps) && maxnum <= |aps| && ReplyInBounds(buf, len, maxnum)
    modifies Objects(aps)
    ensures num == |ScanRows(buf, len, maxnum)| && Filled(aps, ScanRows(buf, len, maxnum))
  {
    hide LineAp, LineInBounds, LineEnd, SkipLine, LineStart, RowAt, ScanRows, WifiAp.Raw, WifiAp.Contents;
    ghost var rows := ScanRows(buf, len, maxnum);
    var pend := len;
    var pcur := SkipHeader(buf, len);
    num := 0;
    while num < maxnum && pcur < pend
      invariant num <= |rows| <= maxnum && pcur == LineStart(buf, len, num)
      invariant forall k :: 0 <= k < num ==> aps[k].Contents() == rows[k]
      invariant forall k :: num <= k < |aps| ==> aps[k].Raw() == old(aps[k].Raw())
      decreases maxnum - num
    {
      assert LineStart(buf, len, num) < len && num < |rows|;
      pcur := ParseInto(buf, len, aps, num, pcur);
      num := num + 1;
    }
  }

  /** `len` is what the SCAN_RESULTS command returned and `buf` its reply, terminated at `len`. */
  method WifiGetScanResult(buf: string, len: int, aps: seq<WifiAp>, maxnum: int) returns (num: int)
    requires Separate(aps) && maxnum <= |aps|
    requires 0 < len ==> len < |buf| && buf[len] == NUL
    requires 0 < maxnum && Accepted(buf, len) ==> ReplyInBounds(buf, len, maxnum)
    modifies Objects(aps)
    ensures if maxnum <= 0 then num == -1 && Filled(aps, [])
            else if !Accepted(buf, len) then num == -2 && Filled(aps, [])
            else num == |ScanRows(buf, len, maxnum)| && Filled(aps, ScanRows(buf, len, maxnum))
    ensures num == -2 <==> 0 < maxnum && (len <= 0 || forall i :: !StandsAt(buf, i, "bssid"))
    ensures num < 0 ==> Filled(aps, [])
  {
    AcceptedIff(buf, len);
    if maxnum <= 0 {
      return -1;
    }
    if len <= 0 || !Contains(CStr(buf), "bssid") {
      return -2;
    }
    num := ReadTable(buf, len, aps, maxnum);
  }
}
