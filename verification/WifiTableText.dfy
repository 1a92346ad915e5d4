/**
  The scan-table parser against the text it parses: what the cursors cut out of a reply is what
  splitting it into lines and fields gives, and parsing inverts printing.
 */
module WifiTableText {
  import opened CStrings
  import opened WifiTable

  const TAB: char := '\t'
  const NL: char := '\n'

  /** The lines of a text, the last one ended or not. */
  function Lines(t: string): seq<string>
    decreases |t|
  {
    var i := IndexOf(t, NL);
    if t == [] then [] else if i == |t| then [t] else [t[..i]] + Lines(t[i + 1..])
  }

  function Fields(line: string): (f: seq<string>)
    ensures f != []
  {
    Split(line, TAB)
  }

  /** Five fields or more, of which only the address and a name that ends the line can be empty,
      and a frequency that fits its buffer. */
  predicate WellFormedLine(line: string) {
    var f := Fields(line);
    && |f| >= 5 && f[1] != "" && f[2] != "" && f[3] != "" && (f[4] != "" || |f| == 5)
    && |f[1]| < NUMBER_SIZE
  }

  /** The record the fields of a line stand for, cut to the sizes of its buffers. */
  function FieldsAp(line: string): Ap
    requires |Fields(line)| >= 5
  {
    var f := Fields(line);
    Ap(CStr(Cut(f[0], MAC_SIZE - 1)), CStr(Cut(f[4], NAME_SIZE - 1)),
       Strtol(CStr(Cut(f[2], NUMBER_SIZE - 1)), Decimal), Strtol(CStr(f[1]), Decimal))
  }

  // ----- cursors and fields -----

  lemma {:induction false} FieldEndIsIndex(buf: string, p: nat, end: nat)
    requires p <= end < |buf|
    ensures FieldEnd(buf, p, end) == p + IndexOf(buf[p..end], TAB)
    decreases end - p
  {
    if p < end && buf[p] != TAB {
      FieldEndIsIndex(buf, p + 1, end);
      assert buf[p..end][1..] == buf[p + 1..end];
    }
  }

  /** One field loop takes one piece off the split, and stepping over the tab finds the next piece
      unless that one is empty and not the last. */
  lemma {:induction false} FieldStep(buf: string, p: nat, end: nat)
    requires p <= end < |buf| && buf[end] != TAB
    ensures var e, f := FieldEnd(buf, p, end), Fields(buf[p..end]);
            && p <= e <= end && f[0] == buf[p..e] && (|f| > 1 <==> e < end)
            && (|f| > 1 ==> f[1..] == Fields(buf[e + 1..end]))
            && (|f| > 1 && (f[1] != "" || |f| == 2) ==> AfterField(buf, e) == e + 1)
  {
    var e, s := FieldEnd(buf, p, end), buf[p..end];
    FieldEndIsIndex(buf, p, end);
    assert s[..e - p] == buf[p..e];
    if e < end {
      assert s[e - p + 1..] == buf[e + 1..end];
      if e + 1 < end && buf[e + 1] == TAB {
        assert buf[e + 1..end][0] == TAB;
        assert Fields(buf[e + 1..end])[0] == [];
        assert |Fields(buf[e + 1..end])| >= 2;
      }
    }
  }

  /** Stepping over a tab steps over an empty field as well. */
  lemma {:induction false} EmptyFieldSkipped(buf: string, p: nat, end: nat)
    requires p <= end < |buf| && buf[end] != TAB
    requires |Fields(buf[p..end])| > 2 && Fields(buf[p..end])[1] == ""
    ensures var e := FieldEnd(buf, p, end);
            AfterField(buf, e) == e + 2 <= end && Fields(buf[e + 2..end]) == Fields(buf[p..end])[2..]
  {
    var e, f := FieldEnd(buf, p, end), Fields(buf[p..end]);
    FieldStep(buf, p, end);
    var t := buf[e + 1..end];
    assert f[1..] == Fields(t) && f[1..][0] == "";
    EmptyFirstField(t);
    hide Fields, FieldEnd;
    assert t[1..] == buf[e + 2..end] && buf[e + 1] == t[0];
    assert f[2..] == f[1..][1..];
  }

  lemma {:induction false} EmptyFirstField(t: string)
    requires Fields(t)[0] == "" && |Fields(t)| > 1
    ensures t != "" && t[0] == TAB && Fields(t)[1..] == Fields(t[1..])
  {
  }

  /** The cursor `p` is where field `k` of the line begins. */
  predicate AtField(buf: string, p: nat, end: nat, f: seq<string>, k: nat) {
    p <= end < |buf| && buf[end] != TAB && k < |f| && Fields(buf[p..end]) == f[k..]
  }

  lemma {:induction false} CursorMoves(buf: string, p: nat, end: nat, f: seq<string>, k: nat)
    requires AtField(buf, p, end, f, k)
    ensures var e := FieldEnd(buf, p, end);
            && p <= e <= end && buf[p..e] == f[k] && (k + 1 == |f| ==> e == end)
            && (k + 1 < |f| && (f[k + 1] != "" || k + 2 == |f|) ==> AtField(buf, AfterField(buf, e), end, f, k + 1))
            && (k + 2 < |f| && f[k + 1] == "" ==> AtField(buf, AfterField(buf, e), end, f, k + 2))
  {
    var tail := f[k..];
    assert tail[0] == f[k] && tail[1..] == f[k + 1..];
    assert k + 1 < |f| ==> tail[1] == f[k + 1];
    assert k + 2 <= |f| ==> tail[2..] == f[k + 2..];
    hide FieldEnd, AfterField, Fields;
    FieldStep(buf, p, end);
    if k + 2 < |f| && f[k + 1] == "" {
      EmptyFieldSkipped(buf, p, end);
    }
  }

  lemma {:induction false} LineRefines(buf: string, begin: nat, end: nat)
    requires begin <= end < |buf| && buf[end] != TAB && WellFormedLine(buf[begin..end])
    ensures FieldMarks(buf, begin, end).nameEnd <= end
    ensures LineInBounds(buf, begin, end)
    ensures LineAp(buf, begin, end) == FieldsAp(buf[begin..end])
  {
    hide FieldEnd, AfterField, Fields, CStr, Strtol, Cut;
    var f, m := Fields(buf[begin..end]), FieldMarks(buf, begin, end);
    assert f[0..] == f;
    assert AtField(buf, begin, end, f, 0);
    hide AtField;
    CursorMoves(buf, begin, end, f, 0);
    CursorMoves(buf, m.freq, end, f, 1);
    CursorMoves(buf, m.level, end, f, 2);
    CursorMoves(buf, m.flags, end, f, 3);
    CursorMoves(buf, m.name, end, f, 4);
  }

  lemma {:induction false} LongerEnd(buf: string, p: nat, end: nat)
    requires p <= end && end + 1 < |buf| && buf[end] != TAB
    ensures var e := FieldEnd(buf, p, end); FieldEnd(buf, p, end + 1) == if e == end then end + 1 else e
    decreases end - p
  {
    if p < end && buf[p] != TAB {
      LongerEnd(buf, p + 1, end);
    }
  }

  lemma {:induction false} CutTerminator(s: string, n: nat)
    ensures CStr(Cut(s + [NUL], n)) == CStr(Cut(s, n))
  {
    if |s| < n {
      var t := s + [NUL];
      assert t[..|CStr(s)|] == CStr(s) && t[|CStr(s)|] == NUL;
      CStrOfBuffer(CStr(s), t);
      CStrPlain(CStr(s));
    } else if |s| == n {
      assert (s + [NUL])[..n] == s;
    } else {
      assert (s + [NUL])[..n] == s[..n];
    }
  }

  /** A last line that is ended by the terminator alone: the cursors step over the terminator, and the record is
      the same as if the line had been ended by a newline. */
  lemma {:induction false} UnendedLineRefines(buf: string, begin: nat, len: nat)
    requires begin <= len && len + 1 < |buf| && buf[len] == NUL && WellFormedLine(buf[begin..len])
    ensures FieldMarks(buf, begin, len + 1).nameEnd <= len + 1
    ensures LineInBounds(buf, begin, len + 1)
    ensures LineAp(buf, begin, len + 1) == FieldsAp(buf[begin..len])
  {
    hide FieldMarks, Fields, CStr, Strtol, Cut;
    var m := FieldMarks(buf, begin, len);
    LineRefines(buf, begin, len);
    MarksLonger(buf, begin, len);
    assert m.nameEnd == len ==> buf[m.name..len + 1] == buf[m.name..len] + [NUL];
    CutTerminator(buf[m.name..m.nameEnd], NAME_SIZE - 1);
  }

  lemma {:induction false} MarksLonger(buf: string, begin: nat, len: nat)
    requires begin <= len && len + 1 < |buf| && buf[len] == NUL && WellFormedLine(buf[begin..len])
    ensures var m := FieldMarks(buf, begin, len);
            FieldMarks(buf, begin, len + 1) == if m.nameEnd == len then m.(nameEnd := len + 1) else m
  {
    FieldsBeforeLast(buf, begin, len);
    hide AfterField, Fields, FieldEnd;
    var m := FieldMarks(buf, begin, len);
    LongerEnd(buf, begin, len);
    LongerEnd(buf, m.freq, len);
    LongerEnd(buf, m.level, len);
    LongerEnd(buf, m.flags, len);
    LongerEnd(buf, m.name, len);
  }

  /** With five fields the first four end before the line does. */
  lemma {:induction false} FieldsBeforeLast(buf: string, begin: nat, end: nat)
    requires begin <= end < |buf| && buf[end] != TAB && WellFormedLine(buf[begin..end])
    ensures var m := FieldMarks(buf, begin, end);
            m.macEnd < end && m.freqEnd < end && m.levelEnd < end && m.flagsEnd < end && m.name <= end
  {
    hide FieldEnd, AfterField, Fields;
    var f, m := Fields(buf[begin..end]), FieldMarks(buf, begin, end);
    assert f[0..] == f;
    assert AtField(buf, begin, end, f, 0);
    CursorMoves(buf, begin, end, f, 0);
    CursorMoves(buf, m.freq, end, f, 1);
    CursorMoves(buf, m.level, end, f, 2);
    CursorMoves(buf, m.flags, end, f, 3);
  }

  /** A line of fewer than five fields, none of them empty but the last or the address: what is missing reads as
      an empty name and as zero numbers. */
  lemma {:induction false} MissingFields(buf: string, begin: nat, end: nat)
    requires begin <= end < |buf| && buf[end] != TAB && LineInBounds(buf, begin, end)
    requires var f := Fields(buf[begin..end]);
             |f| < 5 && forall i :: 1 <= i < |f| - 1 ==> f[i] != ""
    ensures var f := Fields(buf[begin..end]);
            LineAp(buf, begin, end)
            == Ap(CStr(Cut(f[0], MAC_SIZE - 1)), "",
                  if |f| > 2 then Strtol(CStr(Cut(f[2], NUMBER_SIZE - 1)), Decimal) else 0,
                  if |f| > 1 then Strtol(CStr(f[1]), Decimal) else 0)
  {
    NothingRead();
    hide FieldEnd, AfterField, Fields, CStr, Strtol, Cut;
    var f, m := Fields(buf[begin..end]), FieldMarks(buf, begin, end);
    assert f[0..] == f;
    assert AtField(buf, begin, end, f, 0);
    hide AtField;
    CursorMoves(buf, begin, end, f, 0);
    if |f| > 1 {
      CursorMoves(buf, m.freq, end, f, 1);
    }
    if |f| > 2 {
      CursorMoves(buf, m.level, end, f, 2);
    }
    if |f| > 3 {
      CursorMoves(buf, m.flags, end, f, 3);
    }
    assert buf[m.name..m.nameEnd] == "";
    assert |f| <= 2 ==> buf[m.level..m.levelEnd] == "";
    assert |f| <= 1 ==> buf[m.freq..m.freqEnd] == "";
  }

  lemma {:induction false} NothingRead()
    ensures CStr(Cut("", NAME_SIZE - 1)) == "" && Strtol(CStr(Cut("", NUMBER_SIZE - 1)), Decimal) == 0
    ensures Strtol(CStr(""), Decimal) == 0
  {
  }

  /** With empty flags the name is taken for the flags, and nothing is left to be the name. */
  lemma {:induction false} EmptyFlagsMarks(buf: string, begin: nat, end: nat)
    requires begin <= end < |buf| && buf[end] != TAB
    requires var f := Fields(buf[begin..end]); |f| == 5 && f[1] != "" && f[2] != "" && f[3] == ""
    ensures var f, m := Fields(buf[begin..end]), FieldMarks(buf, begin, end);
            && m.levelEnd <= end && buf[begin..m.macEnd] == f[0] && buf[m.freq..m.freqEnd] == f[1]
            && buf[m.level..m.levelEnd] == f[2] && m.name == m.nameEnd
  {
    var f, m := Fields(buf[begin..end]), FieldMarks(buf, begin, end);
    hide FieldEnd, AfterField, Fields;
    assert f[0..] == f;
    assert AtField(buf, begin, end, f, 0);
    hide AtField;
    CursorMoves(buf, begin, end, f, 0);
    CursorMoves(buf, m.freq, end, f, 1);
    CursorMoves(buf, m.level, end, f, 2);
    CursorMoves(buf, m.flags, end, f, 4);
  }

  lemma {:induction false} EmptyFlagsAp(buf: string, begin: nat, end: nat)
    requires begin <= end < |buf| && buf[end] != TAB && LineInBounds(buf, begin, end)
    requires var f := Fields(buf[begin..end]); |f| == 5 && f[1] != "" && f[2] != "" && f[3] == ""
    ensures LineAp(buf, begin, end) == FieldsAp(buf[begin..end]).(name := "")
  {
    var m := FieldMarks(buf, begin, end);
    hide FieldMarks, Fields, CStr, Strtol, Cut;
    EmptyFlagsMarks(buf, begin, end);
    EmptyName(buf[m.name..m.nameEnd]);
  }

  /** So a line of five fields with empty flags, as an open network can have, loses its name; with a
      frequency and a level present, that is the only way such a line is misread. */
  lemma {:induction false} EmptyFlagsLoseName(buf: string, begin: nat, end: nat)
    requires begin <= end < |buf| && buf[end] != TAB && LineInBounds(buf, begin, end)
    requires var f := Fields(buf[begin..end]); |f| == 5 && f[1] != "" && f[2] != "" && |f[1]| < NUMBER_SIZE
    ensures var f := Fields(buf[begin..end]);
            LineAp(buf, begin, end) == FieldsAp(buf[begin..end]) <==> f[3] != "" || CStr(Cut(f[4], NAME_SIZE - 1)) == ""
  {
    hide FieldMarks, Fields, CStr, Strtol, Cut, LineAp, LineInBounds;
    if Fields(buf[begin..end])[3] != "" {
      LineRefines(buf, begin, end);
    } else {
      EmptyFlagsAp(buf, begin, end);
    }
  }

  lemma {:induction false} EmptyName(s: string)
    requires s == ""
    ensures CStr(Cut(s, NAME_SIZE - 1)) == ""
  {
  }

  // ----- cursors and lines -----

  /** The reply ends in a newline, or in a terminator with memory behind it. */
  predicate Ended(buf: string, len: nat) {
    0 < len < |buf| && (buf[len - 1] == NL || (len + 1 < |buf| && buf[len] == NUL))
  }

  lemma {:induction false} NewlineIsIndex(buf: string, p: nat, len: nat)
    requires p < len && Ended(buf, len)
    ensures var i := IndexOf(buf[p..len], NL);
            if i < len - p then
              LineEnd(buf, p, len) == p + i && buf[p + i] == NL && SkipLine(buf, p, len) == p + i + 1
            else LineEnd(buf, p, len) == len + 1 && SkipLine(buf, p, len) == len && buf[len - 1] != NL
    decreases len - p
  {
    assert buf[p..len][1..] == buf[p + 1..len];
    if buf[p] != NL {
      if p + 1 < len {
        NewlineIsIndex(buf, p + 1, len);
      } else {
        assert buf[p..len] == [buf[p]] && buf[p..len][1..] == [] && IndexOf([], NL) == 0;
      }
    }
  }

  lemma {:induction false} LinesStep(t: string)
    requires t != []
    ensures var i := IndexOf(t, NL); Lines(t) == if i == |t| then [t] else [t[..i]] + Lines(t[i + 1..])
  {
  }

  lemma {:induction false} LineStep(buf: string, p: nat, len: nat)
    requires p < len && Ended(buf, len)
    ensures var e := LineEnd(buf, p, len);
            if e < len then
              p <= e && buf[e] == NL && Lines(buf[p..len]) == [buf[p..e]] + Lines(buf[e + 1..len])
              && SkipLine(buf, p, len) == e + 1
            else
              && e == len + 1 && Lines(buf[p..len]) == [buf[p..len]] && SkipLine(buf, p, len) == len
              && buf[len - 1] != NL
  {
    hide LineEnd, SkipLine, IndexOf, Lines;
    var e, t := LineEnd(buf, p, len), buf[p..len];
    NewlineIsIndex(buf, p, len);
    LinesStep(t);
    if e < len {
      assert t[..e - p] == buf[p..e] && t[e - p + 1..] == buf[e + 1..len];
    }
  }

  /** The data lines of a reply are the lines of its text after the first. */
  function DataLines(buf: string, len: nat): seq<string>
    requires len <= |buf|
  {
    var ls := Lines(buf[..len]);
    if ls == [] then [] else ls[1..]
  }

  lemma {:induction false} LinesEmptyIff(buf: string, p: nat, len: nat)
    requires p <= len <= |buf|
    ensures Lines(buf[p..len]) == [] <==> p == len
  {
  }

  lemma {:induction false} DropOne(a: seq<string>, head: string, tail: seq<string>, data: seq<string>, k: nat)
    requires a == [head] + tail && k < |data| && a == data[k..]
    ensures tail == data[k + 1..]
  {
    assert tail == a[1..];
  }

  /** `p` is where data line `k` of the text begins, or past the text if there is none. */
  predicate Begins(buf: string, len: nat, p: nat, data: seq<string>, k: nat)
    requires len < |buf| && k <= |data|
  {
    if p < len then Lines(buf[p..len]) == data[k..] && k < |data| else k == |data|
  }

  lemma {:induction false} NextBegins(buf: string, len: nat, q: nat, data: seq<string>, k: nat)
    requires Ended(buf, len) && k < |data| && Begins(buf, len, q, data, k)
    ensures q < len && Begins(buf, len, LineEnd(buf, q, len) + 1, data, k + 1)
  {
    LineStep(buf, q, len);
    var p := LineEnd(buf, q, len) + 1;
    hide LineEnd, SkipLine, Lines;
    if p <= len {
      DropOne(Lines(buf[q..len]), buf[q..p - 1], Lines(buf[p..len]), data, k);
      LinesEmptyIff(buf, p, len);
    } else {
      assert |data[k..]| == 1;
    }
  }

  lemma {:induction false} FirstBegins(buf: string, len: nat)
    requires Ended(buf, len)
    ensures Begins(buf, len, SkipLine(buf, 0, len), DataLines(buf, len), 0)
  {
    LineStep(buf, 0, len);
    hide LineEnd, SkipLine, Lines;
    var p := SkipLine(buf, 0, len);
    assert buf[0..len] == buf[..len];
    LinesEmptyIff(buf, p, len);
    if LineEnd(buf, 0, len) < len {
      DropOne(Lines(buf[0..len]), buf[0..p - 1], Lines(buf[p..len]), Lines(buf[..len]), 0);
    }
  }

  lemma {:induction false} LineStartIsLine(buf: string, len: nat, k: nat)
    requires Ended(buf, len) && k <= |DataLines(buf, len)|
    ensures Begins(buf, len, LineStart(buf, len, k), DataLines(buf, len), k)
  {
    hide Begins, LineEnd, SkipLine, DataLines;
    if k == 0 {
      FirstBegins(buf, len);
    } else {
      LineStartIsLine(buf, len, k - 1);
      NextBegins(buf, len, LineStart(buf, len, k - 1), DataLines(buf, len), k - 1);
    }
  }

  /** A well-formed line is parsed as its fields, whether a newline ends it or the terminator. */
  lemma {:induction false} RowRefines(buf: string, len: nat, k: nat)
    requires Ended(buf, len) && k < |DataLines(buf, len)| && WellFormedLine(DataLines(buf, len)[k])
    ensures LineStart(buf, len, k) < len && RowInBounds(buf, len, k)
    ensures RowAt(buf, len, k) == FieldsAp(DataLines(buf, len)[k])
  {
    hide FieldMarks, LineEnd, SkipLine, Lines, DataLines, WellFormedLine, FieldsAp, LineAp, LineInBounds, LineStart;
    var data, p := DataLines(buf, len), LineStart(buf, len, k);
    LineStartIsLine(buf, len, k);
    LineStep(buf, p, len);
    assert data[k] == data[k..][0];
    if LineEnd(buf, p, len) < len {
      LineRefines(buf, p, LineEnd(buf, p, len));
    } else {
      UnendedLineRefines(buf, p, len);
    }
  }

  /** For every reply whose lines are well formed, as far as they are read, the cursor loops stay within the
      reply and its terminator, and one cell past that if the last line is not ended by a newline, and return
      one record a line: the parse of that line. */
  lemma {:induction false} TableRefinesText(buf: string, len: nat, maxnum: nat)
    requires Ended(buf, len) && 0 < maxnum
    requires forall k :: 0 <= k < |DataLines(buf, len)| && k < maxnum ==> WellFormedLine(DataLines(buf, len)[k])
    ensures ReplyInBounds(buf, len, maxnum)
    ensures var data, rows := DataLines(buf, len), ScanRows(buf, len, maxnum);
            && |rows| == (if |data| < maxnum then |data| else maxnum)
            && forall k :: 0 <= k < |rows| ==> WellFormedLine(data[k]) && rows[k] == FieldsAp(data[k])
  {
    hide LineEnd, SkipLine, Lines, DataLines, Fields, FieldsAp, RowInBounds, RowAt, LineStart;
    var data, n := DataLines(buf, len), LineCount(buf, len, maxnum);
    assert n <= |data| by {
      if n > |data| {
        LineStartIsLine(buf, len, |data|);
      }
    }
    if n < maxnum {
      LineStartIsLine(buf, len, n);
    }
    forall k | 0 <= k < n
      ensures RowInBounds(buf, len, k) && RowAt(buf, len, k) == FieldsAp(data[k])
    {
      RowRefines(buf, len, k);
    }
  }

  // ----- printing and parsing -----

  /** An access point as the supplicant lists it. */
  datatype Row = Row(bssid: string, frequency: int, sigLevel: int, flags: string, ssid: string)

  predicate Plain(s: string) { TAB !in s && NL !in s && NUL !in s }

  /** The name may be empty; the numbers are C integers. */
  predicate Listable(r: Row) {
    && Plain(r.bssid) && Plain(r.flags) && Plain(r.ssid)
    && r.bssid != "" && r.flags != ""
    && LONG_MIN <= r.frequency <= LONG_MAX && LONG_MIN <= r.sigLevel <= LONG_MAX
  }

  function Join(a: string, b: string): string { a + [TAB] + b }

  function RenderRow(r: Row): string {
    Join(r.bssid, Join(IntText(r.frequency), Join(IntText(r.sigLevel), Join(r.flags, r.ssid))))
  }

  function RenderRows(rows: seq<Row>): string {
    if rows == [] then "" else RenderRow(rows[0]) + [NL] + RenderRows(rows[1..])
  }

  /** A reply: a header line and the rows. */
  function RenderTable(header: string, rows: seq<Row>): string { header + [NL] + RenderRows(rows) }

  /** What is kept of a listed access point. */
  function Kept(r: Row): Ap {
    Ap(if |r.bssid| <= 31 then r.bssid else r.bssid[..31], if |r.ssid| <= 63 then r.ssid else r.ssid[..63],
       r.sigLevel, r.frequency)
  }

  lemma {:induction false} IntTextPlain(n: int)
    requires LONG_MIN <= n <= LONG_MAX
    ensures Plain(IntText(n)) && IntText(n) != "" && |IntText(n)| <= 11 && Strtol(IntText(n), Decimal) == n
  {
    StrtolOfIntText(n, "");
    assert IntText(n) + "" == IntText(n);
  }

  lemma {:induction false} IndexOfAbsent(s: string, c: char)
    requires c !in s
    ensures IndexOf(s, c) == |s|
  {
    if s != [] {
      IndexOfAbsent(s[1..], c);
    }
  }

  lemma {:induction false} FieldsJoin(a: string, b: string)
    requires TAB !in a
    ensures Fields(Join(a, b)) == [a] + Fields(b)
  {
    SplitOff(a, TAB, b);
  }

  lemma {:induction false} FiveFields(a: string, b: string, c: string, d: string, e: string)
    requires TAB !in a && TAB !in b && TAB !in c && TAB !in d && TAB !in e
    ensures var f := Fields(Join(a, Join(b, Join(c, Join(d, e)))));
            |f| == 5 && f[0] == a && f[1] == b && f[2] == c && f[3] == d && f[4] == e
  {
    SplitLast(e);
    FieldsJoin(d, e);
    FieldsJoin(c, Join(d, e));
    FieldsJoin(b, Join(c, Join(d, e)));
    FieldsJoin(a, Join(b, Join(c, Join(d, e))));
    hide Join;
    assert Fields(e) == [e];
    hide Fields;
  }

  lemma {:induction false} RowFields(r: Row)
    requires Listable(r)
    ensures var f := Fields(RenderRow(r));
            |f| == 5 && f[0] == r.bssid && f[1] == IntText(r.frequency) && f[2] == IntText(r.sigLevel)
            && f[3] == r.flags && f[4] == r.ssid
  {
    IntTextPlain(r.frequency);
    IntTextPlain(r.sigLevel);
    hide IntText, Fields, Join;
    FiveFields(r.bssid, IntText(r.frequency), IntText(r.sigLevel), r.flags, r.ssid);
  }

  /** A line holds neither of the characters that end a line or a string. */
  predicate OneLine(s: string) { NL !in s && NUL !in s }

  lemma {:induction false} OneLineJoin(a: string, b: string)
    requires OneLine(a) && OneLine(b)
    ensures OneLine(Join(a, b))
  {
  }

  lemma {:induction false} RowIsOneLine(r: Row)
    requires Listable(r)
    ensures OneLine(RenderRow(r))
  {
    IntTextPlain(r.frequency);
    IntTextPlain(r.sigLevel);
    hide IntText, Join;
    var f, l := IntText(r.frequency), IntText(r.sigLevel);
    var t3 := Join(r.flags, r.ssid);
    OneLineJoin(r.flags, r.ssid);
    OneLineJoin(l, t3);
    OneLineJoin(f, Join(l, t3));
    OneLineJoin(r.bssid, Join(f, Join(l, t3)));
  }

  lemma {:induction false} SplitLast(s: string)
    requires TAB !in s
    ensures Split(s, TAB) == [s]
  {
    IndexOfAbsent(s, TAB);
  }

  lemma {:induction false} RowParses(r: Row)
    requires Listable(r)
    ensures WellFormedLine(RenderRow(r)) && FieldsAp(RenderRow(r)) == Kept(r)
  {
    RowFields(r);
    IntTextPlain(r.frequency);
    IntTextPlain(r.sigLevel);
    hide IntText, Split, Strtol, RenderRow, Fields;
    CStrPlain(Cut(r.bssid, MAC_SIZE - 1));
    CStrPlain(Cut(r.ssid, NAME_SIZE - 1));
    CStrPlain(IntText(r.frequency));
    CStrPlain(IntText(r.sigLevel));
  }

  lemma {:induction false} LinesOff(a: string, rest: string)
    requires NL !in a
    ensures Lines(a + [NL] + rest) == [a] + Lines(rest)
  {
    SplitOff(a, NL, rest);
    var s := a + [NL] + rest;
    assert s[..|a|] == a && s[|a| + 1..] == rest;
  }

  /** A text of whole lines without a terminator in it. */
  predicate WholeLines(t: string) { NUL !in t && (t != "" ==> t[|t| - 1] == NL) }

  lemma {:induction false} LineAhead(a: string, rest: string)
    requires OneLine(a) && WholeLines(rest)
    ensures WholeLines(a + [NL] + rest) && Lines(a + [NL] + rest) == [a] + Lines(rest)
  {
    LinesOff(a, rest);
  }

  /** The lines of a text are these rows. */
  ghost predicate Lists(ls: seq<string>, rows: seq<Row>) {
    |ls| == |rows| && forall k :: 0 <= k < |rows| ==> ls[k] == RenderRow(rows[k])
  }

  lemma {:induction false} ListsMore(line: string, ls: seq<string>, rows: seq<Row>)
    requires rows != [] && line == RenderRow(rows[0]) && Lists(ls, rows[1..])
    ensures Lists([line] + ls, rows)
  {
  }

  lemma {:induction false} RowLines(rows: seq<Row>)
    requires forall r :: r in rows ==> Listable(r)
    ensures WholeLines(RenderRows(rows)) && Lists(Lines(RenderRows(rows)), rows)
  {
    hide RenderRow, Listable, OneLine;
    if rows != [] {
      assert rows[0] in rows && forall r :: r in rows[1..] ==> r in rows;
      RowIsOneLine(rows[0]);
      RowLines(rows[1..]);
      LineAhead(RenderRow(rows[0]), RenderRows(rows[1..]));
      ListsMore(RenderRow(rows[0]), Lines(RenderRows(rows[1..])), rows);
    }
  }

  /** A reply as the memory holds it: its text, the terminator and whatever follows. */
  lemma {:induction false} ReplyMemory(text: string, beyond: string)
    requires NUL !in text
    ensures var buf := text + [NUL] + beyond; buf[..|text|] == text && CStr(buf) == text
  {
    var buf := text + [NUL] + beyond;
    assert buf[..|text|] == text && buf[|text|] == NUL;
    CStrOfBuffer(text, buf);
    CStrPlain(text);
  }

  /** Printing any list of access points and parsing the reply gives the list back, the address cut to
      31 characters, the name to 63, and no more than `maxnum` entries, whatever memory follows. */
  lemma {:induction false} RenderParse(header: string, rows: seq<Row>, maxnum: nat, beyond: string)
    requires OneLine(header) && "bssid" <= header
    requires (forall r :: r in rows ==> Listable(r)) && 0 < maxnum
    ensures var text := RenderTable(header, rows);
            var buf, len := text + [NUL] + beyond, |text|;
            && Accepted(buf, len) && ReplyInBounds(buf, len, maxnum)
            && var got := ScanRows(buf, len, maxnum);
               |got| == (if |rows| < maxnum then |rows| else maxnum)
               && forall k :: 0 <= k < |got| ==> got[k] == Kept(rows[k])
  {
    var text := RenderTable(header, rows);
    var buf, len := text + [NUL] + beyond, |text|;
    ReplyLines(header, rows, beyond);
    hide RenderTable, DataLines, CStr, WellFormedLine, FieldsAp, Kept, Listable, RenderRow, Contains;
    var data := DataLines(buf, len);
    forall k | 0 <= k < |rows|
      ensures WellFormedLine(data[k]) && FieldsAp(data[k]) == Kept(rows[k])
    {
      assert rows[k] in rows;
      RowParses(rows[k]);
    }
    TableRefinesText(buf, len, maxnum);
  }

  /** The printed reply is accepted, ends in a newline and has the rows for its data lines. */
  lemma {:induction false} ReplyLines(header: string, rows: seq<Row>, beyond: string)
    requires OneLine(header) && "bssid" <= header && forall r :: r in rows ==> Listable(r)
    ensures var text := RenderTable(header, rows);
            var buf, len := text + [NUL] + beyond, |text|;
            0 < len < |buf| && buf[len - 1] == NL && Accepted(buf, len) && Lists(DataLines(buf, len), rows)
  {
    var text := RenderTable(header, rows);
    RowLines(rows);
    LineAhead(header, RenderRows(rows));
    ReplyMemory(text, beyond);
    hide RenderRows, Listable, IndexOf, Lines, CStr, Lists;
    assert text[|text| - 1] == NL;
    assert "bssid" <= text[0..];
    assert Lines(text)[1..] == Lines(RenderRows(rows));
  }
}
