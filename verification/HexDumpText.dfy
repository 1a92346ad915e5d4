/** What can be read back from the printed lines of a hex dump. */
module HexDumpText {
  import opened CStrings
  import opened BtAddress
  import opened HexDump

  /** The bytes in a text of two-digit numbers and blanks. */
  function ReadHex(s: string): seq<Byte>
    decreases |s|
  {
    if s == "" then []
    else if s[0] == ' ' then ReadHex(s[1..])
    else if |s| >= 2 && IsDigit(s[0], Hexadecimal) && IsDigit(s[1], Hexadecimal) then
      [16 * DigitOf(s[0], Hexadecimal) + DigitOf(s[1], Hexadecimal)] + ReadHex(s[2..])
    else []
  }

  /** The columns of a printed line. */
  function AddressColumn(text: string): string { if |text| >= 5 then text[1..5] else "" }

  function HexColumn(text: string): string { if |text| >= 59 then text[9..59] else "" }

  lemma {:induction false} AddrTextLength(offset: nat)
    ensures |AddrText(offset)| >= ADDR_WIDTH && AllDigits(AddrText(offset), Hexadecimal)
  {
  }

  lemma {:induction false} PrintedColumns(l: Line)
    requires |l.addr| >= ADDR_WIDTH && |l.hex| <= HEX_WIDTH
    ensures AddressColumn(Print(l)) == l.addr[..ADDR_WIDTH]
    ensures HexColumn(Print(l)) == l.hex + Spaces(HEX_WIDTH - |l.hex|)
    ensures var t := Print(l); |t| >= 61 && t[0] == '[' && t[5] == ']' && t[6..9] == "   " && t[59..61] == "  "
    ensures Print(l)[61..] == l.chars
  {
    var a, c := Cut(l.addr, ADDR_WIDTH), Column(l.hex);
    NoSpaces(l.hex);
    assert c == l.hex + Spaces(HEX_WIDTH - |l.hex|);
    assert Print(l) == "[" + a + "]   " + c + "  " + l.chars;
    hide Print, Spaces, Column, Cut;
    Pieces(a, c, l.chars);
  }

  lemma {:induction false} NoSpaces(s: string)
    ensures s + Spaces(0) == s
  {
  }

  lemma {:induction false} Pieces(a: string, c: string, rest: string)
    requires |a| == ADDR_WIDTH && |c| == HEX_WIDTH
    ensures var t := "[" + a + "]   " + c + "  " + rest;
            && |t| >= 61 && t[0] == '[' && t[1..5] == a && t[5] == ']' && t[6..9] == "   " && t[9..59] == c
            && t[59..61] == "  " && t[61..] == rest
  {
  }

  lemma {:induction false} ReadBlanks(n: nat)
    ensures ReadHex(Spaces(n)) == []
  {
    if n > 0 {
      assert Spaces(n)[1..] == Spaces(n - 1);
      ReadBlanks(n - 1);
    }
  }

  lemma {:induction false} ReadBlank(t: string)
    ensures ReadHex(" " + t) == ReadHex(t)
  {
    assert (" " + t)[1..] == t;
  }

  lemma {:induction false} ReadByte(b: Byte, t: string)
    ensures ReadHex(ByteText(b, true) + t) == [b] + ReadHex(t)
  {
    var x := ByteText(b, true);
    var s := x + t;
    assert IsDigit(x[0], Hexadecimal) && IsDigit(x[1], Hexadecimal) && x[0] != ' ';
    assert s[0] == x[0] && s[1] == x[1] && s[2..] == t;
  }

  /** One byte of the hex column, and the blanks behind it. */
  lemma {:induction false} ReadCell(b: Byte, blanks: string, t: string)
    requires blanks == " " || blanks == "   "
    ensures ReadHex(ByteText(b, true) + blanks + t) == [b] + ReadHex(t)
  {
    hide ReadHex, ByteText;
    assert ByteText(b, true) + blanks + t == ByteText(b, true) + (blanks + t);
    ReadByte(b, blanks + t);
    ReadBlank(t);
    ReadBlank(" " + t);
    ReadBlank(" " + (" " + t));
    assert blanks == "   " ==> blanks + t == " " + (" " + (" " + t));
  }

  lemma {:induction false} LastCell(chunk: seq<Byte>, t: string)
    requires chunk != []
    ensures var k := |chunk| - 1;
            HexOf(chunk) + t == HexOf(chunk[..k]) + (ByteText(chunk[k], true) + Blanks(|chunk|) + t)
  {
    hide ByteText, Blanks;
    var k := |chunk| - 1;
    Regroup(HexOf(chunk[..k]), ByteText(chunk[k], true) + Blanks(|chunk|), t);
  }

  lemma {:induction false} NoCell(t: string)
    ensures ReadHex(HexOf([]) + t) == [] + ReadHex(t)
  {
    assert HexOf([]) + t == t;
  }

  lemma {:induction false} ReadChunk(chunk: seq<Byte>, t: string)
    ensures ReadHex(HexOf(chunk) + t) == chunk + ReadHex(t)
    decreases |chunk|
  {
    hide HexOf, ByteText, ReadHex;
    if chunk == [] {
      NoCell(t);
    } else {
      var k := |chunk| - 1;
      LastCell(chunk, t);
      ReadCell(chunk[k], Blanks(|chunk|), t);
      ReadChunk(chunk[..k], ByteText(chunk[k], true) + Blanks(|chunk|) + t);
      Regroup(chunk[..k], [chunk[k]], ReadHex(t));
      assert chunk[..k] + [chunk[k]] == chunk;
    }
  }

  lemma {:induction false} Regroup<T>(a: seq<T>, b: seq<T>, c: seq<T>)
    ensures a + (b + c) == (a + b) + c
  {
  }

  /** What the hex columns of the first `k` printed lines hold, one after the other. */
  function ReadLines(lines: seq<Line>, k: nat): seq<Byte>
    requires k <= |lines|
  {
    if k == 0 then [] else ReadLines(lines, k - 1) + ReadHex(HexColumn(Print(lines[k - 1])))
  }

  lemma {:induction false} LineReads(data: seq<Byte>, i: nat)
    requires 16 * i <= |data|
    ensures ReadHex(HexColumn(Print(LineOf(data, i)))) == Chunk(data, i)
  {
    var l := LineOf(data, i);
    AddrTextLength(16 * i);
    assert |l.hex| <= HEX_WIDTH;
    PrintedColumns(l);
    ReadChunk(Chunk(data, i), Spaces(HEX_WIDTH - |l.hex|));
    ReadBlanks(HEX_WIDTH - |l.hex|);
  }

  /** The dump has one line for each sixteen bytes begun, and reading its hex columns in order gives
      back exactly the bytes dumped. */
  lemma {:induction false} DumpReadsBack(data: seq<Byte>, k: nat)
    requires k <= DumpLines(|data|)
    ensures |DumpOf(data)| == (|data| + 15) / 16
    ensures ReadLines(DumpOf(data), k) == if 16 * k <= |data| then data[..16 * k] else data
  {
    hide Print, HexColumn, ReadHex, Chunk;
    if k > 0 {
      DumpReadsBack(data, k - 1);
      OneLineMore(data, k);
      ChunkAppend(data, k);
    }
  }

  lemma {:induction false} OneLineMore(data: seq<Byte>, k: nat)
    requires 0 < k <= DumpLines(|data|)
    ensures ReadLines(DumpOf(data), k) == ReadLines(DumpOf(data), k - 1) + Chunk(data, k - 1)
  {
    hide Print, HexColumn, ReadHex, Chunk, LineOf;
    LineReads(data, k - 1);
    assert DumpOf(data)[k - 1] == LineOf(data, k - 1);
  }

  lemma {:induction false} ChunkAppend(data: seq<Byte>, k: nat)
    requires 0 < k && 16 * (k - 1) <= |data|
    ensures data[..16 * (k - 1)] + Chunk(data, k - 1) == if 16 * k <= |data| then data[..16 * k] else data
  {
  }

  /** The code of a hexadecimal digit, letters in upper case. */
  function DigitCode(d: nat): nat
    requires d < 16
  {
    if d < 10 then 48 + d else 55 + d
  }

  /** The hex column shows byte `j` of a line at its place as two digits, letters in upper case, and a blank behind
      them, two more behind the eighth byte. */
  lemma {:induction false} HexPlaces(chunk: seq<Byte>, j: nat)
    requires j < |chunk| <= 16
    ensures var h, at := HexOf(chunk), 3 * j + (if j >= 8 then 2 else 0);
            && at + 2 < |h| && h[at] as int == DigitCode(chunk[j] / 16) && h[at + 1] as int == DigitCode(chunk[j] % 16)
            && h[at + 2] == ' ' && (j == 7 ==> at + 4 < |h| && h[at + 3] == h[at + 4] == ' ')
    decreases |chunk|
  {
    var k := |chunk| - 1;
    if j < k {
      HexPlaces(chunk[..k], j);
    }
  }

  /** The character column shows byte `j` of a line at its place, past the gap in the second half: itself if it is
      a letter or a digit of ASCII, else a dot. */
  lemma {:induction false} CharacterColumn(chunk: seq<Byte>, j: nat)
    requires j < |chunk| <= 16
    ensures var c := CharsOf(chunk)[if j < 8 then j else j + 1];
            c as int == if 48 <= chunk[j] <= 57 || 65 <= chunk[j] <= 90 || 97 <= chunk[j] <= 122 then chunk[j] else 46
    decreases |chunk|
  {
    var k := |chunk| - 1;
    if j < k {
      CharacterColumn(chunk[..k], j);
    }
  }

  // ----- the address column -----

  lemma {:induction false} ValueBound(ds: string)
    requires AllDigits(ds, Hexadecimal) && |ds| <= 4
    ensures Value(ds, Hexadecimal) < 0x10000
    ensures |ds| <= 3 ==> Value(ds, Hexadecimal) < 0x1000
    ensures |ds| <= 2 ==> Value(ds, Hexadecimal) < 0x100
    ensures |ds| <= 1 ==> Value(ds, Hexadecimal) < 0x10
    ensures |ds| == 0 ==> Value(ds, Hexadecimal) == 0
    decreases |ds|
  {
    if ds != "" {
      ValueBound(ds[..|ds| - 1]);
    }
  }

  lemma {:induction false} LeadingZeros(n: nat, ds: string)
    requires AllDigits(ds, Hexadecimal)
    ensures AllDigits(Zeros(n) + ds, Hexadecimal) && Value(Zeros(n) + ds, Hexadecimal) == Value(ds, Hexadecimal)
    decreases n + |ds|
  {
    var s := Zeros(n) + ds;
    if ds != "" {
      var k := |ds| - 1;
      assert s[..|s| - 1] == Zeros(n) + ds[..k];
      LeadingZeros(n, ds[..k]);
    } else if n > 0 {
      ZerosSnoc(n - 1);
      LeadingZeros(n - 1, "");
      assert s == Zeros(n) && s[..n - 1] == Zeros(n - 1) == Zeros(n - 1) + "";
    } else {
      assert s == "";
    }
  }

  lemma {:induction false} ZerosSnoc(n: nat)
    ensures Zeros(n + 1) == Zeros(n) + "0"
  {
    if n > 0 {
      ZerosSnoc(n - 1);
    }
  }

  lemma {:induction false} NumeralShort(n: nat)
    requires n < 0x10000
    ensures |Numeral(n, Hexadecimal, false)| <= 4
  {
    var a, b, c := n / 16, n / 16 / 16, n / 16 / 16 / 16;
    assert c < 16 && |Numeral(c, Hexadecimal, false)| == 1;
    assert |Numeral(b, Hexadecimal, false)| <= 2;
    assert |Numeral(a, Hexadecimal, false)| <= 3;
  }

  ghost predicate LowerCase(s: string) { forall c :: c in s ==> '0' <= c <= '9' || 'a' <= c <= 'f' }

  lemma {:induction false} NumeralLower(n: nat)
    ensures LowerCase(Numeral(n, Hexadecimal, false))
  {
    if n >= 16 {
      NumeralLower(n / 16);
    }
  }

  lemma {:induction false} ZerosLower(n: nat)
    ensures forall k :: 0 <= k <= n ==> LowerCase(Zeros(k))
  {
    if n > 0 {
      ZerosLower(n - 1);
    }
  }

  /** The address column keeps the first four digits, so it names the offset exactly below 64 KiB. */
  lemma {:induction false} AddressExactIff(offset: nat)
    ensures AllDigits(AddrText(offset)[..ADDR_WIDTH], Hexadecimal)
    ensures LowerCase(AddrText(offset)) && (offset < 0x10000 ==> |AddrText(offset)| == 4)
    ensures Value(AddrText(offset)[..ADDR_WIDTH], Hexadecimal) == offset <==> offset < 0x10000
  {
    var d, a := Numeral(offset, Hexadecimal, false), AddrText(offset);
    AddrTextLength(offset);
    NumeralLower(offset);
    ZerosLower(4);
    ValueBound(a[..4]);
    if offset < 0x10000 {
      NumeralShort(offset);
      ValueOfNumeral(offset, Hexadecimal, false);
      LeadingZeros(4 - |d|, d);
      assert a == Zeros(4 - |d|) + d && a[..4] == a;
    }
  }

  // ----- a byte on the page -----

  /** Byte `n` is on line n / 16: its address column reads as the offset of the line, below 64 KiB, and the byte
      stands in the hex column and in the character column at the places its position in the line gives. */
  lemma {:induction false} ByteOnPage(data: seq<Byte>, n: nat)
    requires n < |data|
    ensures var i, j, b := n / 16, n % 16, data[n];
            && i < |DumpOf(data)|
            && var t := Print(DumpOf(data)[i]);
               var at, shown := 9 + 3 * j + (if j >= 8 then 2 else 0), 61 + (if j < 8 then j else j + 1);
               && shown < |t|
               && (i < 0x1000 ==> AllDigits(t[1..5], Hexadecimal) && Value(t[1..5], Hexadecimal) == 16 * i)
               && t[at] as int == DigitCode(b / 16) && t[at + 1] as int == DigitCode(b % 16)
               && t[shown] as int == (if 48 <= b <= 57 || 65 <= b <= 90 || 97 <= b <= 122 then b else 46)
  {
    hide Print, HexOf, CharsOf, AddrText, DumpOf, Chunk, Value, DigitCode;
    var i, j := n / 16, n % 16;
    var chunk := Chunk(data, i);
    var l := Line(AddrText(16 * i), HexOf(chunk), CharsOf(chunk));
    ByteInLine(data, n);
    AddrTextLength(16 * i);
    AddressExactIff(16 * i);
    HexPlaces(chunk, j);
    CharacterColumn(chunk, j);
    LinePlaces(l, 3 * j + (if j >= 8 then 2 else 0), if j < 8 then j else j + 1);
  }

  lemma {:induction false} ByteInLine(data: seq<Byte>, n: nat)
    requires n < |data|
    ensures var i, j := n / 16, n % 16;
            && 16 * i <= |data| && j < |Chunk(data, i)| <= 16 && Chunk(data, i)[j] == data[n]
            && i < |DumpOf(data)|
            && DumpOf(data)[i] == Line(AddrText(16 * i), HexOf(Chunk(data, i)), CharsOf(Chunk(data, i)))
  {
    hide HexOf, CharsOf, AddrText;
    var i, j := n / 16, n % 16;
    assert n == 16 * i + j;
  }

  lemma {:induction false} LinePlaces(l: Line, at: nat, shown: nat)
    requires |l.addr| >= ADDR_WIDTH && at + 1 < |l.hex| <= HEX_WIDTH && shown < |l.chars|
    ensures var t := Print(l);
            && 61 + shown < |t| && t[1..5] == l.addr[..ADDR_WIDTH]
            && t[9 + at] == l.hex[at] && t[9 + at + 1] == l.hex[at + 1] && t[61 + shown] == l.chars[shown]
  {
    var t := Print(l);
    PrintedColumns(l);
    hide Print, Spaces;
    assert HexColumn(t) == t[9..59];
    assert t[9..59][at] == l.hex[at] && t[9..59][at + 1] == l.hex[at + 1];
    assert t[61..][shown] == t[61 + shown];
  }
}
