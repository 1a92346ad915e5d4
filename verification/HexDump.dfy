/**
  The hex dump: lines of sixteen bytes, built up in two bounded buffers that are emptied after each
  line and flushed at the end. A buffer is taken as the C string it holds.
 */
module HexDump {
  import opened CStrings
  import opened BtAddress

  const HEX_SIZE := 16 * 3 + 5
  const CHAR_SIZE := 16 * 1 + 5
  const ADDR_WIDTH := 4
  const HEX_WIDTH := 50

  /** The strings one line is printed from. */
  datatype Line = Line(addr: string, hex: string, chars: string)

  function Spaces(n: nat): (s: string)
    ensures |s| == n && forall i :: 0 <= i < n ==> s[i] == ' '
  {
    if n == 0 then "" else " " + Spaces(n - 1)
  }

  function Zeros(n: nat): (s: string)
    ensures |s| == n && AllDigits(s, Hexadecimal)
  {
    if n == 0 then "" else "0" + Zeros(n - 1)
  }

  /** `%.4x`. */
  function AddrText(offset: nat): string {
    var d := Numeral(offset, Hexadecimal, false);
    (if |d| < 4 then Zeros(4 - |d|) else "") + d
  }

  /** `%-50.50s`. */
  function Column(s: string): (c: string)
    ensures |c| == HEX_WIDTH
  {
    if |s| < HEX_WIDTH then s + Spaces(HEX_WIDTH - |s|) else s[..HEX_WIDTH]
  }

  /** `[%4.4s]   %-50.50s  %s`, for an address of at least four characters. */
  function Print(l: Line): string {
    "[" + Cut(l.addr, ADDR_WIDTH) + "]   " + Column(l.hex) + "  " + l.chars
  }

  /** strncat with the room a buffer of `size` has left. */
  function StrNCat(s: string, t: string, size: nat): string {
    s + Cut(t, if |s| + 1 <= size then size - |s| - 1 else 0)
  }

  /** What a byte is shown as: itself if a letter or a digit, else a dot. */
  function Shown(b: Byte): char {
    var c := b as char;
    if '0' <= c <= '9' || 'A' <= c <= 'Z' || 'a' <= c <= 'z' then c else '.'
  }

  // ----- what the dump should be -----

  /** What follows the `n`-th byte of a line. */
  function Blanks(n: nat): string { if n == 8 then "   " else " " }

  /** The hex column of a line: each byte and a blank, and two more blanks after the first eight. */
  function HexOf(chunk: seq<Byte>): (s: string)
    ensures |s| == 3 * |chunk| + (if |chunk| >= 8 then 2 else 0)
  {
    if chunk == [] then ""
    else
      var k := |chunk| - 1;
      HexOf(chunk[..k]) + (ByteText(chunk[k], true) + Blanks(|chunk|))
  }

  function CharsOf(chunk: seq<Byte>): (s: string)
    ensures |s| == |chunk| + (if |chunk| >= 8 then 1 else 0)
  {
    if chunk == [] then ""
    else
      var k := |chunk| - 1;
      CharsOf(chunk[..k]) + [Shown(chunk[k])] + (if |chunk| == 8 then " " else "")
  }

  /** The bytes of line `i`. */
  function Chunk(data: seq<Byte>, i: nat): seq<Byte>
    requires 16 * i <= |data|
  {
    if 16 * i + 16 <= |data| then data[16 * i..16 * i + 16] else data[16 * i..]
  }

  function LineOf(data: seq<Byte>, i: nat): Line
    requires 16 * i <= |data|
  {
    Line(AddrText(16 * i), HexOf(Chunk(data, i)), CharsOf(Chunk(data, i)))
  }

  function DumpLines(n: nat): nat { (n + 15) / 16 }

  function DumpOf(data: seq<Byte>): (ls: seq<Line>)
    ensures |ls| == DumpLines(|data|)
  {
    seq(DumpLines(|data|), i requires 0 <= i < DumpLines(|data|) => LineOf(data, i))
  }

  function Shortened(size: int, trunc: bool): int { if trunc && size > 32 then 32 else size }

  // ----- the dump -----

  lemma {:induction false} StrNCatFits(s: string, t: string, size: int)
    requires |s| + |t| + 1 <= size
    ensures StrNCat(s, t, size) == s + t
  {
  }

  /** Adding a byte to a line that has room for it never truncates. */
  lemma {:induction false} HexAdded(chunk: seq<Byte>, b: Byte)
    requires |chunk| < 16
    ensures var h := StrNCat(HexOf(chunk), ByteText(b, true) + " ", HEX_SIZE);
            && h == HexOf(chunk) + (ByteText(b, true) + " ")
            && HexOf(chunk + [b]) == if |chunk| == 7 then StrNCat(h, "  ", HEX_SIZE) else h
  {
    var more, h, x := chunk + [b], HexOf(chunk), ByteText(b, true);
    assert more[..|more| - 1] == chunk && more[|more| - 1] == b;
    assert HexOf(more) == h + (x + Blanks(|more|));
    StrNCatFits(h, x + " ", HEX_SIZE);
    StrNCatFits(h + (x + " "), "  ", HEX_SIZE);
    ThreeBlanks(h, x);
  }

  lemma {:induction false} ThreeBlanks(h: string, x: string)
    ensures h + (x + Blanks(8)) == h + (x + " ") + "  "
  {
    assert Blanks(8) == " " + "  ";
    Associative(x, " ", "  ");
    Associative(h, x + " ", "  ");
  }

  lemma {:induction false} Associative(a: string, b: string, c: string)
    ensures a + (b + c) == (a + b) + c
  {
  }

  lemma {:induction false} CharAdded(chunk: seq<Byte>, b: Byte)
    requires |chunk| < 16
    ensures var c := StrNCat(CharsOf(chunk), [Shown(b)], CHAR_SIZE);
            && c == CharsOf(chunk) + [Shown(b)]
            && CharsOf(chunk + [b]) == if |chunk| == 7 then StrNCat(c, " ", CHAR_SIZE) else c
  {
    var more, c := chunk + [b], CharsOf(chunk);
    assert more[..|more| - 1] == chunk;
    assert c + [Shown(b)] + "" == c + [Shown(b)];
    hide StrNCat;
    StrNCatFits(c, [Shown(b)], CHAR_SIZE);
    StrNCatFits(c + [Shown(b)], " ", CHAR_SIZE);
  }

  lemma {:induction false} Remainder16(n: nat, k: nat, c: nat)
    requires n == 16 * k + c && c < 16
    ensures n % 16 == c
  {
  }

  lemma {:induction false} Remainder8(n: nat, k: nat, c: nat)
    requires n == 8 * k + c && c < 8
    ensures n % 8 == c
  {
  }

  /** Byte `n`, counted from one, is byte `c` of line `k`. */
  lemma {:induction false} Position(n: nat, k: nat, c: nat)
    requires n == 16 * k + c && 1 <= c <= 16
    ensures (n % 16 == 1 <==> c == 1) && (n % 16 == 0 <==> c == 16)
    ensures c < 16 ==> (n % 8 == 0 <==> c == 8)
  {
    if c == 16 {
      Remainder16(n, k + 1, 0);
    } else {
      Remainder16(n, k, c);
      if c < 8 {
        Remainder8(n, 2 * k, c);
      } else {
        Remainder8(n, 2 * k + 1, c - 8);
      }
    }
  }

  lemma {:induction false} LineComplete(data: seq<Byte>, k: nat, chunk: seq<Byte>)
    requires 16 * k <= |data| && |chunk| <= 16 && 16 * k + |chunk| <= |data|
    requires chunk == data[16 * k..16 * k + |chunk|] && (|chunk| == 16 || 16 * k + |chunk| == |data|)
    ensures LineOf(data, k) == Line(AddrText(16 * k), HexOf(chunk), CharsOf(chunk))
  {
    assert chunk == Chunk(data, k);
  }

  lemma {:induction false} SliceSnoc(s: seq<Byte>, i: nat, j: nat)
    requires i <= j < |s|
    ensures s[i..j + 1] == s[i..j] + [s[j]]
  {
  }

  lemma {:induction false} DumpComplete(data: seq<Byte>, lines: seq<Line>)
    requires |lines| == DumpLines(|data|) && forall i :: 0 <= i < |lines| ==> lines[i] == LineOf(data, i)
    ensures lines == DumpOf(data)
  {
  }

  /** The bounded appends for the `n`-th byte, and the gap after a half line. */
  method AppendByte(hexstr: string, charstr: string, b: Byte, n: nat, ghost chunk: seq<Byte>)
    returns (hex: string, chars: string)
    requires |chunk| < 16 && hexstr == HexOf(chunk) && charstr == CharsOf(chunk)
    requires n % 16 != 0 && n % 8 == 0 <==> |chunk| + 1 == 8
    ensures hex == HexOf(chunk + [b]) && chars == CharsOf(chunk + [b])
  {
    hide HexOf, CharsOf, StrNCat;
    HexAdded(chunk, b);
    CharAdded(chunk, b);
    hex := StrNCat(hexstr, ByteText(b, true) + " ", HEX_SIZE);
    chars := StrNCat(charstr, [Shown(b)], CHAR_SIZE);
    if n % 16 != 0 && n % 8 == 0 {
      hex := StrNCat(hex, "  ", HEX_SIZE);
      chars := StrNCat(chars, " ", CHAR_SIZE);
    }
  }

  method HexDump(data: seq<Byte>, size0: int, trunc: bool) returns (lines: seq<Line>)
    requires Shortened(size0, trunc) <= |data|
    ensures var size := if trunc && size0 > 32 then 32 else size0;
            lines == if size <= 0 then [] else DumpOf(data[..size])
  {
    hide HexOf, CharsOf, AddrText, LineOf, Chunk, DumpOf, DumpLines;
    var size := size0;
    if trunc && size > 32 {
      size := 32;
    }
    lines := [];
    var addrstr, hexstr, charstr := "", "", "";
    if size <= 0 {
      return;
    }
    ghost var used, chunk: seq<Byte>, start := data[..size], [], 0;
    EmptyLine();
    for n := 1 to size + 1
      invariant n - 1 == start + |chunk| && |chunk| < 16 && start == 16 * |lines|
      invariant forall i :: 0 <= i < |lines| ==> lines[i] == LineOf(used, i)
      invariant chunk == used[start..n - 1]
      invariant hexstr == HexOf(chunk) && charstr == CharsOf(chunk)
      invariant chunk != [] ==> addrstr == AddrText(start)
    {
      if n % 16 == 1 {
        addrstr := AddrText(n - 1);
      }
      var b := data[n - 1];
      Position(n, |lines|, |chunk| + 1);
      hexstr, charstr := AppendByte(hexstr, charstr, b, n, chunk);
      SliceSnoc(used, start, n - 1);
      chunk := chunk + [b];
      if n % 16 == 0 {
        LineComplete(used, |lines|, chunk);
        lines := lines + [Line(addrstr, hexstr, charstr)];
        hexstr, charstr, chunk, start := "", "", [], n;
      }
    }
    CountIs(size, |lines|, |chunk|);
    if |hexstr| > 0 {
      LineComplete(used, |lines|, chunk);
      lines := lines + [Line(addrstr, hexstr, charstr)];
    }
    DumpComplete(used, lines);
  }

  lemma {:induction false} CountIs(size: nat, k: nat, c: nat)
    requires size == 16 * k + c && c < 16
    ensures DumpLines(size) == if c > 0 then k + 1 else k
  {
  }

  lemma {:induction false} EmptyLine()
    ensures HexOf([]) == "" && CharsOf([]) == ""
  {
  }
}
