/**
  Addresses as they are typed: with white space in front, any separators between the bytes, and behind the
  word of a console command.
 */
module BtCommand {
  import opened CStrings
  import opened Console
  import opened ConsoleText
  import opened BtAddress

  /** Bytes with a separator between each two. */
  function Separated(bs: seq<Byte>, upper: bool, seps: string): string
    requires |bs| == |seps| + 1
  {
    ByteText(bs[0], upper) + if seps == [] then "" else [seps[0]] + Separated(bs[1..], upper, seps[1..])
  }

  ghost predicate NoDigits(s: string) { forall c :: c in s ==> !IsDigit(c, Hexadecimal) }

  lemma {:induction false} SeparatedAhead(bs: seq<Byte>, upper: bool, seps: string, rest: string)
    requires |bs| == |seps| + 1 && NoDigits(seps) && (rest == [] || !IsDigit(rest[0], Hexadecimal))
    ensures var s := Separated(bs, upper, seps) + rest;
            && Signed(s) == bs[0] && Unsigned(s) == bs[0] && s != [] && Scan(s, Hexadecimal).digits != []
            && (seps != [] ==> BehindField(s) != [] && BehindField(s)[0] == seps[0]
                               && NextField(s) == Separated(bs[1..], upper, seps[1..]) + rest)
  {
    var s := Separated(bs, upper, seps) + rest;
    var tail := if seps == [] then rest else [seps[0]] + (Separated(bs[1..], upper, seps[1..]) + rest);
    assert s == ByteText(bs[0], upper) + tail;
    assert seps != [] ==> seps[0] in seps && tail[1..] == Separated(bs[1..], upper, seps[1..]) + rest;
    hide Signed, Unsigned, ByteText, IsDigit, Separated, Scan;
    ByteScanned(bs[0], upper, tail);
    ByteHasDigits(bs[0], upper, tail);
  }

  lemma {:induction false} ByteHasDigits(b: Byte, upper: bool, rest: string)
    requires rest == [] || !IsDigit(rest[0], Hexadecimal)
    ensures Scan(ByteText(b, upper) + rest, Hexadecimal).digits != []
  {
    var t := ByteText(b, upper);
    assert AllDigits(t, Hexadecimal) by {
      ByteTextValue(b, upper);
    }
    var none := "";
    NumberScanned(none, none, none, t, rest, Hexadecimal);
    assert none + (none + (none + (t + rest))) == t + rest;
  }

  lemma {:induction false} SeparatedParsed(bs: seq<Byte>, upper: bool, seps: string, rest: string, k: nat)
    requires |bs| == |seps| + 1 && NoDigits(seps) && (rest == [] || !IsDigit(rest[0], Hexadecimal)) && k < |bs|
    ensures var s := Separated(bs, upper, seps) + rest;
            && Signed(FieldAt(s, k)) == bs[k] && Unsigned(FieldAt(s, k)) == bs[k] && FieldAt(s, k) != []
            && (Colons(s, k) <==> forall i :: 0 <= i < k ==> seps[i] == COLON)
    decreases k
  {
    hide Signed, Unsigned, BehindField, NextField, IsDigit, Separated, Scan;
    SeparatedAhead(bs, upper, seps, rest);
    if k > 0 {
      assert forall c :: c in seps[1..] ==> c in seps;
      assert forall i :: 1 <= i < |seps| ==> seps[i] == seps[1..][i - 1];
      SeparatedParsed(bs[1..], upper, seps[1..], rest, k - 1);
    }
  }

  /** White space in front of a field that has digits changes nothing from there on. */
  lemma {:induction false} AfterSpace(ws: string, s: string, k: nat)
    requires WhiteSpace(ws) && s != [] && Scan(s, Hexadecimal).digits != []
    ensures Signed(FieldAt(ws + s, k)) == Signed(FieldAt(s, k))
    ensures Unsigned(FieldAt(ws + s, k)) == Unsigned(FieldAt(s, k))
    ensures FieldAt(ws + s, k) == [] <==> FieldAt(s, k) == []
    ensures Colons(ws + s, k) == Colons(s, k)
  {
    SameAfterSpace(ws, s);
    hide Signed, Unsigned, BehindField, NextField, Scan, WhiteSpace;
  }

  lemma {:induction false} SameAfterSpace(ws: string, s: string)
    requires WhiteSpace(ws) && Scan(s, Hexadecimal).digits != []
    ensures Signed(ws + s) == Signed(s) && Unsigned(ws + s) == Unsigned(s)
    ensures BehindField(ws + s) == BehindField(s) && NextField(ws + s) == NextField(s)
  {
    ScanAfterSpace(ws, s, Hexadecimal);
    hide Scan, WhiteSpace;
  }

  /** Six printed bytes with white space in front and any separators between them: the unchecked parser reads
      the bytes, the checking one reads them if every separator is a colon and else yields all zeros. */
  lemma {:induction false} SeparatorsMatter(ws: string, bs: seq<Byte>, upper: bool, seps: string, rest: string)
    requires |bs| == 6 && |seps| == 5 && WhiteSpace(ws) && NoDigits(seps)
    requires rest == [] || !IsDigit(rest[0], Hexadecimal)
    ensures var s := ws + (Separated(bs, upper, seps) + rest);
            && Readable(s) && Str2BdBytes(s) == bs
            && GetBdaddrBytes(s) == if forall i :: 0 <= i < 5 ==> seps[i] == ':' then bs else [0, 0, 0, 0, 0, 0]
  {
    hide Str2BdBytes, GetBdaddrBytes, Unsigned, Signed, FieldAt, Colons, Separated, Scan, NoDigits, IsDigit, WhiteSpace;
    var core := Separated(bs, upper, seps) + rest;
    SeparatedAhead(bs, upper, seps, rest);
    forall k | 0 <= k < FIELDS
      ensures FieldAt(ws + core, k) != []
      ensures Unsigned(FieldAt(ws + core, k)) == bs[k] && Signed(FieldAt(ws + core, k)) == bs[k]
    {
      SeparatedParsed(bs, upper, seps, rest, k);
      AfterSpace(ws, core, k);
    }
    SeparatedParsed(bs, upper, seps, rest, FIELDS - 1);
    AfterSpace(ws, core, FIELDS - 1);
    SixBytes(ws + core, bs);
  }

  lemma {:induction false} SixBytes(s: string, bs: seq<Byte>)
    requires |bs| == FIELDS
    requires forall k :: 0 <= k < FIELDS ==> Unsigned(FieldAt(s, k)) == bs[k] && Signed(FieldAt(s, k)) == bs[k]
    ensures Str2BdBytes(s) == bs
    ensures GetBdaddrBytes(s) == if WellSeparated(s) then bs else [0, 0, 0, 0, 0, 0]
  {
    hide Unsigned, Signed, FieldAt, WellSeparated;
  }

  lemma {:induction false} ColonsBetween(bs: seq<Byte>, upper: bool, seps: string)
    requires |bs| == |seps| + 1 && forall c :: c in seps ==> c == COLON
    ensures Separated(bs, upper, seps) == BytesText(bs, upper)
  {
    if seps != [] {
      assert seps[0] in seps && forall c :: c in seps[1..] ==> c in seps;
      ColonsBetween(bs[1..], upper, seps[1..]);
    }
  }

  /** Both parsers invert the printers, whatever white space is in front and whatever non-digit text follows. */
  lemma {:induction false} PrintedAfterSpace(ws: string, address: seq<Byte>, upper: bool, rest: string)
    requires |address| == FIELDS && WhiteSpace(ws) && (rest == [] || !IsDigit(rest[0], Hexadecimal))
    ensures var s := ws + (BytesText(address, upper) + rest);
            Readable(s) && Str2BdBytes(s) == address && GetBdaddrBytes(s) == address
  {
    var seps := [COLON, COLON, COLON, COLON, COLON];
    ColonsBetween(address, upper, seps);
    SeparatorsMatter(ws, address, upper, seps, rest);
  }

  /** A field as `strtol` and `strtoul` take it, with white space, a sign and a prefix: its byte is the value modulo
      256, negated by a minus sign, if it fits a long, and what is behind it begins where its digits end. */
  lemma {:induction false} FieldByte(ws: string, sign: string, prefix: string, ds: string, rest: string)
    requires WhiteSpace(ws) && IsSign(sign) && IsPrefix(prefix, Hexadecimal) && ds != "" && AllDigits(ds, Hexadecimal)
    requires rest == [] || !IsDigit(rest[0], Hexadecimal)
    requires prefix == "" && ds == "0" ==> !CompletesPrefix(rest)
    ensures BehindField(ws + (sign + (prefix + (ds + rest)))) == rest
    ensures var s := ws + (sign + (prefix + (ds + rest)));
            var m: int := Value(ds, Hexadecimal);
            m < 0x8000_0000 ==> Signed(s) == Unsigned(s) == (if sign == "-" then -m else m) % 256
  {
    var m: int := Value(ds, Hexadecimal);
    NumberScanned(ws, sign, prefix, ds, rest, Hexadecimal);
    NumberValues(ws, sign, prefix, ds, rest, Hexadecimal);
    hide Scan, Strtol, Strtoul, Value, IsDigit, WhiteSpace, AllDigits, IsPrefix, IsSign, CompletesPrefix;
    assert sign == "-" && m != 0 ==> (0x1_0000_0000 - m) % 256 == (0 - m) % 256;
  }

  // ----- the pairing command -----

  /** A command line: blanks, the command word, blanks, an address and what follows it. */
  datatype PairLine =
    PairLine(pads: string, word: string, blanks: string, address: seq<Byte>, upper: bool, rest: string)

  ghost predicate Typed(l: PairLine) {
    && Blank(l.pads) && Blank(l.blanks) && l.blanks != ""
    && l.word != "" && NUL !in l.word && ' ' !in l.word
    && |l.address| == FIELDS && (l.rest == [] || !IsDigit(l.rest[0], Hexadecimal))
  }

  function LineText(l: PairLine): string {
    l.pads + (l.word + (l.blanks + (BytesText(l.address, l.upper) + l.rest)))
  }

  lemma {:induction false} WordOf(word: string, rest: string)
    requires NUL !in word && ' ' !in word && rest != [] && rest[0] == ' '
    ensures Word(word + rest) == word
  {
    if word == [] {
      assert word + rest == rest;
    } else {
      assert (word + rest)[0] == word[0] && (word + rest)[1..] == word[1..] + rest;
      WordOf(word[1..], rest);
    }
  }

  lemma {:induction false} CommandSplit(l: PairLine)
    requires Typed(l)
    ensures var t := Blankless(LineText(l));
            && Word(t) == l.word && t[|l.word|..] == l.blanks + (BytesText(l.address, l.upper) + l.rest)
  {
    var tail := l.blanks + (BytesText(l.address, l.upper) + l.rest);
    assert l.word[0] in l.word && (l.word + tail)[0] == l.word[0] && tail[0] == l.blanks[0];
    BlanklessOf(l.pads, l.word + tail);
    WordOf(l.word, tail);
    assert (l.word + tail)[|l.word|..] == tail;
  }

  /** Reading the command word and then the address behind it, as the console does for a pairing command. */
  method PairCommand(buf: string, p: nat, cmd: array<char>, address: array<Byte>, ghost l: PairLine)
    requires IsLine(buf) && p < |buf| && Typed(l) && buf[p..] == LineText(l)
    requires |l.word| < cmd.Length && address.Length == FIELDS
    modifies cmd, address
    ensures CStr(cmd[..]) == l.word && address[..] == l.address
  {
    hide LineText, Blankless, Word, CStr, Str2BdBytes, BytesText, GetBdaddrBytes, IsDigit;
    CommandSplit(l);
    assert WhiteSpace(l.blanks);
    PrintedAfterSpace(l.blanks, l.address, l.upper, l.rest);
    var q := GetStr(buf, p, cmd);
    Str2Bd(buf, q, address);
  }
}
