/**
  The two Bluetooth address parsers and the printers they invert. `str2bd` reads six hexadecimal
  fields and steps over whatever follows each; `get_bdaddr` wants colons between them.
 */
module BtAddress {
  import opened CStrings
  import opened Console

  const COLON: char := ':'
  const FIELDS := 6

  type Byte = b: int | 0 <= b < 256

  /** The text behind a field, and behind the character that follows it. */
  function BehindField(s: string): string { Scan(s, Hexadecimal).rest }

  function NextField(s: string): string {
    if BehindField(s) == [] then [] else BehindField(s)[1..]
  }

  /** The text `k` fields further on. */
  function FieldAt(s: string, k: nat): string
    decreases k
  {
    if k == 0 then s else FieldAt(NextField(s), k - 1)
  }

  function Unsigned(s: string): Byte { Strtoul(s, Hexadecimal) % 256 }
  function Signed(s: string): Byte { Strtol(s, Hexadecimal) % 256 }

  /** A colon follows each of the first `k` fields. */
  predicate Colons(s: string, k: nat)
    decreases k
  {
    k == 0 || (BehindField(s) != [] && BehindField(s)[0] == COLON && Colons(NextField(s), k - 1))
  }

  predicate WellSeparated(s: string) { Colons(s, FIELDS - 1) }

  function Str2BdBytes(s: string): (bs: seq<Byte>) { seq(FIELDS, k requires 0 <= k => Unsigned(FieldAt(s, k))) }

  function GetBdaddrBytes(s: string): seq<Byte> {
    seq(FIELDS, k requires 0 <= k => if WellSeparated(s) then Signed(FieldAt(s, k)) else 0)
  }

  // ----- cursors -----

  predicate SuffixOf(t: string, s: string) { |t| <= |s| && t == s[|s| - |t|..] }

  lemma {:induction false} SuffixTransitive(a: string, b: string, c: string)
    requires SuffixOf(a, b) && SuffixOf(b, c)
    ensures SuffixOf(a, c)
  {
  }

  lemma {:induction false} DigitsKeepTerminator(s: string, r: Radix)
    requires IsLine(s)
    ensures |Digits(s, r)| < |s| && IsLine(s[|Digits(s, r)|..]) && SuffixOf(s[|Digits(s, r)|..], s)
  {
    if IsDigit(s[0], r) {
      assert |s| > 1;
      DigitsKeepTerminator(s[1..], r);
    }
  }

  lemma {:induction false} SkipSpaceKeepsTerminator(s: string)
    requires IsLine(s)
    ensures IsLine(SkipSpace(s)) && SuffixOf(SkipSpace(s), s)
  {
    if IsSpace(s[0]) {
      SkipSpaceKeepsTerminator(s[1..]);
      SuffixTransitive(SkipSpace(s), s[1..], s);
    }
  }

  lemma {:induction false} SkipSignKeepsTerminator(t: string)
    requires IsLine(t)
    ensures IsLine(SkipSign(t)) && SuffixOf(SkipSign(t), t)
  {
  }

  lemma {:induction false} SkipPrefixKeepsTerminator(u: string, r: Radix)
    requires IsLine(u)
    ensures IsLine(SkipPrefix(u, r)) && SuffixOf(SkipPrefix(u, r), u)
  {
  }

  lemma {:induction false} ScanRest(s: string, r: Radix)
    ensures var v := SkipPrefix(SkipSign(SkipSpace(s)), r);
            Scan(s, r).rest == if Digits(v, r) == [] then s else v[|Digits(v, r)|..]
  {
    hide SkipSpace, SkipSign, SkipPrefix, Digits;
  }

  /** Scanning a line stops at its terminator at the latest. */
  lemma {:induction false} ScanStaysInLine(s: string, r: Radix)
    requires IsLine(s)
    ensures var t := Scan(s, r).rest; IsLine(t) && SuffixOf(t, s)
  {
    assert SuffixOf(s, s);
    ScanRest(s, r);
    hide *;
    var t := SkipSpace(s);
    var u := SkipSign(t);
    var v := SkipPrefix(u, r);
    SkipSpaceKeepsTerminator(s);
    SkipSignKeepsTerminator(t);
    SkipPrefixKeepsTerminator(u, r);
    DigitsKeepTerminator(v, r);
    SuffixTransitive(u, t, s);
    SuffixTransitive(v, u, s);
    SuffixTransitive(v[|Digits(v, r)|..], v, s);
  }

  /** The library scanners, on a cursor: the value and where reading stopped. */
  method StrtoulAt(buf: string, p: nat) returns (value: int, endp: nat)
    requires IsLine(buf) && p < |buf|
    ensures p <= endp < |buf| && value == Strtoul(buf[p..], Hexadecimal) && buf[endp..] == BehindField(buf[p..])
  {
    ScanStaysInLine(buf[p..], Hexadecimal);
    value := Strtoul(buf[p..], Hexadecimal);
    endp := |buf| - |BehindField(buf[p..])|;
  }

  method StrtolAt(buf: string, p: nat) returns (value: int, endp: nat)
    requires IsLine(buf) && p < |buf|
    ensures p <= endp < |buf| && value == Strtol(buf[p..], Hexadecimal) && buf[endp..] == BehindField(buf[p..])
  {
    ScanStaysInLine(buf[p..], Hexadecimal);
    value := Strtol(buf[p..], Hexadecimal);
    endp := |buf| - |BehindField(buf[p..])|;
  }

  /** Every field the unchecked parser reads begins within the line. */
  ghost predicate Readable(s: string) { forall k :: 0 <= k < FIELDS ==> FieldAt(s, k) != [] }

  lemma {:induction false} FieldAtStep(s: string, k: nat)
    ensures FieldAt(s, k + 1) == NextField(FieldAt(s, k))
    decreases k
  {
    hide NextField;
    if k > 0 {
      FieldAtStep(NextField(s), k - 1);
    }
  }

  method Str2Bd(buf: string, p: nat, address: array<Byte>)
    requires IsLine(buf) && p < |buf| && address.Length == FIELDS && Readable(buf[p..])
    modifies address
    ensures address[..] == Str2BdBytes(buf[p..])
  {
    hide Scan, Strtoul, NextField;
    var str := p;
    for i := 0 to FIELDS
      invariant p <= str <= |buf| && buf[str..] == FieldAt(buf[p..], i)
      invariant forall k :: 0 <= k < i ==> address[k] == Unsigned(FieldAt(buf[p..], k))
    {
      var value, endp := StrtoulAt(buf, str);
      address[i] := value % 256;
      FieldAtStep(buf[p..], i);
      NextIs(buf[str..], buf[endp..], buf[endp + 1..]);
      str := endp + 1;
    }
  }

  lemma {:induction false} NextIs(s: string, rest: string, next: string)
    requires BehindField(s) == rest && rest != [] && next == rest[1..]
    ensures NextField(s) == next
  {
  }

  method GetBdaddr(buf: string, p: nat, bd: array<Byte>)
    requires IsLine(buf) && p < |buf| && bd.Length == FIELDS
    modifies bd
    ensures bd[..] == GetBdaddrBytes(buf[p..])
  {
    hide Scan, Strtol, NextField, Colons, FieldAt;
    ghost var s := buf[p..];
    FieldAtStart(s);
    var str := p;
    for i := 0 to FIELDS
      invariant p <= str <= |buf| && (i < FIELDS ==> str < |buf|) && buf[str..] == FieldAt(s, i)
      invariant i < FIELDS ==> Colons(s, i)
      invariant i == FIELDS ==> WellSeparated(s)
      invariant forall k :: 0 <= k < i ==> bd[k] == Signed(FieldAt(s, k))
    {
      var value, endp := StrtolAt(buf, str);
      bd[i] := value % 256;
      ColonsStep(s, i);
      if buf[endp] != COLON && i != FIELDS - 1 {
        if WellSeparated(s) {
          ColonsNeeded(s, i + 1, FIELDS - 1);
        }
        forall k | 0 <= k < FIELDS {
          bd[k] := 0;
        }
        return;
      }
      FieldAtStep(s, i);
      NextIs(buf[str..], buf[endp..], buf[endp + 1..]);
      str := endp + 1;
    }
  }

  lemma {:induction false} FieldAtStart(s: string)
    ensures FieldAt(s, 0) == s && Colons(s, 0)
  {
  }

  lemma {:induction false} ColonsStep(s: string, k: nat)
    requires Colons(s, k)
    ensures var t := BehindField(FieldAt(s, k)); Colons(s, k + 1) <==> t != [] && t[0] == COLON
    decreases k
  {
    hide NextField, BehindField;
    if k > 0 {
      ColonsStep(NextField(s), k - 1);
    }
  }

  lemma {:induction false} ColonsNeeded(s: string, k: nat, n: nat)
    requires k <= n && Colons(s, n)
    ensures Colons(s, k)
    decreases k
  {
    hide NextField, BehindField;
    if k > 0 {
      ColonsNeeded(NextField(s), k - 1, n - 1);
    }
  }

  // ----- the two parsers agree -----

  /** The fields whose byte does not depend on the signedness of `long`: those that fit a long, those
      too long for either, and those whose low byte happens to be the one it saturates to. */
  predicate Agreeing(s: string) {
    var n := Scan(s, Hexadecimal);
    var m := Value(n.digits, Hexadecimal);
    if n.negative then m <= 0 - LONG_MIN || (m <= ULONG_MAX && m % 256 == 0)
    else m <= LONG_MAX || m > ULONG_MAX || m % 256 == 255
  }

  lemma {:induction false} SaturationMod(m: nat)
    ensures LONG_MAX % 256 == 255 && ULONG_MAX % 256 == 255 && LONG_MIN % 256 == 0
    ensures m <= ULONG_MAX ==> ((0 - m) % (ULONG_MAX + 1)) % 256 == (0 - m) % 256
    ensures (0 - m) % 256 == 0 <==> m % 256 == 0
  {
  }

  lemma {:induction false} FieldsAgreeIff(s: string)
    ensures Signed(s) == Unsigned(s) <==> Agreeing(s)
  {
    SaturationMod(Value(Scan(s, Hexadecimal).digits, Hexadecimal));
    hide Scan, Value;
  }

  ghost predicate AllAgree(s: string) { forall k :: 0 <= k < FIELDS ==> Agreeing(FieldAt(s, k)) }

  /** On the texts the checking parser accepts, the other one stays within the line, and the two yield the
      same address exactly when each of the six fields is one that fits, or saturates alike. */
  lemma {:induction false} ParsersAgreeIff(s: string)
    requires IsLine(s) && WellSeparated(s)
    ensures Readable(s)
    ensures Str2BdBytes(s) == GetBdaddrBytes(s) <==> AllAgree(s)
  {
    hide Scan, Agreeing, Signed, Unsigned, Colons;
    var x, y := Str2BdBytes(s), GetBdaddrBytes(s);
    forall k | 0 <= k < FIELDS
      ensures FieldAt(s, k) != []
      ensures x[k] == y[k] <==> Agreeing(FieldAt(s, k))
    {
      ColonsNeeded(s, k, FIELDS - 1);
      FieldInLine(s, k);
      FieldsAgreeIff(FieldAt(s, k));
    }
    if AllAgree(s) {
      forall k | 0 <= k < FIELDS
        ensures x[k] == y[k]
      {
        assert Agreeing(FieldAt(s, k));
      }
    } else {
      var k :| 0 <= k < FIELDS && !Agreeing(FieldAt(s, k));
      assert x[k] != y[k];
    }
  }

  lemma {:induction false} NextInLine(s: string)
    requires IsLine(s) && BehindField(s) != [] && BehindField(s)[0] == COLON
    ensures IsLine(NextField(s))
  {
    ScanStaysInLine(s, Hexadecimal);
    hide Scan;
  }

  lemma {:induction false} FieldInLine(s: string, k: nat)
    requires IsLine(s) && Colons(s, k)
    ensures IsLine(FieldAt(s, k))
    decreases k
  {
    hide Scan, NextField, BehindField, IsLine;
    if k > 0 {
      NextInLine(s);
      FieldInLine(NextField(s), k - 1);
    }
  }

  // ----- printing -----

  /** Two digits, as `%02x` and `%02X` print a byte. */
  function ByteText(b: Byte, upper: bool): string { [CharOf(b / 16, upper), CharOf(b % 16, upper)] }

  /** Bytes with colons between them. */
  function BytesText(bs: seq<Byte>, upper: bool): string {
    if bs == [] then ""
    else ByteText(bs[0], upper) + (if |bs| == 1 then "" else [COLON] + BytesText(bs[1..], upper))
  }

  lemma {:induction false} ByteTextValue(b: Byte, upper: bool)
    ensures AllDigits(ByteText(b, upper), Hexadecimal) && Value(ByteText(b, upper), Hexadecimal) == b
  {
    var t := ByteText(b, upper);
    assert t[..1] == [t[0]] && t[..1][..0] == [];
    assert Value([], Hexadecimal) == 0;
    assert Value(t[..1], Hexadecimal) == b / 16;
  }

  /** Either parser reads a printed byte and stops behind it. */
  lemma {:induction false} ByteScanned(b: Byte, upper: bool, rest: string)
    requires rest == [] || !IsDigit(rest[0], Hexadecimal)
    ensures var s := ByteText(b, upper) + rest; Signed(s) == b && Unsigned(s) == b && BehindField(s) == rest
  {
    var t := ByteText(b, upper);
    var s := t + rest;
    ByteTextValue(b, upper);
    DigitsOf(t, rest, Hexadecimal);
    assert s[0] == t[0] && s[1] == t[1] && t[0] in t && t[1] in t;
    assert SkipSpace(s) == s && SkipSign(s) == s && SkipPrefix(s, Hexadecimal) == s;
    hide Digits, Value, SkipSpace, SkipSign, SkipPrefix;
    assert s[|t|..] == rest;
    assert Scan(s, Hexadecimal) == Scanned(false, t, rest);
  }

  /** A printed byte is read, and what is read next is the rest of the list. */
  lemma {:induction false} BytesAhead(bs: seq<Byte>, upper: bool, rest: string)
    requires bs != [] && (rest == [] || !IsDigit(rest[0], Hexadecimal))
    ensures var s := BytesText(bs, upper) + rest;
            && Signed(s) == bs[0] && Unsigned(s) == bs[0]
            && (|bs| > 1 ==> BehindField(s) != [] && BehindField(s)[0] == COLON
                             && NextField(s) == BytesText(bs[1..], upper) + rest)
  {
    var s := BytesText(bs, upper) + rest;
    var tail := if |bs| == 1 then rest else [COLON] + (BytesText(bs[1..], upper) + rest);
    assert s == ByteText(bs[0], upper) + tail;
    hide Signed, Unsigned, BehindField, ByteText, IsDigit, BytesText;
    assert !IsDigit(COLON, Hexadecimal) by {
      ColonIsNoDigit();
    }
    ByteScanned(bs[0], upper, tail);
  }

  lemma {:induction false} ColonIsNoDigit()
    ensures !IsDigit(COLON, Hexadecimal)
  {
  }

  lemma {:induction false} BytesParsed(bs: seq<Byte>, upper: bool, rest: string, k: nat)
    requires k < |bs| && (rest == [] || !IsDigit(rest[0], Hexadecimal))
    ensures var f := FieldAt(BytesText(bs, upper) + rest, k); Signed(f) == bs[k] && Unsigned(f) == bs[k]
    ensures Colons(BytesText(bs, upper) + rest, k)
    decreases k
  {
    hide Signed, Unsigned, BehindField, NextField, IsDigit, BytesText;
    BytesAhead(bs, upper, rest);
    if k > 0 {
      BytesParsed(bs[1..], upper, rest, k - 1);
    }
  }

  /** Both parsers invert both printers, for every address, whatever non-digit text follows. */
  lemma {:induction false} ParsersInvertPrinters(address: seq<Byte>, upper: bool, rest: string)
    requires |address| == FIELDS && (rest == [] || !IsDigit(rest[0], Hexadecimal))
    ensures var s := BytesText(address, upper) + rest;
            WellSeparated(s) && Str2BdBytes(s) == address && GetBdaddrBytes(s) == address
  {
    hide Signed, Unsigned, FieldAt, BytesText, Colons;
    var s := BytesText(address, upper) + rest;
    forall k | 0 <= k < FIELDS
      ensures Colons(s, k) && Signed(FieldAt(s, k)) == address[k] && Unsigned(FieldAt(s, k)) == address[k]
    {
      BytesParsed(address, upper, rest, k);
    }
    assert Colons(s, FIELDS - 1);
  }
}
