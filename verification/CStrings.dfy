/** C strings in character buffers, and decimal numbers in them. */
module CStrings {

  const NUL: char := '\0'

  /** The C string that starts a buffer: what comes before the first terminator. */
  function CStr(s: string): (r: string)
    ensures NUL !in r && |r| <= |s| && r == s[..|r|] && (|r| < |s| ==> s[|r|] == NUL)
  {
    if s == [] || s[0] == NUL then [] else [s[0]] + CStr(s[1..])
  }

  /** Only the part before a terminator matters. */
  lemma {:induction false} CStrOfBuffer(s: string, buf: string)
    requires |s| < |buf| && buf[..|s|] == s && buf[|s|] == NUL
    ensures CStr(buf) == CStr(s)
  {
    if s != [] && s[0] != NUL {
      assert buf[0] == buf[..|s|][0];
      CStrOfBuffer(s[1..], buf[1..]);
    }
  }

  lemma {:induction false} CStrPlain(s: string)
    requires NUL !in s
    ensures CStr(s) == s
  {
    if s != [] {
      CStrPlain(s[1..]);
    }
  }

  /** At most the first `n` characters. */
  function Cut(s: string, n: nat): string {
    if |s| <= n then s else s[..n]
  }

  function IndexOf(s: string, c: char): (i: nat)
    ensures i <= |s| && c !in s[..i] && (i < |s| ==> s[i] == c)
  {
    if s == [] || s[0] == c then 0
    else
      var i := 1 + IndexOf(s[1..], c);
      assert s[..i] == [s[0]] + s[1..][..i - 1];
      i
  }

  /** The pieces between separators. */
  function Split(s: string, c: char): (r: seq<string>)
    ensures r != []
    decreases |s|
  {
    var i := IndexOf(s, c);
    if i == |s| then [s] else [s[..i]] + Split(s[i + 1..], c)
  }

  lemma {:induction false} IndexOfFirst(a: string, c: char, rest: string)
    requires c !in a
    ensures IndexOf(a + [c] + rest, c) == |a|
  {
    if a == [] {
      assert (a + [c] + rest)[0] == c;
    } else {
      assert (a + [c] + rest)[1..] == a[1..] + [c] + rest;
      IndexOfFirst(a[1..], c, rest);
    }
  }

  /** A piece without the separator, followed by one, is split off. */
  lemma {:induction false} SplitOff(a: string, c: char, rest: string)
    requires c !in a
    ensures IndexOf(a + [c] + rest, c) == |a|
    ensures Split(a + [c] + rest, c) == [a] + Split(rest, c)
  {
    var s := a + [c] + rest;
    IndexOfFirst(a, c, rest);
    assert s[..|a|] == a && s[|a| + 1..] == rest;
  }

  predicate Contains(s: string, w: string) {
    exists i :: 0 <= i <= |s| && w <= s[i..]
  }

  // ----- numbers -----

  datatype Radix = Decimal | Hexadecimal

  predicate IsDigit(c: char, r: Radix) {
    '0' <= c <= '9' || (r.Hexadecimal? && ('a' <= c <= 'f' || 'A' <= c <= 'F'))
  }

  ghost predicate AllDigits(s: string, r: Radix) { forall c :: c in s ==> IsDigit(c, r) }

  function DigitOf(c: char, r: Radix): (d: nat)
    requires IsDigit(c, r)
    ensures d < if r.Decimal? then 10 else 16
  {
    if c <= '9' then c as int - '0' as int
    else if c <= 'F' then c as int - 'A' as int + 10
    else c as int - 'a' as int + 10
  }

  function CharOf(d: nat, upper: bool): (c: char)
    requires d < 16
    ensures IsDigit(c, Hexadecimal) && DigitOf(c, Hexadecimal) == d
    ensures d < 10 ==> IsDigit(c, Decimal) && DigitOf(c, Decimal) == d
  {
    (if d < 10 then '0' as int + d else if upper then 'A' as int + d - 10 else 'a' as int + d - 10) as char
  }

  /** The longest run of digits at the front. */
  function Digits(s: string, r: Radix): (ds: string)
    ensures |ds| <= |s| && ds == s[..|ds|] && AllDigits(ds, r)
    ensures |ds| < |s| ==> !IsDigit(s[|ds|], r)
  {
    if s == [] || !IsDigit(s[0], r) then [] else [s[0]] + Digits(s[1..], r)
  }

  function Value(ds: string, r: Radix): nat
    requires AllDigits(ds, r)
  {
    if ds == [] then 0
    else (if r.Decimal? then 10 else 16) * Value(ds[..|ds| - 1], r) + DigitOf(ds[|ds| - 1], r)
  }

  /** A number in digits, without leading zeros. */
  function Numeral(n: nat, r: Radix, upper: bool): (s: string)
    ensures s != [] && AllDigits(s, r)
  {
    if r.Decimal? then
      if n < 10 then [CharOf(n, upper)] else Numeral(n / 10, r, upper) + [CharOf(n % 10, upper)]
    else
      if n < 16 then [CharOf(n, upper)] else Numeral(n / 16, r, upper) + [CharOf(n % 16, upper)]
  }

  function Dec(n: nat): string { Numeral(n, Decimal, false) }

  lemma {:induction false} ValueOfNumeral(n: nat, r: Radix, upper: bool)
    ensures Value(Numeral(n, r, upper), r) == n
  {
    var s := Numeral(n, r, upper);
    if |s| == 1 {
      assert s[..0] == [] && Value([], r) == 0;
    }
    if n >= (if r.Decimal? then 10 else 16) {
      var m := if r.Decimal? then n / 10 else n / 16;
      ValueOfNumeral(m, r, upper);
      assert s[..|s| - 1] == Numeral(m, r, upper);
    }
  }

  /** A run of digits is read up to whatever does not continue it. */
  lemma {:induction false} DigitsOf(ds: string, rest: string, r: Radix)
    requires AllDigits(ds, r)
    requires rest == [] || !IsDigit(rest[0], r)
    ensures Digits(ds + rest, r) == ds
  {
    if ds == [] {
      assert ds + rest == rest;
    } else {
      assert (ds + rest)[1..] == ds[1..] + rest;
      DigitsOf(ds[1..], rest, r);
    }
  }

  function Pow10(k: nat): nat { if k == 0 then 1 else 10 * Pow10(k - 1) }

  lemma {:induction false} DecLength(n: nat, k: nat)
    requires 0 < k && n < Pow10(k)
    ensures |Dec(n)| <= k
  {
    if n >= 10 {
      assert k > 1;
      DecLength(n / 10, k - 1);
    }
  }

  lemma {:induction false} PowersOfTen()
    ensures Pow10(10) == 10000000000
  {
    assert Pow10(5) == 100000;
  }

  /** Digits by their codes. */
  lemma {:induction false} DigitCodes(c: char)
    ensures IsDigit(c, Decimal) <==> 48 <= c as int <= 57
    ensures IsDigit(c, Decimal) ==> DigitOf(c, Decimal) == c as int - 48
    ensures IsDigit(c, Hexadecimal) <==> 48 <= c as int <= 57 || 65 <= c as int <= 70 || 97 <= c as int <= 102
    ensures IsDigit(c, Hexadecimal) ==>
              DigitOf(c, Hexadecimal) == c as int - (if c <= '9' then 48 else if c <= 'F' then 55 else 87)
  {
  }

  // ----- strtol and strtoul with 32-bit long -----

  const LONG_MIN := -0x8000_0000
  const LONG_MAX := 0x7FFF_FFFF
  const ULONG_MAX := 0xFFFF_FFFF

  /** What the two take off the front of a string: white space, a sign, in base 16 a prefix, digits.
      Without digits nothing is taken. */
  datatype Scanned = Scanned(negative: bool, digits: string, rest: string)

  predicate IsSpace(c: char) { c == ' ' || '\t' <= c <= '\r' }

  function SkipSpace(s: string): string {
    if s != [] && IsSpace(s[0]) then SkipSpace(s[1..]) else s
  }

  predicate HasPrefix(s: string) {
    |s| >= 3 && s[0] == '0' && (s[1] == 'x' || s[1] == 'X') && IsDigit(s[2], Hexadecimal)
  }

  function SkipSign(t: string): string {
    if t != [] && (t[0] == '-' || t[0] == '+') then t[1..] else t
  }

  function SkipPrefix(u: string, r: Radix): string {
    if r.Hexadecimal? && HasPrefix(u) then u[2..] else u
  }

  function Scan(s: string, r: Radix): (n: Scanned)
    ensures AllDigits(n.digits, r)
  {
    var t := SkipSpace(s);
    var v := SkipPrefix(SkipSign(t), r);
    var ds := Digits(v, r);
    if ds == [] then Scanned(false, [], s) else Scanned(t[0] == '-', ds, v[|ds|..])
  }

  function Strtol(s: string, r: Radix): (v: int)
    ensures LONG_MIN <= v <= LONG_MAX
  {
    var n := Scan(s, r);
    var m := Value(n.digits, r);
    if n.negative then (if 0 - m < LONG_MIN then LONG_MIN else 0 - m)
    else if m > LONG_MAX then LONG_MAX else m
  }

  function Strtoul(s: string, r: Radix): (v: int)
    ensures 0 <= v <= ULONG_MAX
  {
    var n := Scan(s, r);
    var m := Value(n.digits, r);
    if m > ULONG_MAX then ULONG_MAX else if n.negative then (0 - m) % (ULONG_MAX + 1) else m
  }

  function Abs(n: int): nat { if n < 0 then -n else n }

  /** The `%d` rendering. */
  function IntText(n: int): string {
    (if n < 0 then "-" else "") + Dec(Abs(n))
  }

  /** `strtol` inverts `%d`, whatever non-digit text follows. */
  lemma {:induction false} StrtolOfIntText(n: int, rest: string)
    requires LONG_MIN <= n <= LONG_MAX
    requires rest == [] || !IsDigit(rest[0], Decimal)
    ensures Strtol(IntText(n) + rest, Decimal) == n && |IntText(n)| <= 11
    ensures forall c :: c in IntText(n) ==> c == '-' || IsDigit(c, Decimal)
  {
    hide Value, Digits, Numeral, Pow10, Scan, IsDigit;
    var d := Dec(Abs(n));
    ValueOfNumeral(Abs(n), Decimal, false);
    PowersOfTen();
    DecLength(Abs(n), 10);
    DecimalScanned(n < 0, d, rest);
    assert IntText(n) + rest == (if n < 0 then "-" else "") + (d + rest);
  }

  lemma {:induction false} DecimalScanned(negative: bool, ds: string, rest: string)
    requires AllDigits(ds, Decimal) && ds != "" && (rest == [] || !IsDigit(rest[0], Decimal))
    ensures Scan((if negative then "-" else "") + (ds + rest), Decimal) == Scanned(negative, ds, rest)
  {
    hide Digits;
    var s := (if negative then "-" else "") + (ds + rest);
    DigitsOf(ds, rest, Decimal);
    assert ds[0] in ds && (ds + rest)[0] == ds[0] && (ds + rest)[|ds|..] == rest;
    assert SkipSpace(s) == s;
    assert SkipSign(s) == ds + rest by {
      if negative {
        assert s[1..] == ds + rest;
      } else {
        assert s == ds + rest;
      }
    }
  }

  // ----- what the scanners take, spelled out -----

  /** Blanks, tabs and line ends. */
  ghost predicate WhiteSpace(s: string) { forall c :: c in s ==> c == ' ' || 9 <= c as int <= 13 }

  lemma {:induction false} SpaceSkipped(ws: string, s: string)
    requires WhiteSpace(ws)
    ensures SkipSpace(ws + s) == SkipSpace(s)
  {
    if ws == [] {
      assert ws + s == s;
    } else {
      assert ws[0] in ws && (forall c :: c in ws[1..] ==> c in ws) && (ws + s)[1..] == ws[1..] + s;
      SpaceSkipped(ws[1..], s);
    }
  }

  /** White space ahead of a number makes no difference. */
  lemma {:induction false} ScanAfterSpace(ws: string, s: string, r: Radix)
    requires WhiteSpace(ws) && Scan(s, r).digits != []
    ensures Scan(ws + s, r) == Scan(s, r)
  {
    SpaceSkipped(ws, s);
    hide SkipSpace, SkipSign, SkipPrefix, Digits;
  }

  predicate IsSign(sign: string) { sign == "" || sign == "+" || sign == "-" }

  predicate IsPrefix(prefix: string, r: Radix) {
    prefix == "" || (r == Hexadecimal && (prefix == "0x" || prefix == "0X"))
  }

  /** The text starts a prefix that a lone zero in front of it would complete. */
  predicate CompletesPrefix(rest: string) {
    |rest| >= 2 && (rest[0] == 'x' || rest[0] == 'X') && IsDigit(rest[1], Hexadecimal)
  }

  lemma {:induction false} PrefixSkipped(prefix: string, ds: string, rest: string, r: Radix)
    requires IsPrefix(prefix, r) && ds != "" && AllDigits(ds, r)
    requires rest == [] || !IsDigit(rest[0], r)
    requires prefix == "" && ds == "0" ==> !CompletesPrefix(rest)
    ensures SkipPrefix(prefix + (ds + rest), r) == ds + rest
    ensures var u := prefix + (ds + rest); u != [] && IsDigit(u[0], r)
  {
    var u := prefix + (ds + rest);
    assert ds[0] in ds && (|ds| > 1 ==> ds[1] in ds);
    if prefix == "" {
      assert u == ds + rest;
      if |ds| == 1 {
        assert u[1..] == rest;
        assert |rest| >= 2 ==> u[1] == rest[0] && u[2] == rest[1];
        assert ds[0] == '0' ==> ds == "0";
      } else {
        assert u[1] == ds[1];
      }
    } else {
      assert u[0] == prefix[0] && u[1] == prefix[1] && u[2] == ds[0] && u[2..] == ds + rest;
    }
  }

  lemma {:induction false} SignSkipped(sign: string, u: string, r: Radix)
    requires IsSign(sign) && u != [] && IsDigit(u[0], r)
    ensures var t := sign + u; SkipSpace(t) == t && SkipSign(t) == u && (t[0] == '-' <==> sign == "-")
  {
    var t := sign + u;
    assert sign == "" ==> t == u;
    assert sign != "" ==> t[0] == sign[0] && t[1..] == u;
  }

  /** White space, a sign, in base 16 a prefix, digits and then text that does not continue them: the digits are
      taken and that text is left. */
  lemma {:induction false} NumberScanned(ws: string, sign: string, prefix: string, ds: string, rest: string, r: Radix)
    requires WhiteSpace(ws) && IsSign(sign) && IsPrefix(prefix, r) && ds != "" && AllDigits(ds, r)
    requires rest == [] || !IsDigit(rest[0], r)
    requires prefix == "" && ds == "0" ==> !CompletesPrefix(rest)
    ensures Scan(ws + (sign + (prefix + (ds + rest))), r) == Scanned(sign == "-", ds, rest)
  {
    var u := prefix + (ds + rest);
    var t := sign + u;
    PrefixSkipped(prefix, ds, rest, r);
    SignSkipped(sign, u, r);
    DigitsOf(ds, rest, r);
    assert (ds + rest)[|ds|..] == rest;
    hide SkipSpace, SkipSign, SkipPrefix, Digits;
    assert Scan(t, r) == Scanned(sign == "-", ds, rest);
    ScanAfterSpace(ws, t, r);
  }

  /** Without digits nothing is taken, not even white space or a sign. */
  lemma {:induction false} NothingScanned(ws: string, sign: string, rest: string, r: Radix)
    requires WhiteSpace(ws) && IsSign(sign) && (rest == [] || !IsDigit(rest[0], r))
    requires sign == "" && rest != [] ==>
               rest[0] != ' ' && !(9 <= rest[0] as int <= 13) && rest[0] != '+' && rest[0] != '-'
    ensures Scan(ws + (sign + rest), r) == Scanned(false, [], ws + (sign + rest))
  {
    var t := sign + rest;
    SpaceSkipped(ws, t);
    assert sign == "" ==> t == rest;
    assert sign != "" ==> t[0] == sign[0] && t[1..] == rest;
    assert SkipSpace(t) == t && SkipSign(t) == rest && SkipPrefix(rest, r) == rest && Digits(rest, r) == [];
  }

  /** The values: clamped to `long`, and for the unsigned scanner to `unsigned long`, a minus sign negating modulo
      2^32 what fits. */
  lemma {:induction false} NumberValues(ws: string, sign: string, prefix: string, ds: string, rest: string, r: Radix)
    requires WhiteSpace(ws) && IsSign(sign) && IsPrefix(prefix, r) && ds != "" && AllDigits(ds, r)
    requires rest == [] || !IsDigit(rest[0], r)
    requires prefix == "" && ds == "0" ==> !CompletesPrefix(rest)
    ensures var s, m := ws + (sign + (prefix + (ds + rest))), Value(ds, r);
            && (sign != "-" ==> Strtol(s, r) == (if m < 0x8000_0000 then m else 0x7FFF_FFFF)
                                && Strtoul(s, r) == (if m < 0x1_0000_0000 then m else 0xFFFF_FFFF))
            && (sign == "-" ==> Strtol(s, r) == (if m <= 0x8000_0000 then 0 - m else -0x8000_0000)
                                && Strtoul(s, r) == (if m == 0 then 0
                                                     else if m < 0x1_0000_0000 then 0x1_0000_0000 - m else 0xFFFF_FFFF))
  {
    var s := ws + (sign + (prefix + (ds + rest)));
    hide Scan, Value;
    NumberScanned(ws, sign, prefix, ds, rest, r);
    if Value(ds, r) <= ULONG_MAX {
      Negated(Value(ds, r));
    }
    hide WhiteSpace, AllDigits, IsPrefix, CompletesPrefix;
    assert Scan(s, r).negative == (sign == "-") && Scan(s, r).digits == ds;
  }

  lemma {:induction false} Negated(m: nat)
    requires m < 0x1_0000_0000
    ensures (0 - m) % (ULONG_MAX + 1) == if m == 0 then 0 else 0x1_0000_0000 - m
  {
  }
}
