/**
  The console's argument readers: each skips blanks, takes a number or a word off the line and leaves
  the cursor behind it. A line is memory up to and including its terminator.
 */
module Console {
  import opened CStrings

  const TWO31 := 0x8000_0000
  const TWO32 := 0x1_0000_0000

  /** Conversions to uint32_t and to a 32-bit int. */
  function Uint32(n: int): (r: nat)
    ensures r < TWO32
  {
    n % TWO32
  }

  function Int32(n: int): (r: int)
    ensures -TWO31 <= r < TWO31 && (-TWO31 <= n < TWO31 ==> r == n)
  {
    (n + TWO31) % TWO32 - TWO31
  }

  predicate IsLine(buf: string) { buf != [] && buf[|buf| - 1] == NUL }

  function Blankless(s: string): string {
    if s != [] && s[0] == ' ' then Blankless(s[1..]) else s
  }

  /** A value read and the text left. */
  datatype Parsed = Parsed(value: int, rest: string)

  /** An unsigned number in base 10 or 16, modulo 2^32; the default when there is no digit. */
  function ReadUnsigned(s: string, r: Radix, default: int): Parsed {
    var t := Blankless(s);
    var ds := Digits(t, r);
    Parsed(Uint32(if ds == [] then default else Value(ds, r)), t[|ds|..])
  }

  /** A signed number; a lone minus sign is taken all the same. */
  function ReadSigned(s: string, default: int): Parsed {
    var t := Blankless(s);
    var u := if t != [] && t[0] == '-' then t[1..] else t;
    var ds := Digits(u, Decimal);
    var v := Value(ds, Decimal);
    Parsed(Int32(if ds == [] then default else if u != t then 0 - v else v), u[|ds|..])
  }

  // ----- the readers -----

  method SkipBlanks(buf: string, p: nat) returns (q: nat)
    requires IsLine(buf) && p < |buf|
    ensures p <= q < |buf| && buf[q..] == Blankless(buf[p..])
  {
    q := p;
    while buf[q] == ' '
      invariant p <= q < |buf| && Blankless(buf[q..]) == Blankless(buf[p..])
      decreases |buf| - q
    {
      assert buf[q..][1..] == buf[q + 1..];
      q := q + 1;
    }
  }

  lemma {:induction false} ValueSnoc(ds: string, c: char, r: Radix)
    requires AllDigits(ds, r) && IsDigit(c, r)
    ensures AllDigits(ds + [c], r)
    ensures Value(ds + [c], r) == (if r.Decimal? then 10 else 16) * Value(ds, r) + DigitOf(c, r)
  {
    assert (ds + [c])[..|ds|] == ds;
  }

  /** The digits from `b` on begin with what has been taken up to `q`. */
  ghost predicate Taken(buf: string, b: nat, q: nat, r: Radix)
    ensures Taken(buf, b, q, r) ==> b <= q < |buf| && AllDigits(buf[b..q], r)
  {
    b <= q < |buf| && AllDigits(buf[b..q], r) && Digits(buf[b..], r) == buf[b..q] + Digits(buf[q..], r)
  }

  lemma {:induction false} TakeNone(buf: string, b: nat, r: Radix)
    requires b < |buf|
    ensures Taken(buf, b, b, r) && Value(buf[b..b], r) == 0
  {
    assert buf[b..b] == [];
  }

  lemma {:induction false} TakeDigit(buf: string, b: nat, q: nat, r: Radix)
    requires Taken(buf, b, q, r) && IsDigit(buf[q], r) && buf[|buf| - 1] == NUL
    ensures q + 1 < |buf| && Taken(buf, b, q + 1, r)
    ensures Value(buf[b..q + 1], r) == (if r.Decimal? then 10 else 16) * Value(buf[b..q], r) + DigitOf(buf[q], r)
  {
    var x, c := buf[b..q], buf[q];
    ValueSnoc(x, c, r);
    assert buf[b..q + 1] == x + [c];
    OneMoreDigit(buf, q, r);
    hide Value, Digits, AllDigits, IsDigit, DigitOf;
    Reassociated(x, c, Digits(buf[q + 1..], r));
  }

  lemma {:induction false} OneMoreDigit(buf: string, q: nat, r: Radix)
    requires q < |buf| && IsDigit(buf[q], r) && buf[|buf| - 1] == NUL
    ensures q + 1 < |buf| && Digits(buf[q..], r) == [buf[q]] + Digits(buf[q + 1..], r)
  {
    assert buf[q..][1..] == buf[q + 1..];
  }

  lemma {:induction false} Reassociated(x: string, c: char, d: string)
    ensures x + ([c] + d) == (x + [c]) + d
  {
  }

  lemma {:induction false} TakenAll(buf: string, b: nat, q: nat, r: Radix)
    requires Taken(buf, b, q, r) && !IsDigit(buf[q], r)
    ensures Digits(buf[b..], r) == buf[b..q] && buf[b..][|buf[b..q]|..] == buf[q..]
  {
    assert buf[b..q] + [] == buf[b..q];
  }

  /** Wrapping at every step is wrapping once. */
  lemma {:induction false} UintStep(v: int, base: nat, x: int)
    requires base == 10 || base == 16
    ensures Uint32(Uint32(v) * base + x) == Uint32(v * base + x)
  {
    var k := v / TWO32;
    assert v == k * TWO32 + Uint32(v);
    UintSame(Uint32(v) * base + x, k * base);
  }

  lemma {:induction false} UintSame(n: int, k: int)
    ensures Uint32(n + k * TWO32) == Uint32(n)
  {
  }

  lemma {:induction false} IntSame(n: int, k: int)
    ensures Int32(n + k * TWO32) == Int32(n)
  {
  }

  /** What wrapping takes off. */
  function Wraps(n: int): (k: int)
    ensures n == Int32(n) + k * TWO32
  {
    (n + TWO31) / TWO32
  }

  lemma {:induction false} IntStep(v: int, c: int)
    ensures Int32(Int32(Int32(Int32(v) * 10) + c) - 48) == Int32(v * 10 + c - 48)
    ensures Int32(0 - Int32(v)) == Int32(0 - v)
  {
    var a := Int32(v) * 10;
    var b := Int32(a) + c;
    IntSame(Int32(b) - 48, Wraps(b));
    IntSame(b - 48, Wraps(a));
    IntSame(a + c - 48, 10 * Wraps(v));
    IntSame(0 - v, Wraps(v));
  }

  lemma {:induction false} SmallNumbers()
    ensures Uint32(0) == 0 && Int32(0) == 0
  {
  }

  method GetInt(buf: string, p: nat, default: int) returns (value: nat, q: nat)
    requires IsLine(buf) && p < |buf|
    ensures p <= q < |buf| && Parsed(value, buf[q..]) == ReadUnsigned(buf[p..], Decimal, default)
  {
    hide Taken, Digits, Value, AllDigits, Blankless, Uint32, Int32;
    value := 0;
    var useDefault := true;
    q := SkipBlanks(buf, p);
    ghost var b := q;
    TakeNone(buf, b, Decimal);
    SmallNumbers();
    while '0' <= buf[q] <= '9'
      invariant b <= q < |buf| && Taken(buf, b, q, Decimal)
      invariant value == Uint32(Value(buf[b..q], Decimal)) && useDefault == (q == b)
      decreases |buf| - q
    {
      TakeDigit(buf, b, q, Decimal);
      UintStep(Value(buf[b..q], Decimal), 10, buf[q] as int - '0' as int);
      value := Uint32(value * 10 + buf[q] as int - '0' as int);
      useDefault := false;
      q := q + 1;
    }
    TakenAll(buf, b, q, Decimal);
    if useDefault {
      value := Uint32(default);
    }
  }

  method GetHex(buf: string, p: nat, default: int) returns (value: nat, q: nat)
    requires IsLine(buf) && p < |buf|
    ensures p <= q < |buf| && Parsed(value, buf[q..]) == ReadUnsigned(buf[p..], Hexadecimal, default)
  {
    hide Taken, Digits, Value, AllDigits, Blankless, Uint32, Int32;
    value := 0;
    var useDefault := true;
    q := SkipBlanks(buf, p);
    ghost var b := q;
    TakeNone(buf, b, Hexadecimal);
    SmallNumbers();
    while '0' <= buf[q] <= '9' || 'a' <= buf[q] <= 'f' || 'A' <= buf[q] <= 'F'
      invariant b <= q < |buf| && Taken(buf, b, q, Hexadecimal)
      invariant value == Uint32(Value(buf[b..q], Hexadecimal)) && useDefault == (q == b)
      decreases |buf| - q
    {
      TakeDigit(buf, b, q, Hexadecimal);
      UintStep(Value(buf[b..q], Hexadecimal), 16, DigitOf(buf[q], Hexadecimal));
      if buf[q] >= 'a' {
        value := Uint32(value * 16 + buf[q] as int - 'a' as int + 10);
      } else if buf[q] >= 'A' {
        value := Uint32(value * 16 + buf[q] as int - 'A' as int + 10);
      } else {
        value := Uint32(value * 16 + buf[q] as int - '0' as int);
      }
      useDefault := false;
      q := q + 1;
    }
    TakenAll(buf, b, q, Hexadecimal);
    if useDefault {
      value := Uint32(default);
    }
  }

  /** The digit loop of the signed reader. Signed overflow, which C leaves open, is taken to wrap around. */
  method SignedDigits(buf: string, b: nat) returns (value: int, useDefault: bool, q: nat)
    requires IsLine(buf) && b < |buf|
    ensures b <= q < |buf| && Digits(buf[b..], Decimal) == buf[b..q] && buf[b..][q - b..] == buf[q..]
    ensures value == Int32(Value(Digits(buf[b..], Decimal), Decimal)) && useDefault == (q == b)
  {
    hide Taken, Digits, Value, AllDigits, Int32;
    value, useDefault, q := 0, true, b;
    TakeNone(buf, b, Decimal);
    SmallNumbers();
    while '0' <= buf[q] <= '9'
      invariant b <= q < |buf| && Taken(buf, b, q, Decimal)
      invariant value == Int32(Value(buf[b..q], Decimal)) && useDefault == (q == b)
      decreases |buf| - q
    {
      TakeDigit(buf, b, q, Decimal);
      IntStep(Value(buf[b..q], Decimal), buf[q] as int);
      value := Int32(Int32(Int32(value * 10) + buf[q] as int) - '0' as int);
      useDefault := false;
      q := q + 1;
    }
    TakenAll(buf, b, q, Decimal);
  }

  method GetSignedInt(buf: string, p: nat, default: int) returns (value: int, q: nat)
    requires IsLine(buf) && p < |buf|
    ensures p <= q < |buf| && Parsed(value, buf[q..]) == ReadSigned(buf[p..], default)
  {
    hide Digits, Value, Blankless, Int32, IsDigit, AllDigits;
    var useDefault, negativeNum := true, false;
    q := SkipBlanks(buf, p);
    ghost var t := buf[q..];
    if buf[q] == '-' {
      negativeNum := true;
      q := q + 1;
      assert t[1..] == buf[q..];
    }
    value, useDefault, q := SignedDigits(buf, q);
    if useDefault {
      value := Int32(default);
    } else if negativeNum {
      IntStep(Value(Digits(t[1..], Decimal), Decimal), 0);
      value := Int32(0 - value);
    }
  }

  /** The word at the front of a text. */
  function Word(s: string): (w: string)
    ensures |w| <= |s| && w == s[..|w|] && NUL !in w && ' ' !in w
    ensures |w| < |s| ==> s[|w|] == NUL || s[|w|] == ' '
  {
    if s == [] || s[0] == NUL || s[0] == ' ' then [] else [s[0]] + Word(s[1..])
  }

  method GetStr(buf: string, p: nat, dst: array<char>) returns (q: nat)
    requires IsLine(buf) && p < |buf|
    requires |Word(Blankless(buf[p..]))| < dst.Length
    modifies dst
    ensures p <= q < |buf|
    ensures var t := Blankless(buf[p..]);
            buf[q..] == t[|Word(t)|..] && CStr(dst[..]) == Word(t) && dst[|Word(t)| + 1..] == old(dst[|Word(t)| + 1..])
  {
    hide CStr, Blankless, Word;
    q := SkipBlanks(buf, p);
    ghost var w := Word(buf[q..]);
    q := CopyWord(buf, q, dst);
    CStrOfBuffer(w, dst[..]);
    CStrPlain(w);
  }

  method CopyWord(buf: string, b: nat, dst: array<char>) returns (q: nat)
    requires IsLine(buf) && b < |buf| && |Word(buf[b..])| < dst.Length
    modifies dst
    ensures var w := Word(buf[b..]);
            && b <= q < |buf| && buf[q..] == buf[b..][|w|..]
            && dst[..][..|w|] == w && dst[|w|] == NUL && dst[|w| + 1..] == old(dst[|w| + 1..])
  {
    hide Word, Copied;
    ghost var w, before := Word(buf[b..]), dst[..];
    q := b;
    var i := 0;
    CopyNone(w, buf, b, before);
    while buf[q] != NUL && buf[q] != ' '
      invariant b <= q < |buf| && i == q - b < dst.Length
      invariant Copied(w, buf, b, q, dst[..], before)
      decreases |buf| - q
    {
      CopyStep(w, buf, b, q, dst[..], before);
      dst[i] := buf[q];
      q := q + 1;
      i := i + 1;
    }
    CopyEnd(w, buf, b, q, dst[..], before);
    dst[i] := NUL;
  }

  /** The word `w` is copied as far as `q`, and the rest of the buffer is as it was. */
  ghost predicate Copied(w: string, buf: string, b: nat, q: nat, dst: string, before: string) {
    && |dst| == |before| && b <= q < |buf| && q - b < |dst| && |w| < |dst|
    && w == buf[b..q] + Word(buf[q..]) && dst[..q - b] == buf[b..q] && dst[q - b..] == before[q - b..]
  }

  lemma {:induction false} CopyNone(w: string, buf: string, b: nat, before: string)
    requires b < |buf| && w == Word(buf[b..]) && |w| < |before|
    ensures Copied(w, buf, b, b, before, before)
  {
  }

  lemma {:induction false} CopyStep(w: string, buf: string, b: nat, q: nat, dst: string, before: string)
    requires IsLine(buf) && Copied(w, buf, b, q, dst, before) && buf[q] != NUL && buf[q] != ' '
    ensures q + 1 - b < |dst| && Copied(w, buf, b, q + 1, dst[q - b := buf[q]], before)
  {
    hide Word;
    WordStep(buf, b, q);
    var next := dst[q - b := buf[q]];
    assert next[..q + 1 - b] == dst[..q - b] + [buf[q]] == buf[b..q + 1];
  }

  lemma {:induction false} CopyEnd(w: string, buf: string, b: nat, q: nat, dst: string, before: string)
    requires Copied(w, buf, b, q, dst, before) && (buf[q] == NUL || buf[q] == ' ')
    ensures w == buf[b..q] && |w| == q - b && buf[q..] == buf[b..][|w|..]
    ensures var next := dst[q - b := NUL];
            next[..|w|] == w && next[|w|] == NUL && next[|w| + 1..] == before[|w| + 1..]
  {
    WordEnd(buf, b, q);
  }

  lemma {:induction false} WordEnd(buf: string, b: nat, q: nat)
    requires b <= q < |buf| && (buf[q] == NUL || buf[q] == ' ')
    ensures buf[b..q] + Word(buf[q..]) == buf[b..q] && buf[b..][|buf[b..q]|..] == buf[q..]
  {
  }

  lemma {:induction false} WordStep(buf: string, b: nat, q: nat)
    requires IsLine(buf) && b <= q < |buf| && buf[q] != NUL && buf[q] != ' '
    ensures q + 1 < |buf| && Word(buf[q..]) == [buf[q]] + Word(buf[q + 1..])
    ensures buf[b..q] + Word(buf[q..]) == buf[b..q + 1] + Word(buf[q + 1..])
  {
    assert buf[q..][1..] == buf[q + 1..];
    assert buf[b..q + 1] == buf[b..q] + [buf[q]];
  }
}
