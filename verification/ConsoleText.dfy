/** The console's argument readers invert printing. */
module ConsoleText {
  import opened CStrings
  import opened Console

  ghost predicate Blank(s: string) { forall i :: 0 <= i < |s| ==> s[i] == ' ' }

  lemma {:induction false} BlanklessOf(blanks: string, t: string)
    requires Blank(blanks) && (t == [] || t[0] != ' ')
    ensures Blankless(blanks + t) == t
  {
    if blanks == [] {
      assert blanks + t == t;
    } else {
      assert (blanks + t)[1..] == blanks[1..] + t;
      BlanklessOf(blanks[1..], t);
    }
  }

  /** Blanks, a number printed in base 10 or 16, and then text that does not continue it: the readers
      return the number modulo 2^32 and leave the rest. */
  lemma {:induction false} UnsignedInvertsPrinting(blanks: string, n: nat, r: Radix, upper: bool, rest: string,
                                                   default: int)
    requires Blank(blanks) && (rest == [] || !IsDigit(rest[0], r))
    ensures ReadUnsigned(blanks + (Numeral(n, r, upper) + rest), r, default) == Parsed(n % TWO32, rest)
  {
    hide Blankless, Digits, Value, Numeral;
    var s := Numeral(n, r, upper);
    assert s[0] in s;
    BlanklessOf(blanks, s + rest);
    DigitsOf(s, rest, r);
    ValueOfNumeral(n, r, upper);
    assert (s + rest)[|s|..] == rest;
  }

  lemma {:induction false} SignedInvertsPrinting(blanks: string, n: int, rest: string, default: int)
    requires Blank(blanks) && -TWO31 <= n < TWO31 && (rest == [] || !IsDigit(rest[0], Decimal))
    ensures ReadSigned(blanks + (IntText(n) + rest), default) == Parsed(n, rest)
  {
    hide Blankless, Digits, Value, Numeral;
    var d := Dec(Abs(n));
    var t := IntText(n) + rest;
    assert d[0] in d;
    assert t == if n < 0 then "-" + (d + rest) else d + rest;
    BlanklessOf(blanks, t);
    DigitsOf(d, rest, Decimal);
    ValueOfNumeral(Abs(n), Decimal, false);
    assert n < 0 ==> t[1..] == d + rest;
    assert (d + rest)[|d|..] == rest;
  }

  /** `k` numbers read one after the other, and the text left. */
  function ReadMany(s: string, k: nat): (seq<int>, string)
    decreases k
  {
    if k == 0 then ([], s)
    else
      var one := ReadUnsigned(s, Decimal, -1);
      var more := ReadMany(one.rest, k - 1);
      ([one.value] + more.0, more.1)
  }

  /** Numbers, each with blanks before it. */
  function Listing(ns: seq<nat>, pads: seq<string>): string
    requires |ns| == |pads|
  {
    if ns == [] then "" else pads[0] + (Dec(ns[0]) + Listing(ns[1..], pads[1..]))
  }

  lemma {:induction false} ListingAppend(ns: seq<nat>, pads: seq<string>, rest: string)
    requires |ns| == |pads| && ns != []
    ensures Listing(ns, pads) + rest == pads[0] + (Dec(ns[0]) + (Listing(ns[1..], pads[1..]) + rest))
  {
    var a, b, c := pads[0], Dec(ns[0]), Listing(ns[1..], pads[1..]);
    assert a + (b + c) + rest == a + (b + (c + rest));
  }

  lemma {:induction false} ReadOneMore(pad: string, n: nat, tail: string, k: nat)
    requires Blank(pad) && n < TWO32 && (tail == [] || !IsDigit(tail[0], Decimal)) && k > 0
    ensures ReadMany(pad + (Dec(n) + tail), k) == ([n] + ReadMany(tail, k - 1).0, ReadMany(tail, k - 1).1)
  {
    hide ReadUnsigned, IsDigit, Numeral;
    UnsignedInvertsPrinting(pad, n, Decimal, false, tail, -1);
  }

  /** After each number comes a blank or what follows the list. */
  lemma {:induction false} ListingContinues(ns: seq<nat>, pads: seq<string>, rest: string)
    requires |ns| == |pads| && (rest == [] || !IsDigit(rest[0], Decimal))
    requires forall i :: 0 <= i < |ns| ==> Blank(pads[i]) && pads[i] != ""
    ensures var t := Listing(ns, pads) + rest; t == [] || !IsDigit(t[0], Decimal)
  {
    if ns != [] {
      ListingAppend(ns, pads, rest);
      assert pads[0][0] == ' ';
    }
  }

  lemma {:induction false} ReadNone(rest: string)
    ensures ReadMany(Listing([], []) + rest, 0) == ([], rest)
  {
    assert Listing([], []) + rest == rest;
  }

  /** Any list of 32-bit numbers separated by blanks is read back, and what follows is left. */
  lemma {:induction false} ListRecovered(ns: seq<nat>, pads: seq<string>, rest: string)
    requires |ns| == |pads|
    requires forall i :: 0 <= i < |ns| ==> ns[i] < TWO32 && Blank(pads[i]) && (i > 0 ==> pads[i] != "")
    requires rest == [] || !IsDigit(rest[0], Decimal)
    ensures var (got, left) := ReadMany(Listing(ns, pads) + rest, |ns|); got == ns && left == rest
  {
    hide ReadMany, Listing, IsDigit, Dec;
    if ns == [] {
      assert pads == [];
      ReadNone(rest);
    } else {
      ListingAppend(ns, pads, rest);
      ListingContinues(ns[1..], pads[1..], rest);
      ReadOneMore(pads[0], ns[0], Listing(ns[1..], pads[1..]) + rest, |ns|);
      ListRecovered(ns[1..], pads[1..], rest);
    }
  }

  // ----- when there is no number -----

  /** On a line without a digit behind its blanks every reader returns the default it was given, as its result
      type holds it, and steps over the blanks alone, the signed one over a minus sign as well. */
  lemma {:induction false} DefaultWithoutDigits(blanks: string, minus: bool, rest: string, r: Radix, default: int)
    requires Blank(blanks) && -TWO31 <= default < TWO31
    requires rest == [] || (!IsDigit(rest[0], r) && rest[0] != ' ' && (rest[0] == '-' ==> minus))
    ensures var text := blanks + rest;
            ReadUnsigned(text, r, default) == Parsed(if default < 0 then default + 0x1_0000_0000 else default, rest)
    ensures var text := blanks + (if minus then "-" + rest else rest);
            (rest == [] || !('0' <= rest[0] <= '9')) ==> ReadSigned(text, default) == Parsed(default, rest)
  {
    hide Blankless;
    BlanklessOf(blanks, rest);
    BlanklessOf(blanks, if minus then "-" + rest else rest);
    assert ("-" + rest)[1..] == rest;
  }

  // ----- where the signed reader overflows -----

  /** The intermediate result Value * 10 + c at digit `i`, before '0' is taken off. */
  function Intermediate(ds: string, i: nat): nat
    requires AllDigits(ds, Decimal) && i < |ds|
  {
    Value(ds[..i], Decimal) * 10 + ds[i] as int
  }

  lemma {:induction false} PrefixValue(ds: string, i: nat)
    requires AllDigits(ds, Decimal) && i <= |ds|
    ensures Value(ds[..i], Decimal) <= Value(ds, Decimal)
    decreases |ds|
  {
    if i == |ds| {
      assert ds[..i] == ds;
    } else {
      var most := ds[..|ds| - 1];
      assert most[..i] == ds[..i];
      PrefixValue(most, i);
    }
  }

  lemma {:induction false} IntermediateIs(ds: string, i: nat)
    requires AllDigits(ds, Decimal) && i < |ds|
    ensures Intermediate(ds, i) == Value(ds[..i + 1], Decimal) + '0' as int
  {
    assert ds[..i + 1] == ds[..i] + [ds[i]];
    ValueSnoc(ds[..i], ds[i], Decimal);
  }

  /** The digit's code is added before '0' is taken off, so the signed reader computes within range
      exactly for values up to LONG_MAX - 48, not for all that fit. */
  lemma {:induction false} SignedReaderRange(ds: string)
    requires AllDigits(ds, Decimal) && ds != []
    ensures (forall i :: 0 <= i < |ds| ==> Intermediate(ds, i) <= LONG_MAX)
            <==> Value(ds, Decimal) + '0' as int <= LONG_MAX
  {
    var last := |ds| - 1;
    IntermediateIs(ds, last);
    assert ds[..last + 1] == ds;
    assert Intermediate(ds, last) == Value(ds, Decimal) + '0' as int;
    forall i | 0 <= i < |ds|
      ensures Intermediate(ds, i) <= Intermediate(ds, last)
    {
      IntermediateIs(ds, i);
      PrefixValue(ds, i + 1);
    }
  }
}
