/**
  A service-centre number as the semi-octets of a PDU: pad to an even number of digits, swap each
  pair in place, and put the length and type octets in front.
 */
module Smsc {
  import opened CStrings

  const PREFIX := "0891"
  const FILL: char := 'F'

  function Padded(d: string): (p: string)
    ensures |p| % 2 == 0 && |d| <= |p| <= |d| + 1 && p[..|d|] == d
  {
    if |d| % 2 == 0 then d else d + [FILL]
  }

  /** Each pair of characters the other way round. */
  function Swapped(s: string): (r: string)
    requires |s| % 2 == 0
    ensures |r| == |s|
  {
    if s == [] then [] else [s[1], s[0]] + Swapped(s[2..])
  }

  function Partner(k: nat): nat { if k % 2 == 0 then k + 1 else k - 1 }

  lemma {:induction false} SwappedAt(s: string, k: nat)
    requires |s| % 2 == 0 && k < |s|
    ensures Partner(k) < |s| && Swapped(s)[k] == s[Partner(k)]
  {
    if k >= 2 {
      SwappedAt(s[2..], k - 2);
    }
  }

  function Encode(d: string): string { PREFIX + Swapped(Padded(d)) }

  /** Read a PDU back: undo the swap and drop the filler. */
  function Decode(pdu: string): string
    requires |pdu| >= 4 && |pdu| % 2 == 0
  {
    var s := Swapped(pdu[4..]);
    if s != "" && s[|s| - 1] == FILL then s[..|s| - 1] else s
  }

  /** The loop that swaps the characters of each pair in place. */
  method SwapPairs(pdu: array<char>, from: nat, len: nat)
    requires from + len <= pdu.Length && len % 2 == 0
    modifies pdu
    ensures pdu[from..from + len] == Swapped(old(pdu[from..from + len]))
    ensures pdu[..from] == old(pdu[..from]) && pdu[from + len..] == old(pdu[from + len..])
  {
    hide Swapped, SwappedUpTo;
    ghost var before := pdu[..];
    var scb := from;
    SwapBegins(before, from, len);
    for i := 0 to len / 2
      invariant scb == from + 2 * i
      invariant SwappedUpTo(pdu[..], before, from, len, i)
    {
      SwapStep(pdu[..], before, from, len, i);
      var temp := pdu[scb + 1];
      pdu[scb + 1] := pdu[scb];
      pdu[scb] := temp;
      scb := scb + 2;
    }
    SwapEnds(pdu[..], before, from, len);
    assert before[from..from + len] == old(pdu[from..from + len]);
  }

  /** In `len` characters from `from` on the first `i` pairs are the other way round. */
  ghost predicate SwappedUpTo(pdu: string, before: string, from: nat, len: nat, i: nat) {
    && |pdu| == |before| && from + len <= |pdu| && 2 * i <= len && len % 2 == 0
    && pdu[..from] == before[..from] && pdu[from + len..] == before[from + len..]
    && PairsUpTo(pdu[from..from + len], before[from..from + len], 2 * i)
  }

  ghost predicate PairsUpTo(q: string, p: string, n: nat) {
    && |q| == |p| && n <= |p| && |p| % 2 == n % 2 == 0
    && (forall k :: 0 <= k < n ==> q[k] == p[Partner(k)])
    && (forall k :: n <= k < |p| ==> q[k] == p[k])
  }

  lemma {:induction false} SwapBegins(before: string, from: nat, len: nat)
    requires from + len <= |before| && len % 2 == 0
    ensures SwappedUpTo(before, before, from, len, 0)
  {
  }

  lemma {:induction false} SwapStep(pdu: string, before: string, from: nat, len: nat, i: nat)
    requires SwappedUpTo(pdu, before, from, len, i) && i < len / 2
    ensures var a, b := from + 2 * i, from + 2 * i + 1;
            b < |pdu| && SwappedUpTo(pdu[b := pdu[a]][a := pdu[b]], before, from, len, i + 1)
  {
    var n, q := 2 * i, pdu[from..from + len];
    PairStep(q, before[from..from + len], n);
    hide PairsUpTo;
    var a, b := from + n, from + n + 1;
    var next := pdu[b := pdu[a]][a := pdu[b]];
    assert next[from..from + len] == q[n + 1 := q[n]][n := q[n + 1]];
    assert next[..from] == pdu[..from] && next[from + len..] == pdu[from + len..];
  }

  lemma {:induction false} PairStep(q: string, p: string, n: nat)
    requires PairsUpTo(q, p, n) && n < |p|
    ensures n + 1 < |p| && PairsUpTo(q[n + 1 := q[n]][n := q[n + 1]], p, n + 2)
  {
    assert q[n] == p[n] && q[n + 1] == p[n + 1] && Partner(n) == n + 1 && Partner(n + 1) == n;
    hide Partner;
  }

  lemma {:induction false} SwapEnds(pdu: string, before: string, from: nat, len: nat)
    requires SwappedUpTo(pdu, before, from, len, len / 2)
    ensures pdu[from..from + len] == Swapped(before[from..from + len])
    ensures pdu[..from] == before[..from] && pdu[from + len..] == before[from + len..]
  {
    PairsSwapped(before[from..from + len], pdu[from..from + len]);
  }

  lemma {:induction false} PairsSwapped(p: string, q: string)
    requires |p| % 2 == 0 && |q| == |p| && forall k :: 0 <= k < |p| ==> Partner(k) < |p| && q[k] == p[Partner(k)]
    ensures q == Swapped(p)
  {
    forall k | 0 <= k < |p|
      ensures q[k] == Swapped(p)[k]
    {
      SwappedAt(p, k);
    }
  }

  /** `smsc` is the number with its leading character; the buffer is zeroed as far as an even number
      needs it for its terminator. */
  method SmscToPdu(smsc: string, pdu: array<char>, pduLen: int) returns (ret: int)
    requires |smsc| > 0 && NUL !in smsc
    requires pduLen >= 16 ==>
               var n := |smsc| - 1;
               if n % 2 == 0 then n + 5 <= pdu.Length && pdu[n + 4] == NUL else n + 6 <= pdu.Length
    modifies pdu
    ensures ret == (if pduLen < 16 then -1 else 0)
    ensures pduLen < 16 ==> pdu[..] == old(pdu[..])
    ensures pduLen >= 16 ==>
              var r := Encode(smsc[1..]);
              && |r| < pdu.Length && pdu[..|r|] == r && pdu[|r|] == NUL && CStr(pdu[..]) == r
              && pdu[|r| + 1..] == old(pdu[|r| + 1..])
  {
    if pduLen < 16 {
      return -1;
    }
    hide CStr, Swapped, Padded, Encode;
    var d, scb := smsc[1..], 4;
    ghost var before := pdu[..];
    CopyPadded(d, pdu, scb);
    var len := |CStr(pdu[scb..])|;
    ghost var copied := pdu[..];
    SwapPairs(pdu, scb, len);
    ghost var swapped := pdu[..];
    PutPrefix(pdu);
    assert copied[scb..scb + len] == Padded(d) && copied[scb + len + 1..] == before[scb + len + 1..];
    assert swapped[scb..scb + len] == Swapped(Padded(d)) && swapped[scb + len..] == copied[scb + len..];
    assert pdu[..4] == PREFIX && pdu[..][4..] == swapped[4..];
    Assembled(d, copied, swapped, pdu[..]);
    return 0;
  }

  /** Prefix, swapped digits and terminator make up the encoding. */
  lemma {:induction false} Assembled(d: string, copied: string, swapped: string, pdu: string)
    requires NUL !in d && |copied| == |swapped| == |pdu|
    requires var end := 4 + |Padded(d)|;
             && end < |pdu| && copied[end] == NUL
             && swapped[4..end] == Swapped(Padded(d)) && swapped[end..] == copied[end..]
             && pdu[..4] == PREFIX && pdu[4..] == swapped[4..]
    ensures var r := Encode(d);
            |r| == 4 + |Padded(d)| && pdu[..|r|] == r && pdu[|r|] == NUL && CStr(pdu) == r
            && pdu[|r| + 1..] == copied[|r| + 1..]
  {
    hide Swapped, Padded, CStr;
    var r, end := Encode(d), 4 + |Padded(d)|;
    Behind(pdu, swapped, 4, end);
    Behind(swapped, copied, end, end + 1);
    assert pdu[..end] == pdu[..4] + pdu[4..end] == r;
    EncodePlain(d);
    CStrOfBuffer(r, pdu);
    CStrPlain(r);
  }

  lemma {:induction false} Behind(a: string, b: string, from: nat, k: nat)
    requires |a| == |b| && from <= k <= |a| && a[from..] == b[from..]
    ensures a[from..k] == b[from..k] && a[k..] == b[k..] && (k > from ==> a[k - 1] == b[k - 1])
    ensures k < |a| ==> a[k] == b[k]
  {
    assert a[from..k] == a[from..][..k - from] && b[from..k] == b[from..][..k - from];
    assert a[k..] == a[from..][k - from..] && b[k..] == b[from..][k - from..];
    assert k < |a| ==> a[k] == a[k..][0] && b[k] == b[k..][0];
    assert k > from ==> a[k - 1] == a[from..][k - 1 - from] && b[k - 1] == b[from..][k - 1 - from];
  }

  /** The digits, padded to an even number, with a terminator behind. */
  method CopyPadded(d: string, pdu: array<char>, scb: nat)
    requires NUL !in d
    requires if |d| % 2 == 0 then scb + |d| < pdu.Length && pdu[scb + |d|] == NUL else scb + |d| + 1 < pdu.Length
    modifies pdu
    ensures var p := Padded(d);
            && scb + |p| < pdu.Length && pdu[scb..scb + |p|] == p && pdu[scb + |p|] == NUL
            && CStr(pdu[scb..]) == p
            && pdu[..scb] == old(pdu[..scb]) && pdu[scb + |p| + 1..] == old(pdu[scb + |p| + 1..])
  {
    hide CStr;
    var n := |d|;
    forall i | 0 <= i < n {
      pdu[scb + i] := d[i];
    }
    if n % 2 != 0 {
      pdu[scb + n] := FILL;
      pdu[scb + n + 1] := NUL;
    }
    ghost var p := Padded(d);
    assert pdu[scb..][..|p|] == p;
    CStrOfBuffer(p, pdu[scb..]);
    CStrPlain(p);
  }

  method PutPrefix(pdu: array<char>)
    requires pdu.Length >= 4
    modifies pdu
    ensures pdu[..4] == PREFIX && pdu[4..] == old(pdu[4..])
  {
    forall i | 0 <= i < 4 {
      pdu[i] := PREFIX[i];
    }
  }

  lemma {:induction false} EncodePlain(d: string)
    requires NUL !in d
    ensures NUL !in Encode(d)
  {
    var p := Padded(d);
    forall k | 0 <= k < |p|
      ensures Swapped(p)[k] != NUL
    {
      SwappedAt(p, k);
      assert Partner(k) < |d| ==> p[Partner(k)] == d[Partner(k)] && d[Partner(k)] in d;
    }
  }

  lemma {:induction false} SwappedTwice(s: string)
    requires |s| % 2 == 0
    ensures Swapped(Swapped(s)) == s
  {
    if s != [] {
      SwappedTwice(s[2..]);
      assert Swapped(s)[2..] == Swapped(s[2..]);
    }
  }

  /** A number is recovered from its encoding unless it has an even length and itself ends in the filler. */
  lemma {:induction false} DecodeEncode(d: string)
    ensures |Encode(d)| % 2 == 0
    ensures Decode(Encode(d)) == d <==> |d| % 2 == 1 || d == "" || d[|d| - 1] != 'F'
  {
    EncodingUnswapped(d);
    hide Swapped, Encode;
    if |d| % 2 == 1 {
      assert Padded(d)[..|d|] == d;
    } else if d != "" && d[|d| - 1] == FILL {
      assert |Decode(Encode(d))| == |d| - 1;
    }
  }

  lemma {:induction false} EncodingUnswapped(d: string)
    ensures |Encode(d)| >= 4 && |Encode(d)| % 2 == 0 && Swapped(Encode(d)[4..]) == Padded(d)
  {
    assert Encode(d)[4..] == Swapped(Padded(d));
    SwappedTwice(Padded(d));
  }

  /** Hence different digit strings have different encodings. */
  lemma {:induction false} EncodeInjective(d: string, e: string)
    requires AllDigits(d, Decimal) && AllDigits(e, Decimal)
    requires Encode(d) == Encode(e)
    ensures d == e
  {
    assert d != "" ==> d[|d| - 1] in d;
    assert e != "" ==> e[|e| - 1] in e;
    DecodeEncode(d);
    DecodeEncode(e);
  }

  /** Octet `k` of the address holds digit 2k in its low and digit 2k + 1 in its high half, the high half
      of the last octet being filled when the number of digits is odd. */
  lemma {:induction false} SemiOctets(d: string, k: nat)
    requires 2 * k < |d|
    ensures Encode(d)[4 + 2 * k + 1] == d[2 * k]
    ensures Encode(d)[4 + 2 * k] == if 2 * k + 1 < |d| then d[2 * k + 1] else 'F'
    ensures |Encode(d)| == 4 + |d| + |d| % 2
  {
    SwappedAt(Padded(d), 2 * k);
    SwappedAt(Padded(d), 2 * k + 1);
  }

  /** The octets that follow the length octet of an encoding. */
  function OctetsAfterLength(d: string): nat { (|Encode(d)| - 2) / 2 }

  /** The type octet is 91, an international number of the ISDN plan, and the length octet is always 08, which is
      right exactly for numbers of 13 or 14 digits. */
  lemma {:induction false} LengthOctet(d: string)
    ensures Encode(d)[..2] == "08"
    ensures Encode(d)[2..4] == "91"
    ensures OctetsAfterLength(d) == 1 + (|d| + 1) / 2
    ensures OctetsAfterLength(d) == Value(Digits(Encode(d)[..2], Hexadecimal), Hexadecimal) <==> |d| == 13 || |d| == 14
  {
    var h := "08";
    assert Encode(d)[..2] == h;
    DigitsOf(h, "", Hexadecimal);
    assert h + "" == h && h[..1] == "0" && h[..1][..0] == "";
    assert Value("", Hexadecimal) == 0 && Value(h[..1], Hexadecimal) == 0 && Value(h, Hexadecimal) == 8;
  }
}
