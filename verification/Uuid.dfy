/** A 128-bit identifier written out as sixteen bytes, least significant first. */
module Uuid {
  import opened BtAddress

  /** A number shifted right by `k` bytes. */
  function ShiftedBytes(n: nat, k: nat): nat {
    if k == 0 then n else ShiftedBytes(n, k - 1) / 256
  }

  function ByteAt(n: nat, k: nat): Byte { ShiftedBytes(n, k) % 256 }

  function Pow256(k: nat): nat { if k == 0 then 1 else 256 * Pow256(k - 1) }

  /** The number a sequence of bytes stands for, least significant first. */
  function LittleEndian(bs: seq<Byte>): nat {
    if bs == [] then 0 else bs[0] + 256 * LittleEndian(bs[1..])
  }

  lemma {:induction false} TimesBase(p: nat, v: nat)
    ensures 256 * (p * v) == (256 * p) * v
  {
  }

  lemma {:induction false} LittleEndianAppend(a: seq<Byte>, b: seq<Byte>)
    ensures LittleEndian(a + b) == LittleEndian(a) + Pow256(|a|) * LittleEndian(b)
  {
    if a == [] {
      assert a + b == b;
    } else {
      assert (a + b)[0] == a[0] && (a + b)[1..] == a[1..] + b;
      LittleEndianAppend(a[1..], b);
      TimesBase(Pow256(|a| - 1), LittleEndian(b));
    }
  }

  lemma {:induction false} OneByteUp(p: nat, q: nat, b: nat)
    ensures p * (256 * q + b) == (256 * p) * q + p * b
  {
  }

  /** The low bytes of a number and what is left above them make it up. */
  lemma {:induction false} LowBytes(n: nat, bs: seq<Byte>)
    requires forall k :: 0 <= k < |bs| ==> bs[k] == ByteAt(n, k)
    ensures n == LittleEndian(bs) + Pow256(|bs|) * ShiftedBytes(n, |bs|)
  {
    if bs != [] {
      var k := |bs| - 1;
      var low, p, q := bs[..k], Pow256(k), ShiftedBytes(n, k + 1);
      LowBytes(n, low);
      LittleEndianAppend(low, [bs[k]]);
      assert low + [bs[k]] == bs;
      assert [bs[k]][1..] == [] && LittleEndian([bs[k]]) == bs[k];
      assert ShiftedBytes(n, k) == 256 * q + bs[k];
      OneByteUp(p, q, bs[k]);
    }
  }

  const TWO64 := 0x1_0000_0000_0000_0000

  lemma {:induction false} Pow256Is()
    ensures Pow256(8) == TWO64
  {
    assert Pow256(4) == 0x1_0000_0000;
  }

  /** Eight bytes hold a 64-bit number. */
  lemma {:induction false} EightBytes(n: nat, bs: seq<Byte>)
    requires n < TWO64 && |bs| == 8 && forall k :: 0 <= k < 8 ==> bs[k] == ByteAt(n, k)
    ensures LittleEndian(bs) == n
  {
    LowBytes(n, bs);
    Pow256Is();
  }

  /** The sixteen bytes stand for msb * 2^64 + lsb, and each half for its own word. */
  method SetUuid(uuid: array<Byte>, msb: nat, lsb: nat)
    requires uuid.Length == 16 && msb < TWO64 && lsb < TWO64
    modifies uuid
    ensures LittleEndian(uuid[..]) == msb * TWO64 + lsb
    ensures LittleEndian(uuid[..8]) == lsb && LittleEndian(uuid[8..]) == msb
  {
    for i := 0 to 8
      invariant forall k :: 0 <= k < i ==> uuid[k] == ByteAt(lsb, k) && uuid[k + 8] == ByteAt(msb, k)
    {
      uuid[i] := ShiftedBytes(lsb, i) % 256;
      uuid[i + 8] := ShiftedBytes(msb, i) % 256;
    }
    EightBytes(lsb, uuid[..8]);
    EightBytes(msb, uuid[8..]);
    LittleEndianAppend(uuid[..8], uuid[8..]);
    Pow256Is();
    assert uuid[..] == uuid[..8] + uuid[8..];
  }

  lemma {:induction false} LittleEndianInjective(a: seq<Byte>, b: seq<Byte>)
    requires |a| == |b| && LittleEndian(a) == LittleEndian(b)
    ensures a == b
  {
    if a != [] {
      assert a[0] == LittleEndian(a) % 256 && b[0] == LittleEndian(b) % 256;
      LittleEndianInjective(a[1..], b[1..]);
      assert a == [a[0]] + a[1..] && b == [b[0]] + b[1..];
    }
  }
}
