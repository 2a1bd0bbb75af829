// Numbers as little-endian bytes, and the bytes behind an array of units.
module Bytes {
  import opened Powers
  import opened Units

  type byte = x: int | 0 <= x < 256

  function BytesVal(b: seq<byte>): nat {
    if b == [] then 0 else b[0] + 256 * BytesVal(b[1..])
  }

  // The count lowest bytes of v.
  function BytesOf(v: nat, count: nat): (b: seq<byte>)
    ensures |b| == count
  {
    if count == 0 then [] else [v % 256] + BytesOf(v / 256, count - 1)
  }

  function Zeros(count: nat): seq<byte> {
    seq(count, _ => 0)
  }

  // The bytes of characters below 128.
  function Ascii(s: string): (b: seq<byte>)
    ensures |b| == |s|
  {
    seq(|s|, i requires 0 <= i < |s| => if s[i] as int < 128 then s[i] as int else 63)
  }

  lemma {:induction false} BytesOfVal(b: seq<byte>, count: nat)
    requires |b| <= count
    ensures BytesOf(BytesVal(b), count) == b + Zeros(count - |b|)
  {
    if count == 0 {
    } else if b == [] {
      BytesOfVal(b, count - 1);
      assert Zeros(count) == [0] + Zeros(count - 1);
    } else {
      BytesOfVal(b[1..], count - 1);
    }
  }

  lemma {:induction false} ValOfBytes(v: nat, k: nat)
    requires v < Radix(k)
    ensures BytesVal(BytesOf(v, 2 * k)) == v
  {
    if k > 0 {
      var b := BytesOf(v, 2 * k);
      assert b[1..] == BytesOf(v / 256, 2 * k - 1);
      assert b[1..][1..] == BytesOf(v / 256 / 256, 2 * (k - 1));
      ValOfBytes(v / 256 / 256, k - 1);
    }
  }

  lemma {:induction false} BytesValBound(b: seq<byte>, k: nat)
    requires |b| <= 2 * k
    ensures BytesVal(b) < Radix(k)
  {
    if |b| <= 1 {
      if |b| == 1 {
        assert BytesVal(b[1..]) == 0;
        RadixMono(1, k);
      }
    } else {
      BytesValBound(b[2..], k - 1);
      assert b[1..][1..] == b[2..];
    }
  }

  // Unit i of a byte sequence read two bytes at a time, zero beyond its end.
  function UnitAt(b: seq<byte>, i: nat): unit {
    ByteOrZero(b, 2 * i) + 256 * ByteOrZero(b, 2 * i + 1)
  }

  function ByteOrZero(b: seq<byte>, i: nat): (v: int)
    ensures 0 <= v < 256
  {
    if i < |b| then b[i] else 0
  }

  // Byte i of a unit sequence.
  function ByteAt(s: seq<unit>, i: nat): byte
    requires i < 2 * |s|
  {
    if i % 2 == 0 then s[i / 2] % 256 else s[i / 2] / 256
  }

  lemma ValFront(s: seq<unit>, k: nat)
    requires 0 < k <= |s|
    ensures Val(s, k) == s[0] + 65536 * Val(s[1..], k - 1)
  {
    ValSplit(s, 1, k);
    ValOne(s);
    RadixStep(0);
  }

  lemma {:induction false} UnitsVal(s: seq<unit>, b: seq<byte>, k: nat)
    requires k <= |s| && |b| <= 2 * k
    requires forall i :: 0 <= i < k ==> s[i] == UnitAt(b, i)
    ensures Val(s, k) == BytesVal(b)
  {
    if k > 0 {
      ValFront(s, k);
      var rest := if |b| <= 2 then [] else b[2..];
      forall i | 0 <= i < k - 1
        ensures s[1..][i] == UnitAt(rest, i)
      {
        assert s[i + 1] == UnitAt(b, i + 1);
      }
      UnitsVal(s[1..], rest, k - 1);
      BytesValTwo(b);
    }
  }

  lemma BytesValTwo(b: seq<byte>)
    ensures BytesVal(b) == UnitAt(b, 0) + 65536 * BytesVal(if |b| <= 2 then [] else b[2..])
  {
    if |b| == 1 {
      assert BytesVal(b[1..]) == 0;
    } else if |b| >= 2 {
      assert b[1..][1..] == b[2..];
      assert BytesVal(b[1..]) == b[1] + 256 * BytesVal(b[2..]);
    }
  }

  lemma TwoBytes(v: nat, u: unit, rest: nat)
    requires v == u + 65536 * rest
    ensures v % 256 == u % 256 && (v / 256) % 256 == u / 256 && v / 256 / 256 == rest
  {
  }

  lemma ByteShift(s: seq<unit>, i: nat)
    requires 2 <= i < 2 * |s|
    ensures ByteAt(s[1..], i - 2) == ByteAt(s, i)
  {
    assert s[1..][(i - 2) / 2] == s[i / 2];
  }

  lemma {:induction false} BytesOfUnits(s: seq<unit>, k: nat)
    requires k <= |s|
    ensures forall i :: 0 <= i < 2 * k ==> BytesOf(Val(s, k), 2 * k)[i] == ByteAt(s, i)
  {
    if k > 0 {
      hide Val, Radix;
      ValFront(s, k);
      BytesOfUnits(s[1..], k - 1);
      var v, rest := Val(s, k), Val(s[1..], k - 1);
      TwoBytes(v, s[0], rest);
      var b := BytesOf(v, 2 * k);
      assert b[1..] == BytesOf(v / 256, 2 * k - 1);
      assert b[1..][1..] == BytesOf(rest, 2 * (k - 1));
      forall i | 0 <= i < 2 * k
        ensures b[i] == ByteAt(s, i)
      {
        if i >= 2 {
          assert b[i] == b[1..][1..][i - 2];
          ByteShift(s, i);
        }
      }
    }
  }

  // Only the low units matter for the low bytes.
  lemma {:induction false} BytesOfLow(v: nat, w: nat, count: nat, k: nat)
    requires count <= 2 * k
    ensures BytesOf(v + Radix(k) * w, count) == BytesOf(v, count)
    decreases k
  {
    if k == 0 || count == 0 {
    } else {
      var r := Radix(k - 1) * w;
      MulAssoc(65536, Radix(k - 1), w);
      assert (v + 65536 * r) % 256 == v % 256 && (v + 65536 * r) / 256 == v / 256 + 256 * r;
      assert (v / 256 + 256 * r) % 256 == (v / 256) % 256 && (v / 256 + 256 * r) / 256 == v / 256 / 256 + r;
      if count >= 2 {
        BytesOfLow(v / 256 / 256, w, count - 2, k - 1);
      }
    }
  }
}
