// Counting, padding and finishing of an MD4 digest; the compression of one block is a parameter.
module Md4 {
  import opened Powers
  import opened Bytes

  datatype Digest = Digest(a: nat, b: nat, c: nat, d: nat)

  type Compression = (Digest, seq<byte>) -> Digest

  const START := Digest(0x67452301, 0xefcdab89, 0x98badcfe, 0x10325476)

  // The starting words, low byte first, count up and down as section 3.3 of RFC 1320 lists their bytes.
  lemma StartingBytes()
    ensures BytesOf(START.a, 4) == [0x01, 0x23, 0x45, 0x67] && BytesOf(START.b, 4) == [0x89, 0xab, 0xcd, 0xef]
    ensures BytesOf(START.c, 4) == [0xfe, 0xdc, 0xba, 0x98] && BytesOf(START.d, 4) == [0x76, 0x54, 0x32, 0x10]
  {
    hide BytesOf;
    FourBytes(START.a);
    FourBytes(START.b);
    FourBytes(START.c);
    FourBytes(START.d);
  }

  lemma FourBytes(v: nat)
    ensures BytesOf(v, 4) == [v % 256, v / 256 % 256, v / 256 / 256 % 256, v / 256 / 256 / 256 % 256]
  {
    assert BytesOf(v / 256, 3) == [v / 256 % 256] + BytesOf(v / 256 / 256, 2);
    assert BytesOf(v / 256 / 256, 2) == [v / 256 / 256 % 256] + BytesOf(v / 256 / 256 / 256, 1);
  }

  // ---- sections 3.1 to 3.4 of RFC 1320 ----

  // The digest after the whole blocks of m.
  function Fold(f: Compression, h: Digest, m: seq<byte>): Digest
    decreases |m|
  {
    if |m| < 64 then h else Fold(f, f(h, m[..64]), m[64..])
  }

  // How many zero bytes bring a message of n bytes and its padding bit to 56 modulo 64.
  function PadLength(n: nat): (z: nat)
    ensures z < 64 && (n + 1 + z) % 64 == 56
  {
    (119 - n % 64) % 64
  }

  // The message, a one bit, zero bits and the number of its bits, low byte first.
  function Padded(m: seq<byte>): (p: seq<byte>)
    ensures |p| % 64 == 0
  {
    PaddedLength(|m|);
    m + [0x80] + Zeros(PadLength(|m|)) + BytesOf(8 * |m|, 8)
  }

  lemma PaddedLength(n: nat)
    ensures (n + 1 + PadLength(n) + 8) % 64 == 0
  {
  }

  // The message in front, then a single bit, as few zeros as fill up the last block, and the length in bits at the end.
  lemma PaddedShape(m: seq<byte>)
    ensures var p := Padded(m);
      && |p| % 64 == 0 && |m| + 9 <= |p| < |m| + 73 && p[..|m|] == m && p[|m|] == 128
      && (forall i :: |m| < i < |p| - 8 ==> p[i] == 0)
      && (8 * |m| < Radix(4) ==> BytesVal(p[|p| - 8..]) == 8 * |m|)
  {
    hide BytesOf, BytesVal, Radix, PadLength;
    var p := Padded(m);
    assert p[|p| - 8..] == BytesOf(8 * |m|, 8);
    if 8 * |m| < Radix(4) {
      ValOfBytes(8 * |m|, 4);
    }
  }

  function DigestOf(f: Compression, m: seq<byte>): Digest {
    Fold(f, START, Padded(m))
  }

  lemma {:induction false} FoldSplit(f: Compression, h: Digest, a: seq<byte>, b: seq<byte>)
    requires |a| % 64 == 0
    ensures Fold(f, h, a + b) == Fold(f, Fold(f, h, a), b)
    decreases |a|
  {
    if a == [] {
      assert a + b == b;
    } else {
      assert (a + b)[..64] == a[..64] && (a + b)[64..] == a[64..] + b;
      FoldSplit(f, f(h, a[..64]), a[64..], b);
    }
  }

  lemma NothingFolded(f: Compression, h: Digest)
    ensures Fold(f, h, []) == h
  {
  }

  lemma FoldBlock(f: Compression, h: Digest, m: seq<byte>)
    requires |m| == 64
    ensures Fold(f, h, m) == f(h, m)
  {
    assert m[..64] == m && m[64..] == [];
  }

  // ---- the bit counter ----

  const TWO_32: nat := 0x1_0000_0000

  type word32 = x: int | 0 <= x < TWO_32

  // The sum of a word and a byte, as 32 bits hold it, and what they lose.
  function Sum(tmp: word32, b: byte): word32 {
    (tmp + b) % TWO_32
  }

  function Lost(tmp: word32, b: byte): nat {
    if tmp + b >= TWO_32 then TWO_32 else 0
  }

  // The counter bytes after an addition that carries upwards, and what is carried out of them.
  function Added(count: seq<byte>, tmp: word32): (r: seq<byte>)
    ensures |r| == |count|
  {
    if tmp == 0 || count == [] then count
    else [Sum(tmp, count[0]) % 256] + Added(count[1..], Sum(tmp, count[0]) / 256)
  }

  function Carried(count: seq<byte>, tmp: word32): word32 {
    if tmp == 0 || count == [] then tmp else Carried(count[1..], Sum(tmp, count[0]) / 256)
  }

  // Below 2^24 no sum with a byte passes 32 bits, so only the first one can.
  lemma {:induction false} AddedSmall(count: seq<byte>, tmp: word32)
    requires tmp < 0x100_0000
    ensures BytesVal(Added(count, tmp)) + Two(8 * |count|) * Carried(count, tmp) == BytesVal(count) + tmp
  {
    hide Added, Carried, BytesVal, Two;
    if tmp > 0 && count != [] {
      SumSmall(tmp, count[0]);
      AddedSmall(count[1..], Sum(tmp, count[0]) / 256);
      AddedOn(count, tmp);
    } else {
      AddedEnd(count, tmp);
    }
  }

  lemma SumSmall(tmp: word32, b: byte)
    requires tmp < 0x100_0000
    ensures Lost(tmp, b) == 0 && Sum(tmp, b) / 256 < 0x100_0000
  {
  }

  lemma AddedEnd(count: seq<byte>, tmp: word32)
    requires tmp == 0 || count == []
    ensures BytesVal(Added(count, tmp)) + Two(8 * |count|) * Carried(count, tmp) == BytesVal(count) + tmp
  {
  }

  lemma AddedVal(count: seq<byte>, tmp: word32)
    requires count != []
    ensures BytesVal(Added(count, tmp)) + Two(8 * |count|) * Carried(count, tmp)
         == BytesVal(count) + tmp - Lost(tmp, count[0])
  {
    if tmp > 0 {
      AddedSmall(count[1..], Sum(tmp, count[0]) / 256);
      AddedOn(count, tmp);
    }
  }

  // One byte in front of an exact addition.
  lemma AddedOn(count: seq<byte>, tmp: word32)
    requires tmp > 0 && count != []
    requires var rest, s := count[1..], Sum(tmp, count[0]) / 256;
      BytesVal(Added(rest, s)) + Two(8 * |rest|) * Carried(rest, s) == BytesVal(rest) + s
    ensures BytesVal(Added(count, tmp)) + Two(8 * |count|) * Carried(count, tmp)
         == BytesVal(count) + tmp - Lost(tmp, count[0])
  {
    var rest, s := count[1..], Sum(tmp, count[0]);
    AddedStep(count, tmp);
    FirstByte(count);
    FirstByte(Added(count, tmp));
    TwoStep(|rest|);
    hide Added, Carried, BytesVal, Two;
    var c, p := Carried(count, tmp), Two(8 * |rest|);
    assert Two(8 * |count|) * c == 256 * (p * c) by {
      MulAssoc(256, p, c);
    }
    assert s + Lost(tmp, count[0]) == tmp + count[0];
  }

  lemma FirstByte(b: seq<byte>)
    requires b != []
    ensures BytesVal(b) == b[0] + 256 * BytesVal(b[1..])
  {
  }

  lemma TwoStep(k: nat)
    ensures Two(8 * (k + 1)) == 256 * Two(8 * k) && Two(0) == 1
  {
    TwoAdd(8, 8 * k);
    Two16();
  }

  lemma AddedNothing(count: seq<byte>)
    ensures Added(count, 0) == count && Carried(count, 0) == 0
  {
  }

  lemma OneOver(out: seq<byte>, rest: seq<byte>, b: byte)
    requires rest != []
    ensures (out + rest)[|out| := b] == (out + [b]) + rest[1..]
  {
  }

  // One byte of the addition.
  lemma AddedStep(count: seq<byte>, tmp: word32)
    requires tmp > 0 && count != []
    ensures Added(count, tmp) == [Sum(tmp, count[0]) % 256] + Added(count[1..], Sum(tmp, count[0]) / 256)
    ensures Carried(count, tmp) == Carried(count[1..], Sum(tmp, count[0]) / 256)
  {
  }

  // ---- one update ----

  // The byte the message ends in: its top bits, a one bit, and zeros.
  function PadByte(x: byte, bit: nat): byte
    requires bit < 8
  {
    var mask := 1 as bv8 << (7 - bit);
    (((x as bv8) | mask) & !(mask - 1)) as byte
  }

  // With no bits of its own, what was in that byte does not matter.
  lemma PadByteWhole(x: byte)
    ensures PadByte(x, 0) == 0x80
  {
    var v := x as bv8;
    assert (v | 0x80) & !0x7f == 0x80;
  }

  // What closes a message whose last partial block is m, with pad byte p and counter c.
  function Tail(m: seq<byte>, p: byte, c: seq<byte>): seq<byte> {
    m + [p] + Zeros(PadLength(|m|)) + c
  }

  class MDstruct {
    var buffer: Digest
    var count: array<byte>
    var done: bool

    constructor ()
      ensures buffer == START && fresh(count) && count.Length == 8 && BytesVal(count[..]) == 0 && !done
    {
      buffer := START;
      count := new byte[8](_ => 0);
      done := false;
      new;
      ZeroVal(count[..]);
    }

    // The counter holds out and then rest, to which tmp is still to be added.
    ghost predicate Adding(was: seq<byte>, bits: word32, out: seq<byte>, rest: seq<byte>, tmp: word32)
      reads this`count, count
    {
      && count[..] == out + rest && |out| + |rest| == 8
      && Added(was, bits) == out + Added(rest, tmp)
      && Carried(was, bits) == Carried(rest, tmp)
    }

    method AddByte(p: nat, tmp: word32, ghost was: seq<byte>, ghost bits: word32, ghost out: seq<byte>,
                   ghost rest: seq<byte>)
      returns (carry: word32, ghost sum: byte)
      requires tmp > 0 && p == |out| < 8 && Adding(was, bits, out, rest, tmp)
      modifies count
      ensures rest != [] && Adding(was, bits, out + [sum], rest[1..], carry)
    {
      hide BytesVal, Added, Carried;
      AddedStep(rest, tmp);
      assert count[..][p] == rest[0];
      var total := Sum(tmp, count[p]);
      sum := total % 256;
      count[p] := total % 256;
      OneOver(out, rest, sum);
      carry := total / 256;
    }

    // Adds to the counter, byte by byte; what is still to be carried behind its last byte is returned.
    method AddCount(bits: word32) returns (tmp: word32)
      requires count.Length == 8
      modifies count
      ensures BytesVal(count[..]) + Two(64) * tmp == old(BytesVal(count[..])) + bits - Lost(bits, old(count[0]))
    {
      ghost var was := count[..];
      ghost var out: seq<byte>, rest := [], was;
      tmp := bits;
      var p := 0;
      assert [] + was == was && [] + Added(was, bits) == Added(was, bits);
      hide Adding, Two;
      while tmp > 0 && p < 8
        invariant p == |out| <= 8 && Adding(was, bits, out, rest, tmp)
        decreases 8 - p
      {
        ghost var sum;
        tmp, sum := AddByte(p, tmp, was, bits, out, rest);
        out, rest := out + [sum], rest[1..];
        p := p + 1;
      }
      AddingDone(was, bits, out, rest, tmp);
    }

    lemma AddingDone(was: seq<byte>, bits: word32, out: seq<byte>, rest: seq<byte>, tmp: word32)
      requires Adding(was, bits, out, rest, tmp) && |was| == 8 && (tmp == 0 || |out| == 8)
      ensures BytesVal(count[..]) + Two(64) * tmp == BytesVal(was) + bits - Lost(bits, was[0])
    {
      AddedVal(was, bits);
      if tmp == 0 {
        AddedNothing(rest);
      } else {
        assert rest == [];
        assert Added(rest, tmp) == [] && Carried(rest, tmp) == tmp;
      }
    }

    // Writes the counter into the last eight bytes of a block.
    method PutCount(xx: array<byte>)
      requires count.Length == 8 && xx.Length == 64 && xx != count
      modifies xx
      ensures xx[..] == old(xx[..56]) + count[..]
    {
      var i := 0;
      while i < 8
        invariant 0 <= i <= 8
        invariant forall k :: 0 <= k < i ==> xx[56 + k] == count[k]
        invariant forall k :: 0 <= k < 56 ==> xx[k] == old(xx[k])
      {
        xx[56 + i] := count[i];
        i := i + 1;
      }
    }

    // Closes the message behind its last size bytes, in one block or two.
    method Close(f: Compression, x: seq<byte>, size: nat, pad: byte)
      requires count.Length == 8 && size < 64 && size < |x|
      modifies this`buffer
      ensures buffer == Fold(f, old(buffer), Tail(x[..size], pad, count[..]))
    {
      hide Fold, Tail;
      ghost var m := x[..size];
      var xx := PadBlock(x, size, pad);
      if size <= 55 {
        FirstPart(m, pad);
        OneBlock(f, buffer, m, pad, count[..]);
        PutCount(xx);
        buffer := f(buffer, xx[..]);
      } else {
        TwoBlocks(f, buffer, m, pad, count[..]);
        buffer := f(buffer, xx[..]);
        ClearBlock(xx);
        PutCount(xx);
        buffer := f(buffer, xx[..]);
      }
    }

    // The counter with bits more.
    ghost function Total(bits: word32): int
      requires count.Length == 8
      reads this`count, count
    {
      BytesVal(count[..]) + bits - Lost(bits, count[0])
    }

    // Takes in bits bits: a whole block of 512, or the end of the message. More than 512 only move the counter. A
    // counter past its eight bytes is reported, as the loop has no bound of its own.
    method MDupdate(f: Compression, x: seq<byte>, bits: word32) returns (past: bool)
      requires count.Length == 8
      requires bits == 512 ==> |x| >= 64
      requires bits < 512 ==> |x| > bits / 8
      modifies this`buffer, this`done, count
      ensures old(done) ==> !past && buffer == old(buffer) && done && count[..] == old(count[..])
      ensures !old(done) ==> (past <==> old(Total(bits)) >= Two(64))
      ensures !old(done) ==> BytesVal(count[..]) == old(Total(bits)) % Two(64) && done == (bits < 512 && !past)
      ensures !old(done) && bits == 512 && !past ==> buffer == f(old(buffer), x[..64])
      ensures !old(done) && (bits > 512 || past) ==> buffer == old(buffer)
      ensures !old(done) && bits < 512 && !past ==>
        buffer == Fold(f, old(buffer), Tail(x[..bits / 8], PadByte(x[bits / 8], bits % 8), count[..]))
    {
      hide Two, Tail, Fold, PadByte, BytesVal;
      if done {
        return false;
      }
      var carry := AddCount(bits);
      EightBytes(count[..], carry);
      if carry > 0 {
        return true;
      }
      past := false;
      if bits == 512 {
        buffer := f(buffer, x[..64]);
      } else if bits > 512 {
        return false;
      } else {
        Close(f, x, bits / 8, PadByte(x[bits / 8], bits % 8));
        done := true;
      }
    }
  }

  lemma EightBytes(b: seq<byte>, carry: nat)
    requires |b| == 8
    ensures var v := BytesVal(b) + Two(64) * carry; v % Two(64) == BytesVal(b) && (v >= Two(64) <==> carry > 0)
  {
    BytesValBound(b, 4);
    RadixIsTwo(4);
    hide Two, BytesVal;
    DivUniqueLow(BytesVal(b) + Two(64) * carry, carry, BytesVal(b), Two(64));
    MulMono(1, if carry > 0 then carry else 1, Two(64));
  }

  // The bytes of a padded block in front of the counter.
  lemma FirstPart(m: seq<byte>, pad: byte)
    requires |m| <= 55
    ensures (m + [pad] + Zeros(63 - |m|))[..56] == m + [pad] + Zeros(55 - |m|)
  {
  }

  // The last bytes of the message, the pad byte in place of the one behind them, and zeros.
  method PadBlock(x: seq<byte>, size: nat, pad: byte) returns (xx: array<byte>)
    requires size < 64 && size < |x|
    ensures fresh(xx) && xx.Length == 64 && xx[..] == x[..size] + [pad] + Zeros(63 - size)
  {
    xx := new byte[64];
    var i := 0;
    while i <= size
      invariant 0 <= i <= size + 1
      invariant forall k :: 0 <= k < i ==> xx[k] == x[k]
    {
      xx[i] := x[i];
      i := i + 1;
    }
    i := size + 1;
    while i < 64
      invariant size + 1 <= i <= 64
      invariant forall k :: 0 <= k <= size ==> xx[k] == x[k]
      invariant forall k :: size < k < i ==> xx[k] == 0
    {
      xx[i] := 0;
      i := i + 1;
    }
    xx[size] := pad;
  }

  method ClearBlock(xx: array<byte>)
    requires xx.Length == 64
    modifies xx
    ensures xx[..56] == Zeros(56)
  {
    var i := 0;
    while i < 56
      invariant 0 <= i <= 56 && forall k :: 0 <= k < i ==> xx[k] == 0
    {
      xx[i] := 0;
      i := i + 1;
    }
  }

  lemma OneBlock(f: Compression, h: Digest, m: seq<byte>, p: byte, c: seq<byte>)
    requires |m| <= 55 && |c| == 8
    ensures Fold(f, h, Tail(m, p, c)) == f(h, m + [p] + Zeros(55 - |m|) + c)
  {
    assert PadLength(|m|) == 55 - |m|;
    FoldBlock(f, h, Tail(m, p, c));
  }

  lemma TwoBlocks(f: Compression, h: Digest, m: seq<byte>, p: byte, c: seq<byte>)
    requires 56 <= |m| <= 63 && |c| == 8
    ensures Fold(f, h, Tail(m, p, c)) == f(f(h, m + [p] + Zeros(63 - |m|)), Zeros(56) + c)
  {
    assert PadLength(|m|) == (63 - |m|) + 56;
    var a, b := m + [p] + Zeros(63 - |m|), Zeros(56) + c;
    assert Zeros(PadLength(|m|)) == Zeros(63 - |m|) + Zeros(56);
    assert Tail(m, p, c) == a + b;
    FoldSplit(f, h, a, b);
    FoldBlock(f, h, a);
    FoldBlock(f, Fold(f, h, a), b);
  }

  // ---- a whole message ----

  // The digest, or none: the offset of a block is a signed number of 32 bits.
  datatype CrcOutcome = Counted(digest: Digest) | OffsetWraps

  // The digest of the first len bytes; beyond is the byte that memory holds behind them.
  method CountCrcMD4(f: Compression, buf: seq<byte>, len: word32, beyond: byte) returns (r: CrcOutcome)
    requires len <= |buf|
    ensures r.OffsetWraps? <==> len >= 0x8000_0000
    ensures r.Counted? ==> r.digest == DigestOf(f, buf[..len])
  {
    hide Two, BytesVal, Fold, Tail, PadByte;
    var m := buf[..len];
    var md := new MDstruct();
    var b, bitcount := 0, 512;
    ghost var total := len / 64;
    assert m[..0] == [] && Fold(f, START, []) == START by {
      NothingFolded(f, START);
    }
    while b < len / 64 + 1
      invariant 0 <= b <= total + 1 && md.count.Length == 8 && fresh(md) && fresh(md.count) && 64 * b <= 0x8000_0000
      invariant b <= total ==> bitcount == 512 && !md.done && md.buffer == Fold(f, START, m[..64 * b])
                               && BytesVal(md.count[..]) == 512 * b
      invariant b == total + 1 ==> md.done && md.buffer == DigestOf(f, m)
    {
      if b == len / 64 {
        bitcount := len % 64 * 8;
      }
      if b * 64 >= 0x8000_0000 {
        return OffsetWraps;
      }
      CountFits(512 * b, bitcount);
      var x := (m + [beyond])[64 * b..];
      var past := md.MDupdate(f, x, bitcount);
      if b < total {
        WholeBlock(f, m, b, x);
      } else {
        LastBlock(f, m, x, md.count[..]);
      }
      b := b + 1;
    }
    var past := md.MDupdate(f, m + [beyond], 0);
    return Counted(md.buffer);
  }

  lemma CountFits(v: nat, bits: nat)
    requires v + bits < TWO_32 * TWO_32
    ensures (v + bits) % Two(64) == v + bits < Two(64)
  {
    TwoAdd(16, 16);
    TwoAdd(32, 32);
    Two16();
    assert Two(64) == TWO_32 * TWO_32;
    DivUnique(v + bits, 0, v + bits, Two(64));
  }

  lemma WholeBlock(f: Compression, m: seq<byte>, b: nat, x: seq<byte>)
    requires 64 * b + 64 <= |m| && |x| >= 64 && x[..64] == m[64 * b..64 * b + 64]
    ensures Fold(f, START, m[..64 * (b + 1)]) == f(Fold(f, START, m[..64 * b]), x[..64])
  {
    assert m[..64 * (b + 1)] == m[..64 * b] + x[..64];
    FoldSplit(f, START, m[..64 * b], x[..64]);
    FoldBlock(f, Fold(f, START, m[..64 * b]), x[..64]);
  }

  lemma LastBlock(f: Compression, m: seq<byte>, x: seq<byte>, c: seq<byte>)
    requires |c| == 8 && BytesVal(c) == 8 * |m| && |x| == |m| % 64 + 1 && x[..|m| % 64] == m[64 * (|m| / 64)..]
    ensures Fold(f, Fold(f, START, m[..64 * (|m| / 64)]), Tail(x[..|m| % 64], PadByte(x[|m| % 64], 0), c))
         == DigestOf(f, m)
  {
    var n, r := 64 * (|m| / 64), |m| % 64;
    var t := x[..r];
    PadByteWhole(x[r]);
    PaddedTail(m, n, t, c);
    WholeMultiple(n, |m| / 64);
    hide PadByte, Tail, Padded, Fold;
    FoldSplit(f, START, m[..n], Tail(t, 0x80, c));
  }

  lemma WholeMultiple(n: nat, k: nat)
    requires n == 64 * k
    ensures n % 64 == 0
  {
  }

  lemma PaddedTail(m: seq<byte>, n: nat, t: seq<byte>, c: seq<byte>)
    requires n == 64 * (|m| / 64) && t == m[n..] && |c| == 8 && BytesVal(c) == 8 * |m|
    ensures Padded(m) == m[..n] + Tail(t, 0x80, c)
  {
    BytesOfVal(c, 8);
    assert BytesOf(BytesVal(c), 8) == c;
    SamePad(|m|);
    hide BytesVal, BytesOf, PadLength, Zeros;
    assert m == m[..n] + t;
    JoinTail(m[..n], t, [0x80], Zeros(PadLength(|t|)), c);
  }

  lemma SamePad(n: nat)
    ensures PadLength(n) == PadLength(n % 64) && 64 * (n / 64) + n % 64 == n
  {
  }

  lemma JoinTail(a: seq<byte>, t: seq<byte>, p: seq<byte>, z: seq<byte>, c: seq<byte>)
    ensures a + t + p + z + c == a + (t + p + z + c)
  {
  }

  lemma {:induction false} ZeroVal(b: seq<byte>)
    requires forall i :: 0 <= i < |b| ==> b[i] == 0
    ensures BytesVal(b) == 0
  {
    if b != [] {
      ZeroVal(b[1..]);
    }
  }
}
