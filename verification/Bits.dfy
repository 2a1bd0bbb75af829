// Exclusive or of numbers, bit by bit, and of bytes as the processor does it.
module Bits {
  import opened Powers

  // Exclusive or of the k lowest bits.
  function XorBits(a: nat, b: nat, k: nat): (r: nat)
    ensures r < Two(k)
  {
    if k == 0 then 0 else (a % 2 + b % 2) % 2 + 2 * XorBits(a / 2, b / 2, k - 1)
  }

  lemma LowBit(x: nat, y: nat, h: nat)
    ensures ((x % 2 + y % 2) % 2 + 2 * h) % 2 == (x % 2 + y % 2) % 2 && ((x % 2 + y % 2) % 2 + 2 * h) / 2 == h
    ensures ((x % 2 + y % 2) % 2 + y % 2) % 2 == x % 2
  {
  }

  lemma {:induction false} XorBitsTwice(a: nat, b: nat, k: nat)
    requires a < Two(k)
    ensures XorBits(XorBits(a, b, k), b, k) == a
  {
    if k > 0 {
      var h := XorBits(a / 2, b / 2, k - 1);
      LowBit(a, b, h);
      XorBitsTwice(a / 2, b / 2, k - 1);
    }
  }

  // ---- bytes as bit vectors ----

  function Number(x: bv8): nat {
    x as int
  }

  function Half(x: bv8): bv8 {
    x >> 1
  }

  function Exclusive(x: bv8, y: bv8): bv8 {
    x ^ y
  }

  lemma HalfOfBits(x: bv8)
    ensures Number(Half(x)) == Number(x) / 2 && Number(x & 1) == Number(x) % 2
  {
  }

  lemma HalfOfXor(x: bv8, y: bv8)
    ensures Half(x ^ y) == Half(x) ^ Half(y) && (x ^ y) & 1 == (x & 1) ^ (y & 1) && x & 1 <= 1 && y & 1 <= 1
  {
  }

  lemma XorOfBits(x: bv8, y: bv8)
    requires x <= 1 && y <= 1
    ensures Number(x ^ y) == (Number(x) + Number(y)) % 2
  {
    assert x == 0 || x == 1;
    assert y == 0 || y == 1;
  }

  // One bit of an exclusive or, and the rest.
  lemma XorParts(x: bv8, y: bv8)
    ensures Number(Exclusive(x, y)) == (Number(x) % 2 + Number(y) % 2) % 2 + 2 * Number(Exclusive(Half(x), Half(y)))
  {
    hide Number, Half;
    HalfOfXor(x, y);
    HalfOfBits(x);
    HalfOfBits(y);
    HalfOfBits(x ^ y);
    XorOfBits(x & 1, y & 1);
  }

  lemma {:induction false} XorBitsIs(x: bv8, y: bv8, k: nat)
    requires Number(x) < Two(k) && Number(y) < Two(k)
    ensures XorBits(Number(x), Number(y), k) == Number(Exclusive(x, y))
    decreases k
  {
    hide Number, Half, Exclusive, XorBits, Two;
    if k == 0 {
      NoBits(x, y);
    } else {
      HalfBelow(x, k);
      HalfBelow(y, k);
      XorBitsIs(Half(x), Half(y), k - 1);
      XorBitsStep(x, y, k);
    }
  }

  lemma HalfBelow(x: bv8, k: nat)
    requires k > 0 && Number(x) < Two(k)
    ensures Number(Half(x)) < Two(k - 1)
  {
    hide Number, Half;
    HalfOfBits(x);
  }

  lemma XorBitsStep(x: bv8, y: bv8, k: nat)
    requires k > 0 && XorBits(Number(Half(x)), Number(Half(y)), k - 1) == Number(Exclusive(Half(x), Half(y)))
    ensures XorBits(Number(x), Number(y), k) == Number(Exclusive(x, y))
  {
    hide Number, Half, Exclusive;
    HalfOfBits(x);
    HalfOfBits(y);
    XorParts(x, y);
  }

  lemma NoBits(x: bv8, y: bv8)
    requires Number(x) < Two(0) && Number(y) < Two(0)
    ensures XorBits(Number(x), Number(y), 0) == Number(Exclusive(x, y))
  {
    assert Number(x) == 0 && Number(y) == 0;
    assert x == 0 && y == 0;
  }

  lemma XorBytes(x: bv8, y: bv8)
    ensures XorBits(x as int, y as int, 8) == (x ^ y) as int
  {
    hide XorBits, Two;
    TwoEight();
    XorBitsIs(x, y, 8);
  }

  lemma TwoEight()
    ensures Two(8) == 256
  {
  }
}
