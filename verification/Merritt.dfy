// Merritt's modular multiplication on values: what the unit-array routine computes with
// p live units, including the wrap of the 16-bit signed difference of top units, and
// exactly when that is multiplication modulo n.
module Merritt {
  import opened Powers
  import opened Units

  // n shifted left by i bits.
  function Shifted(n: nat, i: nat): nat {
    if i == 0 then n else 2 * Shifted(n, i - 1)
  }

  // A machine difference of two units kept in a signed 16-bit register.
  function Signed16(x: int): int {
    if x % 65536 >= 32768 then x % 65536 - 65536 else x % 65536
  }

  // The quick comparison of a rung: top units by signed difference, then the next units,
  // and only then the whole numbers.
  predicate QuickTest(vTop: int, vNext: int, mTop: int, mNext: int, notBelow: bool) {
    var pm := Signed16(vTop - mTop);
    pm > 0 || (pm == 0 && (vNext > mNext || (vNext == mNext && notBelow)))
  }

  predicate RungTest(v: nat, m: nat, p: nat)
    requires p >= 2
  {
    QuickTest(UnitOf(v, p - 1), UnitOf(v, p - 2), UnitOf(m, p - 1), UnitOf(m, p - 2), v >= m)
  }

  function Rung(v: nat, m: nat, p: nat): nat
    requires p >= 2
  {
    if RungTest(v, m, p) then Truncated(v - m, p) else v
  }

  // The ladder from rung i down to rung 0.
  function Ladder(v: nat, n: nat, i: nat, p: nat): nat
    requires p >= 2
    decreases i
  {
    var w := Rung(v, Shifted(n, i), p);
    if i == 0 then w else Ladder(w, n, i - 1, p)
  }

  // One multiplier unit u: shift the product by a unit, add u times x, reduce.
  function MerrittStep(v: nat, x: nat, u: nat, n: nat, p: nat): nat
    requires p >= 2
  {
    Ladder(Truncated(v * 65536 + u * x, p), n, 16, p)
  }

  function MerrittProduct(x: nat, y: nat, n: nat, p: nat): nat
    requires p >= 2
  {
    if y == 0 then 0 else MerrittStep(MerrittProduct(x, y / 65536, n, p), x, y % 65536, n, p)
  }

  // Left-to-right square and multiply over Merritt products.
  function SquareMultiply(x: nat, e: nat, n: nat, p: nat): nat
    requires p >= 2 && e > 0
  {
    if e == 1 then
      x
    else
      var r := SquareMultiply(x, e / 2, n, p);
      var s := MerrittProduct(r, r, n, p);
      if e % 2 == 1 then MerrittProduct(s, x, n, p) else s
  }

  // The modulus leaves seventeen bits of head room below p units.
  ghost predicate HeadRoom(n: nat, p: nat) {
    p >= 2 && 0 < n && n * 131072 < Radix(p)
  }

  // The precision exponentiation works at: the bits of the modulus, seventeen more, rounded up.
  function WorkPrecision(n: nat): nat {
    (BitLen(n) + (16 + 1) + 15) / 16
  }

  lemma WorkHeadRoom(n: nat)
    requires n > 0
    ensures HeadRoom(n, WorkPrecision(n))
    ensures n < Radix(WorkPrecision(n))
  {
    var l, p := BitLen(n), WorkPrecision(n);
    BitLenBounds(n);
    TwoAdd(l, 17);
    Two16();
    TwoMono(l + 17, 16 * p);
    RadixIsTwo(p);
  }

  // No running value reaches the top unit 65535.
  predicate NoWrap(n: nat, p: nat)
    requires p >= 1
  {
    (n - 1) * 131071 < 65535 * Radix(p - 1)
  }

  lemma TruncatedSmall(v: nat, p: nat)
    requires v < Radix(p)
    ensures Truncated(v, p) == v
  {
    TruncatedIsMod(v, p);
    DivUnique(v, 0, v, Radix(p));
  }

  lemma UnitsOfBelow(v: nat, p: nat)
    requires p >= 2 && v < Radix(p)
    ensures UnitOf(v, p - 1) == v / Radix(p - 1) < 65536
    ensures v / Radix(p - 2) == UnitOf(v, p - 1) * 65536 + UnitOf(v, p - 2)
  {
    var r := Radix(p - 1);
    UnitOfIsDiv(v, p - 1);
    UnitOfIsDiv(v, p - 2);
    DivMod(v, r);
    if v / r >= 65536 {
      MulMono(65536, v / r, r);
    }
    DivDiv(v, Radix(p - 2), 65536);
  }

  lemma QuotientOrder(v: nat, m: nat, d: nat)
    requires d > 0 && v / d > m / d
    ensures v > m
  {
    DivMod(v, d);
    DivMod(m, d);
    MulMono(m / d + 1, v / d, d);
    MulDistrib(m / d, 1, d);
  }

  // The top two units decide the order wherever they differ.
  lemma HigherUnits(v: nat, m: nat, p: nat)
    requires p >= 2 && v < Radix(p) && m < Radix(p)
    ensures UnitOf(v, p - 1) > UnitOf(m, p - 1) ==> v > m
    ensures UnitOf(v, p - 1) == UnitOf(m, p - 1) && UnitOf(v, p - 2) > UnitOf(m, p - 2) ==> v > m
  {
    UnitsOfBelow(v, p);
    UnitsOfBelow(m, p);
    var d, a, b := Radix(p - 2), v / Radix(p - 2), m / Radix(p - 2);
    if a > b {
      QuotientOrder(v, m, d);
    }
  }

  lemma QuickTestExact(vTop: int, vNext: int, mTop: int, mNext: int, v: int, m: int)
    requires -32768 <= vTop - mTop <= 32767
    requires vTop > mTop ==> v > m
    requires mTop > vTop ==> m > v
    requires vTop == mTop && vNext > mNext ==> v > m
    requires vTop == mTop && mNext > vNext ==> m > v
    ensures QuickTest(vTop, vNext, mTop, mNext, v >= m) <==> v >= m
  {
  }

  // While the signed difference does not wrap, the quick test is the full comparison.
  lemma RungTestExact(v: nat, m: nat, p: nat)
    requires p >= 2 && v < Radix(p) && m < Radix(p)
    requires -32768 <= UnitOf(v, p - 1) - UnitOf(m, p - 1) <= 32767
    ensures RungTest(v, m, p) <==> v >= m
  {
    HigherUnits(v, m, p);
    HigherUnits(m, v, p);
    QuickTestExact(UnitOf(v, p - 1), UnitOf(v, p - 2), UnitOf(m, p - 1), UnitOf(m, p - 2), v, m);
  }

  lemma TopBelow(v: nat, c: nat, p: nat)
    requires p >= 2 && v < Radix(p) && v < c * Radix(p - 1)
    ensures UnitOf(v, p - 1) < c
  {
    UnitsOfBelow(v, p);
    DivMod(v, Radix(p - 1));
    if c <= v / Radix(p - 1) {
      MulMono(c, v / Radix(p - 1), Radix(p - 1));
    }
  }

  lemma TopDouble(v: nat, m: nat, p: nat)
    requires p >= 2 && v < Radix(p) && m < Radix(p) && v < 2 * m
    ensures UnitOf(v, p - 1) <= 2 * UnitOf(m, p - 1) + 1
  {
    UnitsOfBelow(m, p);
    var r, t := Radix(p - 1), UnitOf(m, p - 1);
    DivMod(m, r);
    MulDistrib(t, 1, r);
    MulAssoc(2, t + 1, r);
    TopBelow(v, 2 * (t + 1), p);
  }

  // Before rung i the value is below twice the rung, and only rung 16 could wrap.
  ghost predicate Reducible(v: nat, n: nat, i: nat, p: nat) {
    i <= 16 && v < 2 * Shifted(n, i) && (p >= 1 && i == 16 ==> v < 65535 * Radix(p - 1))
  }

  lemma {:induction false} ShiftedBounds(n: nat, i: nat)
    requires i <= 16
    ensures n <= Shifted(n, i) == n * Two(i)
    ensures Shifted(n, i) <= 65536 * n
    ensures i <= 15 ==> Shifted(n, i) <= 32768 * n
  {
    Two16();
    TwoMono(i, 16);
    MulMono(1, Two(i), n);
    MulMono(Two(i), 65536, n);
    if i <= 15 {
      TwoMono(i, 15);
      MulMono(Two(i), 32768, n);
    }
    ShiftedIsProduct(n, i);
  }

  lemma {:induction false} ShiftedIsProduct(n: nat, i: nat)
    ensures Shifted(n, i) == n * Two(i)
  {
    if i > 0 {
      ShiftedIsProduct(n, i - 1);
      MulAssoc(2, n, Two(i - 1));
      MulAssoc(n, 2, Two(i - 1));
    }
  }

  lemma RungFits(n: nat, i: nat, p: nat)
    requires HeadRoom(n, p) && i <= 16
    ensures n <= Shifted(n, i) && 2 * Shifted(n, i) < Radix(p)
    ensures i <= 15 ==> 2 * Shifted(n, i) < 32768 * Radix(p - 1)
    ensures UnitOf(Shifted(n, i), p - 1) <= 32767
  {
    ShiftedBounds(n, i);
    TopBelow(Shifted(n, i), 32768, p);
  }

  lemma RungWorks(v: nat, n: nat, i: nat, p: nat)
    requires HeadRoom(n, p) && Reducible(v, n, i, p)
    ensures Rung(v, Shifted(n, i), p) == if v >= Shifted(n, i) then v - Shifted(n, i) else v
  {
    var m := Shifted(n, i);
    RungFits(n, i, p);
    TopDouble(v, m, p);
    if i <= 15 {
      TopBelow(v, 32768, p);
    } else {
      TopBelow(v, 65535, p);
    }
    RungTestExact(v, m, p);
    if v >= m {
      TruncatedSmall(v - m, p);
    }
  }

  lemma AddMultiple(v: int, w: int, k: int, l: int, t: int, n: int)
    requires w == k * n + l && v == w + n * t
    ensures v == (k + t) * n + l
  {
    MulDistrib(k, t, n);
  }

  // The ladder takes off a multiple of n and leaves less than n.
  lemma {:induction false} LadderReduces(v: nat, n: nat, i: nat, p: nat) returns (k: nat)
    requires HeadRoom(n, p) && Reducible(v, n, i, p)
    ensures v == k * n + Ladder(v, n, i, p) && Ladder(v, n, i, p) < n
    decreases i
  {
    RungWorks(v, n, i, p);
    var w := Rung(v, Shifted(n, i), p);
    var l := Ladder(v, n, i, p);
    k := 0;
    if i > 0 {
      assert l == Ladder(w, n, i - 1, p);
      k := LadderReduces(w, n, i - 1, p);
    }
    assert w == k * n + l && l < n;
    if v >= Shifted(n, i) {
      ShiftedIsProduct(n, i);
      AddMultiple(v, w, k, l, Two(i), n);
      k := k + Two(i);
    }
  }

  // The largest value a step can reach.
  lemma StepBound(v: nat, x: nat, u: nat, n: nat)
    requires v < n && x < n && u < 65536
    ensures v * 65536 + u * x <= (n - 1) * 131071
  {
    MulMono(u, 65535, x);
    MulMono(x, n - 1, 65535);
  }

  // A step whose running value stays clear of the top unit 65535 is exact.
  lemma StepExact(v: nat, x: nat, u: nat, n: nat, p: nat)
    requires HeadRoom(n, p) && v < n && x < n && u < 65536
    requires v * 65536 + u * x < 65535 * Radix(p - 1)
    ensures MerrittStep(v, x, u, n, p) == (v * 65536 + u * x) % n
  {
    hide Ladder, Truncated, Shifted, Radix;
    var w := v * 65536 + u * x;
    StepBound(v, x, u, n);
    assert Shifted(n, 16) == 65536 * n by {
      ShiftedIsProduct(n, 16);
      Two16();
    }
    TruncatedSmall(w, p);
    var k := LadderReduces(w, n, 16, p);
    DivUnique(w, k, Ladder(w, n, 16, p), n);
  }

  lemma StepReduces(v: nat, x: nat, u: nat, n: nat, p: nat)
    requires HeadRoom(n, p) && NoWrap(n, p)
    requires v < n && x < n && u < 65536
    ensures MerrittStep(v, x, u, n, p) == (v * 65536 + u * x) % n
  {
    StepBound(v, x, u, n);
    StepExact(v, x, u, n, p);
  }

  // Taking in one more unit of the multiplier, modulo n.
  lemma StepCongruence(x: nat, h: nat, u: nat, n: nat)
    requires n > 0
    ensures (((x * h) % n) * 65536 + u * x) % n == (x * (h * 65536 + u)) % n
  {
    var v := (x * h) % n;
    ModMulLeft(x * h, 65536, n);
    ModAddBoth(v * 65536, u * x, n);
    ModAddBoth(x * h * 65536, u * x, n);
    MulDistrib(h * 65536, u, x);
    MulAssoc(x, h, 65536);
  }

  lemma {:induction false} MerrittReduces(x: nat, y: nat, n: nat, p: nat)
    requires HeadRoom(n, p) && NoWrap(n, p) && x < n
    ensures MerrittProduct(x, y, n, p) == (x * y) % n
  {
    if y == 0 {
      DivUnique(0, 0, 0, n);
    } else {
      var h, u := y / 65536, y % 65536;
      MerrittReduces(x, h, n, p);
      DivMod(x * h, n);
      StepReduces((x * h) % n, x, u, n, p);
      StepCongruence(x, h, u, n);
    }
  }

  lemma QuickTestWraps(vNext: int, mTop: int, mNext: int, notBelow: bool)
    requires 0 <= mTop <= 32767
    ensures !QuickTest(65535, vNext, mTop, mNext, notBelow)
  {
  }

  // A value with top unit 65535 passes the whole ladder untouched: every signed
  // difference comes out negative.
  lemma {:induction false} LadderStuck(v: nat, n: nat, i: nat, p: nat)
    requires HeadRoom(n, p) && i <= 16 && v < Radix(p)
    requires UnitOf(v, p - 1) == 65535
    ensures Ladder(v, n, i, p) == v
  {
    RungFits(n, i, p);
    QuickTestWraps(UnitOf(v, p - 2), UnitOf(Shifted(n, i), p - 1), UnitOf(Shifted(n, i), p - 2), v >= Shifted(n, i));
    if i > 0 {
      LadderStuck(v, n, i - 1, p);
    }
  }

  lemma {:induction false} LadderSmall(v: nat, n: nat, i: nat, p: nat)
    requires HeadRoom(n, p) && i <= 16 && v < n
    ensures Ladder(v, n, i, p) == v
  {
    RungFits(n, i, p);
    TopBelow(v, 32768, p);
    RungTestExact(v, Shifted(n, i), p);
    if i > 0 {
      LadderSmall(v, n, i - 1, p);
    }
  }

  lemma MerrittByOne(x: nat, n: nat, p: nat)
    requires HeadRoom(n, p) && x < n
    ensures MerrittProduct(x, 1, n, p) == x
  {
    assert MerrittProduct(x, 0, n, p) == 0;
    TruncatedSmall(x, p);
    LadderSmall(x, n, 16, p);
  }

  lemma CornerIsLarge(n: nat, p: nat)
    requires HeadRoom(n, p) && !NoWrap(n, p)
    ensures p >= 3 && 131071 < n
  {
    if p == 2 {
      assert false;
    }
    RadixMono(1, p - 2);
    assert Radix(p - 1) >= 65536 * 65536;
  }

  lemma StepFrom(x: nat, w: nat, n: nat, p: nat)
    requires p >= 2 && w == x * 131071 && Truncated(w, p) == w
    requires MerrittProduct(x, 1, n, p) == x
    ensures MerrittProduct(x, 131071, n, p) == Ladder(w, n, 16, p)
  {
    assert MerrittProduct(x, 131071, n, p) == MerrittStep(x, x, 65535, n, p);
    assert x * 65536 + 65535 * x == w;
  }

  // In the corner, multiplying n - 1 by 131071 is not even reduced.
  lemma MerrittFails(n: nat, p: nat)
    requires HeadRoom(n, p) && !NoWrap(n, p)
    ensures 131071 < n && MerrittProduct(n - 1, 131071, n, p) >= n
  {
    CornerIsLarge(n, p);
    var x := n - 1;
    MerrittByOne(x, n, p);
    var w := x * 131071;
    TruncatedSmall(w, p);
    StepFrom(x, w, n, p);
    DivUnique(w, 65535, w - 65535 * Radix(p - 1), Radix(p - 1));
    UnitsOfBelow(w, p);
    LadderStuck(w, n, 16, p);
  }

  // Multiplication is exact for all operands just when the modulus is outside the corner.
  lemma MerrittExactIff(n: nat, p: nat)
    requires HeadRoom(n, p)
    ensures (forall x: nat, y: nat :: x < n && y < n ==> MerrittProduct(x, y, n, p) == (x * y) % n)
            <==> NoWrap(n, p)
  {
    if NoWrap(n, p) {
      forall x: nat, y: nat | x < n && y < n
        ensures MerrittProduct(x, y, n, p) == (x * y) % n
      {
        MerrittReduces(x, y, n, p);
      }
    } else {
      MerrittFails(n, p);
      var x, y := n - 1, 131071;
      assert MerrittProduct(x, y, n, p) != (x * y) % n;
    }
  }

  lemma PowHalves(x: nat, h: nat, n: nat)
    requires n > 0
    ensures ((Pow(x, h) % n) * (Pow(x, h) % n)) % n == Pow(x, h + h) % n
    ensures ((Pow(x, h + h) % n) * x) % n == Pow(x, h + h + 1) % n
  {
    ModMul(Pow(x, h), Pow(x, h), n);
    PowAdd(x, h, h);
    ModMulLeft(Pow(x, h + h), x, n);
  }

  lemma SquareReduces(x: nat, h: nat, n: nat, p: nat)
    requires HeadRoom(n, p) && NoWrap(n, p)
    ensures MerrittProduct(Pow(x, h) % n, Pow(x, h) % n, n, p) == Pow(x, h + h) % n
  {
    DivMod(Pow(x, h), n);
    MerrittReduces(Pow(x, h) % n, Pow(x, h) % n, n, p);
    PowHalves(x, h, n);
  }

  lemma MultiplyReduces(x: nat, h: nat, n: nat, p: nat)
    requires HeadRoom(n, p) && NoWrap(n, p)
    ensures MerrittProduct(Pow(x, h + h) % n, x, n, p) == Pow(x, h + h + 1) % n
  {
    DivMod(Pow(x, h + h), n);
    MerrittReduces(Pow(x, h + h) % n, x, n, p);
    PowHalves(x, h, n);
  }

  // Square and multiply is exponentiation.
  lemma {:induction false} SquareMultiplyReduces(x: nat, e: nat, n: nat, p: nat)
    requires HeadRoom(n, p) && NoWrap(n, p) && x < n && e > 0
    ensures SquareMultiply(x, e, n, p) == Pow(x, e) % n
  {
    if e == 1 {
      assert Pow(x, 1) == x * Pow(x, 0) == x;
      DivUnique(x, 0, x, n);
    } else {
      var h := e / 2;
      SquareMultiplyReduces(x, h, n, p);
      SquareReduces(x, h, n, p);
      MultiplyReduces(x, h, n, p);
      assert e == h + h || e == h + h + 1;
    }
  }

  const CORNER_MODULUS: nat := 2147478611
  const CORNER_BASE: nat := 851967

  // Three units hold the corner modulus with head room to spare.
  lemma CornerPrecision()
    ensures WorkPrecision(CORNER_MODULUS) == 3 && Radix(2) == 4294967296
    ensures HeadRoom(CORNER_MODULUS, 3) && !NoWrap(CORNER_MODULUS, 3)
  {
    assert Radix(1) == 65536 * Radix(0) == 65536;
    assert Radix(2) == 65536 * Radix(1);
    assert Radix(3) == 65536 * Radix(2);
    Two16();
    TwoAdd(15, 15);
    TwoAdd(15, 16);
    BitLenUnique(CORNER_MODULUS, 31);
  }

  lemma CornerSquare()
    ensures MerrittProduct(CORNER_BASE, CORNER_BASE, CORNER_MODULUS, 3) == 2147477182
  {
    CornerPrecision();
    var n, x := CORNER_MODULUS, CORNER_BASE;
    assert MerrittProduct(x, 0, n, 3) == 0;
    StepExact(0, x, 12, n, 3);
    DivUnique(12 * x, 0, 12 * x, n);
    assert MerrittProduct(x, 12, n, 3) == MerrittStep(0, x, 12, n, 3) == 12 * x;
    StepExact(12 * x, x, 65535, n, 3);
    DivUnique(12 * x * 65536 + 65535 * x, 337, 2147477182, n);
    assert MerrittProduct(x, x, n, 3) == MerrittStep(12 * x, x, 65535, n, 3);
  }

  lemma CornerMultiply()
    ensures MerrittProduct(2147477182, CORNER_BASE, CORNER_MODULUS, 3) >= CORNER_MODULUS
  {
    CornerPrecision();
    var n, x, s := CORNER_MODULUS, CORNER_BASE, 2147477182;
    assert MerrittProduct(s, 0, n, 3) == 0;
    StepExact(0, s, 12, n, 3);
    DivUnique(12 * s, 11, 2147461463, n);
    assert MerrittProduct(s, 12, n, 3) == MerrittStep(0, s, 12, n, 3) == 2147461463;
    var w := 2147461463 * 65536 + 65535 * s;
    assert Radix(3) == 65536 * Radix(2);
    TruncatedSmall(w, 3);
    UnitsOfBelow(w, 3);
    DivUnique(w, 65535, w - 65535 * Radix(2), Radix(2));
    LadderStuck(w, n, 16, 3);
    assert MerrittProduct(s, x, n, 3) == MerrittStep(2147461463, s, 65535, n, 3) == w;
  }

  // A base and a modulus, in the corner, whose cube comes out wrong.
  lemma CornerCube()
    ensures WorkPrecision(CORNER_MODULUS) == 3
    ensures SquareMultiply(CORNER_BASE, 3, CORNER_MODULUS, 3) != Pow(CORNER_BASE, 3) % CORNER_MODULUS
  {
    CornerPrecision();
    CornerSquare();
    CornerMultiply();
    assert SquareMultiply(CORNER_BASE, 1, CORNER_MODULUS, 3) == CORNER_BASE;
    DivMod(Pow(CORNER_BASE, 3), CORNER_MODULUS);
  }
}
