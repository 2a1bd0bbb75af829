// The arithmetic behind the multi-precision routines: what a carry chain, a division step,
// an image of the multiplicand or a digit of a root does to the numbers the units stand for.
module RsaArithmetic {
  import opened Powers
  import opened Units
  import opened Merritt
  import opened Crt

  // Comparing two numbers is comparing the highest unit at which they differ.
  lemma {:induction false} CompareAt(s: seq<unit>, t: seq<unit>, i: nat, k: nat)
    requires i < k <= |s| && k <= |t|
    requires forall j :: i < j < k ==> s[j] == t[j]
    requires s[i] < t[i]
    ensures Val(s, k) < Val(t, k)
  {
    if i == k - 1 {
      ValBound(s, i);
      MulMono(s[i] + 1, t[i], Radix(i));
      MulDistrib(s[i], 1, Radix(i));
    } else {
      CompareAt(s, t, i, k - 1);
    }
  }

  // One unit of a carry chain: what is written plus what is carried is what was added.
  lemma CarryUnit(a: int, b: int, c: int, x: int, carry: int, r: int)
    requires a + b + c == x + 65536 * carry
    ensures x * r + carry * (65536 * r) == a * r + b * r + c * r
  {
    MulDistrib(x, 65536 * carry, r);
    MulAssoc(carry, 65536, r);
    MulAssoc(65536, carry, r);
    MulDistrib(a + b, c, r);
    MulDistrib(a, b, r);
  }

  // The low sixteen bits of a difference, and the borrow read off bit 16.
  lemma BorrowBit(x: int)
    requires -65536 <= x < 65536
    ensures x == x % 65536 - 65536 * ((x / 65536) % 2)
    ensures 0 <= (x / 65536) % 2 <= 1
  {
  }

  // One unit of a borrow chain.
  lemma BorrowUnit(a: int, b: int, c: int, x: int, borrow: int, r: int)
    requires a - b - c == x - 65536 * borrow
    ensures x * r - borrow * (65536 * r) == a * r - b * r - c * r
  {
    CarryUnit(x, b, c, a, borrow, r);
  }

  // Complementing every unit subtracts the number from the largest one.
  lemma {:induction false} ComplementVal(s: seq<unit>, t: seq<unit>, k: nat)
    requires k <= |s| && k <= |t|
    requires forall i :: 0 <= i < k ==> t[i] == 65535 - s[i]
    ensures Val(t, k) == Radix(k) - 1 - Val(s, k)
  {
    if k > 0 {
      ComplementVal(s, t, k - 1);
      MulDistrib(65535, s[k - 1], Radix(k - 1));
    }
  }

  lemma TopBitClear(v: nat, bits: nat)
    requires bits > 0 && v < Two(bits) && BitOf(v, bits - 1) == 0
    ensures v < Two(bits - 1)
  {
    PrefixIsDiv(v, bits - 1);
    if Two(bits - 1) <= v {
      DivUnique(v, 1, v - Two(bits - 1), Two(bits - 1));
    }
  }

  lemma TopBitSet(v: nat, b: nat)
    requires BitOf(v, b) == 1
    ensures Two(b) <= v
  {
    PrefixIsDiv(v, b);
    if v < Two(b) {
      DivUnique(v, 0, v, Two(b));
    }
  }

  // A value that fits leaves no carry.
  lemma NoCarry(v: nat, carry: bit, sum: nat, limit: nat)
    requires v + carry * limit == sum < limit
    ensures carry == 0 && v == sum
  {
  }

  lemma ShiftedQuotient(q: nat, b: nat)
    ensures q * Two(b + 1) == (2 * q) * Two(b)
    ensures (2 * q + 1) * Two(b) == (2 * q) * Two(b) + Two(b)
    ensures BitOf((2 * q) * Two(b), b) == 0
  {
    MulAssoc(q, 2, Two(b));
    MulDistrib(2 * q, 1, Two(b));
    PrefixIsDiv((2 * q) * Two(b), b);
    DivUnique((2 * q) * Two(b), 2 * q, 0, Two(b));
  }

  // Binary long division with `bits` digits of n still unread: q and rem divide the part read.
  ghost predicate Dividing(n: nat, d: nat, q: nat, rem: nat, bits: nat) {
    q * d + rem == Prefix(n, bits) && rem < d
  }

  lemma DivisionStep(n: nat, d: nat, q: nat, rem: nat, b: nat, limit: nat)
    requires Dividing(n, d, q, rem, b + 1) && n < limit
    ensures 2 * rem + BitOf(n, b) < limit
    ensures 2 * rem + BitOf(n, b) < d ==> Dividing(n, d, 2 * q, 2 * rem + BitOf(n, b), b)
    ensures d <= 2 * rem + BitOf(n, b) ==> Dividing(n, d, 2 * q + 1, 2 * rem + BitOf(n, b) - d, b)
  {
    PrefixBelow(n, b);
    MulMono(0, q, d);
    MulAssoc(2, q, d);
    MulDistrib(2 * q, 1, d);
  }

  lemma DivisionStart(n: nat, d: nat)
    requires d > 0
    ensures Dividing(n, d, 0, 0, BitLen(n))
  {
    PrefixOfBitLen(n);
  }

  lemma DivisionEnd(n: nat, d: nat, q: nat, rem: nat)
    requires Dividing(n, d, q, rem, 0)
    ensures q * Two(0) == n / d && rem == n % d
  {
    DivUnique(n, q, rem, d);
  }

  // What is left of v when its j lowest units are dropped.
  function Above(v: nat, j: nat): nat {
    if j == 0 then v else Above(v, j - 1) / 65536
  }

  lemma {:induction false} AboveIsDiv(v: nat, j: nat)
    ensures Above(v, j) == v / Radix(j)
  {
    if j > 0 {
      AboveIsDiv(v, j - 1);
      DivDiv(v, Radix(j - 1), 65536);
      assert Radix(j - 1) * 65536 == Radix(j);
    }
  }

  lemma AboveUnit(s: seq<unit>, j: nat, k: nat)
    requires j < k <= |s|
    ensures Above(Val(s, k), j) == 65536 * Above(Val(s, k), j + 1) + s[j]
  {
    UnitOfVal(s, j, k);
    AboveIsDiv(Val(s, k), j);
  }

  lemma AboveAll(v: nat, j: nat)
    requires v < Radix(j)
    ensures Above(v, j) == 0
  {
    AboveIsDiv(v, j);
    DivUnique(v, 0, v, Radix(j));
  }

  lemma ShiftUp(v: int, c: int, r: int)
    ensures (v + c * r) * 65536 == c * (65536 * r) + 65536 * v
  {
    MulAssoc(c, 65536, r);
    MulAssoc(65536, c, r);
  }

  // Moving every unit one place up multiplies by 65536, within k units.
  lemma UnitShift(s: seq<unit>, t: seq<unit>, k: nat)
    requires 0 < k <= |s| && k <= |t|
    requires t[0] == 0 && forall i :: 0 < i < k ==> t[i] == s[i - 1]
    ensures Val(t, k) == (Val(s, k) * 65536) % Radix(k)
  {
    ValSplit(t, 1, k);
    ValOne(t);
    assert Radix(1) == 65536;
    ValFrame(s, t[1..], k - 1);
    ValBound(t, k);
    ShiftUp(Val(s, k - 1), s[k - 1], Radix(k - 1));
    DivUnique(Val(s, k) * 65536, s[k - 1], Val(t, k), Radix(k));
  }

  lemma DoubleMod(a: int, d: int)
    requires d > 0
    ensures (2 * (a % d)) % d == (2 * a) % d
  {
    ModAddBoth(a, a, d);
  }

  // u without its k lowest bits.
  function HighBits(u: nat, k: nat): nat {
    Prefix(u, k) * Two(k)
  }

  lemma HighBitsOf(u: unit)
    ensures HighBits(u, 16) == 0 && HighBits(u, 0) == u
  {
    Two16();
    PrefixIsDiv(u, 16);
  }

  lemma MaskBit(u: unit, k: nat)
    ensures TestBit(u, Two(k)) <==> BitOf(u, k) == 1
  {
    PrefixIsDiv(u, k);
  }

  // Taking the next lower bit of u into the part of u already multiplied.
  lemma AddImage(v: int, base: int, u: nat, k: nat, x: nat, limit: nat)
    requires limit > 0
    requires v == (base + HighBits(u, k + 1) * x) % limit
    ensures BitOf(u, k) == 0 ==> v == (base + HighBits(u, k) * x) % limit
    ensures BitOf(u, k) == 1 ==> (v + (x * Two(k)) % limit) % limit == (base + HighBits(u, k) * x) % limit
  {
    var h, part := Prefix(u, k + 1), HighBits(u, k + 1);
    MulAssoc(h, 2, Two(k));
    MulDistrib(2 * h, BitOf(u, k), Two(k));
    assert HighBits(u, k) == part + BitOf(u, k) * Two(k);
    MulDistrib(part, Two(k), x);
    ModAddBoth(base + part * x, x * Two(k), limit);
  }

  lemma ProductStep(x: nat, h: nat, u: unit, n: nat, p: nat)
    requires p >= 2 && h * 65536 + u > 0
    ensures MerrittProduct(x, h * 65536 + u, n, p) == MerrittStep(MerrittProduct(x, h, n, p), x, u, n, p)
  {
    var y := h * 65536 + u;
    assert y / 65536 == h && y % 65536 == u;
  }

  lemma UnitStep(s: seq<unit>, j: nat, k: nat, x: nat, n: nat, p: nat)
    requires j < k <= |s| && p >= 2
    requires Above(Val(s, k), j + 1) == 0 ==> s[j] != 0
    ensures MerrittProduct(x, Above(Val(s, k), j), n, p)
            == MerrittStep(MerrittProduct(x, Above(Val(s, k), j + 1), n, p), x, s[j], n, p)
    ensures Above(Val(s, k), j) > 0
  {
    AboveUnit(s, j, k);
    ProductStep(x, Above(Val(s, k), j + 1), s[j], n, p);
  }

  lemma TopPrefix(e: nat)
    requires e > 0
    ensures Prefix(e, 0) == e && BitLen(e) > 0
    ensures Prefix(e, BitLen(e) - 1) == 1
    ensures forall b: nat :: b < BitLen(e) ==> Prefix(e, b) > 0
  {
    BitLenBounds(e);
    PrefixIsDiv(e, BitLen(e) - 1);
    DivUnique(e, 1, e - Two(BitLen(e) - 1), Two(BitLen(e) - 1));
    forall b: nat | b < BitLen(e)
      ensures Prefix(e, b) > 0
    {
      PrefixAntitone(e, b, BitLen(e) - 1);
    }
  }

  lemma {:induction false} PrefixAntitone(v: nat, b: nat, c: nat)
    requires b <= c
    ensures Prefix(v, c) <= Prefix(v, b)
  {
    if b < c {
      PrefixAntitone(v, b, c - 1);
    }
  }

  lemma MerrittZero(x: nat, n: nat, p: nat)
    requires p >= 2
    ensures MerrittProduct(x, 0, n, p) == 0
    ensures forall y :: Above(y, 0) == y
  {
  }

  lemma FirstPower(x: nat, n: nat, p: nat)
    requires p >= 2
    ensures SquareMultiply(x, 1, n, p) == x
  {
  }

  lemma SquareMultiplyBit(x: nat, h: nat, h': nat, b: bit, n: nat, p: nat)
    requires p >= 2 && h > 0 && h' == 2 * h + b
    ensures SquareMultiply(x, h', n, p) ==
      var r := SquareMultiply(x, h, n, p);
      var s := MerrittProduct(r, r, n, p);
      if b == 1 then MerrittProduct(s, x, n, p) else s
  {
    assert h' / 2 == h && h' % 2 == b;
  }

  lemma WorkPrecisionIs(n: nat, bits: nat)
    requires bits == BitLen(n)
    ensures WorkPrecision(n) == (bits + (16 + 1) + 15) / 16
  {
  }

  function Max(a: nat, b: nat): nat {
    if a < b then b else a
  }

  // What modular exponentiation reports for x, e and n at p units.
  function ModexpStatus(x: nat, e: nat, n: nat, p: nat): int
    requires p > 0
  {
    if e == 0 then
      if x == 0 then -1 else 0
    else if n == 0 || 32768 * Radix(p - 1) <= n then
      -2
    else if n <= x then
      -3
    else if n <= e then
      -4
    else
      0
  }

  lemma TopBitOf(v: nat, top: nat, r: nat)
    requires top * r <= v < (top + 1) * r
    ensures top >= 32768 <==> 32768 * r <= v
  {
    if top >= 32768 {
      MulMono(32768, top, r);
    } else {
      MulMono(top + 1, 32768, r);
    }
  }

  // Reading the result of an exponentiation made at w units at the caller's p units.
  lemma ModexpResult(s: seq<unit>, p: nat, w: nat, x: nat, e: nat, n: nat)
    requires p <= |s| && w <= |s| && HeadRoom(n, w) && x < n && e > 0 && n < Radix(p)
    requires forall k :: w <= k < p ==> s[k] == 0
    requires Val(s, w) == SquareMultiply(x, e, n, w)
    ensures Val(s, Max(p, w)) == SquareMultiply(x, e, n, w)
    ensures NoWrap(n, w) ==> Val(s, p) == Pow(x, e) % n
  {
    if w <= p {
      ValHighZero(s, w, p);
    }
    if NoWrap(n, w) {
      SquareMultiplyReduces(x, e, n, w);
      DivMod(Pow(x, e), n);
      if p < w {
        ValSmall(s, p, w);
      }
    }
  }

  // c to the power d, modulo a prime m, with the exponent reduced modulo m - 1.
  function Residue(c: nat, d: nat, m: nat): nat
    requires m > 1
  {
    Pow(c % m, d % (m - 1)) % m
  }

  // The operands of one half at p units, for a modulus other than one. Below zero the decrement wraps, and the division
  // by zero leaves that number where the residue should be.
  function HalfBase(c: nat, m: nat, p: nat): nat {
    if m == 0 then Radix(p) - 1 else c % m
  }

  function HalfExponent(d: nat, m: nat, p: nat): nat
    requires m != 1 && p > 0
  {
    if m == 0 then d % (Radix(p) - 1) else d % (m - 1)
  }

  // What the exponentiation of one half answers.
  function HalfStatus(c: nat, d: nat, m: nat, p: nat): int
    requires m != 1 && p > 0
  {
    ModexpStatus(HalfBase(c, m, p), HalfExponent(d, m, p), m, p)
  }

  // What it computes where it answers 0.
  function HalfValue(c: nat, d: nat, m: nat, p: nat): nat
    requires m != 1 && p > 0
  {
    if HalfExponent(d, m, p) == 0 then 1
    else SquareMultiply(HalfBase(c, m, p), HalfExponent(d, m, p), m, WorkPrecision(m))
  }

  // No unit is read that nothing has set. With modulus one there is no exponent; otherwise, where a half is
  // exponentiated at all, its working precision does not pass the p units that its operands have.
  ghost predicate HalfDefined(c: nat, d: nat, m: nat, p: nat)
    requires p > 0
  {
    m != 1 && (HalfStatus(c, d, m, p) == 0 && HalfExponent(d, m, p) > 0 ==> WorkPrecision(m) <= p)
  }

  lemma HalfRange(c: nat, d: nat, m: nat, p: nat)
    requires m != 1 && p > 0
    ensures m > 1 ==> c % m < m && d % (m - 1) < m
    ensures -2 <= HalfStatus(c, d, m, p) <= 0
    ensures m == 0 && HalfStatus(c, d, m, p) == 0 ==> HalfValue(c, d, m, p) == 1
  {
    RadixMono(1, p);
    if m > 1 {
      DivMod(c, m);
      DivMod(d, m - 1);
    }
  }

  predicate ZeroToZero(c: nat, d: nat, m: nat)
    requires m > 1
  {
    c % m == 0 && d % (m - 1) == 0
  }

  // Outside the corner the halves are the residues; only zero to the power zero is refused.
  lemma HalfExact(c: nat, d: nat, m: nat, p: nat)
    requires m > 1 && WorkPrecision(m) <= p && NoWrap(m, WorkPrecision(m))
    ensures p > 0 && HalfStatus(c, d, m, p) == if ZeroToZero(c, d, m) then -1 else 0
    ensures HalfStatus(c, d, m, p) == 0 ==> HalfValue(c, d, m, p) == Residue(c, d, m)
  {
    WorkHeadRoom(m);
    HalfRange(c, d, m, p);
    RoomAtTop(m, WorkPrecision(m), p);
    var x, e := c % m, d % (m - 1);
    if e > 0 {
      SquareMultiplyReduces(x, e, m, WorkPrecision(m));
    } else {
      DivUnique(1, 0, 1, m);
    }
  }

  lemma RoomAtTop(m: nat, w: nat, p: nat)
    requires HeadRoom(m, w) && w <= p
    ensures p > 0 && m < 32768 * Radix(p - 1)
  {
    RadixMono(w, p);
  }

  // The recombination as it is computed below a limit, where differences, products and sums wrap.
  function RecombinedWithin(a: nat, b: nat, p: nat, q: nat, u: nat, limit: nat): nat
    requires (q > 0 || a == b) && limit > 0
  {
    if a == b then
      a
    else
      var diff: nat := (b - a + if b < a then q else 0) % limit;
      ((p * ((diff * u) % limit % q)) % limit + a) % limit
  }

  lemma NothingWraps(a: nat, b: nat, p: nat, q: nat, u: nat, limit: nat)
    requires a < p && b < q && p < q && u < q && q * q < limit
    ensures RecombinedWithin(a, b, p, q, u, limit) == Recombined(a, b, p, q, u) < limit
  {
    RecombinedBelow(a, b, p, q, u);
    MulMono(p, q, q);
    if a != b {
      var diff: nat := b - a + if b < a then q else 0;
      MulMono(1, q, q);
      DivUnique(diff, 0, diff, limit);
      ProductFits(diff, u, q, limit);
      var t := (diff * u) % q;
      DivMod(diff * u, q);
      ProductFits(p, t, q, limit);
      assert Recombined(a, b, p, q, u) == p * t + a;
      DivUnique(p * t + a, 0, p * t + a, limit);
    }
  }

  // A difference that wraps, and the modulus added to it.
  lemma WrapBack(v: int, carry: bit, diff: int, limit: nat)
    requires 0 <= v < limit && v + carry * limit == diff + limit
    ensures v == diff % limit
  {
    DivUnique(diff, carry - 1, v, limit);
  }

  lemma ProductFits(a: nat, b: nat, q: nat, limit: nat)
    requires a < q && b < q && q * q < limit
    ensures (a * b) % limit == a * b < limit
  {
    MulMono(a, q, b);
    MulMono(b, q, q);
    DivUnique(a * b, 0, a * b, limit);
  }

  function Smaller(p: nat, q: nat): nat {
    if q <= p then q else p
  }

  function Larger(p: nat, q: nat): nat {
    if q <= p then p else q
  }

  // The half of the smaller modulus comes first.
  ghost predicate DecryptDefined(c: nat, d: nat, p: nat, q: nat, precision: nat)
    requires precision > 0
  {
    && HalfDefined(c, d, Smaller(p, q), precision)
    && (HalfStatus(c, d, Smaller(p, q), precision) == 0 ==> HalfDefined(c, d, Larger(p, q), precision))
  }

  function DecryptStatus(c: nat, d: nat, p: nat, q: nat, precision: nat): int
    requires precision > 0 && DecryptDefined(c, d, p, q, precision)
  {
    var status := HalfStatus(c, d, Smaller(p, q), precision);
    if status < 0 then status else HalfStatus(c, d, Larger(p, q), precision)
  }

  function DecryptValue(c: nat, d: nat, p: nat, q: nat, u: nat, precision: nat): nat
    requires precision > 0 && DecryptDefined(c, d, p, q, precision) && DecryptStatus(c, d, p, q, precision) == 0
  {
    HalfRange(c, d, Smaller(p, q), precision);
    HalfRange(c, d, Larger(p, q), precision);
    RecombinedWithin(HalfValue(c, d, Smaller(p, q), precision), HalfValue(c, d, Larger(p, q), precision),
                     Smaller(p, q), Larger(p, q), u, Radix(precision))
  }

  lemma DecrementIs(v: nat, borrow: bit, m: nat, p: nat)
    requires p > 0 && v < Radix(p) && m < Radix(p) && v - borrow * Radix(p) == m - 1
    ensures v == if m == 0 then Radix(p) - 1 else m - 1
    ensures v == 0 <==> m == 1
  {
    RadixMono(1, p);
  }

  // A half that is defined answers 0 or less; with modulus zero it leaves 1.
  lemma DefinedRange(c: nat, d: nat, m: nat, p: nat)
    requires p > 0 && HalfDefined(c, d, m, p)
    ensures m != 1 && -2 <= HalfStatus(c, d, m, p) <= 0
    ensures m == 0 && HalfStatus(c, d, m, p) == 0 ==> HalfValue(c, d, m, p) == 1
  {
    HalfRange(c, d, m, p);
  }

  // The smaller modulus comes first, u inverts it, and the square of the larger fits.
  ghost predicate KeyOrdered(p: nat, q: nat, u: nat, precision: nat) {
    && 1 < p < q && Inverse(u, p, q) && q * q < Radix(precision)
    && WorkPrecision(q) <= precision
    && NoWrap(p, WorkPrecision(p)) && NoWrap(q, WorkPrecision(q))
  }

  ghost predicate KeyHalves(p: nat, q: nat, u: nat, precision: nat) {
    KeyOrdered(p, q, u, precision) || KeyOrdered(q, p, u, precision)
  }

  // m is the only number below p * q that agrees with c to the power d in both halves.
  ghost predicate IsRecombination(m: nat, c: nat, d: nat, p: nat, q: nat)
    requires p > 1 && q > 1
  {
    && m < p * q && m % p == Residue(c, d, p) && m % q == Residue(c, d, q)
    && forall x: nat :: x < p * q && x % p == Residue(c, d, p) && x % q == Residue(c, d, q) ==> x == m
  }

  lemma KeyAboveOne(p: nat, q: nat, u: nat, precision: nat)
    ensures KeyHalves(p, q, u, precision) ==> p > 1 && q > 1
  {
  }

  lemma {:induction false} BitLenMono(a: nat, b: nat)
    requires a <= b
    ensures BitLen(a) <= BitLen(b)
  {
    if a > 0 {
      BitLenMono(a / 2, b / 2);
    }
  }

  lemma SmallHalfFits(p: nat, q: nat, u: nat, precision: nat)
    requires KeyOrdered(p, q, u, precision)
    ensures 1 < p < q && q * q < Radix(precision) && u < q
    ensures WorkPrecision(p) <= precision && WorkPrecision(q) <= precision
    ensures NoWrap(p, WorkPrecision(p)) && NoWrap(q, WorkPrecision(q))
  {
    BitLenMono(p, q);
  }

  lemma ResidueBelow(c: nat, d: nat, m: nat)
    requires m > 1
    ensures Residue(c, d, m) < m
  {
    DivMod(Pow(c % m, d % (m - 1)), m);
  }

  // Recombining the two residues gives the decryption.
  lemma RecombinationOf(c: nat, d: nat, p: nat, q: nat, u: nat, precision: nat)
    requires KeyOrdered(p, q, u, precision)
    ensures Residue(c, d, p) < p && Residue(c, d, q) < q
    ensures IsRecombination(Recombined(Residue(c, d, p), Residue(c, d, q), p, q, u), c, d, p, q)
  {
    ResidueBelow(c, d, p);
    ResidueBelow(c, d, q);
    var m := Recombined(Residue(c, d, p), Residue(c, d, q), p, q, u);
    RecombinedBelow(Residue(c, d, p), Residue(c, d, q), p, q, u);
    RecombinedResidues(Residue(c, d, p), Residue(c, d, q), p, q, u);
    forall x: nat | x < p * q && x % p == Residue(c, d, p) && x % q == Residue(c, d, q)
      ensures x == m
    {
      RecombinationUnique(x, m, p, q, u);
    }
  }

  lemma IsRecombinationSymmetric(m: nat, c: nat, d: nat, p: nat, q: nat)
    requires p > 1 && q > 1
    requires IsRecombination(m, c, d, p, q)
    ensures IsRecombination(m, c, d, q, p)
  {
    assert p * q == q * p;
  }

  // With a key whose halves are in order, decryption is defined, refuses just zero to the power zero, and gives the
  // recombination.
  lemma DecryptIsRecombination(c: nat, d: nat, p: nat, q: nat, u: nat, precision: nat)
    requires precision > 0 && KeyHalves(p, q, u, precision)
    ensures p > 1 && q > 1 && DecryptDefined(c, d, p, q, precision)
    ensures DecryptStatus(c, d, p, q, precision) ==
            if ZeroToZero(c, d, p) || ZeroToZero(c, d, q) then -1 else 0
    ensures DecryptStatus(c, d, p, q, precision) == 0 ==>
      IsRecombination(DecryptValue(c, d, p, q, u, precision), c, d, p, q)
  {
    hide Residue, RecombinedWithin, Recombined, Radix, NoWrap, WorkPrecision, HalfValue, Inverse, IsRecombination;
    var s, t := Smaller(p, q), Larger(p, q);
    assert KeyOrdered(s, t, u, precision);
    SmallHalfFits(s, t, u, precision);
    HalfExact(c, d, s, precision);
    HalfExact(c, d, t, precision);
    if DecryptStatus(c, d, p, q, precision) == 0 {
      RecombinationOf(c, d, s, t, u, precision);
      NothingWraps(Residue(c, d, s), Residue(c, d, t), s, t, u, Radix(precision));
      if s != p {
        IsRecombinationSymmetric(DecryptValue(c, d, p, q, u, precision), c, d, s, t);
      }
    }
  }

  // Two's complement at p units.
  function Signed(v: nat, p: nat): int
    requires p > 0
  {
    if 32768 * Radix(p - 1) <= v then v - Radix(p) else v
  }

  function Abs(x: int): nat {
    if x < 0 then -x else x
  }

  function Magnitude(v: nat, p: nat): nat
    requires p > 0
  {
    Abs(Signed(v, p))
  }

  // Division that rounds towards zero.
  function TruncatedQuotient(a: int, b: int): int
    requires b != 0
  {
    if (a < 0) != (b < 0) then -(Abs(a) / Abs(b)) else Abs(a) / Abs(b)
  }

  function TruncatedRemainder(a: int, b: int): int
    requires b != 0
  {
    if a < 0 then -(Abs(a) % Abs(b)) else Abs(a) % Abs(b)
  }

  lemma SignedProduct(q: int, b: int)
    ensures (-q) * b == -(q * b) && q * (-b) == -(q * b)
  {
  }

  lemma TruncatedDivision(a: int, b: int)
    requires b != 0
    ensures a == TruncatedQuotient(a, b) * b + TruncatedRemainder(a, b)
    ensures Abs(TruncatedRemainder(a, b)) < Abs(b)
    ensures TruncatedRemainder(a, b) != 0 ==> (TruncatedRemainder(a, b) < 0 <==> a < 0)
  {
    DivMod(Abs(a), Abs(b));
    SignedProduct(Abs(a) / Abs(b), b);
  }

  // Quotient and remainder are the only ones with a remainder below the divisor and of the sign of the dividend.
  lemma TruncatedDivisionIff(a: int, b: int, q: int, r: int)
    requires b != 0
    ensures q == TruncatedQuotient(a, b) && r == TruncatedRemainder(a, b)
       <==> a == q * b + r && Abs(r) < Abs(b) && (r != 0 ==> (r < 0 <==> a < 0))
  {
    TruncatedDivision(a, b);
    if a == q * b + r && Abs(r) < Abs(b) && (r != 0 ==> (r < 0 <==> a < 0)) {
      var d := if (a < 0) != (b < 0) then -q else q;
      SignedProduct(q, b);
      SignedProduct(-q, b);
      assert Abs(a) == d * Abs(b) + Abs(r);
      DivUnique(Abs(a), d, Abs(r), Abs(b));
    }
  }

  lemma NegativeMagnitude(v: nat, p: nat)
    requires p > 0 && v < Radix(p) && Signed(v, p) < 0
    ensures (-(v as int)) % Radix(p) == Magnitude(v, p)
    ensures (-(Magnitude(v, p) as int)) % Radix(p) == v
  {
    var m := Radix(p) - v;
    DivUnique(-(v as int), -1, m, Radix(p));
    DivUnique(-(m as int), -1, v, Radix(p));
  }

  // q and r are the truncating quotient and remainder of a by b, all in p units.
  ghost predicate SignedDivides(a: nat, b: nat, q: nat, r: nat, p: nat)
    requires p > 0
  {
    && Signed(b, p) != 0
    && q == TruncatedQuotient(Signed(a, p), Signed(b, p)) % Radix(p)
    && r == TruncatedRemainder(Signed(a, p), Signed(b, p)) % Radix(p)
  }

  function NegatedIf(negative: bool, v: nat, limit: nat): nat
    requires limit > 0
  {
    if negative then (-(v as int)) % limit else v
  }

  // What the unsigned division of the magnitudes means for the signed one.
  lemma SignedDivision(a: nat, b: nat, p: nat, q: nat, r: nat)
    requires p > 0 && q < Radix(p) && r < Radix(p)
    requires Magnitude(b, p) > 0
    requires q == Magnitude(a, p) / Magnitude(b, p) && r == Magnitude(a, p) % Magnitude(b, p)
    ensures SignedDivides(a, b, NegatedIf((Signed(a, p) < 0) != (Signed(b, p) < 0), q, Radix(p)),
                          NegatedIf(Signed(a, p) < 0, r, Radix(p)), p)
  {
    DivUnique(q, 0, q, Radix(p));
    DivUnique(r, 0, r, Radix(p));
  }

  lemma MagnitudeZero(b: nat, p: nat)
    requires p > 0 && b < Radix(p)
    ensures Magnitude(b, p) == 0 <==> b == 0
  {
  }

  // r is the root and rem the remainder of the part of d above its b lowest digits.
  ghost predicate Rooted(d: nat, r: nat, rem: nat, b: nat) {
    Prefix(d, b) == r * r + rem && rem <= 2 * r
  }

  ghost predicate IsRoot(d: nat, r: nat) {
    r * r <= d < (r + 1) * (r + 1)
  }

  lemma RootStep(d: nat, r: nat, rem: nat, b: nat)
    requires b >= 2 && Rooted(d, r, rem, b)
    ensures var next := 4 * rem + 2 * BitOf(d, b - 1) + BitOf(d, b - 2);
      (next < 4 * r + 1 ==> Rooted(d, 2 * r, next, b - 2)) &&
      (4 * r + 1 <= next ==> Rooted(d, 2 * r + 1, next - (4 * r + 1), b - 2))
  {
    PrefixBit(d, b - 2);
    PrefixBit(d, b - 1);
    assert (2 * r) * (2 * r) == 4 * (r * r);
    assert (2 * r + 1) * (2 * r + 1) == 4 * (r * r) + 4 * r + 1;
  }

  lemma RootEnd(d: nat, r: nat, rem: nat)
    requires Rooted(d, r, rem, 0)
    ensures IsRoot(d, r) && (rem == 0 <==> r * r == d)
  {
    assert (r + 1) * (r + 1) == r * r + 2 * r + 1;
  }

  // The first one or two digits have root 1.
  lemma RootStart(d: nat, bits: nat)
    requires bits == BitLen(d) && bits >= 2
    ensures bits % 2 == 1 ==> Rooted(d, 1, 0, bits - 1)
    ensures bits % 2 == 0 ==> Rooted(d, 1, 1 + BitOf(d, bits - 2), bits - 2)
  {
    TopPrefix(d);
    PrefixBit(d, bits - 2);
  }

  // The working precision leaves room for every shifted remainder and trial divisor.
  lemma RootRoom(d: nat, r: nat, rem: nat, bits: nat, m: nat, w: nat)
    requires 0 < m < bits && r < Two(bits - m) && Rooted(d, r, rem, 2 * m) && bits + 3 <= 16 * w
    ensures 4 * rem + 3 < Radix(w) && 4 * r + 3 < Radix(w)
    ensures 2 * r + 1 < Two(bits - (m - 1)) && rem <= 2 * r
  {
    TwoMono(bits - m, bits - 1);
    TwoMono(bits + 3, 16 * w);
    RadixIsTwo(w);
    assert Two(bits + 3) == 2 * Two(bits + 2) == 4 * Two(bits + 1) == 8 * Two(bits) == 16 * Two(bits - 1);
  }

  lemma OneTimes(v: nat)
    ensures v * Two(0) == v && 1 * v == v
  {
  }

  lemma TwoOne()
    ensures Two(1) == 2
  {
  }

  lemma {:induction false} ZeroBits(b: nat)
    ensures Prefix(0, b) == 0 && BitOf(0, b) == 0
  {
    if b > 0 {
      ZeroBits(b - 1);
    }
  }

  lemma AtBitIs(bits: nat, j: int, mask: nat)
    requires bits > 0 && j == (bits + 15) / 16 - 1 && mask == Two((bits - 1) % 16)
    ensures AtBit(bits, j, mask)
  {
  }

  lemma SignBit(v: nat, p: nat)
    requires p > 0 && v < Radix(p)
    ensures Signed(v, p) < 0 <==> 32768 * Radix(p - 1) <= v
  {
  }

  lemma OneBit(d: nat)
    requires BitLen(d) == 1
    ensures d == 1
  {
    BitLenBounds(d);
    TwoOne();
  }

  // A number with a clear top bit has a root that fits half the precision.
  lemma RootFits(d: nat, p: nat)
    requires p > 0 && d < 32768 * Radix(p - 1)
    ensures ((BitLen(d) + 1) / 2 + 3 + 15) / 16 <= p
  {
    BitLenBounds(d);
    RadixIsTwo(p - 1);
    TwoAdd(15, 16 * (p - 1));
    Two16();
    if 16 * p - 1 < BitLen(d) {
      TwoMono(16 * p - 1, BitLen(d) - 1);
    }
  }

  lemma StepSum(w: int, v: nat, u: nat, x: nat, p: nat)
    requires w == ((v * 65536) % Radix(p) + u * x) % Radix(p)
    ensures w == Truncated(v * 65536 + u * x, p)
  {
    ModAddLeft(v * 65536, u * x, Radix(p));
    TruncatedIsMod(v * 65536 + u * x, p);
  }

  lemma DropCarry(v: nat, carry: int, sum: int, limit: nat)
    requires v + carry * limit == sum && v < limit
    ensures v == sum % limit
  {
    DivUnique(sum, carry, v, limit);
  }

  // Doubling a product modulo the limit, and adding the multiplicand once more.
  lemma DoubleAndAdd(x: int, h: int, limit: nat)
    requires limit > 0
    ensures (2 * ((x * h) % limit)) % limit == (x * (2 * h)) % limit
    ensures ((x * (2 * h)) % limit + x) % limit == (x * (2 * h + 1)) % limit
  {
    var t, u, w := x * h, x * (2 * h), x * (2 * h + 1);
    assert u == t + t;
    assert w == u + x;
    ModAddBoth(t, t, limit);
    ModAddLeft(u, x, limit);
  }

  // The remainder by a one-unit divisor, kept in a 16-bit register that loses its top bit.
  function ShortRemainder(v: nat, divisor: unit): unit
    requires divisor > 0
  {
    if v == 0 then
      0
    else
      var r := (ShortRemainder(v / 2, divisor) as int * 2) % 65536 + v % 2;
      if r >= divisor then r - divisor else r
  }

  // The quotient bits set beside that remainder.
  function ShortQuotient(v: nat, divisor: unit): nat
    requires divisor > 0
  {
    if v == 0 then
      0
    else
      var r := (ShortRemainder(v / 2, divisor) as int * 2) % 65536 + v % 2;
      2 * ShortQuotient(v / 2, divisor) + if r >= divisor then 1 else 0
  }

  lemma WholePrefix(n: nat)
    ensures Prefix(n, 0) == n
  {
  }

  lemma ShortZero(divisor: unit)
    requires divisor > 0
    ensures ShortRemainder(0, divisor) == 0 && ShortQuotient(0, divisor) == 0
  {
  }

  lemma ShortArithmetic(h: int, b: int, rem: int, d: int, q: int)
    requires q * d + rem == h
    ensures (2 * q + 1) * d + (2 * rem + b - d) == 2 * h + b
    ensures (2 * q) * d + (2 * rem + b) == 2 * h + b
  {
    MulAssoc(2, q, d);
    MulDistrib(2 * q, 1, d);
  }

  lemma ShortStep(v: nat, h: nat, b: bit, divisor: unit)
    requires divisor > 0 && v == 2 * h + b
    ensures var r := (ShortRemainder(h, divisor) as int * 2) % 65536 + b;
      ShortRemainder(v, divisor) == (if r >= divisor then r - divisor else r)
      && ShortQuotient(v, divisor) == 2 * ShortQuotient(h, divisor) + if r >= divisor then 1 else 0
  {
    if v == 0 {
      assert h == 0;
    } else {
      assert v / 2 == h && v % 2 == b;
    }
  }

  // Up to 2^15 no bit of the register is lost: quotient and remainder are those of the values.
  lemma {:induction false} ShortDivides(v: nat, divisor: unit)
    requires 0 < divisor <= 32768
    ensures ShortQuotient(v, divisor) == v / divisor && ShortRemainder(v, divisor) == v % divisor
  {
    if v == 0 {
      DivUnique(0, 0, 0, divisor);
    } else {
      var h, b: bit := v / 2, v % 2;
      ShortDivides(h, divisor);
      ShortStep(v, h, b, divisor);
      hide ShortRemainder, ShortQuotient;
      ShortSum(v, h, b, divisor);
    }
  }

  lemma ShortSum(v: nat, h: nat, b: bit, divisor: unit)
    requires 0 < divisor <= 32768 && v == 2 * h + b
    ensures 0 <= h % divisor < divisor
    ensures var r := (h % divisor as int * 2) % 65536 + b;
      v % divisor == (if r >= divisor then r - divisor else r)
      && v / divisor == 2 * (h / divisor) + if r >= divisor then 1 else 0
  {
    DivMod(h, divisor);
    ShortArithmetic(h, b, h % divisor, divisor, h / divisor);
    ShortChoice(v, 2 * (h % divisor) + b, h / divisor, divisor);
  }

  lemma ShortChoice(v: int, r: int, q: int, d: int)
    requires 0 <= r < 2 * d
    requires (2 * q + 1) * d + (r - d) == v && (2 * q) * d + r == v
    ensures v % d == (if r >= d then r - d else r) && v / d == if r >= d then 2 * q + 1 else 2 * q
  {
    if r >= d {
      DivUnique(v, 2 * q + 1, r - d, d);
    } else {
      DivUnique(v, 2 * q, r, d);
    }
  }

  lemma {:induction false} ShortPowers(k: nat, divisor: unit)
    requires k <= 15 && divisor > 32768
    ensures ShortRemainder(Two(k), divisor) == Two(k)
  {
    Two16();
    TwoMono(k, 15);
    if k == 0 {
      assert ShortRemainder(1 / 2, divisor) == 0;
    } else {
      ShortPowers(k - 1, divisor);
      TwoMono(k - 1, 14);
      assert Two(k) / 2 == Two(k - 1);
      assert Two(15) == 2 * Two(14);
    }
  }

  // The register is wide enough for every dividend just when the divisor is at most 2^15.
  lemma ShortExactIff(divisor: unit)
    requires divisor > 0
    ensures (forall v: nat :: ShortRemainder(v, divisor) == v % divisor) <==> divisor <= 32768
  {
    if divisor <= 32768 {
      forall v: nat
        ensures ShortRemainder(v, divisor) == v % divisor
      {
        ShortDivides(v, divisor);
      }
    } else {
      ShortPowers(15, divisor);
      Two16();
      assert ShortRemainder(65536, divisor) == 0;
      DivUnique(65536, 1, 65536 - divisor, divisor);
      assert ShortRemainder(65536, divisor) != 65536 % divisor;
    }
  }
}
