// The multi-precision library: numbers are arrays of 16-bit units, lowest unit first,
// of which the `precision` lowest are live.  Unit values and masks are integers, so
// truncation to 16 bits is written out as `% 65536`.
module RsaLib {
  import opened Powers
  import opened Units
  import opened Merritt
  import opened Crt
  import opened RsaArithmetic

  const MAX_UNIT_PRECISION: nat := 128

  // What decryption returns, unless it reads a unit that nothing has set.
  datatype DecryptAnswer = Answered(status: int) | Unset

  class CRSALib {
    var precision: nat

    // Staging buffers: the modulus and the multiplicand, each shifted left bit by bit.
    const moduliBuf: seq<array<unit>>
    var moduli: seq<array<unit>>
    const msuModuli: array<unit>
    const nmsuModuli: array<unit>
    const mpdBuf: seq<array<unit>>
    var mpd: seq<array<unit>>

    constructor (globalPrecision: nat)
      ensures precision == globalPrecision && Buffers()
      ensures fresh(moduliBuf) && fresh(mpdBuf) && fresh(msuModuli) && fresh(nmsuModuli)
    {
      precision := globalPrecision;
      var shifted: seq<array<unit>> := [];
      var images: seq<array<unit>> := [];
      for i := 0 to 16
        invariant |shifted| == i
        invariant forall k :: 0 <= k < i ==> fresh(shifted[k]) && shifted[k].Length == MAX_UNIT_PRECISION
        invariant forall j, k :: 0 <= j < k < i ==> shifted[j] != shifted[k]
      {
        var buffer := new unit[MAX_UNIT_PRECISION](_ => 0);
        shifted := shifted + [buffer];
      }
      for i := 0 to 15
        invariant |images| == i
        invariant forall k :: 0 <= k < i ==> fresh(images[k]) && images[k].Length == MAX_UNIT_PRECISION
        invariant forall j, k :: 0 <= j < k < i ==> images[j] != images[k]
        invariant forall j, k :: 0 <= j < 16 && 0 <= k < i ==> shifted[j] != images[k]
      {
        var buffer := new unit[MAX_UNIT_PRECISION](_ => 0);
        images := images + [buffer];
      }
      moduliBuf, mpdBuf := shifted, images;
      moduli, mpd := [], [];
      msuModuli := new unit[17](_ => 0);
      nmsuModuli := new unit[17](_ => 0);
    }

    ghost predicate Buffers() {
      && |moduliBuf| == 16 && |mpdBuf| == 15
      && msuModuli.Length == 17 && nmsuModuli.Length == 17 && msuModuli != nmsuModuli
      && (forall i :: 0 <= i < 16 ==> moduliBuf[i].Length == MAX_UNIT_PRECISION)
      && (forall i :: 0 <= i < 15 ==> mpdBuf[i].Length == MAX_UNIT_PRECISION)
      && (forall i, j :: 0 <= i < j < 16 ==> moduliBuf[i] != moduliBuf[j])
      && (forall i, j :: 0 <= i < j < 15 ==> mpdBuf[i] != mpdBuf[j])
      && (forall i, j :: 0 <= i < 16 && 0 <= j < 15 ==> moduliBuf[i] != mpdBuf[j])
      && msuModuli !in moduliBuf && nmsuModuli !in moduliBuf
      && msuModuli !in mpdBuf && nmsuModuli !in mpdBuf
    }

    // r is none of the staging buffers.
    ghost predicate Foreign(r: array<unit>) {
      r !in moduliBuf && r !in mpdBuf && r != msuModuli && r != nmsuModuli
    }

    // The value of the live units of r.
    ghost function V(r: array<unit>): (v: nat)
      requires precision <= r.Length
      reads this`precision, r
    {
      Val(r[..], precision)
    }

    method MpAddc(r1: array<unit>, r2: array<unit>, carryIn: bit) returns (carry: bit)
      requires precision <= r1.Length && precision <= r2.Length
      modifies r1
      ensures V(r1) + carry * Radix(precision) == old(V(r1)) + old(V(r2)) + carryIn
      ensures r1[precision..] == old(r1[precision..])
    {
      hide Radix, Val;
      RadixStep(0);
      ValZero();
      carry := carryIn;
      ghost var s, t := r1[..], r2[..];
      var i := 0;
      while i < precision
        invariant 0 <= i <= precision
        invariant forall k :: i <= k < r1.Length ==> r1[k] == s[k]
        invariant forall k :: i <= k < r2.Length ==> r2[k] == t[k]
        invariant Val(r1[..], i) + carry * Radix(i) == Val(s, i) + Val(t, i) + carryIn
      {
        ValStep(s, i);
        ValStep(t, i);
        RadixStep(i);
        ghost var before := r1[..];
        var x := r1[i] + r2[i] + carry;
        CarryUnit(s[i], t[i], carry, x % 65536, (x / 65536) % 2, Radix(i));
        r1[i] := x % 65536;
        carry := (x / 65536) % 2;
        ValFrame(before, r1[..], i);
        ValStep(r1[..], i);
        i := i + 1;
      }
    }

    method MpSubb(r1: array<unit>, r2: array<unit>, borrowIn: bit) returns (borrow: bit)
      requires precision <= r1.Length && precision <= r2.Length
      modifies r1
      ensures V(r1) - borrow * Radix(precision) == old(V(r1)) - old(V(r2)) - borrowIn
      ensures r1[precision..] == old(r1[precision..])
    {
      hide Radix, Val;
      RadixStep(0);
      ValZero();
      borrow := borrowIn;
      ghost var s, t := r1[..], r2[..];
      var i := 0;
      while i < precision
        invariant 0 <= i <= precision
        invariant forall k :: i <= k < r1.Length ==> r1[k] == s[k]
        invariant forall k :: i <= k < r2.Length ==> r2[k] == t[k]
        invariant Val(r1[..], i) - borrow * Radix(i) == Val(s, i) - Val(t, i) - borrowIn
      {
        ValStep(s, i);
        ValStep(t, i);
        RadixStep(i);
        ghost var before := r1[..];
        var x := r1[i] - r2[i] - borrow;
        BorrowBit(x);
        var low, next := x % 65536, (x / 65536) % 2;
        BorrowUnit(s[i], t[i], borrow, low, next, Radix(i));
        r1[i] := low;
        borrow := next;
        ValFrame(before, r1[..], i);
        ValStep(r1[..], i);
        i := i + 1;
      }
    }

    method MpRotateLeft(r: array<unit>, carryIn: bit) returns (carry: bit)
      requires 0 < precision <= r.Length
      modifies r
      ensures V(r) + carry * Radix(precision) == 2 * old(V(r)) + carryIn
      ensures r[precision..] == old(r[precision..])
    {
      hide Radix, Val;
      RadixStep(0);
      ValZero();
      carry := carryIn;
      ghost var s := r[..];
      var i := 0;
      while i < precision
        invariant 0 <= i <= precision
        invariant forall k :: i <= k < r.Length ==> r[k] == s[k]
        invariant Val(r[..], i) + carry * Radix(i) == 2 * Val(s, i) + carryIn
      {
        ValStep(s, i);
        RadixStep(i);
        ghost var before := r[..];
        var nextCarry := if r[i] >= 32768 then 1 else 0;
        ghost var x := 2 * s[i] as int + carry - 65536 * nextCarry;
        CarryUnit(s[i], s[i], carry, x, nextCarry, Radix(i));
        r[i] := (r[i] as int * 2) % 65536;
        if carry == 1 {
          r[i] := r[i] + 1;
        }
        carry := nextCarry;
        assert r[i] == x;
        ValFrame(before, r[..], i);
        ValStep(r[..], i);
        i := i + 1;
      }
    }

    method MpCompare(r1: array<unit>, r2: array<unit>) returns (c: int)
      requires 0 < precision <= r1.Length && precision <= r2.Length
      ensures c == if V(r1) < V(r2) then -1 else if V(r1) > V(r2) then 1 else 0
    {
      var p := precision;
      while p > 0
        invariant 0 <= p <= precision
        invariant forall k :: p <= k < precision ==> r1[k] == r2[k]
      {
        if r1[p - 1] < r2[p - 1] {
          CompareAt(r1[..], r2[..], p - 1, precision);
          return -1;
        }
        if r1[p - 1] > r2[p - 1] {
          CompareAt(r2[..], r1[..], p - 1, precision);
          return 1;
        }
        p := p - 1;
      }
      ValFrame(r1[..], r2[..], precision);
      return 0;
    }

    method MpDec(r: array<unit>) returns (borrow: bit)
      requires 0 < precision <= r.Length
      modifies r
      ensures V(r) - borrow * Radix(precision) == old(V(r)) - 1
      ensures r[precision..] == old(r[precision..])
    {
      hide Radix, Val;
      RadixStep(0);
      ValZero();
      ghost var s := r[..];
      var i := 0;
      while i < precision
        invariant 0 <= i <= precision
        invariant forall k :: i <= k < r.Length ==> r[k] == s[k]
        invariant Val(r[..], i) - Radix(i) == Val(s, i) - 1
      {
        ValStep(s, i);
        RadixStep(i);
        ghost var before := r[..];
        BorrowUnit(s[i], 0, 1, (s[i] as int - 1) % 65536, if s[i] == 0 then 1 else 0, Radix(i));
        r[i] := (r[i] as int - 1) % 65536;
        ValFrame(before, r[..], i);
        ValStep(r[..], i);
        if r[i] != 65535 {
          ValTail(s, r[..], i + 1, precision);
          return 0;
        }
        i := i + 1;
      }
      return 1;
    }

    method MpNeg(r: array<unit>)
      requires 0 < precision <= r.Length
      modifies r
      ensures V(r) == (-(old(V(r)) as int)) % Radix(precision)
      ensures r[precision..] == old(r[precision..])
    {
      ghost var v := V(r);
      var borrow := MpDec(r);
      ghost var t := r[..];
      var i := 0;
      while i < precision
        invariant 0 <= i <= precision
        invariant forall k :: 0 <= k < i ==> r[k] == 65535 - t[k]
        invariant forall k :: i <= k < r.Length ==> r[k] == t[k]
      {
        r[i] := 65535 - r[i];
        i := i + 1;
      }
      ComplementVal(t, r[..], precision);
      ValBound(r[..], precision);
      ValBound(t, precision);
      DivUnique(-(v as int), borrow as int - 1, V(r), Radix(precision));
    }

    method MpMove(dst: array<unit>, src: array<unit>)
      requires 0 < precision <= dst.Length && precision <= src.Length
      modifies dst
      ensures forall k :: 0 <= k < precision ==> dst[k] == old(src[k])
      ensures V(dst) == old(V(src))
      ensures dst[precision..] == old(dst[precision..])
    {
      ghost var s := src[..];
      var i := 0;
      while i < precision
        invariant 0 <= i <= precision
        invariant forall k :: 0 <= k < i ==> dst[k] == s[k]
        invariant forall k :: i <= k < src.Length ==> src[k] == s[k]
        invariant forall k :: i <= k < dst.Length ==> dst[k] == old(dst[k])
      {
        dst[i] := src[i];
        i := i + 1;
      }
      ValFrame(s, dst[..], precision);
    }

    method MpInit(r: array<unit>, value: unit)
      requires 0 < precision <= r.Length
      modifies r
      ensures V(r) == value
      ensures r[0] == value && forall k :: 0 < k < precision ==> r[k] == 0
      ensures r[precision..] == old(r[precision..])
    {
      r[0] := value;
      var i := 1;
      while i < precision
        invariant 1 <= i <= precision
        invariant r[0] == value
        invariant forall k :: 0 < k < i ==> r[k] == 0
        invariant forall k :: i <= k < r.Length ==> r[k] == old(r[k])
      {
        r[i] := 0;
        i := i + 1;
      }
      ValHighZero(r[..], 1, precision);
      ValOne(r[..]);
    }

    // The number of units up to the highest nonzero one.
    method Significance(r: array<unit>) returns (units: nat)
      requires 0 < precision <= r.Length
      ensures units <= precision
      ensures units > 0 ==> r[units - 1] != 0
      ensures forall k :: units <= k < precision ==> r[k] == 0
      ensures V(r) == Val(r[..], units) < Radix(units)
      ensures units > 0 ==> Radix(units - 1) <= V(r)
    {
      units := precision;
      while units > 0 && r[units - 1] == 0
        invariant 0 <= units <= precision
        invariant forall k :: units <= k < precision ==> r[k] == 0
      {
        units := units - 1;
      }
      ValHighZero(r[..], units, precision);
      ValBound(r[..], units);
      if units > 0 {
        TopUnit(r[..], units);
        MulMono(1, r[units - 1], Radix(units - 1));
      }
    }

    method IsZero(r: array<unit>) returns (zero: bool)
      requires 0 < precision <= r.Length
      ensures zero <==> V(r) == 0
    {
      var units := Significance(r);
      zero := r[0] == 0 && units <= 1;
      if units == 1 {
        ValOne(r[..]);
      } else if units > 1 {
        RadixMono(1, units - 1);
      }
    }

    // Finds the highest set bit: its unit, its mask, and how many bits there are up to it.
    method InitBitSniffer(r: array<unit>) returns (bits: nat, j: int, mask: nat)
      requires 0 < precision <= r.Length
      ensures bits == BitLen(V(r)) <= 16 * precision
      ensures bits == 0 <==> V(r) == 0
      ensures bits > 0 ==> AtBit(bits, j, mask)
    {
      var units := Significance(r);
      j, mask := units as int - 1, 32768;
      bits := 16 * units;
      if units == 0 {
        return;
      }
      Two16();
      RadixIsTwo(units);
      RadixIsTwo(units - 1);
      ghost var v := V(r);
      while true
        invariant 16 * j < bits <= 16 * units && j == units - 1
        invariant AtBit(bits, j, mask)
        invariant v < Two(bits)
        decreases bits
      {
        var b := ReadBit(r, j, mask, bits - 1);
        if b == 1 {
          break;
        }
        TopBitClear(v, bits);
        if bits - 1 == 16 * j {
          assert false;
        }
        mask := mask / 2;
        bits := bits - 1;
      }
      TopBitSet(v, bits - 1);
      BitLenUnique(v, bits);
    }

    // Shifts one more bit into a running remainder and subtracts the divisor if it now fits.
    method ReduceStep(remainder: array<unit>, divisor: array<unit>, b: bit) returns (fits: bool)
      requires 0 < precision <= remainder.Length && precision <= divisor.Length
      requires remainder != divisor
      requires 2 * V(remainder) + b < Radix(precision)
      modifies remainder
      ensures fits <==> V(divisor) <= 2 * old(V(remainder)) + b
      ensures V(remainder) == 2 * old(V(remainder)) + b - if fits then V(divisor) else 0
      ensures remainder[precision..] == old(remainder[precision..])
    {
      ghost var sum := 2 * V(remainder) + b;
      var carry := MpRotateLeft(remainder, b);
      NoCarry(V(remainder), carry, sum, Radix(precision));
      var c := MpCompare(remainder, divisor);
      fits := c >= 0;
      if fits {
        ghost var d := V(divisor);
        var borrow := MpSubb(remainder, divisor, 0);
        assert V(divisor) == d;
        ValBound(remainder[..], precision);
      }
    }

    // Sets a clear bit of the quotient.
    method SetBit(quotient: array<unit>, j: int, mask: nat, ghost b: nat)
      requires precision <= quotient.Length
      requires b < 16 * precision && AtBit(b + 1, j, mask)
      requires BitOf(V(quotient), b) == 0
      modifies quotient
      ensures V(quotient) == old(V(quotient)) + Two(b)
      ensures quotient[precision..] == old(quotient[precision..])
    {
      ghost var before := quotient[..];
      UnitWidth(b % 16);
      OrBitInRange(quotient[j], mask, Two(15 - b % 16));
      quotient[j] := OrBit(quotient[j], mask);
      OrBitVal(before, quotient[..], precision, b);
    }

    // The bit a sniffer stands at, in a number of p units.
    method ReadDigit(r: array<unit>, p: nat, j: int, mask: nat, ghost b: nat) returns (digit: bit)
      requires p <= r.Length
      requires b < 16 * p && AtBit(b + 1, j, mask)
      ensures digit == BitOf(Val(r[..], p), b)
    {
      TestBitOfVal(r[..], p, b);
      digit := if TestBit(r[j], mask) then 1 else 0;
    }

    method ReadBit(r: array<unit>, j: int, mask: nat, ghost b: nat) returns (digit: bit)
      requires precision <= r.Length
      requires b < 16 * precision && AtBit(b + 1, j, mask)
      ensures digit == BitOf(V(r), b)
    {
      digit := ReadDigit(r, precision, j, mask, b);
    }

    // One bit of long division: b is the next digit of n.
    method DivideBit(remainder: array<unit>, quotient: array<unit>, divisor: array<unit>,
                     b: bit, j: int, mask: nat, ghost n: nat, ghost q: nat, ghost at: nat)
      returns (ghost q': nat)
      requires 0 < precision <= remainder.Length && precision <= quotient.Length && precision <= divisor.Length
      requires remainder != quotient && divisor != remainder && divisor != quotient
      requires at < 16 * precision && AtBit(at + 1, j, mask) && b == BitOf(n, at)
      requires Dividing(n, V(divisor), q, V(remainder), at + 1) && n < Radix(precision)
      requires V(quotient) == q * Two(at + 1)
      modifies remainder, quotient
      ensures Dividing(n, V(divisor), q', V(remainder), at)
      ensures V(quotient) == q' * Two(at)
      ensures remainder[precision..] == old(remainder[precision..])
      ensures quotient[precision..] == old(quotient[precision..])
    {
      DivisionStep(n, V(divisor), q, V(remainder), at, Radix(precision));
      ShiftedQuotient(q, at);
      var fits := ReduceStep(remainder, divisor, b);
      q' := 2 * q;
      if fits {
        SetBit(quotient, j, mask, at);
        q' := q' + 1;
      }
    }

    // Binary long division; -1 means a zero divisor, and then nothing is written.
    method MpUdiv(remainder: array<unit>, quotient: array<unit>, dividend: array<unit>, divisor: array<unit>)
      returns (status: int)
      requires 0 < precision <= remainder.Length && precision <= quotient.Length
      requires precision <= dividend.Length && precision <= divisor.Length
      requires remainder != quotient
      requires dividend != remainder && dividend != quotient
      requires divisor != remainder && divisor != quotient
      modifies remainder, quotient
      ensures status == if V(divisor) == 0 then -1 else 0
      ensures status == 0 ==> V(quotient) == V(dividend) / V(divisor)
      ensures status == 0 ==> V(remainder) == V(dividend) % V(divisor)
      ensures status == -1 ==> remainder[..] == old(remainder[..]) && quotient[..] == old(quotient[..])
      ensures remainder[precision..] == old(remainder[precision..])
      ensures quotient[precision..] == old(quotient[precision..])
    {
      hide Val, Radix, BitLen, Dividing, AtBit, Two;
      var zero := IsZero(divisor);
      if zero {
        return -1;
      }
      MpInit(remainder, 0);
      MpInit(quotient, 0);
      var bits, j, mask := InitBitSniffer(dividend);
      ghost var n, d := V(dividend), V(divisor);
      ghost var q: nat := 0;
      ValBound(dividend[..], precision);
      DivisionStart(n, d);
      while bits > 0
        invariant 0 <= bits <= 16 * precision
        invariant bits > 0 ==> AtBit(bits, j, mask)
        invariant V(dividend) == n && V(divisor) == d
        invariant Dividing(n, d, q, V(remainder), bits)
        invariant V(quotient) == q * Two(bits)
        invariant remainder[precision..] == old(remainder[precision..])
        invariant quotient[precision..] == old(quotient[precision..])
      {
        bits := bits - 1;
        var b := ReadBit(dividend, j, mask, bits);
        q := DivideBit(remainder, quotient, divisor, b, j, mask, n, q, bits);
        j, mask := NextBit(j, mask, bits);
      }
      DivisionEnd(n, d, q, V(remainder));
      return 0;
    }

    method RemainderBit(remainder: array<unit>, divisor: array<unit>, b: bit, ghost n: nat, ghost q: nat, ghost at: nat)
      returns (ghost q': nat)
      requires 0 < precision <= remainder.Length && precision <= divisor.Length && divisor != remainder
      requires b == BitOf(n, at) && n < Radix(precision)
      requires Dividing(n, V(divisor), q, V(remainder), at + 1)
      modifies remainder
      ensures Dividing(n, V(divisor), q', V(remainder), at)
      ensures remainder[precision..] == old(remainder[precision..])
    {
      DivisionStep(n, V(divisor), q, V(remainder), at, Radix(precision));
      var fits := ReduceStep(remainder, divisor, b);
      q' := if fits then 2 * q + 1 else 2 * q;
    }

    // As long division, without recording the quotient.
    method MpMod(remainder: array<unit>, dividend: array<unit>, divisor: array<unit>) returns (status: int)
      requires 0 < precision <= remainder.Length
      requires precision <= dividend.Length && precision <= divisor.Length
      requires dividend != remainder && divisor != remainder
      modifies remainder
      ensures status == if V(divisor) == 0 then -1 else 0
      ensures status == 0 ==> V(remainder) == V(dividend) % V(divisor)
      ensures status == -1 ==> remainder[..] == old(remainder[..])
      ensures remainder[precision..] == old(remainder[precision..])
    {
      var zero := IsZero(divisor);
      if zero {
        return -1;
      }
      hide Val, Radix, BitLen, Dividing, AtBit;
      MpInit(remainder, 0);
      var bits, j, mask := InitBitSniffer(dividend);
      ghost var n, d := V(dividend), V(divisor);
      ghost var q: nat := 0;
      ValBound(dividend[..], precision);
      DivisionStart(n, d);
      while bits > 0
        invariant 0 <= bits <= 16 * precision
        invariant bits > 0 ==> AtBit(bits, j, mask)
        invariant V(dividend) == n && V(divisor) == d
        invariant Dividing(n, d, q, V(remainder), bits)
        invariant remainder[precision..] == old(remainder[precision..])
      {
        bits := bits - 1;
        var b := ReadBit(dividend, j, mask, bits);
        q := RemainderBit(remainder, divisor, b, n, q, bits);
        j, mask := NextBit(j, mask, bits);
      }
      DivisionEnd(n, d, q, V(remainder));
      return 0;
    }

    // Shift-and-add multiplication, kept to the live units.
    method MpMult(prod: array<unit>, multiplicand: array<unit>, multiplier: array<unit>) returns (status: int)
      requires 0 < precision <= prod.Length
      requires precision <= multiplicand.Length && precision <= multiplier.Length
      requires prod != multiplicand && prod != multiplier
      modifies prod
      ensures status == 0
      ensures V(prod) == (V(multiplicand) * V(multiplier)) % Radix(precision)
      ensures prod[precision..] == old(prod[precision..])
    {
      MpInit(prod, 0);
      DivUnique(0, 0, 0, Radix(precision));
      var zero := IsZero(multiplicand);
      if zero {
        return 0;
      }
      var bits, j, mask := InitBitSniffer(multiplier);
      ghost var y := V(multiplier);
      ghost var h: nat := 0;
      PrefixOfBitLen(y);
      while bits > 0
        invariant 0 <= bits <= 16 * precision
        invariant bits > 0 ==> AtBit(bits, j, mask)
        invariant h == Prefix(y, bits)
        invariant V(prod) == (V(multiplicand) * h) % Radix(precision)
        invariant prod[precision..] == old(prod[precision..])
      {
        bits := bits - 1;
        var b := ReadBit(multiplier, j, mask, bits);
        MultiplyBit(prod, multiplicand, b, h);
        h := 2 * h + b;
        j, mask := NextBit(j, mask, bits);
      }
      return 0;
    }

    // Takes one more bit of a multiplier into the product.
    method MultiplyBit(prod: array<unit>, multiplicand: array<unit>, b: bit, ghost h: nat)
      requires 0 < precision <= prod.Length && precision <= multiplicand.Length
      requires prod != multiplicand
      requires V(prod) == (V(multiplicand) * h) % Radix(precision)
      modifies prod
      ensures V(prod) == (V(multiplicand) * (2 * h + b)) % Radix(precision)
      ensures prod[precision..] == old(prod[precision..])
    {
      ghost var x, limit, v := V(multiplicand), Radix(precision), V(prod);
      DoubleAndAdd(x, h, limit);
      var carry := MpRotateLeft(prod, 0);
      ValBound(prod[..], precision);
      DropCarry(V(prod), carry, 2 * v, limit);
      if b == 1 {
        ghost var w := V(prod);
        carry := MpAddc(prod, multiplicand, 0);
        ValBound(prod[..], precision);
        DropCarry(V(prod), carry, w + x, limit);
      }
    }

    // Multiplies by 65536, dropping the top unit.
    method MpLshiftUnit(r: array<unit>)
      requires 0 < precision <= r.Length
      modifies r
      ensures V(r) == (old(V(r)) * 65536) % Radix(precision)
      ensures r[precision..] == old(r[precision..])
    {
      ghost var s := r[..];
      var i := precision - 1;
      while i > 0
        invariant 0 <= i < precision
        invariant forall k :: 0 <= k <= i ==> r[k] == s[k]
        invariant forall k :: i < k < precision ==> r[k] == s[k - 1]
        invariant forall k :: precision <= k < r.Length ==> r[k] == s[k]
      {
        r[i] := r[i - 1];
        i := i - 1;
      }
      r[0] := 0;
      UnitShift(s, r[..], precision);
    }

    method StageMpImages(multiplicand: array<unit>)
      requires Buffers() && Foreign(multiplicand)
      requires 0 < precision <= multiplicand.Length && precision <= MAX_UNIT_PRECISION
      modifies this`mpd, mpdBuf
      ensures ImagesStaged(V(multiplicand))
      ensures mpd == [multiplicand] + mpdBuf
    {
      mpd := [multiplicand] + mpdBuf;
      ghost var x := V(multiplicand);
      ValBound(multiplicand[..], precision);
      DivUnique(x, 0, x, Radix(precision));
      var i := 1;
      while i < 16
        invariant 1 <= i <= 16
        invariant mpd == [multiplicand] + mpdBuf
        invariant forall k :: 0 <= k < i ==> V(mpd[k]) == Shifted(x, k) % Radix(precision)
      {
        MpMove(mpd[i], mpd[i - 1]);
        ghost var v := V(mpd[i]);
        var carry := MpRotateLeft(mpd[i], 0);
        ValBound(mpd[i][..], precision);
        DropCarry(V(mpd[i]), carry, 2 * v, Radix(precision));
        DoubleMod(Shifted(x, i - 1), Radix(precision));
        i := i + 1;
      }
    }

    // The images of x: x shifted left by 0 to 15 bits, within the live units.
    ghost predicate ImagesStaged(x: nat)
      reads this`precision, this`mpd, mpd
    {
      |mpd| == 16 && forall k :: 0 <= k < 16 ==>
        precision <= mpd[k].Length && V(mpd[k]) == Shifted(x, k) % Radix(precision)
    }

    // Adds u times the multiplicand to the product.
    method AddImages(prod: array<unit>, u: unit, ghost x: nat)
      requires 0 < precision <= prod.Length && prod !in mpd
      requires ImagesStaged(x)
      modifies prod
      ensures V(prod) == (old(V(prod)) + u * x) % Radix(precision)
    {
      hide Val, Radix, HighBits, Shifted;
      HighBitsOf(u);
      ghost var base, limit := V(prod), Radix(precision);
      ValBound(prod[..], precision);
      DivUnique(base, 0, base, limit);
      var k := 15;
      while k >= 0
        invariant -1 <= k <= 15
        invariant V(prod) == (base + HighBits(u, k + 1) * x) % limit
      {
        AddImage(V(prod), base, u, k, x, limit);
        ShiftedIsProduct(x, k);
        MaskBit(u, k);
        if TestBit(u, Two(k)) {
          ghost var v, m := V(prod), V(mpd[k]);
          var carry := MpAddc(prod, mpd[k], 0);
          ValBound(prod[..], precision);
          DropCarry(V(prod), carry, v + m, limit);
        }
        k := k - 1;
      }
    }

    // Rung i: the modulus n shifted left by i bits, with its top two units.
    ghost predicate RungStaged(i: nat, n: nat)
      requires i < |moduli|
      reads this`precision, this`moduli, moduli[i], msuModuli, nmsuModuli
    {
      && 2 <= precision <= moduli[i].Length && i < msuModuli.Length && i < nmsuModuli.Length
      && V(moduli[i]) == Shifted(n, i)
      && msuModuli[i] == moduli[i][precision - 1]
      && nmsuModuli[i] == moduli[i][precision - 2]
    }

    // The buffers are in place and the first modulus is the caller's.
    ghost predicate Ready()
      reads this
    {
      && Buffers() && 2 <= precision <= MAX_UNIT_PRECISION
      && |moduli| == 17 && moduli[1..] == moduliBuf && Foreign(moduli[0])
      && (forall i :: 0 <= i < 17 ==> moduli[i] !in mpdBuf)
      && msuModuli !in moduli && nmsuModuli !in moduli
    }

    ghost predicate ModulusStaged(n: nat)
      requires |moduli| == 17
      reads this`precision, this`moduli, moduli, msuModuli, nmsuModuli
    {
      forall i :: 0 <= i < 17 ==> RungStaged(i, n)
    }

    // Writing elsewhere leaves the staged modulus as it is.
    twostate lemma ModulusKept(n: nat)
      requires old(|moduli| == 17 && ModulusStaged(n))
      requires moduli == old(moduli) && precision == old(precision)
      requires unchanged(msuModuli) && unchanged(nmsuModuli)
      requires forall i :: 0 <= i < 17 ==> unchanged(moduli[i])
      ensures ModulusStaged(n)
    {
      forall i | 0 <= i < 17
        ensures RungStaged(i, n)
      {
        assert old(RungStaged(i, n));
      }
    }

    twostate lemma ImagesKept(x: nat)
      requires old(ImagesStaged(x))
      requires mpd == old(mpd) && precision == old(precision)
      requires forall i :: 0 <= i < 16 ==> unchanged(mpd[i])
      ensures ImagesStaged(x)
    {
    }

    // The array is no part of what is staged for a modular multiplication.
    ghost predicate Apart(r: array<unit>)
      reads this
    {
      r !in moduli && r != msuModuli && r != nmsuModuli
    }

    method StageMerrittModulus(n: array<unit>) returns (status: int)
      requires Buffers() && Foreign(n)
      requires precision <= n.Length && precision <= MAX_UNIT_PRECISION
      requires HeadRoom(V(n), precision)
      modifies this`moduli, moduliBuf, msuModuli, nmsuModuli
      ensures status == 0
      ensures Ready() && ModulusStaged(V(n)) && moduli == [n] + moduliBuf
    {
      moduli := [n] + moduliBuf;
      ghost var v := V(n);
      msuModuli[0] := n[precision - 1];
      nmsuModuli[0] := n[precision - 2];
      var i := 1;
      while i < 17
        invariant 1 <= i <= 17
        invariant moduli == [n] + moduliBuf && Separate(moduli)
        invariant V(n) == v
        invariant forall k :: 0 <= k < i ==> RungStaged(k, v)
      {
        StageRung(i, v);
        i := i + 1;
      }
      return 0;
    }

    ghost predicate Separate(arrays: seq<array<unit>>) {
      forall i, j :: 0 <= i < j < |arrays| ==> arrays[i] != arrays[j]
    }

    method StageRung(i: nat, ghost n: nat)
      requires 1 <= i < 17 && |moduli| == 17 && Separate(moduli)
      requires precision <= moduli[i].Length && HeadRoom(n, precision)
      requires msuModuli.Length == 17 && nmsuModuli.Length == 17 && msuModuli != nmsuModuli
      requires msuModuli !in moduli && nmsuModuli !in moduli
      requires forall k :: 0 <= k < i ==> RungStaged(k, n)
      modifies moduli[i], msuModuli, nmsuModuli
      ensures forall k :: 0 <= k < i ==> RungStaged(k, n)
      ensures RungStaged(i, n)
    {
      assert RungStaged(i - 1, n);
      MpMove(moduli[i], moduli[i - 1]);
      RungFits(n, i, precision);
      var carry := MpRotateLeft(moduli[i], 0);
      NoCarry(V(moduli[i]), carry, Shifted(n, i), Radix(precision));
      msuModuli[i] := moduli[i][precision - 1];
      nmsuModuli[i] := moduli[i][precision - 2];
      forall k | 0 <= k < i
        ensures RungStaged(k, n)
      {
        assert old(RungStaged(k, n));
        assert moduli[k] != moduli[i];
      }
    }

    // The top two units of a number are what the quick comparison looks at.
    lemma TopUnits(r: array<unit>)
      requires 2 <= precision <= r.Length
      ensures UnitOf(V(r), precision - 1) == r[precision - 1]
      ensures UnitOf(V(r), precision - 2) == r[precision - 2]
    {
      UnitOfVal(r[..], precision - 1, precision);
      UnitOfVal(r[..], precision - 2, precision);
    }

    // The quick comparison of the product with rung i.
    method QuickCompare(prod: array<unit>, i: nat, ghost n: nat) returns (fits: bool)
      requires i < |moduli| && RungStaged(i, n) && precision <= prod.Length
      ensures fits <==> RungTest(V(prod), Shifted(n, i), precision)
    {
      hide UnitOf, Val;
      TopUnits(prod);
      TopUnits(moduli[i]);
      var pm := Signed16(prod[precision - 1] as int - msuModuli[i]);
      fits := pm > 0;
      if pm == 0 {
        if prod[precision - 2] > nmsuModuli[i] {
          fits := true;
        } else if prod[precision - 2] == nmsuModuli[i] {
          var c := MpCompare(prod, moduli[i]);
          fits := c >= 0;
        }
      }
    }

    // One rung: subtract the staged modulus if the quick comparison says it fits.
    method ReduceRung(prod: array<unit>, i: nat, ghost n: nat)
      requires i < |moduli| && RungStaged(i, n)
      requires precision <= prod.Length && prod != moduli[i]
      modifies prod
      ensures V(prod) == Rung(old(V(prod)), Shifted(n, i), precision)
    {
      ghost var v, m := V(prod), Shifted(n, i);
      var fits := QuickCompare(prod, i, n);
      if fits {
        var borrow := MpSubb(prod, moduli[i], 0);
        ValBound(prod[..], precision);
        DropCarry(V(prod), -(borrow as int), v as int - m, Radix(precision));
        TruncatedIsMod(v as int - m, precision);
      }
    }

    // The ladder from rung 16 down to rung 0.
    method ReduceLadder(prod: array<unit>, ghost n: nat)
      requires 2 <= precision && |moduli| == 17 && ModulusStaged(n)
      requires precision <= prod.Length && Apart(prod)
      modifies prod
      ensures V(prod) == Ladder(old(V(prod)), n, 16, precision)
    {
      hide Rung, Val;
      ghost var result := Ladder(V(prod), n, 16, precision);
      var i := 16;
      while i > 0
        invariant 0 <= i <= 16
        invariant ModulusStaged(n)
        invariant Ladder(V(prod), n, i, precision) == result
      {
        ReduceRung(prod, i, n);
        i := i - 1;
      }
      ReduceRung(prod, 0, n);
    }

    // Modular multiplication by Merritt's method, for the staged modulus n.
    method MerrittModmult(prod: array<unit>, multiplicand: array<unit>, multiplier: array<unit>, ghost n: nat)
      returns (status: int)
      requires Ready() && ModulusStaged(n)
      requires precision <= prod.Length && precision <= multiplicand.Length && precision <= multiplier.Length
      requires Foreign(prod) && Apart(prod) && Foreign(multiplicand) && Foreign(multiplier)
      requires prod != multiplicand && prod != multiplier
      modifies prod, this`mpd, mpdBuf
      ensures status == 0
      ensures V(prod) == MerrittProduct(V(multiplicand), V(multiplier), n, precision)
      ensures Ready() && ModulusStaged(n)
    {
      ghost var x := V(multiplicand);
      StageMpImages(multiplicand);
      MpInit(prod, 0);
      ModulusKept(n);
      var mprec := Significance(multiplier);
      MerrittUnits(prod, multiplier, mprec, x, n);
      ModulusKept(n);
      return 0;
    }

    // The units of the multiplier, highest first.
    method MerrittUnits(prod: array<unit>, multiplier: array<unit>, units: nat, ghost x: nat, ghost n: nat)
      requires 2 <= precision && |moduli| == 17 && ModulusStaged(n) && ImagesStaged(x)
      requires precision <= prod.Length && precision <= multiplier.Length
      requires Apart(prod) && prod !in mpd && prod != multiplier
      requires V(prod) == 0
      requires units <= precision && V(multiplier) < Radix(units)
      requires units > 0 ==> multiplier[units - 1] != 0
      modifies prod
      ensures V(prod) == MerrittProduct(x, V(multiplier), n, precision)
    {
      hide Ladder, MerrittProduct, Above;
      MerrittZero(x, n, precision);
      var mprec := units;
      ghost var s, y := multiplier[..], V(multiplier);
      AboveAll(y, mprec);
      while mprec > 0
        invariant 0 <= mprec <= units
        invariant ModulusStaged(n) && ImagesStaged(x)
        invariant multiplier[..] == s
        invariant Above(y, mprec) == 0 && mprec > 0 ==> s[mprec - 1] != 0
        invariant V(prod) == MerrittProduct(x, Above(y, mprec), n, precision)
      {
        mprec := mprec - 1;
        UnitStep(s, mprec, precision, x, n, precision);
        var u := multiplier[mprec];
        MerrittUnit(prod, u, x, n);
      }
    }

    // One unit of the multiplier: shift, add, reduce.
    method MerrittUnit(prod: array<unit>, u: unit, ghost x: nat, ghost n: nat)
      requires 2 <= precision && |moduli| == 17 && ModulusStaged(n) && ImagesStaged(x)
      requires precision <= prod.Length && Apart(prod) && prod !in mpd
      modifies prod
      ensures V(prod) == MerrittStep(old(V(prod)), x, u, n, precision)
      ensures ModulusStaged(n) && ImagesStaged(x)
    {
      hide Ladder, Truncated;
      ghost var v := V(prod);
      MpLshiftUnit(prod);
      ImagesKept(x);
      AddImages(prod, u, x);
      StepSum(V(prod), v, u, x, precision);
      ModulusKept(n);
      ReduceLadder(prod, n);
      ModulusKept(n);
      ImagesKept(x);
    }

    // acc := acc * other modulo the staged n, by way of a scratch product.
    method MultiplyInto(acc: array<unit>, other: array<unit>, product: array<unit>, ghost n: nat)
      requires Ready() && ModulusStaged(n)
      requires precision <= acc.Length && precision <= other.Length && precision <= product.Length
      requires Foreign(acc) && Apart(acc) && Foreign(other) && Foreign(product) && Apart(product)
      requires product != acc && product != other
      modifies acc, product, this`mpd, mpdBuf
      ensures V(acc) == MerrittProduct(old(V(acc)), old(V(other)), n, precision)
      ensures ModulusStaged(n)
      ensures acc[precision..] == old(acc[precision..])
    {
      var status := MerrittModmult(product, acc, other, n);
      label multiplied:
      MpMove(acc, product);
      ModulusKept@multiplied(n);
    }

    // One bit of the exponent: square, and multiply if the bit is set.
    method ExponentBit(expout: array<unit>, expin: array<unit>, product: array<unit>, b: bit,
                       ghost n: nat, ghost h: nat, ghost h': nat)
      requires Ready() && ModulusStaged(n)
      requires precision <= expout.Length && precision <= expin.Length && precision <= product.Length
      requires Foreign(expout) && Apart(expout) && Foreign(expin) && Foreign(product) && Apart(product)
      requires product != expout && product != expin && expout != expin
      requires h > 0 && h' == 2 * h + b
      requires V(expout) == SquareMultiply(V(expin), h, n, precision)
      modifies expout, product, this`mpd, mpdBuf
      ensures V(expout) == SquareMultiply(V(expin), h', n, precision)
      ensures ModulusStaged(n)
      ensures expout[precision..] == old(expout[precision..])
    {
      hide SquareMultiply, MerrittProduct;
      SquareMultiplyBit(V(expin), h, h', b, n, precision);
      MultiplyInto(expout, expout, product, n);
      if b == 1 {
        MultiplyInto(expout, expin, product, n);
      }
    }

    // Left-to-right square and multiply at the working precision.
    method Exponentiate(expout: array<unit>, expin: array<unit>, exponent: array<unit>, ghost n: nat)
      requires Ready() && ModulusStaged(n)
      requires precision <= expout.Length && precision <= expin.Length && precision <= exponent.Length
      requires Foreign(expout) && Apart(expout) && Foreign(expin) && Foreign(exponent)
      requires expout != expin && expout != exponent
      requires V(exponent) > 0
      modifies expout, this`mpd, mpdBuf
      ensures V(expout) == SquareMultiply(V(expin), V(exponent), n, precision)
      ensures expout[precision..] == old(expout[precision..])
    {
      hide SquareMultiply, Val, Prefix, BitLen, AtBit;
      FirstPower(V(expin), n, precision);
      var product := new unit[MAX_UNIT_PRECISION];
      var bits, j, mask := InitBitSniffer(exponent);
      ghost var x, e := V(expin), V(exponent);
      TopPrefix(e);
      bits := bits - 1;
      MpMove(expout, expin);
      ModulusKept(n);
      j, mask := NextBit(j, mask, bits);
      while bits > 0
        invariant 0 <= bits < BitLen(e) <= 16 * precision
        invariant bits > 0 ==> AtBit(bits, j, mask)
        invariant ModulusStaged(n)
        invariant V(exponent) == e && V(expin) == x
        invariant V(expout) == SquareMultiply(x, Prefix(e, bits), n, precision)
        invariant expout[precision..] == old(expout[precision..])
      {
        bits := bits - 1;
        var b := ReadBit(exponent, j, mask, bits);
        PrefixBit(e, bits);
        ExponentBit(expout, expin, product, b, n, Prefix(e, bits + 1), Prefix(e, bits));
        j, mask := NextBit(j, mask, bits);
      }
    }

    // r holds w units, and those above the caller's precision are zero.
    ghost predicate Holds(r: array<unit>, w: nat)
      reads this`precision, r
    {
      precision <= r.Length && w <= r.Length && forall k :: precision <= k < w ==> r[k] == 0
    }

    // A number that fits both precisions has the same value at both.
    lemma SameValue(r: array<unit>, w: nat)
      requires Holds(r, w) && V(r) < Radix(w)
      ensures Val(r[..], w) == V(r)
    {
      if w <= precision {
        ValSmall(r[..], w, precision);
      } else {
        ValHighZero(r[..], precision, w);
      }
    }

    // The number of significant bits.
    method CountBits(r: array<unit>) returns (bits: nat)
      requires 0 < precision <= r.Length
      ensures bits == BitLen(V(r))
    {
      var j, mask;
      bits, j, mask := InitBitSniffer(r);
    }

    // Exponentiation proper: raise or lower the precision, stage, multiply, restore.
    method ModexpAtWorkPrecision(expout: array<unit>, expin: array<unit>, exponent: array<unit>, modulus: array<unit>)
      requires Buffers() && 0 < precision
      requires Foreign(expout) && Foreign(expin) && Foreign(exponent) && Foreign(modulus)
      requires expout != expin && expout != exponent && expout != modulus
      requires precision <= modulus.Length && WorkPrecision(V(modulus)) <= MAX_UNIT_PRECISION
      requires Holds(expin, WorkPrecision(V(modulus))) && Holds(exponent, WorkPrecision(V(modulus)))
      requires Holds(modulus, WorkPrecision(V(modulus))) && WorkPrecision(V(modulus)) <= expout.Length
      requires V(expin) < V(modulus) && 0 < V(exponent) < V(modulus)
      modifies expout, this`precision, this`moduli, this`mpd, moduliBuf, mpdBuf, msuModuli, nmsuModuli
      ensures precision == old(precision)
      ensures Val(expout[..], WorkPrecision(V(modulus)))
              == SquareMultiply(V(expin), V(exponent), V(modulus), WorkPrecision(V(modulus)))
      ensures expout[WorkPrecision(V(modulus))..] == old(expout[WorkPrecision(V(modulus))..])
    {
      hide Val, SquareMultiply, WorkPrecision, BitLen;
      ghost var n, w := V(modulus), WorkPrecision(V(modulus));
      WorkHeadRoom(n);
      SameValue(expin, w);
      SameValue(exponent, w);
      SameValue(modulus, w);
      var bits := CountBits(modulus);
      var oldPrecision := precision;
      precision := (bits + (16 + 1) + 15) / 16;
      WorkPrecisionIs(n, bits);
      assert precision == w;
      var status := StageMerrittModulus(modulus);
      Exponentiate(expout, expin, exponent, n);
      precision := oldPrecision;
    }

    // The checks made before exponentiating.
    method ModexpChecks(expin: array<unit>, exponent: array<unit>, modulus: array<unit>) returns (status: int)
      requires 0 < precision <= expin.Length && precision <= exponent.Length && precision <= modulus.Length
      ensures status == ModexpStatus(V(expin), V(exponent), V(modulus), precision)
    {
      hide Val, Radix;
      var zero := IsZero(exponent);
      if zero {
        zero := IsZero(expin);
        return if zero then -1 else 0;
      }
      zero := IsZero(modulus);
      if zero {
        return -2;
      }
      TopUnit(modulus[..], precision);
      TopBitOf(V(modulus), modulus[precision - 1], Radix(precision - 1));
      if modulus[precision - 1] >= 32768 {
        return -2;
      }
      var c := MpCompare(expin, modulus);
      if c >= 0 {
        return -3;
      }
      c := MpCompare(exponent, modulus);
      if c >= 0 {
        return -4;
      }
      return 0;
    }

    // expout := expin to the power of exponent, modulo modulus.
    method MpModexp(expout: array<unit>, expin: array<unit>, exponent: array<unit>, modulus: array<unit>)
      returns (status: int)
      requires Buffers() && 0 < precision <= expout.Length
      requires Foreign(expout) && Foreign(expin) && Foreign(exponent) && Foreign(modulus)
      requires expout != expin && expout != exponent && expout != modulus
      requires precision <= expin.Length && precision <= exponent.Length && precision <= modulus.Length
      requires ModexpStatus(V(expin), V(exponent), V(modulus), precision) == 0 && V(exponent) > 0 ==>
        WorkPrecision(V(modulus)) <= MAX_UNIT_PRECISION && WorkPrecision(V(modulus)) <= expout.Length
        && Holds(expin, WorkPrecision(V(modulus))) && Holds(exponent, WorkPrecision(V(modulus)))
        && Holds(modulus, WorkPrecision(V(modulus)))
      modifies expout, this`precision, this`moduli, this`mpd, moduliBuf, mpdBuf, msuModuli, nmsuModuli
      ensures precision == old(precision)
      ensures status == ModexpStatus(V(expin), V(exponent), V(modulus), precision)
      ensures status < 0 || V(exponent) == 0 ==> V(expout) == 1
      ensures status == 0 && V(exponent) > 0 ==>
        Val(expout[..], Max(precision, WorkPrecision(V(modulus))))
        == SquareMultiply(V(expin), V(exponent), V(modulus), WorkPrecision(V(modulus)))
      ensures status == 0 && V(exponent) > 0 && NoWrap(V(modulus), WorkPrecision(V(modulus))) ==>
        V(expout) == Pow(V(expin), V(exponent)) % V(modulus)
    {
      hide Val, Radix, SquareMultiply, WorkPrecision, BitLen, NoWrap, Pow;
      MpInit(expout, 1);
      status := ModexpChecks(expin, exponent, modulus);
      var zero := IsZero(exponent);
      if status < 0 || zero {
        return;
      }
      ghost var x, e, n, w := V(expin), V(exponent), V(modulus), WorkPrecision(V(modulus));
      ModexpAtWorkPrecision(expout, expin, exponent, modulus);
      ghost var s := expout[..];
      WorkHeadRoom(n);
      forall k | w <= k < precision
        ensures s[k] == 0
      {
        assert s[k] == expout[w..][k - w];
      }
      ValBound(modulus[..], precision);
      ModexpResult(s, precision, w, x, e, n);
    }

    // One half of a decryption: c to the power d reduced modulo m - 1, modulo m.
    method DecryptHalf(result: array<unit>, C: array<unit>, d: array<unit>, m: array<unit>,
                       temp1: array<unit>, temp2: array<unit>)
      returns (status: int, unset: bool)
      requires Buffers() && 0 < precision <= MAX_UNIT_PRECISION
      requires Foreign(result) && Foreign(C) && Foreign(d) && Foreign(m) && Foreign(temp1) && Foreign(temp2)
      requires precision <= result.Length && precision <= C.Length && precision <= d.Length
      requires precision <= m.Length && precision <= temp1.Length && precision <= temp2.Length
      requires result != C && result != d && result != m && result != temp1 && result != temp2
      requires temp1 != C && temp1 != d && temp1 != m && temp2 != C && temp2 != d && temp2 != m && temp1 != temp2
      modifies result, temp1, temp2, this`precision, this`moduli, this`mpd, moduliBuf, mpdBuf, msuModuli, nmsuModuli
      ensures precision == old(precision)
      ensures unset <==> !HalfDefined(V(C), V(d), V(m), precision)
      ensures !unset ==> status == HalfStatus(V(C), V(d), V(m), precision)
      ensures !unset && status == 0 ==> V(result) == HalfValue(V(C), V(d), V(m), precision)
    {
      hide Val, Radix, WorkPrecision, NoWrap, Pow, SquareMultiply, ModexpStatus, BitLen;
      ghost var v := V(m);
      MpMove(temp1, m);
      var borrow := MpDec(temp1);
      ValBound(temp1[..], precision);
      ValBound(m[..], precision);
      DecrementIs(V(temp1), borrow, v, precision);
      status := MpMod(temp2, d, temp1);
      if status < 0 {
        return status, true;
      }
      status := MpMod(temp1, C, m);
      assert V(temp1) == HalfBase(V(C), v, precision) && V(temp2) == HalfExponent(V(d), v, precision);
      unset := ReadsUnset(temp1, temp2, m);
      if unset {
        return;
      }
      status := MpModexp(result, temp1, temp2, m);
    }

    // An exponentiation that is made at more units than the operands have.
    method ReadsUnset(expin: array<unit>, exponent: array<unit>, modulus: array<unit>) returns (unset: bool)
      requires 0 < precision <= expin.Length && precision <= exponent.Length && precision <= modulus.Length
      ensures unset <==> ModexpStatus(V(expin), V(exponent), V(modulus), precision) == 0 && V(exponent) > 0
                         && WorkPrecision(V(modulus)) > precision
    {
      hide Val, Radix, ModexpStatus, BitLen;
      var status := ModexpChecks(expin, exponent, modulus);
      var zero := IsZero(exponent);
      var bits := CountBits(modulus);
      unset := status == 0 && !zero && (bits + (16 + 1) + 15) / 16 > precision;
    }

    // q2 := q2 - p2, with q added where that borrows.
    method SubtractModulo(q2: array<unit>, p2: array<unit>, q: array<unit>)
      requires 0 < precision <= p2.Length && precision <= q2.Length && precision <= q.Length
      requires q2 != p2 && q2 != q
      modifies q2
      ensures V(q2) == (old(V(q2)) - V(p2) + if old(V(q2)) < V(p2) then V(q) else 0) % Radix(precision)
    {
      hide Val, Radix;
      ghost var a, b, limit := V(p2), V(q2), Radix(precision);
      ValBound(p2[..], precision);
      ValBound(q2[..], precision);
      var borrow := MpSubb(q2, p2, 0);
      ValBound(q2[..], precision);
      if borrow == 1 {
        var carry := MpAddc(q2, q, 0);
        ValBound(q2[..], precision);
        WrapBack(V(q2), carry, b + V(q) - a, limit);
      } else {
        WrapBack(V(q2), 1, b - a, limit);
      }
    }

    // Combines the halves p2 and q2.
    method Recombine(M: array<unit>, p2: array<unit>, q2: array<unit>, p: array<unit>, q: array<unit>, u: array<unit>,
                     temp1: array<unit>, temp2: array<unit>)
      requires 0 < precision <= M.Length && precision <= p2.Length && precision <= q2.Length && precision <= p.Length
      requires precision <= q.Length && precision <= u.Length && precision <= temp1.Length && precision <= temp2.Length
      requires q2 != p2 && q2 != p && q2 != q && q2 != u && M != p && M != q && M != u && M != p2
      requires temp1 != p2 && temp1 != q2 && temp1 != p && temp1 != q && temp1 != u && temp1 != temp2
      requires temp2 != p2 && temp2 != p && temp2 != q && temp2 != u && temp1 != M
      requires V(q) > 0 || V(p2) == V(q2)
      modifies M, q2, temp1, temp2
      ensures V(M) == RecombinedWithin(V(p2), old(V(q2)), V(p), V(q), V(u), Radix(precision))
    {
      hide Val, Radix;
      ghost var a, b, limit := V(p2), V(q2), Radix(precision);
      var c := MpCompare(p2, q2);
      if c == 0 {
        MpMove(M, p2);
        return;
      }
      SubtractModulo(q2, p2, q);
      var status := MpMult(temp1, q2, u);
      status := MpMod(temp2, temp1, q);
      status := MpMult(temp1, p, temp2);
      ghost var product := V(temp1);
      var carry := MpAddc(temp1, p2, 0);
      ValBound(temp1[..], precision);
      DivUnique(product + a, carry, V(temp1), limit);
      MpMove(M, temp1);
    }

    // Decryption by halves, the smaller modulus first.
    method DecryptOrdered(M: array<unit>, C: array<unit>, d: array<unit>, p: array<unit>, q: array<unit>,
                          u: array<unit>)
      returns (r: DecryptAnswer)
      requires Buffers() && 0 < precision <= MAX_UNIT_PRECISION
      requires Foreign(M) && Foreign(C) && Foreign(d) && Foreign(p) && Foreign(q) && Foreign(u)
      requires precision <= M.Length && precision <= C.Length && precision <= d.Length
      requires precision <= p.Length && precision <= q.Length && precision <= u.Length
      requires M != C && M != d && M != p && M != q && M != u && V(p) <= V(q)
      modifies M, this`precision, this`moduli, this`mpd, moduliBuf, mpdBuf, msuModuli, nmsuModuli
      ensures precision == old(precision)
      ensures r.Unset? <==> !DecryptDefined(V(C), V(d), V(p), V(q), precision)
      ensures r.Answered? ==> r.status == DecryptStatus(V(C), V(d), V(p), V(q), precision)
      ensures r.Answered? && r.status < 0 ==> V(M) == old(V(M))
      ensures r.Answered? && r.status == 0 ==> V(M) == DecryptValue(V(C), V(d), V(p), V(q), V(u), precision)
    {
      hide Val, Radix, HalfStatus, HalfValue, RecombinedWithin, HalfDefined, WorkPrecision;
      var p2 := new unit[MAX_UNIT_PRECISION];
      var q2 := new unit[MAX_UNIT_PRECISION];
      var temp1 := new unit[MAX_UNIT_PRECISION];
      var temp2 := new unit[MAX_UNIT_PRECISION];
      var status, unset := DecryptHalf(p2, C, d, p, temp1, temp2);
      if unset {
        return Unset;
      }
      DefinedRange(V(C), V(d), V(p), precision);
      if status < 0 {
        return Answered(status);
      }
      status, unset := DecryptHalf(q2, C, d, q, temp1, temp2);
      if unset {
        return Unset;
      }
      DefinedRange(V(C), V(d), V(q), precision);
      if status < 0 {
        return Answered(status);
      }
      Recombine(M, p2, q2, p, q, u, temp1, temp2);
      return Answered(0);
    }

    // Decryption by halves. It stops where a unit is read that nothing has set. With a key whose halves are in order,
    // M is the one number below p * q with the two residues, and only zero to the power zero is refused.
    method RsaDecrypt(M: array<unit>, C: array<unit>, d: array<unit>, p: array<unit>, q: array<unit>, u: array<unit>)
      returns (r: DecryptAnswer)
      requires Buffers() && 0 < precision <= MAX_UNIT_PRECISION
      requires Foreign(M) && Foreign(C) && Foreign(d) && Foreign(p) && Foreign(q) && Foreign(u)
      requires precision <= M.Length && precision <= C.Length && precision <= d.Length
      requires precision <= p.Length && precision <= q.Length && precision <= u.Length
      requires M != C && M != d && M != p && M != q && M != u
      modifies M, this`precision, this`moduli, this`mpd, moduliBuf, mpdBuf, msuModuli, nmsuModuli
      ensures precision == old(precision)
      ensures r.Unset? <==> !DecryptDefined(V(C), V(d), V(p), V(q), precision)
      ensures r.Answered? ==> r.status == DecryptStatus(V(C), V(d), V(p), V(q), precision)
      ensures r.Answered? && r.status < 0 ==> V(M) == 1
      ensures r.Answered? && r.status == 0 ==> V(M) == DecryptValue(V(C), V(d), V(p), V(q), V(u), precision)
      ensures KeyHalves(V(p), V(q), V(u), precision) ==>
        r == Answered(if ZeroToZero(V(C), V(d), V(p)) || ZeroToZero(V(C), V(d), V(q)) then -1 else 0)
      ensures KeyHalves(V(p), V(q), V(u), precision) && r == Answered(0) ==>
        IsRecombination(V(M), V(C), V(d), V(p), V(q))
    {
      hide Val, Radix, HalfStatus, HalfValue, RecombinedWithin, HalfDefined, IsRecombination, KeyHalves, KeyOrdered;
      KeyAboveOne(V(p), V(q), V(u), precision);
      MpInit(M, 1);
      var c := MpCompare(p, q);
      if c >= 0 {
        r := DecryptOrdered(M, C, d, q, p, u);
      } else {
        r := DecryptOrdered(M, C, d, p, q, u);
      }
      if KeyHalves(V(p), V(q), V(u), precision) {
        DecryptIsRecombination(V(C), V(d), V(p), V(q), V(u), precision);
      }
    }

    // Signed division: negative operands are negated for the unsigned division and put back.
    method MpDiv(remainder: array<unit>, quotient: array<unit>, dividend: array<unit>, divisor: array<unit>)
      returns (status: int)
      requires 0 < precision <= remainder.Length && precision <= quotient.Length
      requires precision <= dividend.Length && precision <= divisor.Length
      requires remainder != quotient && dividend != divisor
      requires dividend != remainder && dividend != quotient
      requires divisor != remainder && divisor != quotient
      modifies remainder, quotient, dividend, divisor
      ensures dividend[..] == old(dividend[..]) && divisor[..] == old(divisor[..])
      ensures status == if old(V(divisor)) == 0 then -1 else 0
      ensures status == 0 ==>
        SignedDivides(old(V(dividend)), old(V(divisor)), V(quotient), V(remainder), precision)
    {
      hide Val, Radix, Signed, Magnitude, SignedDivides;
      ghost var a, b := V(dividend), V(divisor);
      ghost var s, t := dividend[..], divisor[..];
      ValBound(t, precision);
      MagnitudeZero(b, precision);
      var dvdSign := NegateIfNegative(dividend);
      var dSign := NegateIfNegative(divisor);
      status := MpUdiv(remainder, quotient, dividend, divisor);
      NegateBack(dividend, dvdSign, s);
      NegateBack(divisor, dSign, t);
      if status < 0 {
        return;
      }
      ValBound(quotient[..], precision);
      ValBound(remainder[..], precision);
      SignedDivision(a, b, precision, V(quotient), V(remainder));
      if dvdSign {
        MpNeg(remainder);
      }
      if dvdSign != dSign {
        MpNeg(quotient);
      }
    }

    // Makes a negative number positive and says whether it did.
    method NegateIfNegative(r: array<unit>) returns (negative: bool)
      requires 0 < precision <= r.Length
      modifies r
      ensures negative <==> Signed(old(V(r)), precision) < 0
      ensures V(r) == Magnitude(old(V(r)), precision)
      ensures r[precision..] == old(r[precision..])
      ensures !negative ==> r[..] == old(r[..])
    {
      hide Val;
      TopUnit(r[..], precision);
      TopBitOf(V(r), r[precision - 1], Radix(precision - 1));
      ValBound(r[..], precision);
      negative := r[precision - 1] >= 32768;
      if negative {
        ghost var v := V(r);
        MpNeg(r);
        NegativeMagnitude(v, precision);
      }
    }

    method NegateBack(r: array<unit>, negative: bool, ghost s: seq<unit>)
      requires 0 < precision <= r.Length == |s|
      requires negative <==> Signed(Val(s, precision), precision) < 0
      requires V(r) == Magnitude(Val(s, precision), precision)
      requires r[precision..] == s[precision..]
      requires !negative ==> r[..] == s
      modifies r
      ensures r[..] == s
    {
      hide Val;
      if negative {
        ValBound(s, precision);
        NegativeMagnitude(Val(s, precision), precision);
        MpNeg(r);
        ValInjective(r[..], s, precision);
        assert r[..] == r[..precision] + r[precision..];
        assert s == s[..precision] + s[precision..];
      }
    }

    // Shifts two digits into a number that has room for them.
    method ShiftInTwo(r: array<unit>, b1: bit, b0: bit)
      requires 0 < precision <= r.Length
      requires 4 * V(r) + 3 < Radix(precision)
      modifies r
      ensures V(r) == 4 * old(V(r)) + 2 * b1 + b0
    {
      hide Val, Radix;
      ghost var v, limit := V(r), Radix(precision);
      var carry := MpRotateLeft(r, b1);
      NoCarry(V(r), carry, 2 * v + b1, limit);
      carry := MpRotateLeft(r, b0);
      NoCarry(V(r), carry, 4 * v + 2 * b1 + b0, limit);
    }

    // One digit of the root: try rjq with a one appended.
    method SqrtDigit(quotient: array<unit>, remainder: array<unit>, rjq: array<unit>, divisor: array<unit>,
                     b1: bit, b0: bit, qj: int, qMask: nat, ghost d: nat, ghost m: nat, ghost qBits: nat)
      requires 0 < precision <= quotient.Length && precision <= remainder.Length
      requires precision <= rjq.Length && precision <= divisor.Length
      requires quotient != remainder && quotient != rjq && quotient != divisor
      requires remainder != rjq && remainder != divisor && rjq != divisor
      requires 0 < m < qBits && qBits + 3 <= 16 * precision && AtBit(m, qj, qMask)
      requires b1 == BitOf(d, 2 * m - 1) && b0 == BitOf(d, 2 * m - 2)
      requires Rooted(d, V(rjq), V(remainder), 2 * m) && V(rjq) < Two(qBits - m)
      requires V(quotient) == V(rjq) * Two(m)
      modifies quotient, remainder, rjq, divisor
      ensures Rooted(d, V(rjq), V(remainder), 2 * (m - 1)) && V(rjq) < Two(qBits - (m - 1))
      ensures V(quotient) == V(rjq) * Two(m - 1)
      ensures quotient[precision..] == old(quotient[precision..])
    {
      hide Val, Radix, Rooted, BitOf, AtBit, Prefix, BitLen;
      ghost var r, rem := V(rjq), V(remainder);
      RootRoom(d, r, rem, qBits, m, precision);
      RootStep(d, r, rem, 2 * m);
      ShiftInTwo(remainder, b1, b0);
      MpMove(divisor, rjq);
      ShiftInTwo(divisor, 0, 1);
      var c := MpCompare(remainder, divisor);
      ShiftedQuotient(r, m - 1);
      var carry;
      if c >= 0 {
        var borrow := MpSubb(remainder, divisor, 0);
        ValBound(remainder[..], precision);
        SetBit(quotient, qj, qMask, m - 1);
        carry := MpRotateLeft(rjq, 1);
        NoCarry(V(rjq), carry, 2 * r + 1, Radix(precision));
      } else {
        carry := MpRotateLeft(rjq, 0);
        NoCarry(V(rjq), carry, 2 * r, Radix(precision));
      }
    }

    // The digits of the root after the first.
    method SqrtDigits(quotient: array<unit>, remainder: array<unit>, rjq: array<unit>, dividend: array<unit>,
                      p: nat, digits: nat, dj0: int, dMask0: nat, qj0: int, qMask0: nat, ghost qBits: nat)
      requires 0 < precision <= quotient.Length && precision <= remainder.Length && precision <= rjq.Length
      requires precision <= MAX_UNIT_PRECISION && p <= dividend.Length
      requires quotient != remainder && quotient != rjq && remainder != rjq
      requires dividend != quotient && dividend != remainder && dividend != rjq
      requires digits < qBits && qBits + 3 <= 16 * precision && 2 * digits <= 16 * p
      requires AtBit(2 * digits, dj0, dMask0) && AtBit(digits, qj0, qMask0)
      requires Rooted(Val(dividend[..], p), V(rjq), V(remainder), 2 * digits) && V(rjq) < Two(qBits - digits)
      requires V(quotient) == V(rjq) * Two(digits)
      modifies quotient, remainder, rjq
      ensures Rooted(Val(dividend[..], p), V(quotient), V(remainder), 0)
      ensures quotient[precision..] == old(quotient[precision..])
    {
      hide Val, Radix, Rooted, BitOf, AtBit;
      var divisor := new unit[MAX_UNIT_PRECISION];
      var m, dj, dMask, qj, qMask := digits, dj0, dMask0, qj0, qMask0;
      ghost var s := dividend[..];
      while m > 0
        invariant 0 <= m <= digits && dividend[..] == s
        invariant AtBit(2 * m, dj, dMask) && AtBit(m, qj, qMask)
        invariant Rooted(Val(s, p), V(rjq), V(remainder), 2 * m) && V(rjq) < Two(qBits - m)
        invariant V(quotient) == V(rjq) * Two(m)
        invariant quotient[precision..] == old(quotient[precision..])
      {
        var b1 := ReadDigit(dividend, p, dj, dMask, 2 * m - 1);
        dj, dMask := NextBit(dj, dMask, 2 * m - 1);
        var b0 := ReadDigit(dividend, p, dj, dMask, 2 * m - 2);
        dj, dMask := NextBit(dj, dMask, 2 * m - 2);
        SqrtDigit(quotient, remainder, rjq, divisor, b1, b0, qj, qMask, Val(s, p), m, qBits);
        qj, qMask := NextBit(qj, qMask, m - 1);
        m := m - 1;
      }
      OneTimes(V(rjq));
    }

    // The square root proper, at the reduced working precision.
    method SqrtAtWorkPrecision(quotient: array<unit>, dividend: array<unit>, p: nat,
                               dvdBits: nat, dj0: int, dMask0: nat, qBits: nat)
      returns (notPerfect: int)
      requires 0 < precision <= quotient.Length && precision <= MAX_UNIT_PRECISION
      requires p <= dividend.Length && quotient != dividend
      requires dvdBits == BitLen(Val(dividend[..], p)) && 2 <= dvdBits <= 16 * p && AtBit(dvdBits, dj0, dMask0)
      requires qBits == (dvdBits + 1) / 2 && qBits + 3 <= 16 * precision
      requires V(quotient) == 0
      modifies quotient
      ensures IsRoot(Val(dividend[..], p), V(quotient))
      ensures notPerfect == if V(quotient) * V(quotient) == Val(dividend[..], p) then 0 else 1
      ensures quotient[precision..] == old(quotient[precision..])
    {
      hide Val, Radix, Rooted, BitOf, BitLen, AtBit, Two, Prefix;
      ghost var d := Val(dividend[..], p);
      var remainder := new unit[MAX_UNIT_PRECISION];
      var rjq := new unit[MAX_UNIT_PRECISION];
      var qj, qMask := (qBits + 15) / 16 - 1, Two((qBits - 1) % 16);
      AtBitIs(qBits, qj, qMask);
      ZeroBits(qBits - 1);
      SetBit(quotient, qj, qMask, qBits - 1);
      qj, qMask := NextBit(qj, qMask, qBits - 1);
      MpInit(rjq, 1);
      var dj, dMask := NextBit(dj0, dMask0, dvdBits - 1);
      RootStart(d, dvdBits);
      var next2bits: nat := 1;
      if dvdBits % 2 == 0 {
        next2bits := 2;
        var b := ReadDigit(dividend, p, dj, dMask, dvdBits - 2);
        next2bits := next2bits + b;
        dj, dMask := NextBit(dj, dMask, dvdBits - 2);
      }
      MpInit(remainder, next2bits - 1);
      OneTimes(Two(qBits - 1));
      TwoOne();
      SqrtDigits(quotient, remainder, rjq, dividend, p, qBits - 1, dj, dMask, qj, qMask, qBits);
      RootEnd(d, V(quotient), V(remainder));
      var zero := IsZero(remainder);
      notPerfect := if zero then 0 else 1;
    }

    // The integer square root, two digits of the dividend and one of the root at a time.
    // 1 means the dividend is no perfect square, -1 that it is negative.
    method MpSqrt(quotient: array<unit>, dividend: array<unit>) returns (status: int)
      requires 0 < precision <= quotient.Length && precision <= dividend.Length
      requires precision <= MAX_UNIT_PRECISION && quotient != dividend
      modifies quotient, this`precision
      ensures precision == old(precision)
      ensures status == -1 <==> Signed(V(dividend), precision) < 0
      ensures status == -1 ==> V(quotient) == Radix(precision) - 1
      ensures status != -1 ==> IsRoot(V(dividend), V(quotient))
      ensures status != -1 ==> status == if V(quotient) * V(quotient) == V(dividend) then 0 else 1
    {
      hide Val, Radix, BitLen, AtBit, Signed;
      ghost var d := V(dividend);
      TopUnit(dividend[..], precision);
      TopBitOf(d, dividend[precision - 1], Radix(precision - 1));
      ValBound(dividend[..], precision);
      SignBit(d, precision);
      MpInit(quotient, 0);
      if dividend[precision - 1] >= 32768 {
        var borrow := MpDec(quotient);
        ValBound(quotient[..], precision);
        return -1;
      }
      var dvdBits, dj, dMask := InitBitSniffer(dividend);
      if dvdBits == 0 {
        return 0;
      }
      if dvdBits == 1 {
        OneBit(d);
        MpInit(quotient, 1);
        return 0;
      }
      var qBits := (dvdBits + 1) / 2;
      RootFits(d, precision);
      var oldPrecision := precision;
      precision := (qBits + 3 + 15) / 16;
      ValHighZero(quotient[..], 0, precision);
      ValZero();
      status := SqrtAtWorkPrecision(quotient, dividend, oldPrecision, dvdBits, dj, dMask, qBits);
      ghost var s := quotient[..];
      forall k | precision <= k < oldPrecision
        ensures s[k] == 0
      {
        assert s[k] == quotient[precision..][k - precision];
      }
      ValHighZero(s, precision, oldPrecision);
      precision := oldPrecision;
    }

    // Division by a single unit with a 16-bit running remainder.
    method MpShortdiv(quotient: array<unit>, dividend: array<unit>, divisor: unit) returns (remainder: unit)
      requires 0 < precision <= quotient.Length && precision <= dividend.Length && quotient != dividend
      modifies quotient
      ensures divisor == 0 ==> remainder == 65535 && quotient[..] == old(quotient[..])
      ensures divisor > 0 ==> remainder == ShortRemainder(V(dividend), divisor)
      ensures divisor > 0 ==> V(quotient) == ShortQuotient(V(dividend), divisor)
      ensures 0 < divisor <= 32768 ==> V(quotient) == V(dividend) / divisor && remainder == V(dividend) % divisor
      ensures quotient[precision..] == old(quotient[precision..])
    {
      hide Val, Radix, BitLen, AtBit, Prefix, Dividing, ShortRemainder, ShortQuotient;
      if divisor == 0 {
        return 65535;
      }
      remainder := 0;
      MpInit(quotient, 0);
      var bits, j, mask := InitBitSniffer(dividend);
      ghost var n := V(dividend);
      ghost var q: nat := 0;
      PrefixOfBitLen(n);
      ShortZero(divisor);
      while bits > 0
        invariant 0 <= bits <= 16 * precision
        invariant bits > 0 ==> AtBit(bits, j, mask)
        invariant V(dividend) == n
        invariant remainder == ShortRemainder(Prefix(n, bits), divisor) && q == ShortQuotient(Prefix(n, bits), divisor)
        invariant V(quotient) == q * Two(bits)
        invariant quotient[precision..] == old(quotient[precision..])
      {
        bits := bits - 1;
        var b := ReadBit(dividend, j, mask, bits);
        PrefixBit(n, bits);
        ShortStep(Prefix(n, bits), Prefix(n, bits + 1), b, divisor);
        remainder, q := ShortDigit(quotient, remainder, divisor, b, j, mask, bits, q);
        j, mask := NextBit(j, mask, bits);
      }
      OneTimes(q);
      WholePrefix(n);
      if divisor <= 32768 {
        ShortDivides(n, divisor);
      }
    }

    // One digit of the short division: the remainder in its register, and the quotient bit.
    method ShortDigit(quotient: array<unit>, remainder: unit, divisor: unit, b: bit, j: int, mask: nat,
                      ghost bits: nat, ghost q: nat)
      returns (next: unit, ghost nextQ: nat)
      requires precision <= quotient.Length && bits < 16 * precision && AtBit(bits + 1, j, mask) && divisor > 0
      requires V(quotient) == q * Two(bits + 1)
      modifies quotient
      ensures var r := (remainder as int * 2) % 65536 + b;
        next == (if r >= divisor then r - divisor else r) && nextQ == 2 * q + if r >= divisor then 1 else 0
      ensures V(quotient) == nextQ * Two(bits)
      ensures quotient[precision..] == old(quotient[precision..])
    {
      hide Val, Radix, AtBit;
      ShiftedQuotient(q, bits);
      var r := (remainder as int * 2) % 65536 + b;
      if r >= divisor {
        next := r - divisor;
        SetBit(quotient, j, mask, bits);
        nextQ := 2 * q + 1;
      } else {
        next := r;
        nextQ := 2 * q;
      }
    }
  }
}
