// Powers of two, powers in general, and the few division facts the multi-precision
// routines rest on.  Everything nonlinear is proved here once, in small steps.
module Powers {

  function Two(k: nat): (r: nat)
    ensures r > 0
  {
    if k == 0 then 1 else 2 * Two(k - 1)
  }

  // The weight of unit k in a number made of 16-bit units.
  function Radix(k: nat): (r: nat)
    ensures r > 0
  {
    if k == 0 then 1 else 65536 * Radix(k - 1)
  }

  function Pow(b: nat, e: nat): nat {
    if e == 0 then 1 else b * Pow(b, e - 1)
  }

  // The number of binary digits of n; no digits for zero.
  function BitLen(n: nat): nat {
    if n == 0 then 0 else 1 + BitLen(n / 2)
  }

  lemma RadixStep(k: nat)
    ensures Radix(0) == 1 && Radix(k + 1) == 65536 * Radix(k)
  {
  }

  lemma {:induction false} TwoAdd(a: nat, b: nat)
    ensures Two(a + b) == Two(a) * Two(b)
  {
    if a > 0 {
      TwoAdd(a - 1, b);
      assert Two(a + b) == 2 * (Two(a - 1) * Two(b));
      MulAssoc(2, Two(a - 1), Two(b));
    }
  }

  lemma {:induction false} TwoMono(a: nat, b: nat)
    requires a <= b
    ensures Two(a) <= Two(b)
  {
    if a < b {
      TwoMono(a, b - 1);
    }
  }

  lemma {:induction false} RadixAdd(a: nat, b: nat)
    ensures Radix(a + b) == Radix(a) * Radix(b)
  {
    if a > 0 {
      RadixAdd(a - 1, b);
      assert Radix(a + b) == 65536 * (Radix(a - 1) * Radix(b));
      MulAssoc(65536, Radix(a - 1), Radix(b));
    }
  }

  lemma {:induction false} RadixMono(a: nat, b: nat)
    requires a <= b
    ensures Radix(a) <= Radix(b)
  {
    if a < b {
      RadixMono(a, b - 1);
    }
  }

  lemma Two16()
    ensures Two(4) == 16 && Two(8) == 256 && Two(15) == 32768 && Two(16) == 65536 && Two(17) == 131072
  {
    assert Two(4) == 2 * Two(3) == 4 * Two(2) == 8 * Two(1) == 16;
    TwoAdd(4, 4);
    TwoAdd(8, 8);
  }

  lemma {:induction false} RadixIsTwo(k: nat)
    ensures Radix(k) == Two(16 * k)
  {
    if k > 0 {
      RadixIsTwo(k - 1);
      TwoAdd(16, 16 * (k - 1));
      Two16();
    }
  }

  lemma MulAssoc(a: int, b: int, c: int)
    ensures a * (b * c) == (a * b) * c
  {
  }

  lemma MulDistrib(a: int, b: int, c: int)
    ensures (a + b) * c == a * c + b * c
    ensures (a - b) * c == a * c - b * c
  {
  }

  lemma MulMono(a: int, b: int, c: int)
    requires a <= b && 0 <= c
    ensures a * c <= b * c
    ensures c * a <= c * b
  {
  }

  lemma DivMod(a: int, d: int)
    requires d > 0
    ensures a == (a / d) * d + a % d && 0 <= a % d < d
    ensures 0 <= a ==> 0 <= a / d <= a
  {
  }

  // Quotient and remainder are determined by the division equation.
  lemma DivUnique(a: int, q: int, r: int, d: int)
    requires 0 <= r < d
    requires a == q * d + r
    ensures a / d == q && a % d == r
  {
    var q', r' := a / d, a % d;
    assert a == d * q' + r';
    if q' < q {
      MulMono(q' + 1, q, d);
    } else if q < q' {
      MulMono(q + 1, q', d);
    }
  }

  lemma DivUniqueLow(a: int, q: int, r: int, d: int)
    requires 0 <= r < d
    requires a == r + d * q
    ensures a / d == q && a % d == r
  {
    DivUnique(a, q, r, d);
  }

  // Adding a multiple of the modulus changes nothing.
  lemma ModAdd(a: int, k: int, d: int)
    requires d > 0
    ensures (a + k * d) % d == a % d
  {
    assert a == d * (a / d) + a % d;
    MulDistrib(a / d, k, d);
    DivUnique(a + k * d, a / d + k, a % d, d);
  }

  lemma ModEq(a: int, b: int, k: int, d: int)
    requires d > 0 && a == b + k * d
    ensures a % d == b % d
  {
    ModAdd(b, k, d);
  }

  lemma ModMulLeft(a: int, b: int, d: int)
    requires d > 0
    ensures ((a % d) * b) % d == (a * b) % d
  {
    var q := a / d;
    assert a == d * q + a % d;
    calc {
      a * b;
      (d * q + a % d) * b;
      { MulDistrib(d * q, a % d, b); }
      (d * q) * b + (a % d) * b;
      { MulAssoc(d, q, b); }
      (a % d) * b + (q * b) * d;
    }
    ModEq(a * b, (a % d) * b, q * b, d);
  }

  lemma ModMul(a: int, b: int, d: int)
    requires d > 0
    ensures ((a % d) * (b % d)) % d == (a * b) % d
  {
    ModMulLeft(a, b % d, d);
    ModMulLeft(b, a, d);
  }

  lemma ModAddLeft(a: int, b: int, d: int)
    requires d > 0
    ensures (a % d + b) % d == (a + b) % d
  {
    DivMod(a, d);
    ModEq(a + b, a % d + b, a / d, d);
  }

  lemma ModAddBoth(a: int, b: int, d: int)
    requires d > 0
    ensures ((a % d) + (b % d)) % d == (a + b) % d
  {
    assert a == d * (a / d) + a % d;
    assert b == d * (b / d) + b % d;
    MulDistrib(a / d, b / d, d);
    ModEq(a + b, (a % d) + (b % d), a / d + b / d, d);
  }

  // Dividing by a product is dividing twice.
  lemma DivDiv(a: nat, x: nat, y: nat)
    requires x > 0 && y > 0
    ensures x * y > 0 && a / (x * y) == (a / x) / y
  {
    var q1, r1 := a / x, a % x;
    var q2, r2 := q1 / y, q1 % y;
    assert x * y > 0 by { MulMono(1, y, x); }
    calc {
      a;
      x * q1 + r1;
      x * (y * q2 + r2) + r1;
      { MulDistrib(y * q2, r2, x); MulAssoc(x, y, q2); }
      q2 * (x * y) + (x * r2 + r1);
    }
    assert 0 <= x * r2 + r1 < x * y by { MulMono(r2, y - 1, x); }
    DivUnique(a, q2, x * r2 + r1, x * y);
  }

  lemma {:induction false} BitLenBounds(n: nat)
    ensures n < Two(BitLen(n))
    ensures n > 0 ==> BitLen(n) > 0 && Two(BitLen(n) - 1) <= n
  {
    if n > 0 {
      BitLenBounds(n / 2);
    }
  }

  lemma BitLenUnique(n: nat, b: nat)
    requires b > 0 ==> Two(b - 1) <= n
    requires n < Two(b)
    ensures b == BitLen(n)
  {
    BitLenBounds(n);
    if b < BitLen(n) {
      TwoMono(b, BitLen(n) - 1);
    } else if BitLen(n) < b {
      TwoMono(BitLen(n), b - 1);
    }
  }

  // What is left of v when its b lowest binary digits are dropped.
  function Prefix(v: nat, b: nat): nat {
    if b == 0 then v else Prefix(v, b - 1) / 2
  }

  lemma {:induction false} PrefixIsDiv(v: nat, b: nat)
    ensures Prefix(v, b) == v / Two(b)
  {
    if b > 0 {
      PrefixIsDiv(v, b - 1);
      DivDiv(v, Two(b - 1), 2);
      assert Two(b - 1) * 2 == Two(b);
    }
  }

  lemma {:induction false} PrefixBelow(v: nat, b: nat)
    ensures Prefix(v, b) <= v
  {
    if b > 0 {
      PrefixBelow(v, b - 1);
    }
  }

  lemma {:induction false} PrefixOfBitLen(v: nat)
    ensures Prefix(v, BitLen(v)) == 0 && Prefix(v, 0) == v
  {
    BitLenBounds(v);
    PrefixIsDiv(v, BitLen(v));
    DivUnique(v, 0, v, Two(BitLen(v)));
  }

  lemma {:induction false} PowAdd(b: nat, x: nat, y: nat)
    ensures Pow(b, x + y) == Pow(b, x) * Pow(b, y)
  {
    if x > 0 {
      PowAdd(b, x - 1, y);
      MulAssoc(b, Pow(b, x - 1), Pow(b, y));
    }
  }
}
