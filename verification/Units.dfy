// Numbers as little-endian sequences of 16-bit units, and single-bit access to a unit.
module Units {
  import opened Powers

  type unit = x: int | 0 <= x < 65536
  type bit = x: int | 0 <= x <= 1

  // The value of the k lowest units.
  function Val(s: seq<unit>, k: nat): (v: nat)
    requires k <= |s|
  {
    if k == 0 then 0 else Val(s, k - 1) + s[k - 1] * Radix(k - 1)
  }

  lemma ValZero()
    ensures forall s: seq<unit> :: Val(s, 0) == 0
  {
  }

  lemma ValStep(s: seq<unit>, k: nat)
    requires k < |s|
    ensures Val(s, k + 1) == Val(s, k) + s[k] * Radix(k)
  {
  }

  lemma ValOne(s: seq<unit>)
    requires |s| > 0
    ensures Val(s, 1) == s[0]
  {
    assert Val(s, 1) == Val(s, 0) + s[0] * Radix(0);
  }

  lemma {:induction false} ValFrame(s: seq<unit>, t: seq<unit>, k: nat)
    requires k <= |s| && k <= |t|
    requires forall i :: 0 <= i < k ==> s[i] == t[i]
    ensures Val(s, k) == Val(t, k)
  {
    if k > 0 {
      ValFrame(s, t, k - 1);
    }
  }

  lemma {:induction false} ValBound(s: seq<unit>, k: nat)
    requires k <= |s|
    ensures Val(s, k) < Radix(k)
  {
    if k > 0 {
      ValBound(s, k - 1);
      MulMono(s[k - 1], 65535, Radix(k - 1));
    }
  }

  lemma SplitStep(low: int, r: int, h: int, u: int, t: int)
    ensures low + r * h + u * (r * t) == low + r * (h + u * t)
  {
    MulAssoc(u, r, t);
    MulAssoc(r, u, t);
    MulDistrib(h, u * t, r);
  }

  // The units from position j up to k, as a number of its own.
  lemma {:induction false} ValSplit(s: seq<unit>, j: nat, k: nat)
    requires j <= k <= |s|
    ensures Val(s, k) == Val(s, j) + Radix(j) * Val(s[j..], k - j)
  {
    if j < k {
      ValSplit(s, j, k - 1);
      RadixAdd(j, k - 1 - j);
      SplitStep(Val(s, j), Radix(j), Val(s[j..], k - 1 - j), s[k - 1], Radix(k - 1 - j));
      assert s[j..][k - 1 - j] == s[k - 1];
    }
  }

  // A number with zero units from j on is its j lowest units.
  lemma {:induction false} ValHighZero(s: seq<unit>, j: nat, k: nat)
    requires j <= k <= |s|
    requires forall i :: j <= i < k ==> s[i] == 0
    ensures Val(s, k) == Val(s, j)
  {
    if j < k {
      ValHighZero(s, j, k - 1);
    }
  }

  // Units that agree above j contribute the same.
  lemma {:induction false} ValTail(s: seq<unit>, t: seq<unit>, j: nat, k: nat)
    requires j <= k <= |s| && k <= |t|
    requires forall i :: j <= i < k ==> s[i] == t[i]
    ensures Val(t, k) - Val(s, k) == Val(t, j) - Val(s, j)
  {
    if j < k {
      ValTail(s, t, j, k - 1);
    }
  }

  lemma {:induction false} ValMono(s: seq<unit>, j: nat, k: nat)
    requires j <= k <= |s|
    ensures Val(s, j) <= Val(s, k)
  {
    if j < k {
      MulMono(0, s[k - 1], Radix(k - 1));
      ValMono(s, j, k - 1);
    }
  }

  // A number below Radix(j) has only zero units from j on.
  lemma {:induction false} ValSmall(s: seq<unit>, j: nat, k: nat)
    requires j <= k <= |s|
    requires Val(s, k) < Radix(j)
    ensures forall i :: j <= i < k ==> s[i] == 0
    ensures Val(s, k) == Val(s, j)
  {
    if j < k {
      RadixMono(j, k - 1);
      if s[k - 1] > 0 {
        MulMono(1, s[k - 1], Radix(k - 1));
      }
      ValSmall(s, j, k - 1);
    }
  }

  // Equal values have equal units.
  lemma {:induction false} ValInjective(s: seq<unit>, t: seq<unit>, k: nat)
    requires k <= |s| && k <= |t|
    requires Val(s, k) == Val(t, k)
    ensures forall i :: 0 <= i < k ==> s[i] == t[i]
  {
    if k > 0 {
      ValBound(s, k - 1);
      ValBound(t, k - 1);
      DivUnique(Val(s, k), s[k - 1], Val(s, k - 1), Radix(k - 1));
      DivUnique(Val(t, k), t[k - 1], Val(t, k - 1), Radix(k - 1));
      ValInjective(s, t, k - 1);
    }
  }

  // The unit at position j of a value.
  function UnitOf(v: nat, j: nat): (u: nat)
    ensures u < 65536
    decreases j
  {
    if j == 0 then v % 65536 else UnitOf(v / 65536, j - 1)
  }

  // What p units hold of a number.
  function Truncated(v: int, p: nat): (r: nat)
    decreases p
  {
    if p == 0 then 0 else v % 65536 + 65536 * Truncated(v / 65536, p - 1)
  }

  lemma {:induction false} UnitOfIsDiv(v: nat, j: nat)
    ensures UnitOf(v, j) == (v / Radix(j)) % 65536
  {
    if j > 0 {
      UnitOfIsDiv(v / 65536, j - 1);
      DivDiv(v, 65536, Radix(j - 1));
    }
  }

  lemma {:induction false} TruncatedIsMod(v: int, p: nat)
    ensures Truncated(v, p) == v % Radix(p)
    decreases p
  {
    if p == 0 {
      DivUnique(v, v, 0, 1);
    } else {
      TruncatedIsMod(v / 65536, p - 1);
      var r := Radix(p - 1);
      DivMod(v / 65536, r);
      var q, t := (v / 65536) / r, (v / 65536) % r;
      assert v == 65536 * (q * r + t) + v % 65536;
      MulAssoc(q, 65536, r);
      MulAssoc(65536, q, r);
      DivUnique(v, q, v % 65536 + 65536 * t, Radix(p));
    }
  }

  lemma UnitOfVal(s: seq<unit>, j: nat, k: nat)
    requires j < k <= |s|
    ensures UnitOf(Val(s, k), j) == s[j]
    ensures (Val(s, k) / Radix(j)) % 65536 == s[j]
  {
    var h := Val(s[j..], k - j);
    ValSplit(s, j, k);
    ValBound(s, j);
    DivUniqueLow(Val(s, k), h, Val(s, j), Radix(j));
    LowestUnit(s[j..], k - j);
    UnitOfIsDiv(Val(s, k), j);
  }

  lemma LowestUnit(s: seq<unit>, k: nat)
    requires 0 < k <= |s|
    ensures Val(s, k) % 65536 == s[0]
  {
    ValSplit(s, 1, k);
    ValOne(s);
    assert Radix(1) == 65536 * Radix(0) == 65536;
    DivUnique(Val(s, k), Val(s[1..], k - 1), s[0], 65536);
  }

  // The top unit is the whole of what lies above the others.
  lemma TopUnit(s: seq<unit>, k: nat)
    requires 0 < k <= |s|
    ensures Val(s, k) / Radix(k - 1) == s[k - 1]
    ensures s[k - 1] * Radix(k - 1) <= Val(s, k) < (s[k - 1] + 1) * Radix(k - 1)
  {
    ValBound(s, k - 1);
    MulDistrib(s[k - 1], 1, Radix(k - 1));
    DivUnique(Val(s, k), s[k - 1], Val(s, k - 1), Radix(k - 1));
  }

  // `u & mask` and `u | mask`, for a single-bit mask.
  predicate TestBit(u: unit, mask: int)
    requires mask > 0
  {
    (u / mask) % 2 == 1
  }

  function OrBit(u: unit, mask: int): int
    requires mask > 0
  {
    if TestBit(u, mask) then u else u + mask
  }

  function BitOf(v: nat, b: nat): bit {
    Prefix(v, b) % 2
  }

  lemma PrefixBit(v: nat, b: nat)
    ensures Prefix(v, b) == 2 * Prefix(v, b + 1) + BitOf(v, b)
  {
  }

  lemma EvenQuotient(u: int, m: int, q: int, r: int, h: int)
    requires u == q * m + r && 0 <= r < m && u < m * (2 * h)
    requires q % 2 == 0
    ensures u + m < m * (2 * h)
  {
    if 2 * h <= q {
      MulMono(2 * h, q, m);
    }
    MulMono(q + 2, 2 * h, m);
    MulDistrib(q, 2, m);
  }

  lemma UnitWidth(k: nat)
    requires k <= 15
    ensures Two(k) * (2 * Two(15 - k)) == 65536
  {
    TwoAdd(k, 16 - k);
    Two16();
  }

  lemma OrBitInRange(u: unit, m: int, h: int)
    requires m > 0 && m * (2 * h) == 65536
    ensures 0 <= OrBit(u, m) < 65536
  {
    if !TestBit(u, m) {
      DivMod(u, m);
      EvenQuotient(u, m, u / m, u % m, h);
    }
  }

  // Below bit 16, a number and its lowest unit have the same bits.
  lemma LowUnitBit(w: nat, u: nat, h: nat, m: nat, c: nat)
    requires m > 0 && m * (2 * c) == 65536
    requires w == 65536 * h + u
    ensures (w / m) % 2 == (u / m) % 2
  {
    var q, r := u / m, u % m;
    DivMod(u, m);
    assert 65536 * h == (2 * (c * h)) * m by {
      MulAssoc(m, 2 * c, h);
      MulAssoc(2, c, h);
    }
    MulDistrib(2 * (c * h), q, m);
    DivUnique(w, 2 * (c * h) + q, r, m);
  }

  // Testing a bit of a unit is testing that bit of the whole number.
  lemma TestBitOfVal(s: seq<unit>, p: nat, b: nat)
    requires p <= |s| && b < 16 * p
    ensures TestBit(s[b / 16], Two(b % 16)) <==> BitOf(Val(s, p), b) == 1
  {
    var j, k := b / 16, b % 16;
    RadixIsTwo(j);
    TwoAdd(16 * j, k);
    var v := Val(s, p);
    PrefixIsDiv(v, b);
    DivDiv(v, Radix(j), Two(k));
    UnitOfVal(s, j, p);
    var w := v / Radix(j);
    DivMod(v, Radix(j));
    UnitWidth(k);
    LowUnitBit(w, s[j], w / 65536, Two(k), Two(15 - k));
  }

  // Setting a clear bit of a unit adds that bit's weight to the whole number.
  lemma OrBitVal(s: seq<unit>, t: seq<unit>, p: nat, b: nat)
    requires p <= |s| && |t| == |s| && b < 16 * p
    requires BitOf(Val(s, p), b) == 0
    requires t[b / 16] == OrBit(s[b / 16], Two(b % 16))
    requires forall i :: 0 <= i < |s| && i != b / 16 ==> t[i] == s[i]
    ensures Val(t, p) == Val(s, p) + Two(b)
  {
    TestBitOfVal(s, p, b);
    ValUpdate(s, t, b / 16, p);
    BitWeight(b);
  }

  // Bit b is bit b % 16 of unit b / 16.
  lemma BitWeight(b: nat)
    ensures Two(b % 16) * Radix(b / 16) == Two(b)
  {
    RadixIsTwo(b / 16);
    TwoAdd(b % 16, 16 * (b / 16));
  }

  lemma {:induction false} ValUpdate(s: seq<unit>, t: seq<unit>, j: nat, k: nat)
    requires j < k <= |s| && |t| == |s|
    requires forall i :: 0 <= i < k && i != j ==> t[i] == s[i]
    ensures Val(t, k) == Val(s, k) + (t[j] - s[j]) * Radix(j)
  {
    if j == k - 1 {
      ValFrame(s, t, j);
      MulDistrib(t[j], s[j], Radix(j));
    } else {
      ValUpdate(s, t, j, k - 1);
    }
  }

  // Walking the bits of a number downwards with a unit position and a single-bit mask:
  // with `bits` bits left to read, the next one is bit `bits - 1`.
  ghost predicate AtBit(bits: nat, j: int, mask: int) {
    j == (bits - 1) / 16 && mask == Two((bits - 1) % 16)
  }

  function Bump(j: int, mask: nat): (int, nat) {
    if mask / 2 == 0 then (j - 1, 32768) else (j, mask / 2)
  }

  lemma BumpIsNext(bits: nat, j: int, mask: nat)
    requires bits > 0 && AtBit(bits, j, mask)
    ensures AtBit(bits - 1, Bump(j, mask).0, Bump(j, mask).1)
  {
    Two16();
    var k := (bits - 1) % 16;
    assert k > 0 ==> Two(k) / 2 == Two(k - 1);
  }

  // Moves a sniffer to the next lower bit.
  method NextBit(j: int, mask: nat, ghost b: nat) returns (j': int, mask': nat)
    requires AtBit(b + 1, j, mask)
    ensures AtBit(b, j', mask')
  {
    BumpIsNext(b + 1, j, mask);
    j', mask' := j, mask / 2;
    if mask' == 0 {
      j', mask' := j - 1, 32768;
    }
  }
}
