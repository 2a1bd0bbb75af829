// Recombining residues modulo two coprime numbers.
module Crt {
  import opened Powers

  // u is the inverse of p modulo q.
  ghost predicate Inverse(u: nat, p: nat, q: nat) {
    1 < q && u < q && (u * p) % q == 1
  }

  // The number with residue a modulo p and b modulo q, by way of the inverse u of p modulo q.
  function Recombined(a: nat, b: nat, p: nat, q: nat, u: nat): nat
    requires a < p && b < q && p < q
  {
    if a == b then a else p * (((if b < a then b - a + q else b - a) * u) % q) + a
  }

  // diff times u times p is diff again, modulo q.
  lemma InverseCancels(diff: nat, u: nat, p: nat, q: nat)
    requires Inverse(u, p, q)
    ensures (p * ((diff * u) % q)) % q == diff % q
  {
    calc {
      (p * ((diff * u) % q)) % q;
      { ModMulLeft(diff * u, p, q); }
      ((diff * u) * p) % q;
      { MulAssoc(diff, u, p); }
      ((u * p) * diff) % q;
      { ModMulLeft(u * p, diff, q); }
      (1 * diff) % q;
    }
  }

  lemma RecombinedBelow(a: nat, b: nat, p: nat, q: nat, u: nat)
    requires a < p && b < q && p < q
    ensures Recombined(a, b, p, q, u) < p * q
  {
    MulMono(1, q, p);
    if a != b {
      var t := ((if b < a then b - a + q else b - a) * u) % q;
      MulMono(t, q - 1, p);
      MulDistrib(q, 1, p);
    }
  }

  lemma RecombinedResidues(a: nat, b: nat, p: nat, q: nat, u: nat)
    requires a < p && b < q && p < q && Inverse(u, p, q)
    ensures Recombined(a, b, p, q, u) % p == a
    ensures Recombined(a, b, p, q, u) % q == b
  {
    if a == b {
      DivUnique(a, 0, a, p);
      DivUnique(a, 0, a, q);
    } else {
      var diff := if b < a then b - a + q else b - a;
      var t := (diff * u) % q;
      DivUnique(p * t + a, t, a, p);
      InverseCancels(diff, u, p, q);
      ModAddLeft(p * t, a, q);
      DivUnique(diff, 0, diff, q);
      ResidueOfSum(a, b, diff, q);
    }
  }

  lemma ResidueOfSum(a: nat, b: nat, diff: nat, q: nat)
    requires b < q && (diff + a == b || diff + a == b + q)
    ensures (diff + a) % q == b
  {
    if diff + a == b {
      DivUnique(b, 0, b, q);
    } else {
      DivUnique(b + q, 1, b, q);
    }
  }

  // A number divisible by p and by q, with p invertible modulo q, is divisible by p * q.
  lemma DivisibleByBoth(x: nat, p: nat, q: nat, u: nat)
    requires 0 < p && Inverse(u, p, q)
    requires x % p == 0 && x % q == 0
    ensures 0 < p * q && x % (p * q) == 0
  {
    var k := x / p;
    DivMod(x, p);
    assert x == k * p;
    // k = (u * p) * k = u * x = 0 modulo q
    assert k % q == 0 by {
      ModMulLeft(u * p, k, q);
      assert (u * p) * k == u * (k * p) by {
        MulAssoc(u, p, k);
      }
      ModMulLeft(x, u, q);
      assert x * u == u * (k * p);
      assert (1 * k) % q == (0 * u) % q;
      DivUnique(0, 0, 0, q);
    }
    var j := k / q;
    DivMod(k, q);
    MulMono(1, q, p);
    MulAssoc(j, q, p);
    DivUnique(x, j, 0, p * q);
  }

  lemma NoLargerTwin(x: nat, y: nat, p: nat, q: nat, u: nat)
    requires 0 < p && Inverse(u, p, q)
    requires y <= x < p * q
    requires x % p == y % p && x % q == y % q
    ensures x == y
  {
    SameResidue(x, y, p);
    SameResidue(x, y, q);
    var m := p * q;
    DivisibleByBoth(x - y, p, q, u);
    DivUnique(x - y, 0, x - y, m);
  }

  // Residues modulo p and q determine a number below p * q.
  lemma RecombinationUnique(x: nat, y: nat, p: nat, q: nat, u: nat)
    requires 0 < p && Inverse(u, p, q)
    requires x < p * q && y < p * q
    requires x % p == y % p && x % q == y % q
    ensures x == y
  {
    if x < y {
      NoLargerTwin(y, x, p, q, u);
    } else {
      NoLargerTwin(x, y, p, q, u);
    }
  }

  lemma SameResidue(x: nat, y: nat, d: nat)
    requires 0 < d && y <= x && x % d == y % d
    ensures (x - y) % d == 0
  {
    DivMod(x, d);
    DivMod(y, d);
    MulDistrib(x / d, y / d, d);
    DivUnique(x - y, x / d - y / d, 0, d);
  }
}
