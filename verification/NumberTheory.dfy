/** Arithmetic modulo a prime: congruences, Euclid's lemma, powers and Fermat's little theorem. */
module NumberTheory {

  /** a is a multiple of p. Congruence of a and b modulo p is written Zero(p, a - b). */
  predicate Zero(p: int, a: int)
    requires p > 0
  {
    a % p == 0
  }

  ghost predicate Prime(p: int) {
    p > 1 && forall k :: 1 < k < p ==> p % k != 0
  }

  lemma MultipleSize(p: int, k: int)
    requires p > 0
    ensures k >= 1 ==> k * p >= p
    ensures k <= -1 ==> k * p <= -p
  {
    if k >= 1 { assert k * p == p + (k - 1) * p; }
    if k <= -1 { assert k * p == -p + (k + 1) * p; }
  }

  lemma ZeroMultiple(p: int, k: int)
    requires p > 0
    ensures Zero(p, k * p)
  {
    var a := k * p;
    var q, r := a / p, a % p;
    assert a == p * q + r;
    assert (k - q) * p == r;
    MultipleSize(p, k - q);
  }

  lemma ZeroQuotient(p: int, a: int) returns (k: int)
    requires p > 0 && Zero(p, a)
    ensures a == k * p
  {
    k := a / p;
  }

  lemma ZeroAdd(p: int, a: int, b: int)
    requires p > 0 && Zero(p, a) && Zero(p, b)
    ensures Zero(p, a + b) && Zero(p, a - b)
  {
    var j := ZeroQuotient(p, a);
    var k := ZeroQuotient(p, b);
    assert a + b == (j + k) * p && a - b == (j - k) * p;
    ZeroMultiple(p, j + k);
    ZeroMultiple(p, j - k);
  }

  lemma ZeroMul(p: int, c: int, a: int)
    requires p > 0 && Zero(p, a)
    ensures Zero(p, c * a)
  {
    var k := ZeroQuotient(p, a);
    assert c * a == (c * k) * p;
    ZeroMultiple(p, c * k);
  }

  /** A linear combination of multiples of p is a multiple of p. */
  lemma ZeroCombine(p: int, c1: int, a1: int, c2: int, a2: int)
    requires p > 0 && Zero(p, a1) && Zero(p, a2)
    ensures Zero(p, c1 * a1 + c2 * a2)
  {
    ZeroMul(p, c1, a1);
    ZeroMul(p, c2, a2);
    ZeroAdd(p, c1 * a1, c2 * a2);
  }

  lemma ModCongruent(p: int, a: int)
    requires p > 0
    ensures Zero(p, a - a % p)
    ensures Zero(p, a % p - a)
  {
    assert a - a % p == (a / p) * p;
    assert a % p - a == (-(a / p)) * p;
    ZeroMultiple(p, a / p);
    ZeroMultiple(p, -(a / p));
  }

  lemma ZeroSmall(p: int, a: int)
    requires p > 0 && Zero(p, a) && -p < a < p
    ensures a == 0
  {
    var k := ZeroQuotient(p, a);
    MultipleSize(p, k);
  }

  /** Congruent numbers have the same residue. */
  lemma SameResidue(p: int, a: int, b: int)
    requires p > 0
    ensures Zero(p, a - b) <==> a % p == b % p
  {
    ModCongruent(p, a);
    ModCongruent(p, b);
    if Zero(p, a - b) {
      ZeroAdd(p, a % p - a, a - b);
      ZeroAdd(p, a % p - b, b - b % p);
      ZeroSmall(p, a % p - b % p);
    }
    if a % p == b % p {
      ZeroAdd(p, a - a % p, b - b % p);
    }
  }

  /** Bezout: a number not divisible by a prime has an inverse. */
  lemma Coprime(p: int, a: int) returns (u: int)
    requires Prime(p) && 0 < a < p
    ensures Zero(p, u * a - 1)
    decreases a
  {
    if a == 1 {
      u := 1;
      ZeroMultiple(p, 0);
      assert u * a - 1 == 0 * p;
    } else {
      // p = q a + r with 0 < r < a, so r is a multiple of a modulo p.
      var q, r := p / a, p % a;
      assert r != 0;
      var v := Coprime(p, r);
      u := -(v * q);
      assert v * r == v * (p - q * a) by { assert r == p - q * a; }
      assert u * a - 1 == (v * r - 1) + (-v) * p;
      ZeroMultiple(p, -v);
      ZeroAdd(p, v * r - 1, (-v) * p);
    }
  }

  /** Euclid's lemma. */
  lemma Euclid(p: int, a: int, b: int)
    requires Prime(p) && Zero(p, a * b)
    ensures Zero(p, a) || Zero(p, b)
  {
    if !Zero(p, a) {
      var r := a % p;
      var u := Coprime(p, r);
      ModCongruent(p, a);
      // b = u r b - (u r - 1) b, and r b is congruent to a b.
      ZeroMul(p, b, r - a);
      assert b * (r - a) == b * r - a * b;
      ZeroAdd(p, b * (r - a), a * b);
      assert Zero(p, b * r);
      ZeroCombine(p, u, b * r, -b, u * r - 1);
      assert u * (b * r) + (-b) * (u * r - 1) == b;
    }
  }

  /** Cancelling a factor that is not divisible by p. */
  lemma Cancel(p: int, c: int, a: int)
    requires Prime(p) && !Zero(p, c) && Zero(p, c * a)
    ensures Zero(p, a)
  {
    Euclid(p, c, a);
  }

  lemma NonZeroProduct(p: int, a: int, b: int)
    requires Prime(p) && !Zero(p, a) && !Zero(p, b)
    ensures !Zero(p, a * b)
  {
    if Zero(p, a * b) { Euclid(p, a, b); }
  }

  // ---- Powers and Fermat's little theorem ----

  function Pow(b: int, e: nat): int {
    if e == 0 then 1 else b * Pow(b, e - 1)
  }

  /** Python's three-argument pow for a non-negative exponent. */
  function PowMod(b: int, e: nat, p: int): int
    requires p > 0
  {
    Pow(b, e) % p
  }

  lemma {:induction false} PowAdd(b: int, m: nat, n: nat)
    ensures Pow(b, m + n) == Pow(b, m) * Pow(b, n)
  {
    if m > 0 {
      PowAdd(b, m - 1, n);
      assert b * (Pow(b, m - 1) * Pow(b, n)) == (b * Pow(b, m - 1)) * Pow(b, n);
    }
  }

  lemma PowTwo(b: int)
    ensures Pow(b, 2) == b * b
  {
    assert Pow(b, 2) == b * Pow(b, 1) && Pow(b, 1) == b * Pow(b, 0);
  }

  lemma {:induction false} PowMul(b: int, m: nat, n: nat)
    ensures m * n >= 0
    ensures Pow(b, m * n) == Pow(Pow(b, m), n)
  {
    if n > 0 {
      PowMul(b, m, n - 1);
      assert m * n == m + m * (n - 1);
      PowAdd(b, m, m * (n - 1));
    }
  }

  /** Congruent bases have congruent powers. */
  lemma {:induction false} PowCongruent(p: int, a: int, b: int, e: nat)
    requires p > 0 && Zero(p, a - b)
    ensures Zero(p, Pow(a, e) - Pow(b, e))
  {
    if e == 0 {
      ZeroMultiple(p, 0);
      assert Pow(a, e) - Pow(b, e) == 0 * p;
    } else {
      PowCongruent(p, a, b, e - 1);
      var s, t := Pow(a, e - 1), Pow(b, e - 1);
      ZeroCombine(p, a, s - t, t, a - b);
      assert a * (s - t) == a * s - a * t;
      assert t * (a - b) == a * t - b * t;
    }
  }

  /** The product of the members of s in 1, ..., n - 1. */
  ghost function Product(s: set<int>, n: nat): int {
    if n <= 1 then 1 else (if n - 1 in s then n - 1 else 1) * Product(s, n - 1)
  }

  lemma {:induction false} ProductRemove(s: set<int>, x: int, n: nat)
    requires x in s && 1 <= x < n
    ensures Product(s, n) == x * Product(s - {x}, n)
  {
    if x == n - 1 {
      ProductFrame(s, s - {x}, n - 1);
    } else {
      ProductRemove(s, x, n - 1);
      var q := Product(s - {x}, n - 1);
      if n - 1 in s {
        assert (n - 1) * (x * q) == x * ((n - 1) * q);
      }
    }
  }

  lemma {:induction false} ProductFrame(s: set<int>, t: set<int>, n: nat)
    requires forall k | 1 <= k < n :: k in s <==> k in t
    ensures Product(s, n) == Product(t, n)
  {
    if n > 1 { ProductFrame(s, t, n - 1); }
  }

  /** The residues 1, ..., n - 1. */
  ghost function Residues(n: nat): (s: set<int>)
    ensures forall x :: x in s <==> 1 <= x < n
  {
    if n <= 1 then {} else Residues(n - 1) + {n - 1}
  }

  lemma {:induction false} ResidueCount(n: nat)
    requires n >= 1
    ensures |Residues(n)| == n - 1
  {
    if n > 1 {
      ResidueCount(n - 1);
    }
  }

  function Times(p: int, a: int, x: int): int
    requires p > 0
  {
    a * x % p
  }

  ghost function Scaled(p: int, a: int, s: set<int>): set<int>
    requires p > 0
  {
    set x | x in s :: Times(p, a, x)
  }

  lemma {:induction false} ProductNonZero(p: int, s: set<int>, n: nat)
    requires Prime(p) && n <= p
    ensures !Zero(p, Product(s, n))
  {
    if n <= 1 {
      if Zero(p, 1) { ZeroSmall(p, 1); }
    } else {
      ProductNonZero(p, s, n - 1);
      var k := if n - 1 in s then n - 1 else 1;
      if Zero(p, k) { ZeroSmall(p, k); }
      NonZeroProduct(p, k, Product(s, n - 1));
    }
  }

  lemma TimesResidue(p: int, a: int, x: int)
    requires Prime(p) && !Zero(p, a) && 1 <= x < p
    ensures 1 <= Times(p, a, x) < p
  {
    if Zero(p, x) { ZeroSmall(p, x); }
    NonZeroProduct(p, a, x);
  }

  /** Multiplication by a unit is injective on residues. */
  lemma TimesInjective(p: int, a: int, x: int, y: int)
    requires Prime(p) && !Zero(p, a) && 1 <= x < p && 1 <= y < p && Times(p, a, x) == Times(p, a, y)
    ensures x == y
  {
    SameResidue(p, a * x, a * y);
    assert a * x - a * y == a * (x - y);
    Cancel(p, a, x - y);
    ZeroSmall(p, x - y);
  }

  lemma ScaledInsert(p: int, a: int, s: set<int>, x: int)
    requires Prime(p) && !Zero(p, a) && s <= Residues(p) && x in s
    ensures Times(p, a, x) !in Scaled(p, a, s - {x})
    ensures Scaled(p, a, s) == Scaled(p, a, s - {x}) + {Times(p, a, x)}
  {
    if Times(p, a, x) in Scaled(p, a, s - {x}) {
      var z :| z in s - {x} && Times(p, a, x) == Times(p, a, z);
      TimesInjective(p, a, z, x);
    }
  }

  lemma {:induction false} ScaledSize(p: int, a: int, s: set<int>)
    requires Prime(p) && !Zero(p, a) && s <= Residues(p)
    ensures Scaled(p, a, s) <= Residues(p) && |Scaled(p, a, s)| == |s|
    decreases |s|
  {
    if s != {} {
      var x :| x in s;
      ScaledSize(p, a, s - {x});
      TimesResidue(p, a, x);
      ScaledInsert(p, a, s, x);
    }
  }

  /** Multiplying every element of s by a multiplies the product by a^|s|. */
  lemma {:induction false} ScaledProduct(p: int, a: int, s: set<int>)
    requires Prime(p) && !Zero(p, a) && s <= Residues(p)
    ensures Zero(p, Product(Scaled(p, a, s), p) - Pow(a, |s|) * Product(s, p))
    decreases |s|
  {
    if s == {} {
      ProductFrame(Scaled(p, a, s), s, p);
      ZeroMultiple(p, 0);
    } else {
      var x :| x in s;
      ScaledProduct(p, a, s - {x});
      TimesResidue(p, a, x);
      ScaledInsert(p, a, s, x);
      var y, t := Times(p, a, x), Scaled(p, a, s);
      assert t - {y} == Scaled(p, a, s - {x});
      ProductRemove(t, y, p);
      ProductRemove(s, x, p);
      ScaledStep(p, a, x, Product(t - {y}, p), Pow(a, |s| - 1), Product(s - {x}, p));
    }
  }

  lemma ScaledStep(p: int, a: int, x: int, q: int, w: int, r: int)
    requires p > 0 && Zero(p, q - w * r)
    ensures Zero(p, Times(p, a, x) * q - (a * w) * (x * r))
  {
    var y := Times(p, a, x);
    ModCongruent(p, a * x);
    ZeroCombine(p, q, y - a * x, a * x, q - w * r);
    assert q * (y - a * x) == y * q - a * x * q;
    assert (a * x) * (q - w * r) == a * x * q - (a * x) * (w * r);
    assert (a * x) * (w * r) == (a * w) * (x * r);
  }

  lemma SubsetSameSize(a: set<int>, b: set<int>)
    requires a <= b && |a| == |b|
    ensures a == b
  {
    assert b == a + (b - a);
    assert |b| == |a| + |b - a|;
  }

  /** Fermat's little theorem. */
  lemma Fermat(p: int, a: int)
    requires Prime(p) && !Zero(p, a)
    ensures Zero(p, Pow(a, p - 1) - 1)
  {
    ResidueCount(p);
    FermatFor(p, a, Residues(p), p - 1);
  }

  lemma FermatFor(p: int, a: int, s: set<int>, n: nat)
    requires Prime(p) && !Zero(p, a) && s == Residues(p) && |s| == n
    ensures Zero(p, Pow(a, n) - 1)
  {
    ScaledSize(p, a, s);
    SubsetSameSize(Scaled(p, a, s), s);
    hide Zero;
    FixedProduct(p, a, s);
  }

  lemma FixedProduct(p: int, a: int, s: set<int>)
    requires Prime(p) && !Zero(p, a) && s <= Residues(p) && Scaled(p, a, s) == s
    ensures Zero(p, Pow(a, |s|) - 1)
  {
    ScaledProduct(p, a, s);
    ProductNonZero(p, s, p);
    UnitFactor(p, Product(s, p), Pow(a, |s|));
  }

  lemma UnitFactor(p: int, q: int, w: int)
    requires Prime(p) && !Zero(p, q) && Zero(p, q - w * q)
    ensures Zero(p, w - 1)
  {
    assert q - w * q == q * (1 - w);
    Cancel(p, q, 1 - w);
    ZeroMul(p, -1, 1 - w);
    assert (-1) * (1 - w) == w - 1;
  }

  // ---- Inverses and congruence steps ----

  /** Multiplying congruences. */
  lemma MulCongruent(p: int, a: int, b: int, c: int, d: int)
    requires p > 0 && Zero(p, a - b) && Zero(p, c - d)
    ensures Zero(p, a * c - b * d)
  {
    hide Zero;
    ZeroMul(p, c, a - b);
    ZeroMul(p, b, c - d);
    ZeroAdd(p, c * (a - b), b * (c - d));
    MulDifference(a, b, c, d);
  }

  lemma MulDifference(a: int, b: int, c: int, d: int)
    ensures c * (a - b) + b * (c - d) == a * c - b * d
  {}

  lemma AddCongruent(p: int, a: int, b: int, c: int, d: int)
    requires p > 0 && Zero(p, a - b) && Zero(p, c - d)
    ensures Zero(p, (a + c) - (b + d)) && Zero(p, (a - c) - (b - d))
  {
    hide Zero;
    ZeroAdd(p, a - b, c - d);
  }

  lemma Transitive(p: int, a: int, b: int, c: int)
    requires p > 0 && Zero(p, a - b) && Zero(p, b - c)
    ensures Zero(p, a - c)
  {
    hide Zero;
    ZeroAdd(p, a - b, b - c);
  }

  lemma Symmetric(p: int, a: int, b: int)
    requires p > 0 && Zero(p, a - b)
    ensures Zero(p, b - a)
  {
    hide Zero;
    ZeroMul(p, -1, a - b);
  }

  lemma Reflexive(p: int, a: int)
    requires p > 0
    ensures Zero(p, a - a)
  {
    ZeroMultiple(p, 0);
  }

  /** Field inversion by exponentiation. */
  function ModInv(p: int, x: int): int
    requires p > 1
  {
    PowMod(x, p - 2, p)
  }

  lemma ModInvCorrect(p: int, x: int)
    requires Prime(p) && !Zero(p, x)
    ensures 0 <= ModInv(p, x) < p
    ensures Zero(p, x * ModInv(p, x) - 1)
  {
    hide Zero;
    Fermat(p, x);
    InverseOfPower(p, x, Pow(x, p - 2));
  }

  lemma InverseOfPower(p: int, x: int, w: int)
    requires p > 0 && Zero(p, x * w - 1)
    ensures Zero(p, x * (w % p) - 1)
  {
    hide Zero;
    ModCongruent(p, w);
    ZeroMul(p, x, w % p - w);
    ZeroAdd(p, x * (w % p - w), x * w - 1);
    assert x * (w % p - w) == x * (w % p) - x * w by { MulMinus(x, w % p, w); }
  }

  lemma MulMinus(m: int, a: int, b: int)
    ensures m * (a - b) == m * a - m * b
  {}
}
