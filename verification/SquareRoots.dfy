/** Square roots modulo a prime p with p mod 8 = 5. */
module SquareRoots {
  import opened NumberTheory
  import opened Edwards

  /** The candidate root of section 5.1.3 of RFC 8032, corrected by a square root i of -1. */
  function CandidateRoot(p: int, i: int, q: int): int
    requires p > 1
  {
    Corrected(p, i, q, PowMod(q, (p + 3) / 8, p))
  }

  function Corrected(p: int, i: int, q: int, x: int): int
    requires p > 0
  {
    if (x * x - q) % p != 0 then x * i % p else x
  }

  lemma SquareFactors(p: int, a: int, b: int)
    requires Prime(p) && Zero(p, a * a - b * b)
    ensures Zero(p, a - b) || Zero(p, a + b)
  {
    hide Zero, Prime;
    DifferenceOfSquares(a, b);
    Euclid(p, a + b, a - b);
  }

  /** For q = w^2 nonzero and p = 8 n + 5, q^(2n+1) is a square root of 1. */
  lemma HalfPowerOfSquare(p: int, n: nat, q: int, w: int)
    requires Prime(p) && p == 8 * n + 5 && !Zero(p, q) && Zero(p, w * w - q)
    ensures Zero(p, Pow(q, 2 * n + 1) * Pow(q, 2 * n + 1) - 1)
  {
    hide Zero, Prime;
    var s := 2 * n + 1;
    if Zero(p, w) { ZeroMul(p, w, w); ZeroAdd(p, w * w, w * w - q); }
    Fermat(p, w);
    PowAdd(q, s, s);
    assert s + s == 4 * n + 2 && 2 * (4 * n + 2) == p - 1;
    PowMul(w, 2, 4 * n + 2);
    assert Pow(w, 2) == w * w by { PowTwo(w); }
    PowCongruent(p, w * w, q, 4 * n + 2);
    Symmetric(p, Pow(w * w, 4 * n + 2), Pow(q, 4 * n + 2));
    Transitive(p, Pow(q, 4 * n + 2), Pow(w, p - 1), 1);
  }

  /** The uncorrected candidate q^(n+1) squares to q or to -q. */
  lemma CandidateSquare(p: int, n: nat, q: int, w: int)
    requires Prime(p) && p == 8 * n + 5 && !Zero(p, q) && Zero(p, w * w - q)
    ensures var x := Pow(q, n + 1); Zero(p, x * x - q) || Zero(p, x * x + q)
  {
    hide Zero, Prime;
    var x, h := Pow(q, n + 1), Pow(q, 2 * n + 1);
    HalfPowerOfSquare(p, n, q, w);
    SquareFactors(p, h, 1);
    PowAdd(q, n + 1, n + 1);
    assert x * x == q * h;
    if Zero(p, h - 1) {
      ZeroMul(p, q, h - 1);
      MulMinus(q, h, 1);
    } else {
      ZeroMul(p, q, h + 1);
      Distribute2(q, h, 1);
    }
  }

  lemma ReducedSquare(p: int, x: int, q: int)
    requires p > 0
    ensures Zero(p, x * x - q) <==> Zero(p, (x % p) * (x % p) - q)
    ensures Zero(p, x * x + q) <==> Zero(p, (x % p) * (x % p) + q)
  {
    hide Zero;
    ModCongruent(p, x);
    MulCongruent(p, x % p, x, x % p, x);
    var g := (x % p) * (x % p) - x * x;
    if Zero(p, x * x - q) { ZeroAdd(p, x * x - q, g); }
    if Zero(p, x * x + q) { ZeroAdd(p, x * x + q, g); }
    if Zero(p, (x % p) * (x % p) - q) { ZeroAdd(p, (x % p) * (x % p) - q, g); }
    if Zero(p, (x % p) * (x % p) + q) { ZeroAdd(p, (x % p) * (x % p) + q, g); }
  }

  lemma TimesImaginary(p: int, i: int, x: int, q: int)
    requires p > 0 && Zero(p, i * i + 1) && Zero(p, x * x + q)
    ensures Zero(p, (x * i) * (x * i) - q)
  {
    hide Zero;
    ZeroMul(p, x * x, i * i + 1);
    ZeroAdd(p, (x * x) * (i * i + 1), x * x + q);
    ProductOfProducts(x, i, x, i);
    Distribute2(x * x, i * i, 1);
  }

  lemma CorrectedIsRoot(p: int, i: int, q: int, x: int)
    requires p > 0 && Zero(p, i * i + 1) && (Zero(p, x * x - q) || Zero(p, x * x + q))
    ensures Zero(p, Corrected(p, i, q, x) * Corrected(p, i, q, x) - q)
  {
    if !Zero(p, x * x - q) {
      TimesImaginary(p, i, x, q);
      ReducedSquare(p, x * i, q);
    }
  }

  /** A nonzero square has the candidate as a root. */
  lemma CandidateCorrect(p: int, i: int, q: int, w: int)
    requires Prime(p) && p % 8 == 5 && Zero(p, i * i + 1) && !Zero(p, q) && Zero(p, w * w - q)
    ensures var x := CandidateRoot(p, i, q); Zero(p, x * x - q)
  {
    assert p > 1;
    hide Zero, Prime, Corrected;
    var n := (p - 5) / 8;
    assert p == 8 * n + 5 && (p + 3) / 8 == n + 1;
    CandidateSquare(p, n, q, w);
    ReducedSquare(p, Pow(q, n + 1), q);
    CorrectedIsRoot(p, i, q, PowMod(q, n + 1, p));
  }

  /** A number has at most one square root of given parity among 0, ..., p - 1. */
  lemma RootUnique(p: int, q: int, a: int, b: int)
    requires Prime(p) && p % 2 == 1 && 0 <= a < p && 0 <= b < p && a % 2 == b % 2
    requires Zero(p, a * a - q) && Zero(p, b * b - q)
    ensures a == b
  {
    hide Zero, Prime;
    ZeroAdd(p, a * a - q, b * b - q);
    SquareFactors(p, a, b);
    if Zero(p, a - b) {
      ZeroSmall(p, a - b);
    } else {
      SumBelow(p, a, b);
    }
  }

  lemma SumBelow(p: int, a: int, b: int)
    requires p > 0 && p % 2 == 1 && 0 <= a < p && 0 <= b < p && a % 2 == b % 2 && Zero(p, a + b)
    ensures a == b
  {
    if a + b >= p {
      ZeroMultiple(p, 1);
      ZeroAdd(p, a + b, 1 * p);
      ZeroSmall(p, a + b - p);
    } else {
      ZeroSmall(p, a + b);
    }
  }

  /** Negating a root keeps it a root and flips its parity. */
  lemma OtherRoot(p: int, q: int, x: int)
    requires p > 0 && Zero(p, x * x - q)
    ensures Zero(p, (p - x) * (p - x) - q)
  {
    hide Zero;
    ZeroMultiple(p, p - 2 * x);
    ZeroAdd(p, (p - 2 * x) * p, x * x - q);
    OtherRootIdentity(p, x);
  }

  lemma OtherRootIdentity(p: int, x: int)
    ensures (p - x) * (p - x) == (p - 2 * x) * p + x * x
  {}
}
