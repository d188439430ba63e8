/** For a prime p with p mod 8 = 5, 2^((p-1)/2) is -1: so 2 is not a square and 2^((p-1)/4) is a square root of -1. */
module TwoNonResidue {
  import opened NumberTheory

  function Factorial(n: nat): nat {
    if n == 0 then 1 else n * Factorial(n - 1)
  }

  lemma {:induction false} FactorialNonZero(p: int, n: nat)
    requires Prime(p) && n < p
    ensures !Zero(p, Factorial(n))
  {
    if n > 0 {
      FactorialNonZero(p, n - 1);
      NonZeroProduct(p, n, Factorial(n - 1));
    }
  }

  /** The even numbers 2, p - 1, 4, p - 3, ..., 2 j, p - (2 j - 1) multiplied. */
  function Evens(p: int, j: nat): int {
    if j == 0 then 1 else 2 * j * (p - (2 * j - 1)) * Evens(p, j - 1)
  }

  /** For p = 2 m + 1 these are twice 1..j and twice the j largest numbers up to m. */
  lemma {:induction false} EvensExact(p: int, m: nat, j: nat)
    requires p == 2 * m + 1 && j <= m
    ensures Evens(p, j) * Factorial(m - j) == Pow(4, j) * Factorial(j) * Factorial(m)
  {
    if j > 0 {
      EvensExact(p, m, j - 1);
      assert Factorial(m - (j - 1)) == (m - j + 1) * Factorial(m - j);
      ExactStep(j, m, Evens(p, j - 1), Factorial(m - j), Pow(4, j - 1), Factorial(j - 1), Factorial(m));
    }
  }

  lemma ExactStep(j: int, m: int, e: int, f: int, q: int, g: int, h: int)
    requires e * ((m - j + 1) * f) == q * g * h
    ensures 2 * j * (2 * m + 1 - (2 * j - 1)) * e * f == 4 * q * (j * g) * h
  {
    var r := m - j + 1;
    assert 2 * j * (2 * m + 1 - (2 * j - 1)) == 4 * j * r;
    assert 4 * j * r * e * f == 4 * j * (e * (r * f));
    assert 4 * q * (j * g) * h == 4 * j * (q * g * h);
  }

  function Sign(j: nat): int {
    if j % 2 == 0 then 1 else -1
  }

  lemma NextEvens(p: int, j: nat)
    requires j > 0
    ensures Evens(p, j) == 2 * j * (p - (2 * j - 1)) * Evens(p, j - 1)
    ensures Factorial(2 * j) == 2 * j * ((2 * j - 1) * Factorial(2 * j - 2))
    ensures Sign(j) == -Sign(j - 1)
  {
    assert Factorial(2 * j - 1) == (2 * j - 1) * Factorial(2 * j - 2);
  }

  /** Modulo p the numbers p - (2 i - 1) are the opposites of the odd numbers. */
  lemma {:induction false} EvensCongruent(p: int, j: nat)
    requires p > 0
    ensures Zero(p, Evens(p, j) - Sign(j) * Factorial(2 * j))
  {
    if j == 0 {
      ZeroMultiple(p, 0);
    } else {
      hide Zero, Evens, Factorial, Sign;
      EvensCongruent(p, j - 1);
      NextEvens(p, j);
      CongruentStep(p, 2 * j, 2 * j - 1, Evens(p, j - 1), Sign(j - 1), Factorial(2 * j - 2));
    }
  }

  lemma CongruentStep(p: int, a: int, b: int, e: int, s: int, f: int)
    requires p > 0 && Zero(p, e - s * f)
    ensures Zero(p, a * (p - b) * e - -s * (a * (b * f)))
  {
    hide Zero;
    var t := s * f;
    ZeroMul(p, a * b, e - t);
    ZeroMultiple(p, a * e);
    ZeroAdd(p, a * e * p, a * b * (e - t));
    OppositeFactor(p, a, b, e, t);
    SignOutside(a, b, s, f);
  }

  lemma SignOutside(a: int, b: int, s: int, f: int)
    ensures -s * (a * (b * f)) == -(a * b * (s * f))
  {}

  lemma OppositeFactor(p: int, a: int, b: int, e: int, t: int)
    ensures a * (p - b) * e + a * b * t == a * e * p - a * b * (e - t)
  {
    assert a * (p - b) == a * p - a * b;
    assert (a * p - a * b) * e == a * p * e - a * b * e;
    assert a * b * (e - t) == a * b * e - a * b * t;
  }

  lemma HalfPowerOfTwo(p: int)
    requires Prime(p) && p % 8 == 5
    ensures Zero(p, Pow(2, (p - 1) / 2) + 1)
  {
    var n := p / 8;
    var m, h := 4 * n + 2, 2 * n + 1;
    assert p == 2 * m + 1 && m == 2 * h && (p - 1) / 2 == m && Sign(h) == -1;
    EvensExact(p, m, h);
    EvensCongruent(p, h);
    FactorialNonZero(p, h);
    FactorialNonZero(p, m);
    PowMul(2, 2, h);
    PowTwo(2);
    CancelFactorials(p, Evens(p, h), Pow(4, h), Factorial(h), Factorial(m));
  }

  lemma CancelFactorials(p: int, e: int, q: int, f: int, g: int)
    requires Prime(p) && !Zero(p, f) && !Zero(p, g)
    requires e * f == q * f * g && Zero(p, e - -1 * g)
    ensures Zero(p, q + 1)
  {
    assert p > 1;
    hide Zero, Prime;
    ZeroMul(p, f, e - -1 * g);
    CommonFactors(e, q, f, g);
    Cancel(p, f, g * (q + 1));
    Cancel(p, g, q + 1);
  }

  lemma CommonFactors(e: int, q: int, f: int, g: int)
    requires e * f == q * f * g
    ensures f * (e - -1 * g) == f * (g * (q + 1))
  {
    assert f * (e - -1 * g) == e * f + f * g;
    assert f * (g * (q + 1)) == q * f * g + f * g;
  }

  /** 2^((p-1)/4) is a square root of -1. */
  lemma QuarterPower(p: int)
    requires Prime(p) && p % 8 == 5
    ensures Zero(p, PowMod(2, (p - 1) / 4, p) * PowMod(2, (p - 1) / 4, p) + 1)
  {
    HalfPowerOfTwo(p);
    var e := (p - 1) / 4;
    assert e + e == (p - 1) / 2;
    hide Zero, Prime;
    PowAdd(2, e, e);
    var x := Pow(2, e);
    ModCongruent(p, x);
    MulCongruent(p, x % p, x, x % p, x);
    ZeroAdd(p, (x % p) * (x % p) - x * x, x * x + 1);
  }

  /** Twice a nonzero square is not a square. */
  lemma TwiceSquare(p: int, a: int, w: int, v: int)
    requires Prime(p) && p % 8 == 5 && !Zero(p, a) && Zero(p, 2 * (w * w) - a)
    ensures !Zero(p, v * v - a)
  {
    var half := (p - 1) / 2;
    assert p == 2 * half + 1 && p > 2;
    HalfPowerOfTwo(p);
    assert !Zero(p, 2);
    hide Prime;
    if Zero(p, v * v - a) {
      RootNonZero(p, 2, w, a);
      assert 1 * (v * v) == v * v;
      RootNonZero(p, 1, v, a);
      hide Zero;
      Fermat(p, w);
      Fermat(p, v);
      PowMul(w, 2, half);
      PowMul(v, 2, half);
      PowTwo(w);
      PowTwo(v);
      ProductPower(2, w * w, half);
      ZeroAdd(p, 2 * (w * w) - a, v * v - a);
      PowCongruent(p, 2 * (w * w), v * v, half);
      TwoVanishes(p, Pow(2, half), Pow(w, p - 1), Pow(v, p - 1));
    }
  }

  lemma RootNonZero(p: int, c: int, w: int, a: int)
    requires p > 0 && !Zero(p, a) && Zero(p, c * (w * w) - a)
    ensures !Zero(p, w)
  {
    hide Zero;
    if Zero(p, w) {
      ZeroMul(p, c * w, w);
      var q := c * (w * w);
      assert c * w * w == q;
      ZeroAdd(p, q, q - a);
    }
  }

  lemma {:induction false} ProductPower(a: int, b: int, n: nat)
    ensures Pow(a * b, n) == Pow(a, n) * Pow(b, n)
  {
    if n > 0 {
      ProductPower(a, b, n - 1);
      Regroup(a, b, Pow(a, n - 1), Pow(b, n - 1));
    }
  }

  lemma Regroup(a: int, b: int, c: int, d: int)
    ensures a * b * (c * d) == a * c * (b * d)
  {}

  lemma TwoVanishes(p: int, t: int, x: int, y: int)
    requires p > 0 && Zero(p, t + 1) && Zero(p, x - 1) && Zero(p, y - 1) && Zero(p, t * x - y)
    ensures Zero(p, 2)
  {
    hide Zero;
    ZeroMul(p, x, t + 1);
    ZeroAdd(p, x * (t + 1), t * x - y);
    assert x * (t + 1) - (t * x - y) == x + y;
    ZeroAdd(p, x - 1, y - 1);
    ZeroAdd(p, x + y, (x - 1) + (y - 1));
    assert (x + y) - ((x - 1) + (y - 1)) == 2;
  }
}
