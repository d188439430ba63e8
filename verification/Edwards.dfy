/** The group of points of the twisted Edwards curve -x^2 + y^2 = 1 + d x^2 y^2 over a prime field. */
module Edwards {
  import opened NumberTheory

  datatype Point = Point(x: int, y: int)

  /** The prime p, the coefficient d and a square root i of -1 modulo p. */
  datatype Curve = Curve(p: int, d: int, i: int) {

    ghost predicate Valid() {
      && Prime(p) && p > 2
      && Zero(p, i * i + 1)
      && !IsSquare(p, d)
    }

    predicate OnCurve(a: Point)
      requires p > 0
    {
      0 <= a.x < p && 0 <= a.y < p && Zero(p, Defect(d, a.x, a.y))
    }
  }

  ghost predicate IsRoot(p: int, w: int, a: int)
    requires p > 0
  {
    Zero(p, w * w - a)
  }

  ghost predicate IsSquare(p: int, a: int)
    requires p > 0
  {
    exists w :: IsRoot(p, w, a)
  }

  /** Left side minus right side of the curve equation. */
  function Defect(d: int, x: int, y: int): int {
    y * y - x * x - 1 - d * (x * y) * (x * y)
  }

  // ---- Polynomial identities over the integers ----

  lemma Distribute2(m: int, a: int, b: int)
    ensures m * (a + b) == m * a + m * b
  {}

  lemma Distribute3(m: int, a: int, b: int, c: int)
    ensures m * (a + b + c) == m * a + m * b + m * c
  {}

  lemma Distribute4(m: int, a: int, b: int, c: int, d: int)
    ensures m * (a + b + c + d) == m * a + m * b + m * c + m * d
  {}

  lemma SquareOfSum(j: int, x: int, y: int)
    ensures (y + j * x) * (y + j * x) == y * y + 2 * (j * (x * y)) + (j * j) * (x * x)
  {}

  lemma SquareOfProduct(d: int, t: int, n: int)
    ensures d * (t * n) * (t * n) == (d * t * t) * (n * n)
  {}

  // ---- Completeness: the denominators of the addition law never vanish ----

  lemma RootCore(a1: int, b1: int, a2: int, b2: int, jj: int, s1: int, s2: int, u: int, v: int)
    ensures (a1 + 2 * u + jj * b1) - s1 * (a2 + 2 * v + jj * b2)
         == (b1 - s1 * b2) * (jj + 1) + (a1 - b1 - 1 - s1) - s1 * (a2 - b2 - 1 - s2) + (1 - s1 * s2) + 2 * (u - s1 * v)
  {
    Distribute3(s1, a2, 2 * v, jj * b2);
    Distribute4(s1, a2, -b2, -1, -s2);
    Distribute2(jj + 1, b1, -s1 * b2);
  }

  lemma RootZero(p: int, a1: int, b1: int, a2: int, b2: int, jj: int, s1: int, s2: int, u: int, v: int)
    requires p > 0 && Zero(p, jj + 1) && Zero(p, a1 - b1 - 1 - s1) && Zero(p, a2 - b2 - 1 - s2)
    requires Zero(p, (1 - s1 * s2) + 2 * (u - s1 * v))
    ensures Zero(p, (a1 + 2 * u + jj * b1) - s1 * (a2 + 2 * v + jj * b2))
  {
    hide Zero;
    var z1, z2, z3, z4 := jj + 1, a1 - b1 - 1 - s1, a2 - b2 - 1 - s2, (1 - s1 * s2) + 2 * (u - s1 * v);
    RootCore(a1, b1, a2, b2, jj, s1, s2, u, v);
    ZeroMul(p, b1 - s1 * b2, z1);
    ZeroMul(p, s1, z3);
    ZeroAdd(p, (b1 - s1 * b2) * z1, z2);
    ZeroAdd(p, (b1 - s1 * b2) * z1 + z2, s1 * z3);
    ZeroAdd(p, (b1 - s1 * b2) * z1 + z2 - s1 * z3, z4);
  }

  lemma TailFactor(m: int, e: int, u: int)
    requires e == 1 || e == -1
    ensures 1 - m * m + 2 * (u - e * u * m) == (-(e + m) - 2 * (e * u)) * (m - e)
  {}

  lemma TailProducts(d: int, j: int, e: int, t1: int, t2: int)
    ensures (d * t1 * t1) * (d * t2 * t2) == (d * t1 * t2) * (d * t1 * t2)
    ensures (d * t1 * t1) * ((e * j) * t2) == e * (j * t1) * (d * t1 * t2)
  {}

  lemma SignSquare(e: int, j: int)
    requires e == 1 || e == -1
    ensures (e * j) * (e * j) == j * j
  {}

  /** With m = d x1 y1 x2 y2 = e = 1 or -1, (y1 + j x1)^2 = d (x1 y1 (y2 + e j x2))^2. */
  lemma RootIdentity(p: int, d: int, j: int, e: int, x1: int, y1: int, x2: int, y2: int)
    requires p > 0 && (e == 1 || e == -1) && Zero(p, j * j + 1)
    requires Zero(p, Defect(d, x1, y1)) && Zero(p, Defect(d, x2, y2))
    requires Zero(p, d * (x1 * y1) * (x2 * y2) - e)
    ensures var n := (x1 * y1) * (y2 + (e * j) * x2);
            Zero(p, (y1 + j * x1) * (y1 + j * x1) - d * n * n)
  {
    hide Zero;
    var t1, t2 := x1 * y1, x2 * y2;
    var m, s1, s2 := d * t1 * t2, d * t1 * t1, d * t2 * t2;
    SquareOfSum(j, x1, y1);
    SquareOfSum(e * j, x2, y2);
    SignSquare(e, j);
    SquareOfProduct(d, t1, y2 + (e * j) * x2);
    TailProducts(d, j, e, t1, t2);
    TailFactor(m, e, j * t1);
    ZeroMul(p, -(e + m) - 2 * (e * (j * t1)), m - e);
    RootZero(p, y1 * y1, x1 * x1, y2 * y2, x2 * x2, j * j, s1, s2, j * t1, (e * j) * t2);
  }

  lemma QuotientSquare(p: int, d: int, w: int, n: int, u: int)
    requires p > 0 && Zero(p, w * w - d * n * n) && Zero(p, n * u - 1)
    ensures IsRoot(p, w * u, d)
  {
    hide Zero;
    // (w u)^2 - d = u^2 (w^2 - d n^2) + d (n u + 1) (n u - 1)
    ZeroMul(p, u * u, w * w - d * n * n);
    ZeroMul(p, d * (n * u + 1), n * u - 1);
    ZeroAdd(p, (u * u) * (w * w - d * n * n), (d * (n * u + 1)) * (n * u - 1));
    QuotientSquareIdentity(d, w, n, u);
  }

  lemma QuotientSquareIdentity(d: int, w: int, n: int, u: int)
    ensures (u * u) * (w * w - d * n * n) + (d * (n * u + 1)) * (n * u - 1) == (w * u) * (w * u) - d
  {
    Distribute2(u * u, w * w, -(d * n * n));
    Distribute2(d * (n * u + 1), n * u, -1);
    Distribute2(d, n * u, 1);
    Distribute2(n * u, d * (n * u), d);
  }

  lemma RootVanishes(c: Curve, a: Point, b: Point, j: int, e: int)
    requires c.Valid() && c.OnCurve(a) && c.OnCurve(b)
    requires (e == 1 || e == -1) && Zero(c.p, j * j + 1)
    requires Zero(c.p, c.d * (a.x * a.y) * (b.x * b.y) - e)
    ensures Zero(c.p, (a.x * a.y) * (b.y + (e * j) * b.x))
  {
    hide Zero, Prime;
    var n := (a.x * a.y) * (b.y + (e * j) * b.x);
    if !Zero(c.p, n) {
      RootIdentity(c.p, c.d, j, e, a.x, a.y, b.x, b.y);
      ModInvCorrect(c.p, n);
      QuotientSquare(c.p, c.d, a.y + j * a.x, n, ModInv(c.p, n));
    }
  }

  /** The product d x1 y1 x2 y2 of the addition law is never 1 or -1. */
  lemma Complete(c: Curve, a: Point, b: Point, e: int)
    requires c.Valid() && c.OnCurve(a) && c.OnCurve(b) && (e == 1 || e == -1)
    ensures !Zero(c.p, c.d * (a.x * a.y) * (b.x * b.y) - e)
  {
    hide Zero, Prime;
    var p, t1, t2 := c.p, a.x * a.y, b.x * b.y;
    if Zero(p, c.d * t1 * t2 - e) {
      MinusRoot(p, c.i);
      RootVanishes(c, a, b, c.i, e);
      RootVanishes(c, a, b, -c.i, e);
      var u, v := (e * c.i) * b.x, (e * -c.i) * b.x;
      OppositeTerms(e, c.i, b.x);
      VanishingFactors(p, t1, b.y, u, v);
      NotUnit(c, a, b, e);
    }
  }

  lemma OppositeTerms(e: int, i: int, x: int)
    ensures (e * -i) * x == -((e * i) * x)
  {
    assert e * -i == -(e * i);
  }

  lemma MinusRoot(p: int, i: int)
    requires p > 0 && Zero(p, i * i + 1)
    ensures Zero(p, (-i) * (-i) + 1)
  {
    assert (-i) * (-i) == i * i;
  }

  lemma VanishingFactors(p: int, t: int, y: int, u: int, v: int)
    requires Prime(p) && p > 2 && v == -u
    requires Zero(p, t * (y + u)) && Zero(p, t * (y + v))
    ensures Zero(p, t) || Zero(p, y)
  {
    hide Zero;
    if !Zero(p, t) {
      Cancel(p, t, y + u);
      Cancel(p, t, y + v);
      ZeroAdd(p, y + u, y + v);
      TwoNonZero(p);
      Cancel(p, 2, y);
    }
  }

  lemma TwoNonZero(p: int)
    requires p > 2
    ensures !Zero(p, 2)
  {
    if Zero(p, 2) { ZeroSmall(p, 2); }
  }

  lemma NotUnit(c: Curve, a: Point, b: Point, e: int)
    requires c.Valid() && (e == 1 || e == -1)
    requires Zero(c.p, a.x * a.y) || Zero(c.p, b.y)
    ensures !Zero(c.p, c.d * (a.x * a.y) * (b.x * b.y) - e)
  {
    hide Zero, Prime;
    var p, t1 := c.p, a.x * a.y;
    var m := c.d * t1 * (b.x * b.y);
    if Zero(p, t1) {
      ZeroMul(p, c.d * (b.x * b.y), t1);
    } else {
      ZeroMul(p, c.d * t1 * b.x, b.y);
    }
    assert m == (c.d * (b.x * b.y)) * t1 == (c.d * t1 * b.x) * b.y by { NotUnitProducts(c.d, t1, b.x, b.y); }
    if Zero(p, m - e) {
      ZeroAdd(p, m, m - e);
      ZeroSmall(p, e);
    }
  }

  lemma NotUnitProducts(d: int, t: int, x: int, y: int)
    ensures d * t * (x * y) == (d * (x * y)) * t == (d * t * x) * y
  {}

  // ---- The addition law ----

  /** d x1 y1 x2 y2 */
  function Cross(c: Curve, a: Point, b: Point): int {
    c.d * (a.x * a.y) * (b.x * b.y)
  }

  /** s satisfies the equations of the affine sum of a and b. */
  ghost predicate SumOf(c: Curve, a: Point, b: Point, s: Point)
    requires c.p > 0
  {
    && 0 <= s.x < c.p && 0 <= s.y < c.p
    && Zero(c.p, (1 + Cross(c, a, b)) * s.x - (a.x * b.y + a.y * b.x))
    && Zero(c.p, (1 - Cross(c, a, b)) * s.y - (a.y * b.y + a.x * b.x))
  }

  /** The affine addition law of section 5.1.4 of RFC 8032. */
  function Add(c: Curve, a: Point, b: Point): Point
    requires c.p > 1
  {
    var m := Cross(c, a, b);
    Point((a.x * b.y + a.y * b.x) * ModInv(c.p, 1 + m) % c.p,
          (a.y * b.y + a.x * b.x) * ModInv(c.p, 1 - m) % c.p)
  }

  const NEUTRAL := Point(0, 1)

  lemma Division(p: int, n: int, q: int)
    requires Prime(p) && !Zero(p, q)
    ensures Zero(p, q * (n * ModInv(p, q) % p) - n)
  {
    hide Zero;
    var u := ModInv(p, q);
    ModInvCorrect(p, q);
    ModCongruent(p, n * u);
    ZeroMul(p, q, (n * u) % p - n * u);
    ZeroMul(p, n, q * u - 1);
    ZeroAdd(p, q * ((n * u) % p - n * u), n * (q * u - 1));
    DivisionIdentity(q, n, u, (n * u) % p);
  }

  lemma DivisionIdentity(q: int, n: int, u: int, r: int)
    ensures q * (r - n * u) + n * (q * u - 1) == q * r - n
  {}

  lemma DenominatorsNonZero(c: Curve, a: Point, b: Point)
    requires c.Valid() && c.OnCurve(a) && c.OnCurve(b)
    ensures !Zero(c.p, 1 + Cross(c, a, b)) && !Zero(c.p, 1 - Cross(c, a, b))
  {
    hide Zero, Prime;
    var m := Cross(c, a, b);
    Complete(c, a, b, 1);
    Complete(c, a, b, -1);
    if Zero(c.p, 1 - m) { Symmetric(c.p, 1, m); }
  }

  lemma AddIsSum(c: Curve, a: Point, b: Point)
    requires c.Valid() && c.OnCurve(a) && c.OnCurve(b)
    ensures SumOf(c, a, b, Add(c, a, b))
  {
    hide Zero, Prime;
    DenominatorsNonZero(c, a, b);
    Division(c.p, a.x * b.y + a.y * b.x, 1 + Cross(c, a, b));
    Division(c.p, a.y * b.y + a.x * b.x, 1 - Cross(c, a, b));
  }

  lemma QuotientUnique(p: int, q: int, x: int, y: int, n: int)
    requires Prime(p) && !Zero(p, q) && 0 <= x < p && 0 <= y < p
    requires Zero(p, q * x - n) && Zero(p, q * y - n)
    ensures x == y
  {
    hide Zero, Prime;
    ZeroAdd(p, q * x - n, q * y - n);
    MulMinus(q, x, y);
    Cancel(p, q, x - y);
    ZeroSmall(p, x - y);
  }

  /** The equations of the sum have exactly one solution: Add. */
  lemma SumUnique(c: Curve, a: Point, b: Point, s: Point)
    requires c.Valid() && c.OnCurve(a) && c.OnCurve(b)
    ensures SumOf(c, a, b, s) <==> s == Add(c, a, b)
  {
    hide Zero, Prime;
    AddIsSum(c, a, b);
    if SumOf(c, a, b, s) {
      DenominatorsNonZero(c, a, b);
      var t := Add(c, a, b);
      QuotientUnique(c.p, 1 + Cross(c, a, b), s.x, t.x, a.x * b.y + a.y * b.x);
      QuotientUnique(c.p, 1 - Cross(c, a, b), s.y, t.y, a.y * b.y + a.x * b.x);
    }
  }

  lemma CrossSymmetric(d: int, s: int, t: int)
    ensures d * s * t == d * t * s
  {}

  lemma AddCommutes(c: Curve, a: Point, b: Point)
    requires c.p > 1
    ensures Add(c, a, b) == Add(c, b, a)
  {
    CrossSymmetric(c.d, a.x * a.y, b.x * b.y);
    assert a.x * b.y + a.y * b.x == b.x * a.y + b.y * a.x;
    assert a.y * b.y + a.x * b.x == b.y * a.y + b.x * a.x;
  }

  lemma NeutralOnCurve(c: Curve)
    requires c.p > 1
    ensures c.OnCurve(NEUTRAL)
  {
    ZeroMultiple(c.p, 0);
    assert Defect(c.d, 0, 1) == 0 * c.p;
  }

  lemma AddNeutral(c: Curve, a: Point)
    requires c.Valid() && c.OnCurve(a)
    ensures Add(c, a, NEUTRAL) == a && Add(c, NEUTRAL, a) == a
  {
    var m := Cross(c, a, NEUTRAL);
    assert m == 0;
    ZeroMultiple(c.p, 0);
    assert (1 + m) * a.x - (a.x * 1 + a.y * 0) == 0 * c.p;
    assert (1 - m) * a.y - (a.y * 1 + a.x * 0) == 0 * c.p;
    NeutralOnCurve(c);
    SumUnique(c, a, NEUTRAL, a);
    AddCommutes(c, a, NEUTRAL);
  }

  // ---- Closure: the sum of two curve points is a curve point ----

  lemma Binomial(a: int, b: int)
    ensures (a + b) * (a + b) == a * a + 2 * (a * b) + b * b
  {}

  lemma ProductOfProducts(a: int, b: int, c: int, d: int)
    ensures (a * b) * (c * d) == (a * c) * (b * d)
  {}

  lemma NumeratorSquares(x1: int, y1: int, x2: int, y2: int)
    ensures (y1 * y2 + x1 * x2) * (y1 * y2 + x1 * x2)
         == (y1 * y1) * (y2 * y2) + (x1 * x1) * (x2 * x2) + 2 * ((x1 * y1) * (x2 * y2))
  {
    Binomial(y1 * y2, x1 * x2);
    ProductOfProducts(y1, y2, y1, y2);
    ProductOfProducts(x1, x2, x1, x2);
    ProductOfProducts(x1, x2, y1, y2);
  }

  /** e h = t1 (x2^2 + y2^2) + t2 (x1^2 + y1^2) for the numerators e, h of the sum. */
  lemma NumeratorProduct(x1: int, y1: int, x2: int, y2: int)
    ensures (x1 * y2 + y1 * x2) * (y1 * y2 + x1 * x2)
         == (x1 * y1) * (x2 * x2 + y2 * y2) + (x2 * y2) * (x1 * x1 + y1 * y1)
  {
    Distribute2(x1 * y2 + y1 * x2, y1 * y2, x1 * x2);
    Distribute2(x1 * y1, x2 * x2, y2 * y2);
    Distribute2(x2 * y2, x1 * x1, y1 * y1);
    Distribute2(y1 * y2, x1 * y2, y1 * x2);
    Distribute2(x1 * x2, x1 * y2, y1 * x2);
  }

  /** The curve equation of (e/(1+m), h/(1-m)) cleared of denominators, given h^2, e^2 and e h. */
  function HomogeneousDefect(d: int, m: int, hh: int, ee: int, eh: int): int {
    hh * ((1 + m) * (1 + m)) - ee * ((1 - m) * (1 - m)) - (1 - m * m) * (1 - m * m) - d * eh * eh
  }

  /** Squared coordinates: q = y^2, b = x^2, t = x y, s = d t^2, g = q - b. */
  lemma ClosureGather(q1: int, b1: int, q2: int, b2: int, d: int, t1: int, t2: int)
    requires t1 * t1 == q1 * b1 && t2 * t2 == q2 * b2
    ensures HomogeneousDefect(d, d * t1 * t2, q1 * q2 + b1 * b2 + 2 * (t1 * t2), b1 * q2 + q1 * b2 + 2 * (t1 * t2),
                              t1 * (b2 + q2) + t2 * (b1 + q1))
         == ClosureForm(q1 - b1, q2 - b2, d * t1 * t1, d * t2 * t2)
  {
    var m := d * t1 * t2;
    var tau := t1 * t2;
    var g1, g2, r1, r2 := q1 - b1, q2 - b2, q1 + b1, q2 + b2;
    var s1, s2 := d * t1 * t1, d * t2 * t2;
    var hh, ee := q1 * q2 + b1 * b2 + 2 * tau, b1 * q2 + q1 * b2 + 2 * tau;
    ClosureDifference(hh, ee, m);
    assert hh - ee == g1 * g2 && hh + ee == r1 * r2 + 4 * tau by { ClosureProducts(q1, b1, q2, b2); }
    ClosureSquare(d, t1, t2, r1, r2);
    SumDifferenceSquare(q1, b1);
    SumDifferenceSquare(q2, b2);
    ClosureFinish(m, tau, g1, g2, r1, r2, s1, s2, q1 * b1, q2 * b2) by {
      assert s1 * s2 == m * m by { TailProducts(d, 1, 1, t1, t2); }
      ClosureCross(d, t1, t2);
    }
  }

  function ClosureForm(g1: int, g2: int, s1: int, s2: int): int {
    g1 * g2 * (1 + s1 * s2) - (1 - s1 * s2) * (1 - s1 * s2) - s1 * (g2 * g2) - s2 * (g1 * g1)
  }

  lemma ClosureDifference(hh: int, ee: int, m: int)
    ensures hh * ((1 + m) * (1 + m)) - ee * ((1 - m) * (1 - m)) == (hh - ee) * (1 + m * m) + 2 * m * (hh + ee)
  {}

  lemma ClosureProducts(q1: int, b1: int, q2: int, b2: int)
    ensures (q1 * q2 + b1 * b2) - (b1 * q2 + q1 * b2) == (q1 - b1) * (q2 - b2)
    ensures (q1 * q2 + b1 * b2) + (b1 * q2 + q1 * b2) == (q1 + b1) * (q2 + b2)
  {}

  lemma ClosureSquare(d: int, t1: int, t2: int, r1: int, r2: int)
    ensures d * (t1 * r2 + t2 * r1) * (t1 * r2 + t2 * r1)
         == (d * t1 * t1) * (r2 * r2) + (d * t2 * t2) * (r1 * r1) + 2 * ((d * t1 * t2) * (r1 * r2))
  {
    var a, b := t1 * r2, t2 * r1;
    Binomial(a, b);
    ReassocSquare(d, a + b);
    Distribute3(d, a * a, 2 * (a * b), b * b);
    SquareOfScaled(d, t1, r2);
    SquareOfScaled(d, t2, r1);
    CrossOfScaled(d, t1, t2, r1, r2);
  }

  lemma ReassocSquare(d: int, n: int)
    ensures d * n * n == d * (n * n)
  {}

  lemma SquareOfScaled(d: int, t: int, r: int)
    ensures d * ((t * r) * (t * r)) == (d * t * t) * (r * r)
  {}

  lemma CrossOfScaled(d: int, t1: int, t2: int, r1: int, r2: int)
    ensures d * (2 * ((t1 * r2) * (t2 * r1))) == 2 * ((d * t1 * t2) * (r1 * r2))
  {}

  lemma SumDifferenceSquare(q: int, b: int)
    ensures (q + b) * (q + b) == (q - b) * (q - b) + 4 * (q * b)
  {}

  lemma ClosureCross(d: int, t1: int, t2: int)
    ensures (d * t1 * t1) * (t2 * t2) == (d * t1 * t2) * (t1 * t2) == (d * t2 * t2) * (t1 * t1)
  {}

  lemma ClosureFinish(m: int, tau: int, g1: int, g2: int, r1: int, r2: int, s1: int, s2: int, n1: int, n2: int)
    requires s1 * s2 == m * m && s1 * n2 == m * tau && s2 * n1 == m * tau
    requires r1 * r1 == g1 * g1 + 4 * n1 && r2 * r2 == g2 * g2 + 4 * n2
    ensures g1 * g2 * (1 + m * m) + 2 * m * (r1 * r2 + 4 * tau) - (1 - m * m) * (1 - m * m)
          - (s1 * (r2 * r2) + s2 * (r1 * r1) + 2 * (m * (r1 * r2)))
         == ClosureForm(g1, g2, s1, s2)
  {
    Distribute2(s1, g2 * g2, 4 * n2);
    Distribute2(s2, g1 * g1, 4 * n1);
    Distribute2(2 * m, r1 * r2, 4 * tau);
  }

  lemma ClosureZero(p: int, g1: int, g2: int, s1: int, s2: int)
    requires p > 0 && Zero(p, g1 - 1 - s1) && Zero(p, g2 - 1 - s2)
    ensures Zero(p, ClosureForm(g1, g2, s1, s2))
  {
    hide Zero;
    var k1, k2, u := g1 - 1 - s1, g2 - 1 - s2, 1 + s1 * s2;
    ZeroMul(p, g2 * u - s2 * (g1 + 1 + s1), k1);
    ZeroMul(p, (1 + s1) * u - s1 * (g2 + 1 + s2), k2);
    ZeroAdd(p, (g2 * u - s2 * (g1 + 1 + s1)) * k1, ((1 + s1) * u - s1 * (g2 + 1 + s2)) * k2);
    ClosureShift1(g1, g2, s1, s2);
    ClosureShift2(g2, s1, s2);
    ClosureAtCurve(s1, s2);
  }

  lemma ClosureShift1(g1: int, g2: int, s1: int, s2: int)
    ensures ClosureForm(g1, g2, s1, s2) - ClosureForm(1 + s1, g2, s1, s2)
         == (g2 * (1 + s1 * s2) - s2 * (g1 + 1 + s1)) * (g1 - 1 - s1)
  {
    var k, u := g1 - 1 - s1, 1 + s1 * s2;
    MulMinus(k, g2 * u, s2 * (g1 + 1 + s1));
    DifferenceOfSquares(g1, 1 + s1);
    MulMinus(s2, g1 * g1, (1 + s1) * (1 + s1));
    MulMinus(g2 * u, g1, 1 + s1);
  }

  lemma ClosureShift2(g2: int, s1: int, s2: int)
    ensures ClosureForm(1 + s1, g2, s1, s2) - ClosureForm(1 + s1, 1 + s2, s1, s2)
         == ((1 + s1) * (1 + s1 * s2) - s1 * (g2 + 1 + s2)) * (g2 - 1 - s2)
  {
    ClosureShift1(g2, 1 + s1, s2, s1);
  }

  lemma DifferenceOfSquares(a: int, b: int)
    ensures (a + b) * (a - b) == a * a - b * b
  {}

  lemma ClosureAtCurve(s1: int, s2: int)
    ensures ClosureForm(1 + s1, 1 + s2, s1, s2) == 0
  {
    var w := s1 * s2;
    assert (1 + s1) * (1 + s2) == 1 + s1 + s2 + w;
    OnePlusSquare(s1, s2);
    OnePlusSquare(s2, s1);
    ClosureCancel(s1 + s2, w);
  }

  lemma OnePlusSquare(s: int, t: int)
    ensures s * ((1 + t) * (1 + t)) == s + 2 * (s * t) + (s * t) * t
  {
    Binomial(1, t);
    Distribute3(s, 1, 2 * t, t * t);
  }

  lemma ClosureCancel(n: int, w: int)
    ensures (1 + n + w) * (1 + w) == (1 - w) * (1 - w) + n + 4 * w + w * n
  {}

  lemma HomogeneousCongruent(p: int, d: int, m: int, h: int, e: int, h': int, e': int)
    requires p > 0 && Zero(p, h - h') && Zero(p, e - e')
    ensures Zero(p, HomogeneousDefect(d, m, h * h, e * e, e * h) - HomogeneousDefect(d, m, h' * h', e' * e', e' * h'))
  {
    hide Zero;
    MulCongruent(p, h, h', h, h');
    MulCongruent(p, e, e', e, e');
    MulCongruent(p, e, e', h, h');
    HomogeneousLinear(p, d, m, h * h, e * e, e * h, h' * h', e' * e', e' * h');
  }

  lemma HomogeneousLinear(p: int, d: int, m: int, hh: int, ee: int, eh: int, hh': int, ee': int, eh': int)
    requires p > 0 && Zero(p, hh - hh') && Zero(p, ee - ee') && Zero(p, eh - eh')
    ensures Zero(p, HomogeneousDefect(d, m, hh, ee, eh) - HomogeneousDefect(d, m, hh', ee', eh'))
  {
    hide Zero;
    var u, v := (1 + m) * (1 + m), (1 - m) * (1 - m);
    ZeroMul(p, u, hh - hh');
    ZeroMul(p, v, ee - ee');
    ZeroMul(p, d * (eh + eh'), eh - eh');
    ZeroAdd(p, u * (hh - hh'), v * (ee - ee'));
    ZeroAdd(p, u * (hh - hh') - v * (ee - ee'), d * (eh + eh') * (eh - eh'));
    MulMinus(u, hh, hh');
    MulMinus(v, ee, ee');
    ScaledDifferenceOfSquares(d, eh, eh');
  }

  lemma ScaledDifferenceOfSquares(d: int, a: int, b: int)
    ensures d * (a + b) * (a - b) == d * a * a - d * b * b
  {}

  lemma ScaleDefect(d: int, x: int, y: int, f: int, g: int)
    ensures (f * g) * (f * g) * Defect(d, x, y)
         == (f * y) * (f * y) * (g * g) - (g * x) * (g * x) * (f * f) - (f * g) * (f * g)
          - d * ((g * x) * (f * y)) * ((g * x) * (f * y))
  {
    var w := (f * g) * (f * g);
    Distribute4(w, y * y, -(x * x), -1, -(d * (x * y) * (x * y)));
    assert w * (y * y) == (f * y) * (f * y) * (g * g) by { RegroupSquares(f, g, y); }
    assert w * (x * x) == (g * x) * (g * x) * (f * f) by { RegroupSquares(g, f, x); }
    RegroupFourth(d, x, y, f, g);
  }

  lemma RegroupSquares(f: int, g: int, y: int)
    ensures (f * g) * (f * g) * (y * y) == (f * y) * (f * y) * (g * g)
  {}

  lemma RegroupFourth(d: int, x: int, y: int, f: int, g: int)
    ensures (f * g) * (f * g) * (d * (x * y) * (x * y)) == d * ((g * x) * (f * y)) * ((g * x) * (f * y))
  {}

  /** The cleared curve equation holds for the numerators of the sum. */
  lemma NumeratorsOnCurve(c: Curve, a: Point, b: Point)
    requires c.p > 0 && c.OnCurve(a) && c.OnCurve(b)
    ensures var e, h := a.x * b.y + a.y * b.x, a.y * b.y + a.x * b.x;
            Zero(c.p, HomogeneousDefect(c.d, Cross(c, a, b), h * h, e * e, e * h))
  {
    hide Zero;
    var t1, t2 := a.x * a.y, b.x * b.y;
    NumeratorSquares(a.x, a.y, b.x, b.y);
    NumeratorSquares(a.y, a.x, b.x, b.y);
    NumeratorProduct(a.x, a.y, b.x, b.y);
    ProductOfProducts(a.x, a.y, a.x, a.y);
    ProductOfProducts(b.x, b.y, b.x, b.y);
    ClosureGather(a.y * a.y, a.x * a.x, b.y * b.y, b.x * b.x, c.d, t1, t2);
    ClosureZero(c.p, a.y * a.y - a.x * a.x, b.y * b.y - b.x * b.x, c.d * t1 * t1, c.d * t2 * t2);
  }

  lemma SumOnCurve(c: Curve, a: Point, b: Point, s: Point)
    requires c.Valid() && c.OnCurve(a) && c.OnCurve(b) && SumOf(c, a, b, s)
    ensures c.OnCurve(s)
  {
    hide Zero, Prime;
    var p, m := c.p, Cross(c, a, b);
    var f, g, e, h := 1 - m, 1 + m, a.x * b.y + a.y * b.x, a.y * b.y + a.x * b.x;
    NumeratorsOnCurve(c, a, b);
    HomogeneousCongruent(p, c.d, m, f * s.y, g * s.x, h, e);
    ZeroAdd(p, HomogeneousDefect(c.d, m, (f * s.y) * (f * s.y), (g * s.x) * (g * s.x), (g * s.x) * (f * s.y))
               - HomogeneousDefect(c.d, m, h * h, e * e, e * h), HomogeneousDefect(c.d, m, h * h, e * e, e * h));
    ClearedDefect(c.d, s.x, s.y, m);
    DenominatorsNonZero(c, a, b);
    DefectFromCleared(p, f, g, Defect(c.d, s.x, s.y));
  }

  lemma ClearedDefect(d: int, x: int, y: int, m: int)
    ensures var f, g := 1 - m, 1 + m;
            HomogeneousDefect(d, m, (f * y) * (f * y), (g * x) * (g * x), (g * x) * (f * y))
            == (f * g) * (f * g) * Defect(d, x, y)
  {
    ScaleDefect(d, x, y, 1 - m, 1 + m);
    DifferenceOfSquares(1, m);
  }

  lemma DefectFromCleared(p: int, f: int, g: int, k: int)
    requires Prime(p) && !Zero(p, f) && !Zero(p, g) && Zero(p, (f * g) * (f * g) * k)
    ensures Zero(p, k)
  {
    hide Zero, Prime;
    NonZeroProduct(p, f, g);
    NonZeroProduct(p, f * g, f * g);
    Cancel(p, (f * g) * (f * g), k);
  }

  lemma AddOnCurve(c: Curve, a: Point, b: Point)
    requires c.Valid() && c.OnCurve(a) && c.OnCurve(b)
    ensures c.OnCurve(Add(c, a, b))
  {
    AddIsSum(c, a, b);
    SumOnCurve(c, a, b, Add(c, a, b));
  }

  // ---- Associativity ----
  //
  // For a point write u = y + x, v = y - x, t = x y, r = x^2 + y^2, k = 1 + d t^2. On the curve
  // u v = k, hence u r = k v + 2 t u and v r = k u - 2 t v. With m = d t1 t2 the sum of two points has
  // (y + x) (1 - m^2) = u1 u2 + m v1 v2 and (y - x) (1 - m^2) = v1 v2 + m u1 u2.

  function Bracket(q: int, w: int, u: int, v: int, m: int, k: int, g: int, f: int): int {
    (q + m * w) * u * f - (w + m * q) * (k * u - 2 * g * v)
  }

  function Mixed(x: int, y: int, u: int, v: int, m: int, n: int, k: int, g: int): int {
    (n * x - m * y) * (k * v + 2 * g * u)
  }

  /** Both bracketings, reduced by the curve equations: every coefficient cancels. */
  lemma AssociativityCore(u1: int, v1: int, u2: int, v2: int, u3: int, v3: int, m: int, n: int, e: int, g: int)
    ensures Bracket(u1 * u2, v1 * v2, u3, v3, m, m + n * e, g, 1 - n * n)
          - Bracket(u2 * u3, v2 * v3, u1, v1, n, n + m * e, g, 1 - m * m)
          + Mixed(u3 * v1, u1 * v3, u2, v2, m, n, e + m * n, g)
         == 0
  {
    hide Bracket, Mixed;
    // The six products of one coordinate per point.
    var a, b, q, w, s, z := u1 * u2 * u3, v1 * v2 * u3, u1 * v2 * v3, v1 * v2 * v3, u1 * u2 * v3, v1 * u2 * u3;
    BracketExpand(u1 * u2, v1 * v2, u3, v3, m, m + n * e, g, 1 - n * n);
    BracketExpand(u2 * u3, v2 * v3, u1, v1, n, n + m * e, g, 1 - m * m);
    MixedExpand(u3 * v1, u1 * v3, u2, v2, m, n, e + m * n, g);
    Rotate(u1, u2, u3);
    Rotate(v1, v2, u3);
    Rotate(u1, v2, v3);
    Rotate(v1, v2, v3);
    Rotate(u1, u2, v3);
    Rotate(v1, u2, u3);
    AssociativityCancel(a, b, q, w, s, z, m, n, e, g);
  }

  lemma BracketExpand(q: int, w: int, u: int, v: int, m: int, k: int, g: int, f: int)
    ensures Bracket(q, w, u, v, m, k, g, f)
         == (q * u) * f + (w * u) * (m * f)
          - ((w * u) * k + (q * u) * (m * k) - (w * v) * (2 * g) - (q * v) * (2 * (m * g)))
  {
    BracketTerms(q, w, u, v, m, k, g, f);
  }

  lemma BracketTerms(q: int, w: int, u: int, v: int, m: int, k: int, g: int, f: int)
    ensures (q + m * w) * u * f == (q * u) * f + (w * u) * (m * f)
    ensures (w + m * q) * (k * u - 2 * g * v)
         == (w * u) * k + (q * u) * (m * k) - (w * v) * (2 * g) - (q * v) * (2 * (m * g))
  {
    Distribute2(w + m * q, k * u, -(2 * g * v));
  }

  lemma MixedExpand(x: int, y: int, u: int, v: int, m: int, n: int, k: int, g: int)
    ensures Mixed(x, y, u, v, m, n, k, g)
         == (x * v) * (n * k) + (x * u) * (2 * (n * g)) - (y * v) * (m * k) - (y * u) * (2 * (m * g))
  {
    Distribute2(n * x - m * y, k * v, 2 * g * u);
    MixedTerm(x, y, m, n, k, v);
    MixedTerm(x, y, m, n, 2 * g, u);
  }

  lemma MixedTerm(x: int, y: int, m: int, n: int, k: int, v: int)
    ensures (n * x - m * y) * (k * v) == (x * v) * (n * k) - (y * v) * (m * k)
  {}

  lemma Rotate(a: int, b: int, c: int)
    ensures (b * c) * a == a * b * c && (c * a) * b == a * b * c
  {}

  lemma AssociativityCancel(a: int, b: int, q: int, w: int, s: int, z: int, m: int, n: int, e: int, g: int)
    ensures a * (1 - n * n) + b * (m * (1 - n * n))
          - (b * (m + n * e) + a * (m * (m + n * e)) - w * (2 * g) - s * (2 * (m * g)))
          - (a * (1 - m * m) + q * (n * (1 - m * m))
             - (q * (n + m * e) + a * (n * (n + m * e)) - w * (2 * g) - z * (2 * (n * g))))
          + (b * (n * (e + m * n)) + z * (2 * (n * g)) - q * (m * (e + m * n)) - s * (2 * (m * g)))
         == 0
  {
    Coefficient(a, 1 - n * n, -(m * (m + n * e)), -(1 - m * m), n * (n + m * e));
    Coefficient(b, m * (1 - n * n), -(m + n * e), n * (e + m * n), 0);
    Coefficient(q, -(n * (1 - m * m)), n + m * e, -(m * (e + m * n)), 0);
    CoefficientsVanish(m, n, e);
  }

  lemma Coefficient(a: int, i: int, j: int, k: int, l: int)
    ensures a * i + a * j + a * k + a * l == a * (i + j + k + l)
  {}

  lemma CoefficientsVanish(m: int, n: int, e: int)
    ensures (1 - n * n) - m * (m + n * e) - (1 - m * m) + n * (n + m * e) == 0
    ensures m * (1 - n * n) - (m + n * e) + n * (e + m * n) == 0
    ensures -(n * (1 - m * m)) + (n + m * e) - m * (e + m * n) == 0
  {}

  // Numerators and denominators of (a + b) + q, cleared of the denominators of a + b.

  function SumE(a: Point, b: Point): int { a.x * b.y + a.y * b.x }

  function SumH(a: Point, b: Point): int { a.y * b.y + a.x * b.x }

  function ChainE(c: Curve, a: Point, b: Point, q: Point): int {
    var m := Cross(c, a, b);
    (SumE(a, b) * (1 - m)) * q.y + (SumH(a, b) * (1 + m)) * q.x
  }

  function ChainH(c: Curve, a: Point, b: Point, q: Point): int {
    var m := Cross(c, a, b);
    (SumH(a, b) * (1 + m)) * q.y + (SumE(a, b) * (1 - m)) * q.x
  }

  /** d t3 e h, the cleared form of the product of the second addition. */
  function ChainCross(c: Curve, a: Point, b: Point, q: Point): int {
    c.d * (q.x * q.y) * (SumE(a, b) * SumH(a, b))
  }

  function ChainW(c: Curve, a: Point, b: Point): int {
    1 - Cross(c, a, b) * Cross(c, a, b)
  }

  /** (1 - m) x_s and (1 + m) y_s determine the cleared product. */
  lemma ClearedCross(p: int, d: int, m: int, t: int, x: int, y: int, e: int, h: int)
    requires p > 0 && Zero(p, (1 + m) * x - e) && Zero(p, (1 - m) * y - h)
    ensures Zero(p, (1 - m * m) * (d * (x * y) * t) - d * t * (e * h))
  {
    hide Zero;
    MulCongruent(p, (1 + m) * x, e, (1 - m) * y, h);
    ZeroMul(p, d * t, ((1 + m) * x) * ((1 - m) * y) - e * h);
    MulMinus(d * t, ((1 + m) * x) * ((1 - m) * y), e * h);
    ProductOfProducts(1 + m, x, 1 - m, y);
    DifferenceOfSquares(1, m);
    ClearedCrossOrder(d, t, x * y, 1 - m * m);
  }

  lemma ClearedCrossOrder(d: int, t: int, n: int, f: int)
    ensures d * t * (f * n) == f * (d * n * t)
  {}

  lemma ClearedSum(p: int, m: int, x: int, y: int, e: int, h: int, x3: int, y3: int)
    requires p > 0 && Zero(p, (1 + m) * x - e) && Zero(p, (1 - m) * y - h)
    ensures Zero(p, (1 - m * m) * (x * y3 + y * x3) - ((e * (1 - m)) * y3 + (h * (1 + m)) * x3))
  {
    hide Zero;
    var f, g := 1 - m, 1 + m;
    ZeroMul(p, f * y3, g * x - e);
    ZeroMul(p, g * x3, f * y - h);
    ZeroAdd(p, (f * y3) * (g * x - e), (g * x3) * (f * y - h));
    MulMinus(f * y3, g * x, e);
    MulMinus(g * x3, f * y, h);
    DifferenceOfSquares(1, m);
    Distribute2(g * f, x * y3, y * x3);
    ClearedSumOrder(f, g, x, y3, e);
    ClearedSumOrder(g, f, y, x3, h);
  }

  lemma ClearedSumOrder(f: int, g: int, x: int, y: int, e: int)
    ensures (f * y) * (g * x) == (f * g) * (x * y) && (g * f) * (x * y) == (f * g) * (x * y)
    ensures (f * y) * e == (e * f) * y
  {}

  /** From (1 + sign ms) w = n, cleared by f: (f + sign f ms) w is congruent to f n. */
  lemma ClearedQuotient(p: int, f: int, ms: int, w: int, n: int, k: int, r: int)
    requires p > 0 && Zero(p, (1 + ms) * w - n) && Zero(p, f * ms - k) && Zero(p, f * n - r)
    ensures Zero(p, (f + k) * w - r)
    ensures Zero(p, f * (1 + ms) - (f + k))
  {
    hide Zero;
    var a, b := (1 + ms) * w - n, f * ms - k;
    ClearedQuotientOrder(f, ms, w, n, k, r, a, b);
    ZeroMul(p, f, a);
    ZeroMul(p, w, b);
    ZeroAdd(p, f * a, w * b);
    ZeroAdd(p, f * a - w * b, f * n - r);
  }

  lemma ClearedQuotientOrder(f: int, ms: int, w: int, n: int, k: int, r: int, a: int, b: int)
    requires a == (1 + ms) * w - n && b == f * ms - k
    ensures f * a - w * b + (f * n - r) == (f + k) * w - r
    ensures f * (1 + ms) - (f + k) == b
  {
    MulMinus(f, (1 + ms) * w, n);
    MulMinus(w, f * ms, k);
    assert f * ((1 + ms) * w) == f * w + w * (f * ms);
  }

  lemma CongruentNonZero(p: int, a: int, b: int)
    requires p > 0 && !Zero(p, a) && Zero(p, a - b)
    ensures !Zero(p, b)
  {
    hide Zero;
    if Zero(p, b) { ZeroAdd(p, a - b, b); }
  }

  lemma ChainX(c: Curve, a: Point, b: Point, s: Point, q: Point, w: Point)
    requires c.p > 0 && SumOf(c, a, b, s) && SumOf(c, s, q, w)
    ensures var f, k := ChainW(c, a, b), ChainCross(c, a, b, q);
            && Zero(c.p, (f + k) * w.x - ChainE(c, a, b, q))
            && Zero(c.p, f * (1 + Cross(c, s, q)) - (f + k))
  {
    hide Zero;
    var m, e, h := Cross(c, a, b), SumE(a, b), SumH(a, b);
    ClearedCross(c.p, c.d, m, q.x * q.y, s.x, s.y, e, h);
    ClearedSum(c.p, m, s.x, s.y, e, h, q.x, q.y);
    ClearedQuotient(c.p, ChainW(c, a, b), Cross(c, s, q), w.x, s.x * q.y + s.y * q.x,
                    ChainCross(c, a, b, q), ChainE(c, a, b, q));
  }

  lemma ChainY(c: Curve, a: Point, b: Point, s: Point, q: Point, w: Point)
    requires c.p > 0 && SumOf(c, a, b, s) && SumOf(c, s, q, w)
    ensures var f, k := ChainW(c, a, b), ChainCross(c, a, b, q);
            && Zero(c.p, (f - k) * w.y - ChainH(c, a, b, q))
            && Zero(c.p, f * (1 - Cross(c, s, q)) - (f - k))
  {
    hide Zero;
    var m, e, h := Cross(c, a, b), SumE(a, b), SumH(a, b);
    var f, k, ms := ChainW(c, a, b), ChainCross(c, a, b, q), Cross(c, s, q);
    ClearedCross(c.p, c.d, m, q.x * q.y, s.x, s.y, e, h);
    NegatedCross(c.p, f, ms, k);
    MinusSquare(m);
    ClearedSum(c.p, -m, s.y, s.x, h, e, q.x, q.y);
    ClearedQuotient(c.p, f, -ms, w.y, s.y * q.y + s.x * q.x, -k, ChainH(c, a, b, q));
  }

  lemma MinusSquare(m: int)
    ensures (-m) * (-m) == m * m
  {}

  /** The cleared equations of w = (a + b) + q, and their non-vanishing denominators. */
  lemma ChainSum(c: Curve, a: Point, b: Point, s: Point, q: Point, w: Point)
    requires c.Valid() && c.OnCurve(a) && c.OnCurve(b) && c.OnCurve(q)
    requires SumOf(c, a, b, s) && SumOf(c, s, q, w)
    ensures var f, k := ChainW(c, a, b), ChainCross(c, a, b, q);
            && Zero(c.p, (f + k) * w.x - ChainE(c, a, b, q)) && Zero(c.p, (f - k) * w.y - ChainH(c, a, b, q))
            && !Zero(c.p, f + k) && !Zero(c.p, f - k)
  {
    hide Zero, Prime, Cross, SumOf, ChainCross, ChainE, ChainH;
    var p, m, ms := c.p, Cross(c, a, b), Cross(c, s, q);
    var f, k := ChainW(c, a, b), ChainCross(c, a, b, q);
    ChainX(c, a, b, s, q, w);
    ChainY(c, a, b, s, q, w);
    SumOnCurve(c, a, b, s);
    DenominatorsNonZero(c, a, b);
    DenominatorsNonZero(c, s, q);
    DifferenceOfSquares(1, m);
    NonZeroProduct(p, 1 + m, 1 - m);
    NonZeroProduct(p, f, 1 + ms);
    NonZeroProduct(p, f, 1 - ms);
    CongruentNonZero(p, f * (1 + ms), f + k);
    CongruentNonZero(p, f * (1 - ms), f - k);
  }

  lemma NegatedCross(p: int, f: int, ms: int, k: int)
    requires p > 0 && Zero(p, f * ms - k)
    ensures Zero(p, f * (-ms) - (-k))
  {
    hide Zero;
    ZeroMul(p, -1, f * ms - k);
    assert f * (-ms) == -(f * ms);
  }

  /** u r = k v + 2 t u and v r = k u - 2 t v, for u = y + x and v = y - x. */
  ghost predicate Reduces(p: int, d: int, u: int, v: int, t: int, r: int)
    requires p > 0
  {
    && Zero(p, u * r - ((1 + d * t * t) * v + 2 * t * u))
    && Zero(p, v * r - ((1 + d * t * t) * u - 2 * t * v))
  }

  lemma PointReduces(c: Curve, a: Point)
    requires c.p > 0 && c.OnCurve(a)
    ensures Reduces(c.p, c.d, a.y + a.x, a.y - a.x, a.x * a.y, a.x * a.x + a.y * a.y)
    ensures Reduces(c.p, c.d, a.y - a.x, a.y + a.x, -(a.x * a.y), a.x * a.x + a.y * a.y)
  {
    hide Zero;
    var x, y := a.x, a.y;
    var z := Defect(c.d, x, y);
    ZeroMul(c.p, y - x, z);
    ZeroMul(c.p, y + x, z);
    ReduceIdentity(x, y, 1 + c.d * (x * y) * (x * y), z);
    ReducesNegated(c.p, c.d, y + x, y - x, x * y, x * x + y * y);
  }

  lemma ReducesNegated(p: int, d: int, u: int, v: int, t: int, r: int)
    requires p > 0 && Reduces(p, d, u, v, t, r)
    ensures Reduces(p, d, v, u, -t, r)
  {
    hide Zero;
    MinusSquare(t);
    ReassocSquare(d, t);
    ReassocSquare(d, -t);
    assert 2 * (-t) * u == -(2 * t * u) && 2 * (-t) * v == -(2 * t * v);
  }

  lemma ReduceIdentity(x: int, y: int, k: int, z: int)
    requires z == y * y - x * x - k
    ensures (y - x) * z == (y + x) * (x * x + y * y) - (k * (y - x) + 2 * (x * y) * (y + x))
    ensures (y + x) * z == (y - x) * (x * x + y * y) - (k * (y + x) - 2 * (x * y) * (y - x))
  {
    ReduceCubes(x, y);
    var q := y * y - x * x;
    MulMinus(y - x, q, k);
    MulMinus(y + x, q, k);
    ReduceOrder(y - x, y + x, q, k, z);
  }

  lemma ReduceOrder(v: int, u: int, q: int, k: int, z: int)
    requires z == q - k && v * (q - k) == v * q - v * k && u * (q - k) == u * q - u * k
    ensures v * z == v * q - k * v && u * z == u * q - k * u
  {}

  lemma ReduceCubes(x: int, y: int)
    ensures (y - x) * (y * y - x * x) == (y + x) * (x * x + y * y) - 2 * (x * y) * (y + x)
    ensures (y + x) * (y * y - x * x) == (y - x) * (x * x + y * y) + 2 * (x * y) * (y - x)
  {}

  /** The common part of both bracketings, with z1 = v1 r1, z2 = u2 r2 and z3 = v3 r3 to be reduced. */
  function BracketDifference(u1: int, v1: int, u2: int, v2: int, u3: int, v3: int,
                             m: int, n: int, e: int, z1: int, z2: int, z3: int): int {
    (u1 * u2 + m * (v1 * v2)) * u3 * (1 - n * n) - (v1 * v2 + m * (u1 * u2)) * (m * z3)
    - ((u2 * u3 + n * (v2 * v3)) * u1 * (1 - m * m) - (v2 * v3 + n * (u2 * u3)) * (n * z1))
    + (n * (u3 * v1) - m * (u1 * v3)) * (e * z2)
  }

  lemma ReducedProducts(d: int, t1: int, t2: int, t3: int, u: int, v: int)
    ensures var m, n, e, g := d * t1 * t2, d * t2 * t3, d * t1 * t3, d * t1 * t2 * t3;
            m * ((1 + d * t3 * t3) * u - 2 * t3 * v) == (m + n * e) * u - 2 * g * v
  {
    var m, k := d * t1 * t2, 1 + d * t3 * t3;
    assert m * k == m + (d * t2 * t3) * (d * t1 * t3) by {
      Distribute2(m, 1, d * t3 * t3);
      ReducedProduct(d, t1, t2, t3);
    }
    ReducedPair(m, k, t3, u, v);
  }

  lemma ReducedPair(m: int, k: int, t: int, u: int, v: int)
    ensures m * (k * u - 2 * t * v) == (m * k) * u - 2 * (m * t) * v
  {}

  lemma ReducedProduct(d: int, t1: int, t2: int, t3: int)
    ensures (d * t1 * t2) * (d * t3 * t3) == (d * t2 * t3) * (d * t1 * t3)
  {}

  /** Both bracketings agree modulo p, for formal points that satisfy the reductions. */
  lemma BracketDifferenceZero(p: int, d: int, u1: int, v1: int, t1: int, r1: int,
                              u2: int, v2: int, t2: int, r2: int, u3: int, v3: int, t3: int, r3: int)
    requires p > 0 && Reduces(p, d, u1, v1, t1, r1) && Reduces(p, d, u2, v2, t2, r2) && Reduces(p, d, u3, v3, t3, r3)
    ensures Zero(p, BracketDifference(u1, v1, u2, v2, u3, v3, d * t1 * t2, d * t2 * t3, d * t1 * t3,
                                      v1 * r1, u2 * r2, v3 * r3))
  {
    hide Zero, BracketDifference;
    var m, n, e, g := d * t1 * t2, d * t2 * t3, d * t1 * t3, d * t1 * t2 * t3;
    var z1 := (1 + d * t1 * t1) * u1 - 2 * t1 * v1;
    var z2 := (1 + d * t2 * t2) * v2 + 2 * t2 * u2;
    var z3 := (1 + d * t3 * t3) * u3 - 2 * t3 * v3;
    BracketDifferenceCongruent(p, u1, v1, u2, v2, u3, v3, m, n, e, v1 * r1, u2 * r2, v3 * r3, z1, z2, z3);
    assert m * z3 == (m + n * e) * u3 - 2 * g * v3 by { ReducedProducts(d, t1, t2, t3, u3, v3); }
    assert n * z1 == (n + m * e) * u1 - 2 * g * v1 by { ReducedProductsFirst(d, t1, t2, t3, u1, v1); }
    assert e * z2 == (e + m * n) * v2 + 2 * g * u2 by { ReducedProductsMiddle(d, t1, t2, t3, u2, v2); }
    AssociativityCore(u1, v1, u2, v2, u3, v3, m, n, e, g);
    BracketDifferenceReduced(u1, v1, u2, v2, u3, v3, m, n, e, g, z1, z2, z3);
  }

  lemma ReducedProductsFirst(d: int, t1: int, t2: int, t3: int, u: int, v: int)
    ensures var m, n, e, g := d * t1 * t2, d * t2 * t3, d * t1 * t3, d * t1 * t2 * t3;
            n * ((1 + d * t1 * t1) * u - 2 * t1 * v) == (n + m * e) * u - 2 * g * v
  {
    ReducedProducts(d, t2, t3, t1, u, v);
    TripleOrder(d, t1, t2, t3);
  }

  lemma ReducedProductsMiddle(d: int, t1: int, t2: int, t3: int, u: int, v: int)
    ensures var m, n, e, g := d * t1 * t2, d * t2 * t3, d * t1 * t3, d * t1 * t2 * t3;
            e * ((1 + d * t2 * t2) * v + 2 * t2 * u) == (e + m * n) * v + 2 * g * u
  {
    ReducedProducts(d, t1, t3, t2, v, -u);
    TripleOrder(d, t1, t2, t3);
    assert 2 * t2 * (-u) == -(2 * t2 * u);
    assert 2 * (d * t1 * t2 * t3) * (-u) == -(2 * (d * t1 * t2 * t3) * u);
  }

  lemma TripleOrder(d: int, t1: int, t2: int, t3: int)
    ensures d * t2 * t3 * t1 == d * t1 * t2 * t3 == d * t1 * t3 * t2
    ensures d * t3 * t2 == d * t2 * t3 && d * t3 * t1 == d * t1 * t3 && d * t2 * t1 == d * t1 * t2
    ensures (d * t2 * t3) * (d * t1 * t2) == (d * t1 * t2) * (d * t2 * t3)
  {}

  lemma BracketDifferenceReduced(u1: int, v1: int, u2: int, v2: int, u3: int, v3: int,
                                 m: int, n: int, e: int, g: int, z1: int, z2: int, z3: int)
    requires m * z3 == (m + n * e) * u3 - 2 * g * v3
    requires n * z1 == (n + m * e) * u1 - 2 * g * v1
    requires e * z2 == (e + m * n) * v2 + 2 * g * u2
    ensures BracketDifference(u1, v1, u2, v2, u3, v3, m, n, e, z1, z2, z3)
         == Bracket(u1 * u2, v1 * v2, u3, v3, m, m + n * e, g, 1 - n * n)
          - Bracket(u2 * u3, v2 * v3, u1, v1, n, n + m * e, g, 1 - m * m)
          + Mixed(u3 * v1, u1 * v3, u2, v2, m, n, e + m * n, g)
  {}

  lemma BracketDifferenceCongruent(p: int, u1: int, v1: int, u2: int, v2: int, u3: int, v3: int,
                                   m: int, n: int, e: int, z1: int, z2: int, z3: int, y1: int, y2: int, y3: int)
    requires p > 0 && Zero(p, z1 - y1) && Zero(p, z2 - y2) && Zero(p, z3 - y3)
    ensures Zero(p, BracketDifference(u1, v1, u2, v2, u3, v3, m, n, e, z1, z2, z3)
                    - BracketDifference(u1, v1, u2, v2, u3, v3, m, n, e, y1, y2, y3))
  {
    hide Zero;
    var a, b, x := v1 * v2 + m * (u1 * u2), v2 * v3 + n * (u2 * u3), n * (u3 * v1) - m * (u1 * v3);
    ScaledCongruent(p, a, m, z3, y3);
    ScaledCongruent(p, b, n, z1, y1);
    ScaledCongruent(p, x, e, z2, y2);
    ZeroAdd(p, b * (n * z1) - b * (n * y1), a * (m * z3) - a * (m * y3));
    ZeroAdd(p, b * (n * z1) - b * (n * y1) - (a * (m * z3) - a * (m * y3)), x * (e * z2) - x * (e * y2));
  }

  lemma ScaledCongruent(p: int, a: int, m: int, z: int, y: int)
    requires p > 0 && Zero(p, z - y)
    ensures Zero(p, a * (m * z) - a * (m * y))
  {
    hide Zero;
    ZeroMul(p, m, z - y);
    MulMinus(m, z, y);
    ZeroMul(p, a, m * z - m * y);
    MulMinus(a, m * z, m * y);
  }

  /** h' + e' and h' - e' factor, for the numerators e', h' of (a + b) + q. */
  lemma ChainFactors(c: Curve, a: Point, b: Point, q: Point)
    ensures var m, u, v := Cross(c, a, b), (a.y + a.x) * (b.y + b.x), (a.y - a.x) * (b.y - b.x);
            && ChainH(c, a, b, q) + ChainE(c, a, b, q) == (u + m * v) * (q.y + q.x)
            && ChainH(c, a, b, q) - ChainE(c, a, b, q) == (v + m * u) * (q.y - q.x)
  {
    var m, e, h := Cross(c, a, b), SumE(a, b), SumH(a, b);
    HalfSums(a, b);
    var ef, hg := e * (1 - m), h * (1 + m);
    assert hg + ef == (h + e) + m * (h - e) && hg - ef == (h - e) + m * (h + e);
    CrossSums(hg, ef, q.x, q.y);
  }

  lemma HalfSums(a: Point, b: Point)
    ensures (a.y + a.x) * (b.y + b.x) == SumH(a, b) + SumE(a, b)
    ensures (a.y - a.x) * (b.y - b.x) == SumH(a, b) - SumE(a, b)
  {}

  lemma CrossSums(s: int, t: int, x: int, y: int)
    ensures (s * y + t * x) + (t * y + s * x) == (s + t) * (y + x)
    ensures (s * y + t * x) - (t * y + s * x) == (s - t) * (y - x)
  {}

  /** x f' - k' y - (x' f - k y'): the cross-multiplied difference of the two bracketings. */
  function CrossDifference(x: int, y: int, f': int, k': int, x': int, y': int, f: int, k: int): int {
    x * f' - k' * y - (x' * f - k * y')
  }

  lemma BracketChain(d: int, u1: int, v1: int, t1: int, r1: int, u2: int, v2: int, t2: int, r2: int,
                     u3: int, v3: int, t3: int, r3: int, m: int, n: int)
    requires m == d * t1 * t2 && n == d * t2 * t3
    ensures CrossDifference((u1 * u2 + m * (v1 * v2)) * u3, (v1 * v2 + m * (u1 * u2)) * v3,
                            1 - n * n, d * t1 * (t2 * r3 + t3 * r2),
                            (u2 * u3 + n * (v2 * v3)) * u1, (v2 * v3 + n * (u2 * u3)) * v1,
                            1 - m * m, d * t3 * (t1 * r2 + t2 * r1))
         == BracketDifference(u1, v1, u2, v2, u3, v3, m, n, d * t1 * t3, v1 * r1, u2 * r2, v3 * r3)
  {
    var e := d * t1 * t3;
    var b, b' := v1 * v2 + m * (u1 * u2), v2 * v3 + n * (u2 * u3);
    assert (d * t1 * (t2 * r3 + t3 * r2)) * (b * v3) == b * (m * (v3 * r3)) + (b * v3) * (e * r2) by {
      ChainTerm(d, t1, t2, t3, r2, r3, b, v3);
    }
    assert (d * t3 * (t1 * r2 + t2 * r1)) * (b' * v1) == b' * (n * (v1 * r1)) + (b' * v1) * (e * r2) by {
      ChainTerm(d, t3, t2, t1, r2, r1, b', v1);
      TripleOrder(d, t1, t2, t3);
    }
    MiddleTerm(u1, v1, u2, v2, u3, v3, m, n, e, r2);
  }

  lemma ChainTerm(d: int, t1: int, t2: int, t3: int, r2: int, r3: int, b: int, v: int)
    ensures (d * t1 * (t2 * r3 + t3 * r2)) * (b * v) == b * ((d * t1 * t2) * (v * r3)) + (b * v) * ((d * t1 * t3) * r2)
  {
    Distribute2(d * t1, t2 * r3, t3 * r2);
    Distribute2(b * v, d * t1 * (t2 * r3), d * t1 * (t3 * r2));
    assert (b * v) * (d * t1 * (t2 * r3)) == b * ((d * t1 * t2) * (v * r3));
    assert d * t1 * (t3 * r2) == (d * t1 * t3) * r2;
  }

  lemma MiddleTerm(u1: int, v1: int, u2: int, v2: int, u3: int, v3: int, m: int, n: int, e: int, r: int)
    ensures ((v2 * v3 + n * (u2 * u3)) * v1) * (e * r) - ((v1 * v2 + m * (u1 * u2)) * v3) * (e * r)
         == (n * (u3 * v1) - m * (u1 * v3)) * (e * (u2 * r))
  {
    var x := n * (u3 * v1) - m * (u1 * v3);
    assert (v2 * v3 + n * (u2 * u3)) * v1 - (v1 * v2 + m * (u1 * u2)) * v3 == u2 * x by {
      MiddleFactor(u1, v1, u2, v2, u3, v3, m, n);
    }
    MulMinus(e * r, (v2 * v3 + n * (u2 * u3)) * v1, (v1 * v2 + m * (u1 * u2)) * v3);
    assert (e * r) * (u2 * x) == x * (e * (u2 * r));
  }

  lemma MiddleFactor(u1: int, v1: int, u2: int, v2: int, u3: int, v3: int, m: int, n: int)
    ensures (v2 * v3 + n * (u2 * u3)) * v1 - (v1 * v2 + m * (u1 * u2)) * v3 == u2 * (n * (u3 * v1) - m * (u1 * v3))
  {
    assert (v2 * v3) * v1 == (v1 * v2) * v3;
    assert (n * (u2 * u3)) * v1 == u2 * (n * (u3 * v1));
    assert (m * (u1 * u2)) * v3 == u2 * (m * (u1 * v3));
  }

  /** Both bracketings of three formal points agree modulo p. */
  lemma FormalAssociativity(p: int, d: int, u1: int, v1: int, t1: int, r1: int, u2: int, v2: int, t2: int, r2: int,
                            u3: int, v3: int, t3: int, r3: int, m: int, n: int)
    requires p > 0 && Reduces(p, d, u1, v1, t1, r1) && Reduces(p, d, u2, v2, t2, r2) && Reduces(p, d, u3, v3, t3, r3)
    requires m == d * t1 * t2 && n == d * t2 * t3
    ensures Zero(p, CrossDifference((u1 * u2 + m * (v1 * v2)) * u3, (v1 * v2 + m * (u1 * u2)) * v3,
                                    1 - n * n, d * t1 * (t2 * r3 + t3 * r2),
                                    (u2 * u3 + n * (v2 * v3)) * u1, (v2 * v3 + n * (u2 * u3)) * v1,
                                    1 - m * m, d * t3 * (t1 * r2 + t2 * r1)))
  {
    hide *;
    BracketDifferenceZero(p, d, u1, v1, t1, r1, u2, v2, t2, r2, u3, v3, t3, r3);
    BracketChain(d, u1, v1, t1, r1, u2, v2, t2, r2, u3, v3, t3, r3, m, n);
  }

  /** (a + b) + q against (b + q) + a, in the combinations h + e and h - e of the numerators. */
  lemma BothBracketings(c: Curve, a: Point, b: Point, q: Point)
    requires c.p > 0 && c.OnCurve(a) && c.OnCurve(b) && c.OnCurve(q)
    ensures var e, h, e', h' := ChainE(c, a, b, q), ChainH(c, a, b, q), ChainE(c, b, q, a), ChainH(c, b, q, a);
            var f, k, f', k' := ChainW(c, a, b), ChainCross(c, a, b, q), ChainW(c, b, q), ChainCross(c, b, q, a);
            && Zero(c.p, CrossDifference(h + e, h - e, f', k', h' + e', h' - e', f, k))
            && Zero(c.p, CrossDifference(h - e, h + e, f', k', h' - e', h' + e', f, k))
  {
    hide Zero, CrossDifference, Reduces, ChainE, ChainH;
    var p, d, t1, t2, t3 := c.p, c.d, a.x * a.y, b.x * b.y, q.x * q.y;
    var r1, r2, r3 := a.x * a.x + a.y * a.y, b.x * b.x + b.y * b.y, q.x * q.x + q.y * q.y;
    var m, n := Cross(c, a, b), Cross(c, b, q);
    PointReduces(c, a);
    PointReduces(c, b);
    PointReduces(c, q);
    ChainFactors(c, a, b, q);
    ChainFactors(c, b, q, a);
    NumeratorProduct(a.x, a.y, b.x, b.y);
    NumeratorProduct(b.x, b.y, q.x, q.y);
    FormalAssociativity(p, d, a.y + a.x, a.y - a.x, t1, r1, b.y + b.x, b.y - b.x, t2, r2,
                        q.y + q.x, q.y - q.x, t3, r3, m, n);
    NegatedProducts(d, t1, t2, t3, r1, r2, r3);
    FormalAssociativity(p, d, a.y - a.x, a.y + a.x, -t1, r1, b.y - b.x, b.y + b.x, -t2, r2,
                        q.y - q.x, q.y + q.x, -t3, r3, m, n);
  }

  lemma NegatedProducts(d: int, t1: int, t2: int, t3: int, r1: int, r2: int, r3: int)
    ensures d * (-t1) * (-t2) == d * t1 * t2 && d * (-t2) * (-t3) == d * t2 * t3
    ensures d * (-t1) * ((-t2) * r3 + (-t3) * r2) == d * t1 * (t2 * r3 + t3 * r2)
    ensures d * (-t3) * ((-t1) * r2 + (-t2) * r1) == d * t3 * (t1 * r2 + t2 * r1)
  {
    assert (-t2) * r3 + (-t3) * r2 == -(t2 * r3 + t3 * r2);
    assert (-t1) * r2 + (-t2) * r1 == -(t1 * r2 + t2 * r1);
    NegatedProduct(d, t1, t2);
    NegatedProduct(d, t2, t3);
    NegatedProduct(d, t1, t2 * r3 + t3 * r2);
    NegatedProduct(d, t3, t1 * r2 + t2 * r1);
  }

  lemma NegatedProduct(d: int, t: int, s: int)
    ensures d * (-t) * (-s) == d * t * s
  {}

  lemma Halves(p: int, h: int, e: int, f': int, k': int, h': int, e': int, f: int, k: int)
    requires p > 2 && Prime(p)
    requires Zero(p, CrossDifference(h + e, h - e, f', k', h' + e', h' - e', f, k))
    requires Zero(p, CrossDifference(h - e, h + e, f', k', h' - e', h' + e', f, k))
    ensures Zero(p, h * (f' - k') - h' * (f - k)) && Zero(p, e * (f' + k') - e' * (f + k))
  {
    hide Zero, Prime, CrossDifference;
    var i := CrossDifference(h + e, h - e, f', k', h' + e', h' - e', f, k);
    var j := CrossDifference(h - e, h + e, f', k', h' - e', h' + e', f, k);
    ZeroAdd(p, i, j);
    HalvesIdentity(h, e, f', k', h', e', f, k);
    TwoNonZero(p);
    Cancel(p, 2, h * (f' - k') - h' * (f - k));
    Cancel(p, 2, e * (f' + k') - e' * (f + k));
  }

  lemma HalvesIdentity(h: int, e: int, f': int, k': int, h': int, e': int, f: int, k: int)
    ensures CrossDifference(h + e, h - e, f', k', h' + e', h' - e', f, k)
          + CrossDifference(h - e, h + e, f', k', h' - e', h' + e', f, k) == 2 * (h * (f' - k') - h' * (f - k))
    ensures CrossDifference(h + e, h - e, f', k', h' + e', h' - e', f, k)
          - CrossDifference(h - e, h + e, f', k', h' - e', h' + e', f, k) == 2 * (e * (f' + k') - e' * (f + k))
  {}

  /** Two quotients n/q and n'/q' with n q' = n' q are equal. */
  lemma EqualQuotients(p: int, q: int, n: int, q': int, n': int, x: int, x': int)
    requires Prime(p) && !Zero(p, q) && !Zero(p, q') && 0 <= x < p && 0 <= x' < p
    requires Zero(p, q * x - n) && Zero(p, q' * x' - n') && Zero(p, n * q' - n' * q)
    ensures x == x'
  {
    hide Zero, Prime;
    ZeroMul(p, q', q * x - n);
    ZeroMul(p, q, q' * x' - n');
    ZeroAdd(p, q' * (q * x - n), q * (q' * x' - n'));
    ZeroAdd(p, q' * (q * x - n) - q * (q' * x' - n'), n * q' - n' * q);
    EqualQuotientsIdentity(q, n, q', n', x, x');
    NonZeroProduct(p, q, q');
    Cancel(p, q * q', x - x');
    ZeroSmall(p, x - x');
  }

  lemma EqualQuotientsIdentity(q: int, n: int, q': int, n': int, x: int, x': int)
    ensures q' * (q * x - n) - q * (q' * x' - n') + (n * q' - n' * q) == (q * q') * (x - x')
  {}

  /** The addition law is associative. */
  lemma AddAssociates(c: Curve, a: Point, b: Point, q: Point)
    requires c.Valid() && c.OnCurve(a) && c.OnCurve(b) && c.OnCurve(q)
    ensures Add(c, Add(c, a, b), q) == Add(c, a, Add(c, b, q))
  {
    hide Zero, Prime, Add, CrossDifference, ChainE, ChainH, ChainW, ChainCross;
    var s, s' := Add(c, a, b), Add(c, b, q);
    var w, w' := Add(c, s, q), Add(c, s', a);
    AddOnCurve(c, a, b);
    AddOnCurve(c, b, q);
    AddIsSum(c, a, b);
    AddIsSum(c, b, q);
    AddIsSum(c, s, q);
    AddIsSum(c, s', a);
    AddCommutes(c, s', a);
    ChainSum(c, a, b, s, q, w);
    ChainSum(c, b, q, s', a, w');
    BothBracketings(c, a, b, q);
    var e, h, e', h' := ChainE(c, a, b, q), ChainH(c, a, b, q), ChainE(c, b, q, a), ChainH(c, b, q, a);
    var f, k, f', k' := ChainW(c, a, b), ChainCross(c, a, b, q), ChainW(c, b, q), ChainCross(c, b, q, a);
    Halves(c.p, h, e, f', k', h', e', f, k);
    EqualQuotients(c.p, f + k, e, f' + k', e', w.x, w'.x);
    EqualQuotients(c.p, f - k, h, f' - k', h', w.y, w'.y);
  }

  // ---- Multiples of a point ----

  /** The n-fold sum of a. */
  function Multiple(c: Curve, n: nat, a: Point): Point
    requires c.p > 1
  {
    if n == 0 then NEUTRAL else Add(c, Multiple(c, n - 1, a), a)
  }

  lemma {:induction false} MultipleOnCurve(c: Curve, n: nat, a: Point)
    requires c.Valid() && c.OnCurve(a)
    ensures c.OnCurve(Multiple(c, n, a))
  {
    hide Zero, Prime, Add;
    if n == 0 {
      NeutralOnCurve(c);
    } else {
      MultipleOnCurve(c, n - 1, a);
      AddOnCurve(c, Multiple(c, n - 1, a), a);
    }
  }

  /** [m + n]a = [m]a + [n]a */
  lemma {:induction false} MultipleAdd(c: Curve, m: nat, n: nat, a: Point)
    requires c.Valid() && c.OnCurve(a)
    ensures Multiple(c, m + n, a) == Add(c, Multiple(c, m, a), Multiple(c, n, a))
  {
    hide Zero, Prime, Add;
    MultipleOnCurve(c, m, a);
    if n == 0 {
      AddNeutral(c, Multiple(c, m, a));
    } else {
      MultipleAdd(c, m, n - 1, a);
      MultipleOnCurve(c, n - 1, a);
      AddAssociates(c, Multiple(c, m, a), Multiple(c, n - 1, a), a);
    }
  }

  /** [m n]a = [m]([n]a) */
  lemma {:induction false} MultipleMultiple(c: Curve, m: nat, n: nat, a: Point)
    requires c.Valid() && c.OnCurve(a)
    ensures m * n >= 0
    ensures Multiple(c, m * n, a) == Multiple(c, m, Multiple(c, n, a))
  {
    hide Zero, Prime, Add;
    if m > 0 {
      MultipleMultiple(c, m - 1, n, a);
      assert m * n == (m - 1) * n + n;
      MultipleAdd(c, (m - 1) * n, n, a);
    }
  }

  lemma {:induction false} MultipleOfNeutral(c: Curve, n: nat)
    requires c.Valid()
    ensures Multiple(c, n, NEUTRAL) == NEUTRAL
  {
    hide Zero, Prime, Add;
    NeutralOnCurve(c);
    if n > 0 {
      MultipleOfNeutral(c, n - 1);
      AddNeutral(c, NEUTRAL);
    }
  }

  /** When [l]a is neutral, multiples of a depend on the factor modulo l only. */
  lemma MultipleModulo(c: Curve, l: nat, n: nat, a: Point)
    requires c.Valid() && c.OnCurve(a) && l > 0 && Multiple(c, l, a) == NEUTRAL
    ensures Multiple(c, n % l, a) == Multiple(c, n, a)
  {
    hide Zero, Prime, Add;
    var k, r := n / l, n % l;
    assert n == k * l + r;
    MultipleMultiple(c, k, l, a);
    MultipleOfNeutral(c, k);
    MultipleAdd(c, k * l, r, a);
    MultipleOnCurve(c, r, a);
    AddNeutral(c, Multiple(c, r, a));
  }
}
