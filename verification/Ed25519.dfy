/** Points in extended coordinates: addition, scalar multiplication and comparison (section 5.1.4 of RFC 8032). */
module Ed25519 {
  import opened NumberTheory
  import opened Edwards

  /** Extended homogeneous coordinates: x = X/Z, y = Y/Z, x y = T/Z. */
  datatype Ext = Ext(x: int, y: int, z: int, t: int)

  const IDENTITY := Ext(0, 1, 1, 0)

  // ---- What an extended point stands for ----

  /** e is a valid extended point with affine value a. */
  ghost predicate Represents(c: Curve, e: Ext, a: Point)
    requires c.p > 0
  {
    && c.OnCurve(a)
    && !Zero(c.p, e.z)
    && Zero(c.p, e.x - a.x * e.z)
    && Zero(c.p, e.y - a.y * e.z)
    && Zero(c.p, e.t - (a.x * a.y) * e.z)
  }

  /** Z != 0, T Z = X Y and the homogeneous curve equation (Y^2 - X^2) Z^2 = Z^4 + d X^2 Y^2. */
  ghost predicate ValidExt(c: Curve, e: Ext)
    requires c.p > 0
  {
    && !Zero(c.p, e.z)
    && Zero(c.p, e.t * e.z - e.x * e.y)
    && Zero(c.p, (e.y * e.y - e.x * e.x) * (e.z * e.z) - (e.z * e.z) * (e.z * e.z) - c.d * (e.x * e.y) * (e.x * e.y))
  }

  ghost function Affine(c: Curve, e: Ext): Point
    requires c.p > 1
  {
    Point(e.x * ModInv(c.p, e.z) % c.p, e.y * ModInv(c.p, e.z) % c.p)
  }

  lemma RepresentsUnique(c: Curve, e: Ext, a: Point)
    requires c.Valid() && Represents(c, e, a)
    ensures a == Affine(c, e)
  {
    var p, b := c.p, Affine(c, e);
    AffineQuotients(c, e);
    hide Zero, Prime, Affine, IsSquare;
    ScaledUnique(p, e.z, a.x, b.x, e.x);
    ScaledUnique(p, e.z, a.y, b.y, e.y);
  }

  lemma ScaledUnique(p: int, z: int, x: int, y: int, n: int)
    requires Prime(p) && !Zero(p, z) && 0 <= x < p && 0 <= y < p
    requires Zero(p, n - x * z) && Zero(p, z * y - n)
    ensures x == y
  {
    assert p > 1;
    hide Zero, Prime;
    var m := x * z;
    Symmetric(p, n, m);
    assert z * x - n == m - n;
    QuotientUnique(p, z, x, y, n);
  }

  lemma AffineQuotients(c: Curve, e: Ext)
    requires c.Valid() && !Zero(c.p, e.z)
    ensures var b := Affine(c, e);
            && 0 <= b.x < c.p && 0 <= b.y < c.p
            && Zero(c.p, e.z * b.x - e.x) && Zero(c.p, e.z * b.y - e.y)
  {
    Division(c.p, e.x, e.z);
    Division(c.p, e.y, e.z);
  }

  lemma ScaledDefect(d: int, x: int, y: int, z: int)
    ensures ((z * y) * (z * y) - (z * x) * (z * x)) * (z * z) - (z * z) * (z * z)
          - d * ((z * x) * (z * y)) * ((z * x) * (z * y))
         == (z * z) * (z * z) * Defect(d, x, y)
  {
    ScaleDefect(d, x, y, z, z);
    MulMinus(z * z, (z * y) * (z * y), (z * x) * (z * x));
  }

  /** The homogeneous equation of congruent coordinates. */
  lemma HomogeneousDefectCongruent(p: int, d: int, x: int, y: int, z: int, x': int, y': int)
    requires p > 0 && Zero(p, x - x') && Zero(p, y - y')
    ensures Zero(p, ((y * y - x * x) * (z * z) - (z * z) * (z * z) - d * (x * y) * (x * y))
                  - ((y' * y' - x' * x') * (z * z) - (z * z) * (z * z) - d * (x' * y') * (x' * y')))
  {
    hide Zero;
    MulCongruent(p, x, x', x, x');
    MulCongruent(p, y, y', y, y');
    AddCongruent(p, y * y, y' * y', x * x, x' * x');
    Reflexive(p, z * z);
    MulCongruent(p, y * y - x * x, y' * y' - x' * x', z * z, z * z);
    MulCongruent(p, x, x', y, y');
    MulCongruent(p, x * y, x' * y', x * y, x' * y');
    ZeroMul(p, d, (x * y) * (x * y) - (x' * y') * (x' * y'));
    MulMinus(d, (x * y) * (x * y), (x' * y') * (x' * y'));
    ReassocSquare(d, x * y);
    ReassocSquare(d, x' * y');
    ZeroAdd(p, (y * y - x * x) * (z * z) - (y' * y' - x' * x') * (z * z),
            d * (x * y) * (x * y) - d * (x' * y') * (x' * y'));
  }

  /** The two descriptions of a valid extended point agree. */
  lemma ValidIffRepresents(c: Curve, e: Ext)
    requires c.Valid()
    ensures ValidExt(c, e) <==> Represents(c, e, Affine(c, e))
  {
    hide Zero, Prime, Affine;
    if !Zero(c.p, e.z) {
      var b := Affine(c, e);
      AffineQuotients(c, e);
      AffineOnCurve(c, e, b);
      AffineProduct(c, e, b);
      Symmetric(c.p, e.z * b.x, e.x);
      Symmetric(c.p, e.z * b.y, e.y);
    }
  }

  lemma AffineOnCurve(c: Curve, e: Ext, b: Point)
    requires c.Valid() && !Zero(c.p, e.z) && 0 <= b.x < c.p && 0 <= b.y < c.p
    requires Zero(c.p, e.z * b.x - e.x) && Zero(c.p, e.z * b.y - e.y)
    ensures c.OnCurve(b) <==>
            Zero(c.p, (e.y * e.y - e.x * e.x) * (e.z * e.z) - (e.z * e.z) * (e.z * e.z)
                      - c.d * (e.x * e.y) * (e.x * e.y))
  {
    hide Zero, Prime;
    var p, z := c.p, e.z;
    var k := Defect(c.d, b.x, b.y);
    var h := (e.y * e.y - e.x * e.x) * (z * z) - (z * z) * (z * z) - c.d * (e.x * e.y) * (e.x * e.y);
    HomogeneousDefectCongruent(p, c.d, z * b.x, z * b.y, z, e.x, e.y);
    ScaledDefect(c.d, b.x, b.y, z);
    assert Zero(p, (z * z) * (z * z) * k - h);
    if Zero(p, k) {
      ZeroMul(p, (z * z) * (z * z), k);
      ZeroAdd(p, (z * z) * (z * z) * k, (z * z) * (z * z) * k - h);
    }
    if Zero(p, h) {
      ZeroAdd(p, (z * z) * (z * z) * k - h, h);
      DefectFromCleared(p, z, z, k);
    }
  }

  lemma AffineProduct(c: Curve, e: Ext, b: Point)
    requires c.Valid() && !Zero(c.p, e.z)
    requires Zero(c.p, e.z * b.x - e.x) && Zero(c.p, e.z * b.y - e.y)
    ensures Zero(c.p, e.t * e.z - e.x * e.y) <==> Zero(c.p, e.t - (b.x * b.y) * e.z)
  {
    hide Zero, Prime;
    var p, z, s := c.p, e.z, e.t - (b.x * b.y) * e.z;
    MulCongruent(p, z * b.x, e.x, z * b.y, e.y);
    var gap := (z * b.x) * (z * b.y) - e.x * e.y;
    AffineProductIdentity(e.t, z, b.x, b.y);
    assert e.t * z - e.x * e.y == z * s + gap;
    if Zero(p, s) {
      ZeroMul(p, z, s);
      ZeroAdd(p, z * s, gap);
    }
    if Zero(p, e.t * z - e.x * e.y) {
      ZeroAdd(p, e.t * z - e.x * e.y, gap);
      Cancel(p, z, s);
    }
  }

  lemma AffineProductIdentity(t: int, z: int, x: int, y: int)
    ensures t * z == z * (t - (x * y) * z) + (z * x) * (z * y)
  {
    MulMinus(z, t, (x * y) * z);
  }

  // ---- Point addition ----

  function PointAdd(k: Curve, p: Ext, q: Ext): Ext
    requires k.p > 0
  {
    var a := (p.y - p.x) * (q.y - q.x) % k.p;
    var b := (p.y + p.x) * (q.y + q.x) % k.p;
    var c := 2 * p.t * q.t * k.d % k.p;
    var d := 2 * p.z * q.z % k.p;
    var e, f, g, h := b - a, d - c, d + c, b + a;
    Ext(e * f % k.p, g * h % k.p, f * g % k.p, e * h % k.p)
  }

  /** Multiples of congruent factors: x = u z and y = v w give x y = (u v)(z w). */
  lemma ScaledProduct2(p: int, x: int, u: int, z: int, y: int, v: int, w: int)
    requires p > 0 && Zero(p, x - u * z) && Zero(p, y - v * w)
    ensures Zero(p, x * y - (u * v) * (z * w))
  {
    hide Zero;
    MulCongruent(p, x, u * z, y, v * w);
    ProductOfProducts(u, z, v, w);
  }

  lemma ScaledSum(p: int, x: int, u: int, y: int, v: int, z: int)
    requires p > 0 && Zero(p, x - u * z) && Zero(p, y - v * z)
    ensures Zero(p, (x + y) - (u + v) * z) && Zero(p, (x - y) - (u - v) * z)
  {
    hide Zero;
    AddCongruent(p, x, u * z, y, v * z);
    assert (u + v) * z == u * z + v * z && (u - v) * z == u * z - v * z;
  }

  /** Reducing modulo p keeps the congruence. */
  lemma Reduced(p: int, x: int, r: int)
    requires p > 0 && Zero(p, x - r)
    ensures Zero(p, x % p - r)
  {
    hide Zero;
    ModCongruent(p, x);
    Transitive(p, x % p, x, r);
  }

  /** The intermediate values e, f, g, h are 2E, 2(1-m), 2(1+m), 2H times z1 z2. */
  lemma AddIntermediates(k: Curve, p: Ext, q: Ext, a: Point, b: Point)
    requires k.p > 0 && Represents(k, p, a) && Represents(k, q, b)
    ensures var w, m := p.z * q.z, Cross(k, a, b);
            && Zero(k.p, (p.y - p.x) * (q.y - q.x) % k.p - ((a.y - a.x) * (b.y - b.x)) * w)
            && Zero(k.p, (p.y + p.x) * (q.y + q.x) % k.p - ((a.y + a.x) * (b.y + b.x)) * w)
            && Zero(k.p, 2 * p.t * q.t * k.d % k.p - (2 * m) * w)
            && Zero(k.p, 2 * p.z * q.z % k.p - 2 * w)
  {
    hide Zero;
    var w := p.z * q.z;
    ScaledSum(k.p, p.y, a.y, p.x, a.x, p.z);
    ScaledSum(k.p, q.y, b.y, q.x, b.x, q.z);
    ScaledProduct2(k.p, p.y - p.x, a.y - a.x, p.z, q.y - q.x, b.y - b.x, q.z);
    ScaledProduct2(k.p, p.y + p.x, a.y + a.x, p.z, q.y + q.x, b.y + b.x, q.z);
    Reduced(k.p, (p.y - p.x) * (q.y - q.x), ((a.y - a.x) * (b.y - b.x)) * w);
    Reduced(k.p, (p.y + p.x) * (q.y + q.x), ((a.y + a.x) * (b.y + b.x)) * w);
    ScaledProduct2(k.p, p.t, a.x * a.y, p.z, q.t, b.x * b.y, q.z);
    var n := (a.x * a.y) * (b.x * b.y);
    ZeroMul(k.p, 2 * k.d, p.t * q.t - n * w);
    MulMinus(2 * k.d, p.t * q.t, n * w);
    TwistOrder(k.d, p.t, q.t, a.x * a.y, b.x * b.y, w);
    Reduced(k.p, 2 * p.t * q.t * k.d, (2 * Cross(k, a, b)) * w);
    assert 2 * p.z * q.z == 2 * w;
    ModCongruent(k.p, 2 * w);
  }

  lemma TwistOrder(d: int, t1: int, t2: int, s1: int, s2: int, w: int)
    ensures (2 * d) * (t1 * t2) == 2 * t1 * t2 * d
    ensures (2 * d) * ((s1 * s2) * w) == (2 * (d * s1 * s2)) * w
  {}

  /** e f, g h, f g and e h, with e, f, g, h known modulo p. */
  lemma AddOutputs(p: int, e: int, f: int, g: int, h: int, e': int, f': int, g': int, h': int, w: int)
    requires p > 0 && Zero(p, e - e' * w) && Zero(p, f - f' * w) && Zero(p, g - g' * w) && Zero(p, h - h' * w)
    ensures Zero(p, e * f % p - (e' * f') * (w * w)) && Zero(p, g * h % p - (g' * h') * (w * w))
    ensures Zero(p, f * g % p - (f' * g') * (w * w)) && Zero(p, e * h % p - (e' * h') * (w * w))
  {
    hide Zero;
    ScaledProduct2(p, e, e', w, f, f', w);
    ScaledProduct2(p, g, g', w, h, h', w);
    ScaledProduct2(p, f, f', w, g, g', w);
    ScaledProduct2(p, e, e', w, h, h', w);
    Reduced(p, e * f, (e' * f') * (w * w));
    Reduced(p, g * h, (g' * h') * (w * w));
    Reduced(p, f * g, (f' * g') * (w * w));
    Reduced(p, e * h, (e' * h') * (w * w));
  }

  lemma CornerSums(x1: int, y1: int, x2: int, y2: int)
    ensures (y1 + x1) * (y2 + x2) - (y1 - x1) * (y2 - x2) == 2 * (x1 * y2 + y1 * x2)
    ensures (y1 + x1) * (y2 + x2) + (y1 - x1) * (y2 - x2) == 2 * (y1 * y2 + x1 * x2)
  {}

  /** With e' = g' x_s and h' = f' y_s, the outputs represent (x_s, y_s). */
  lemma OutputsRepresent(p: int, x: int, y: int, e': int, f': int, g': int, h': int, v: int, r: Ext)
    requires p > 0 && Zero(p, e' - g' * x) && Zero(p, h' - f' * y)
    requires Zero(p, r.x - (e' * f') * v) && Zero(p, r.y - (g' * h') * v)
    requires Zero(p, r.z - (f' * g') * v) && Zero(p, r.t - (e' * h') * v)
    ensures Zero(p, r.x - x * r.z) && Zero(p, r.y - y * r.z) && Zero(p, r.t - (x * y) * r.z)
  {
    hide Zero;
    var w := (f' * g') * v;
    ZeroMul(p, f' * v, e' - g' * x);
    ZeroMul(p, g' * v, h' - f' * y);
    MulCongruent(p, e', g' * x, h', f' * y);
    ZeroMul(p, v, e' * h' - (g' * x) * (f' * y));
    OutputOrder(x, y, e', f', g', h', v);
    Transitive(p, r.x, (e' * f') * v, x * w);
    Transitive(p, r.y, (g' * h') * v, y * w);
    Transitive(p, r.t, (e' * h') * v, (x * y) * w);
    OutputRescale(p, x, r.x, r.z, w);
    OutputRescale(p, y, r.y, r.z, w);
    OutputRescale(p, x * y, r.t, r.z, w);
  }

  lemma OutputOrder(x: int, y: int, e: int, f: int, g: int, h: int, v: int)
    ensures (f * v) * (e - g * x) == (e * f) * v - x * ((f * g) * v)
    ensures (g * v) * (h - f * y) == (g * h) * v - y * ((f * g) * v)
    ensures v * (e * h - (g * x) * (f * y)) == (e * h) * v - (x * y) * ((f * g) * v)
  {
    MulMinus(f * v, e, g * x);
    MulMinus(g * v, h, f * y);
    MulMinus(v, e * h, (g * x) * (f * y));
    ProductOfProducts(g, x, f, y);
  }

  lemma OutputRescale(p: int, n: int, x: int, z: int, w: int)
    requires p > 0 && Zero(p, x - n * w) && Zero(p, z - w)
    ensures Zero(p, x - n * z)
  {
    hide Zero;
    ZeroMul(p, n, z - w);
    MulMinus(n, z, w);
    ZeroAdd(p, x - n * w, n * (z - w));
  }

  /** Numerators are denominators times the affine sum, doubled as in the formulas. */
  lemma DoubledSum(p: int, m: int, x: int, e: int)
    requires p > 0 && Zero(p, (1 + m) * x - e)
    ensures Zero(p, 2 * e - (2 * (1 + m)) * x)
  {
    hide Zero;
    ZeroMul(p, -2, (1 + m) * x - e);
    assert (2 * (1 + m)) * x == 2 * ((1 + m) * x);
  }

  /** Addition of extended points is the affine addition: section 5.1.4 of RFC 8032. */
  lemma PointAddRepresents(k: Curve, p: Ext, q: Ext, a: Point, b: Point)
    requires k.Valid() && Represents(k, p, a) && Represents(k, q, b)
    ensures Represents(k, PointAdd(k, p, q), Add(k, a, b))
  {
    hide Zero, Prime;
    var s, m, w := Add(k, a, b), Cross(k, a, b), p.z * q.z;
    AddIsSum(k, a, b);
    SumOnCurve(k, a, b, s);
    PointAddOutputs(k, p, q, a, b);
    DoubledSum(k.p, m, s.x, SumE(a, b));
    DoubledSum(k.p, -m, s.y, SumH(a, b));
    OutputsRepresent(k.p, s.x, s.y, 2 * SumE(a, b), 2 * (1 - m), 2 * (1 + m), 2 * SumH(a, b), w * w, PointAdd(k, p, q));
    DenominatorsNonZero(k, a, b);
    OutputDenominator(k.p, p.z, q.z, m, PointAdd(k, p, q).z);
  }

  lemma PointAddOutputs(k: Curve, p: Ext, q: Ext, a: Point, b: Point)
    requires k.p > 0 && Represents(k, p, a) && Represents(k, q, b)
    ensures var w, m, r := p.z * q.z, Cross(k, a, b), PointAdd(k, p, q);
            && Zero(k.p, r.x - ((2 * SumE(a, b)) * (2 * (1 - m))) * (w * w))
            && Zero(k.p, r.y - ((2 * (1 + m)) * (2 * SumH(a, b))) * (w * w))
            && Zero(k.p, r.z - ((2 * (1 - m)) * (2 * (1 + m))) * (w * w))
            && Zero(k.p, r.t - ((2 * SumE(a, b)) * (2 * SumH(a, b))) * (w * w))
  {
    hide Zero, Represents;
    var w, m := p.z * q.z, Cross(k, a, b);
    var u, v := (p.y - p.x) * (q.y - q.x) % k.p, (p.y + p.x) * (q.y + q.x) % k.p;
    var c, d := 2 * p.t * q.t * k.d % k.p, 2 * p.z * q.z % k.p;
    AddIntermediates(k, p, q, a, b);
    ScaledSum(k.p, v, (a.y + a.x) * (b.y + b.x), u, (a.y - a.x) * (b.y - b.x), w);
    ScaledSum(k.p, d, 2, c, 2 * m, w);
    CornerSums(a.x, a.y, b.x, b.y);
    assert 2 - 2 * m == 2 * (1 - m) && 2 + 2 * m == 2 * (1 + m);
    AddOutputs(k.p, v - u, d - c, d + c, v + u, 2 * SumE(a, b), 2 * (1 - m), 2 * (1 + m), 2 * SumH(a, b), w);
  }

  lemma OutputDenominator(p: int, z1: int, z2: int, m: int, z: int)
    requires Prime(p) && p > 2 && !Zero(p, z1) && !Zero(p, z2) && !Zero(p, 1 + m) && !Zero(p, 1 - m)
    requires Zero(p, z - ((2 * (1 - m)) * (2 * (1 + m))) * ((z1 * z2) * (z1 * z2)))
    ensures !Zero(p, z)
  {
    hide Zero, Prime;
    var w, f := z1 * z2, (2 * (1 - m)) * (2 * (1 + m));
    TwoNonZero(p);
    NonZeroProduct(p, 2, 1 - m);
    NonZeroProduct(p, 2, 1 + m);
    NonZeroProduct(p, 2 * (1 - m), 2 * (1 + m));
    NonZeroProduct(p, z1, z2);
    NonZeroProduct(p, w, w);
    NonZeroProduct(p, f, w * w);
    Symmetric(p, z, f * (w * w));
    CongruentNonZero(p, f * (w * w), z);
  }

  /** Addition is complete: it maps valid points to a valid point, the affine sum. */
  lemma PointAddCorrect(k: Curve, p: Ext, q: Ext)
    requires k.Valid() && ValidExt(k, p) && ValidExt(k, q)
    ensures ValidExt(k, PointAdd(k, p, q))
    ensures Affine(k, PointAdd(k, p, q)) == Add(k, Affine(k, p), Affine(k, q))
  {
    hide Zero, Prime, Represents, ValidExt, Affine, PointAdd, Add;
    ValidIffRepresents(k, p);
    ValidIffRepresents(k, q);
    PointAddRepresents(k, p, q, Affine(k, p), Affine(k, q));
    RepresentsUnique(k, PointAdd(k, p, q), Add(k, Affine(k, p), Affine(k, q)));
    ValidIffRepresents(k, PointAdd(k, p, q));
  }

  lemma IdentityRepresents(k: Curve)
    requires k.Valid()
    ensures Represents(k, IDENTITY, NEUTRAL)
  {
    NeutralOnCurve(k);
    if Zero(k.p, 1) { ZeroSmall(k.p, 1); }
    ZeroMultiple(k.p, 0);
  }

  // ---- Scalar multiplication ----

  /** One step of double-and-add: [n]b = [n mod 2]b + [n div 2](b + b), added to an accumulator. */
  lemma DoubleAndAdd(k: Curve, n: nat, acc: Point, b: Point)
    requires k.Valid() && k.OnCurve(acc) && k.OnCurve(b) && n > 0
    ensures var acc' := if n % 2 == 1 then Add(k, acc, b) else acc;
            Add(k, acc, Multiple(k, n, b)) == Add(k, acc', Multiple(k, n / 2, Add(k, b, b)))
  {
    hide Zero, Prime, Add, Curve.OnCurve;
    var h := n / 2;
    MultipleOne(k, b);
    assert Multiple(k, 2, b) == Add(k, b, b);
    MultipleMultiple(k, h, 2, b);
    MultipleOnCurve(k, 2 * h, b);
    assert h * 2 == 2 * h;
    if n % 2 == 1 {
      MultipleAdd(k, 1, 2 * h, b);
      AddAssociates(k, acc, b, Multiple(k, 2 * h, b));
    }
  }

  lemma MultipleOne(k: Curve, a: Point)
    requires k.Valid() && k.OnCurve(a)
    ensures Multiple(k, 1, a) == a
  {
    AddNeutral(k, a);
  }

  lemma ValidOnCurve(k: Curve, p: Ext)
    requires k.Valid() && ValidExt(k, p)
    ensures k.OnCurve(Affine(k, p))
  {
    ValidIffRepresents(k, p);
  }

  lemma IdentityValid(k: Curve)
    requires k.Valid()
    ensures ValidExt(k, IDENTITY) && Affine(k, IDENTITY) == NEUTRAL
  {
    hide Zero, Prime, Affine, ValidExt;
    IdentityRepresents(k);
    RepresentsUnique(k, IDENTITY, NEUTRAL);
    ValidIffRepresents(k, IDENTITY);
  }

  /** Double-and-add computes the s-fold sum, for every s >= 0. */
  method PointMul(k: Curve, s: nat, p: Ext) returns (out: Ext)
    requires k.Valid() && ValidExt(k, p)
    ensures ValidExt(k, out)
    ensures Affine(k, out) == Multiple(k, s, Affine(k, p))
  {
    hide Zero, Prime, ValidExt, Affine, Add, PointAdd, Curve.OnCurve, Multiple;
    out := IDENTITY;
    var n, q := s, p;
    ghost var total := Multiple(k, s, Affine(k, p));
    IdentityValid(k);
    ValidOnCurve(k, p);
    MultipleOnCurve(k, s, Affine(k, p));
    AddNeutral(k, total);
    while n > 0
      invariant ValidExt(k, q) && ValidExt(k, out)
      invariant Add(k, Affine(k, out), Multiple(k, n, Affine(k, q))) == total
    {
      ValidOnCurve(k, q);
      ValidOnCurve(k, out);
      DoubleAndAdd(k, n, Affine(k, out), Affine(k, q));
      if n % 2 == 1 {
        PointAddCorrect(k, out, q);
        out := PointAdd(k, out, q);
      }
      PointAddCorrect(k, q, q);
      q := PointAdd(k, q, q);
      n := n / 2;
    }
    ValidOnCurve(k, out);
    NoMultiple(k, Affine(k, q));
    AddNeutral(k, Affine(k, out));
  }

  lemma NoMultiple(k: Curve, a: Point)
    requires k.p > 1
    ensures Multiple(k, 0, a) == NEUTRAL
  {}

  // ---- Equality ----

  function PointEqual(k: Curve, p: Ext, q: Ext): bool
    requires k.p > 0
  {
    if (p.x * q.z - q.x * p.z) % k.p != 0 then false
    else if (p.y * q.z - q.y * p.z) % k.p != 0 then false
    else true
  }

  lemma CrossMultiplied(p: int, x: int, z: int, x': int, z': int, a: int, b: int)
    requires Prime(p) && !Zero(p, z) && !Zero(p, z') && 0 <= a < p && 0 <= b < p
    requires Zero(p, x - a * z) && Zero(p, x' - b * z')
    ensures Zero(p, x * z' - x' * z) <==> a == b
  {
    hide Zero, Prime;
    ZeroMul(p, z', x - a * z);
    ZeroMul(p, z, x' - b * z');
    ZeroAdd(p, z' * (x - a * z), z * (x' - b * z'));
    CrossIdentity(x, z, x', z', a, b);
    var gap := z' * (x - a * z) - z * (x' - b * z');
    var n := x * z' - x' * z;
    assert gap == n - (z * z') * (a - b);
    if a == b {
      assert (z * z') * (a - b) == 0;
    }
    if Zero(p, n) {
      ZeroAdd(p, n, gap);
      NonZeroProduct(p, z, z');
      Cancel(p, z * z', a - b);
      ZeroSmall(p, a - b);
    }
  }

  lemma CrossIdentity(x: int, z: int, x': int, z': int, a: int, b: int)
    ensures z' * (x - a * z) - z * (x' - b * z') == (x * z' - x' * z) - (z * z') * (a - b)
  {}

  /** Cross-multiplied comparison is equality of affine points. */
  lemma PointEqualCorrect(k: Curve, p: Ext, q: Ext)
    requires k.Valid() && ValidExt(k, p) && ValidExt(k, q)
    ensures PointEqual(k, p, q) <==> Affine(k, p) == Affine(k, q)
  {
    hide Prime, Affine, ValidExt;
    ValidIffRepresents(k, p);
    ValidIffRepresents(k, q);
    var a, b := Affine(k, p), Affine(k, q);
    CrossMultiplied(k.p, p.x, p.z, q.x, q.z, a.x, b.x);
    CrossMultiplied(k.p, p.y, p.z, q.y, q.z, a.y, b.y);
  }

  /** Point addition respects point equality. */
  lemma PointAddRespectsEqual(k: Curve, p: Ext, p': Ext, q: Ext, q': Ext)
    requires k.Valid() && ValidExt(k, p) && ValidExt(k, p') && ValidExt(k, q) && ValidExt(k, q')
    requires PointEqual(k, p, p') && PointEqual(k, q, q')
    ensures PointEqual(k, PointAdd(k, p, q), PointAdd(k, p', q'))
  {
    hide Zero, Prime, Affine, ValidExt, PointEqual, PointAdd, Add;
    PointEqualCorrect(k, p, p');
    PointEqualCorrect(k, q, q');
    PointAddCorrect(k, p, q);
    PointAddCorrect(k, p', q');
    PointEqualCorrect(k, PointAdd(k, p, q), PointAdd(k, p', q'));
  }
}
