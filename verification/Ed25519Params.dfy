/**
  * The Ed25519 constants. All that the other modules ask of a curve and a scheme is proved of them, up to
  * two facts of number theory that stay assumptions: P is prime, and the order of the base point divides L.
  */
module Ed25519Params {
  import opened NumberTheory
  import opened Wrappers
  import opened Edwards
  import opened Ed25519
  import opened Signature
  import opened TwoNonResidue

  /** 2^255 - 19. */
  const P: int := 0x7fffffffffffffffffffffffffffffffffffffffffffffffffffffffffffffed

  /** 2^252 + 27742317777372353535851937790883648493. */
  const L: int :=
    0x1000000000000000000000000000000000000000000000000000000000000000 + 27742317777372353535851937790883648493

  const D: int := -121665 * ModInv(P, 121666) % P

  const I: int := PowMod(2, (P - 1) / 4, P)

  const GY: int := 4 * ModInv(P, 5) % P

  const GX: int := 0x216936d3cd6e53fec0a4e231fdd6dc5c692cc7609525a7b2c9562d608f25d51a

  const CURVE := Curve(P, D, I)

  const SCHEME := Scheme(CURVE, Point(GX, GY), L)

  // ---- The values of the computed constants ----

  const D_VALUE: int := 0x52036cee2b6ffe738cc740797779e89800700a4d4141d8ab75eb4dca135978a3

  const GY_VALUE: int := 0x6666666666666666666666666666666666666666666666666666666666666658

  lemma QuotientValue(c: int, n: int, q: int)
    requires Prime(P) && !Zero(P, c) && 0 <= q < P && Zero(P, c * q - n)
    ensures n * ModInv(P, c) % P == q
  {
    assert q % P == q;
    hide Zero, Prime, ModInv;
    ModInvCorrect(P, c);
    QuotientResidue(P, c, n, q, ModInv(P, c));
    SameResidue(P, n * ModInv(P, c), q);
  }

  lemma QuotientResidue(p: int, c: int, n: int, q: int, v: int)
    requires p > 0 && Zero(p, c * q - n) && Zero(p, c * v - 1)
    ensures Zero(p, n * v - q)
  {
    hide Zero;
    ZeroMul(p, v, c * q - n);
    ZeroMul(p, q, c * v - 1);
    ZeroAdd(p, q * (c * v - 1), v * (c * q - n));
    CrossTerms(q, c, v, n);
  }

  lemma CrossTerms(q: int, c: int, v: int, n: int)
    ensures q * (c * v - 1) - v * (c * q - n) == n * v - q
  {
    assert q * (c * v - 1) == q * (c * v) - q;
    assert v * (c * q - n) == v * (c * q) - v * n;
    assert q * (c * v) == v * (c * q);
  }

  lemma Values()
    requires Prime(P)
    ensures D == D_VALUE && GY == GY_VALUE
  {
    assert !Zero(P, 121666) && !Zero(P, 5);
    assert Zero(P, 121666 * D_VALUE - -121665) && Zero(P, 5 * GY_VALUE - 4);
    hide Zero, Prime, ModInv;
    QuotientValue(121666, -121665, D_VALUE);
    QuotientValue(5, 4, GY_VALUE);
  }

  /** D is twice a square. */
  lemma HalfOfD()
    ensures Zero(P, 2 * (0x3d5671927e8563448865a06318255b5beddb1ff0d0e0aed6ae23bd0dc8a14c58
                       * 0x3d5671927e8563448865a06318255b5beddb1ff0d0e0aed6ae23bd0dc8a14c58) - D_VALUE)
    ensures !Zero(P, D_VALUE)
  {}

  lemma BaseOnCurve()
    ensures Zero(P, Defect(D_VALUE, GX, GY_VALUE))
  {}

  // ---- The curve and the scheme ----

  lemma CurveValid()
    requires Prime(P)
    ensures CURVE.Valid() && P % 8 == 5
  {
    assert P > 2 && P % 8 == 5;
    HalfOfD();
    Values();
    hide Prime, Pow, PowMod, ModInv, Zero;
    QuarterPower(P);
    forall v ensures !IsRoot(P, v, D) {
      TwiceSquare(P, D, 0x3d5671927e8563448865a06318255b5beddb1ff0d0e0aed6ae23bd0dc8a14c58, v);
    }
  }

  /** The base point is the point with y = 4/5 and even x. */
  lemma BasePoint()
    requires Prime(P)
    ensures CURVE.OnCurve(Point(GX, GY)) && RecoverX(CURVE, GY, 0) == Some(GX)
  {
    assert 0 <= GX < P && 0 <= GY_VALUE < P && GX % 2 == 0;
    BaseOnCurve();
    CurveValid();
    Values();
    hide Prime, Pow, PowMod, ModInv, Zero, Defect, RecoverX, Curve.Valid;
    RecoverXExact(CURVE, GY, 0, GX);
  }

  /** For verification to be exact it is enough that P is prime. */
  lemma SchemeUsable()
    requires Prime(P)
    ensures SCHEME.Usable()
  {
    assert 0 < L;
    CurveValid();
    BasePoint();
    hide Prime, Pow, PowMod, ModInv, Curve.OnCurve, Curve.Valid, RecoverX;
  }

  /** The constants meet everything that the theorems about making signatures ask of a scheme. */
  lemma SchemeValid()
    requires Prime(P) && Multiple(CURVE, L, Point(GX, GY)) == NEUTRAL
    ensures SCHEME.Valid() && SCHEME.base != NEUTRAL
  {
    assert P <= TWO_TO_255 && L < TWO_TO_255 && GX != 0;
    SchemeUsable();
    hide Scheme.Usable, Prime, Pow, PowMod, ModInv, Curve.OnCurve, Curve.Valid, Multiple, RecoverX;
  }

  // ---- A small scheme: the hypotheses of the theorems can be met ----

  const SMALL_CURVE := Curve(13, 2, 5)

  const SMALL_SCHEME := Scheme(SMALL_CURVE, Point(0, 12), 2)

  lemma Thirteen()
    ensures Prime(13) && Prime(2)
  {
    forall k | 1 < k < 13 ensures 13 % k != 0 {
      assert k == 2 || k == 3 || k == 4 || k == 5 || k == 6 || k == 7
          || k == 8 || k == 9 || k == 10 || k == 11 || k == 12;
    }
  }

  lemma SmallCurveValid()
    ensures SMALL_CURVE.Valid() && SMALL_CURVE.OnCurve(Point(0, 12))
  {
    Thirteen();
    hide Prime;
    forall v ensures !IsRoot(13, v, 2) {
      TwiceSquare(13, 2, 1, v);
    }
  }

  lemma OrderTwo(c: Curve, base: Point)
    requires c.Valid() && c.OnCurve(base) && SumOf(c, base, base, NEUTRAL)
    ensures Multiple(c, 2, base) == NEUTRAL
  {
    hide Prime, Add, Curve.OnCurve, SumOf;
    MultipleOne(c, base);
    SumUnique(c, base, base, NEUTRAL);
    assert Multiple(c, 2, base) == Add(c, Multiple(c, 1, base), base);
  }

  /** Over the field of 13 elements, with d = 2, (0, -1) has order 2. */
  lemma SmallSchemeValid()
    ensures SMALL_SCHEME.Valid() && Prime(SMALL_SCHEME.order) && SMALL_SCHEME.base != NEUTRAL
  {
    Thirteen();
    SmallCurveValid();
    assert SumOf(SMALL_CURVE, Point(0, 12), Point(0, 12), NEUTRAL);
    hide Prime, Curve.Valid, Curve.OnCurve, SumOf, Multiple;
    OrderTwo(SMALL_CURVE, Point(0, 12));
  }
}
