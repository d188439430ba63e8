/** Point compression and the Ed25519 verification equation (sections 5.1.2, 5.1.3 and 5.1.7 of RFC 8032). */
module Signature {
  import opened Wrappers
  import opened NumberTheory
  import opened Edwards
  import opened SquareRoots
  import opened Ed25519

  newtype Byte = b: int | 0 <= b < 256

  const TWO_TO_255: nat := 0x8000000000000000000000000000000000000000000000000000000000000000

  // ---- Recovering x ----

  /** The x coordinate of the curve point with this y and this low bit of x, if there is one. */
  function RecoverX(c: Curve, y: nat, sign: nat): Option<int>
    requires c.p > 1
  {
    if y >= c.p then
      None
    else
      var x2 := (y * y - 1) * ModInv(c.p, c.d * y * y + 1) % c.p;
      if x2 == 0 then
        (if sign != 0 then None else Some(0))
      else
        var x := CandidateRoot(c.p, c.i, x2);
        if (x * x - x2) % c.p != 0 then
          None
        else
          Some(if x % 2 != sign then c.p - x else x)
  }

  /** d y^2 + 1 never vanishes, because d is not a square and -1 is. */
  lemma RecoverDenominator(c: Curve, y: int)
    requires c.Valid()
    ensures !Zero(c.p, c.d * y * y + 1)
  {
    hide Zero, Prime;
    var p, q := c.p, c.d * y * y + 1;
    if Zero(p, q) {
      if Zero(p, y) {
        ZeroMul(p, c.d * y, y);
        ZeroAdd(p, q, (c.d * y) * y);
        assert q - (c.d * y) * y == 1;
        ZeroSmall(p, 1);
      }
      ModInvCorrect(p, y);
      ZeroAdd(p, c.i * c.i + 1, q);
      QuotientSquare(p, c.d, c.i, y, ModInv(p, y));
    }
  }

  /** (x, y) satisfies the curve equation exactly when x^2 is the quotient computed from y. */
  lemma CurveAsSquare(c: Curve, x: int, y: int)
    requires c.Valid()
    ensures var x2 := (y * y - 1) * ModInv(c.p, c.d * y * y + 1) % c.p;
            Zero(c.p, Defect(c.d, x, y)) <==> Zero(c.p, x * x - x2)
  {
    hide Zero, Prime;
    var p, q, n := c.p, c.d * y * y + 1, y * y - 1;
    var x2 := n * ModInv(p, q) % p;
    RecoverDenominator(c, y);
    Division(p, n, q);
    assert Zero(p, q * x2 - n);
    CurveAsSquareIdentity(c.d, x, y, x2);
    if Zero(p, Defect(c.d, x, y)) {
      ZeroAdd(p, -Defect(c.d, x, y), q * x2 - n) by { ZeroMul(p, -1, Defect(c.d, x, y)); }
      Cancel(p, q, x * x - x2);
    }
    if Zero(p, x * x - x2) {
      ZeroMul(p, q, x * x - x2);
      ZeroAdd(p, q * (x * x - x2), q * x2 - n);
      ZeroMul(p, -1, q * (x * x - x2) + (q * x2 - n));
    }
  }

  lemma CurveAsSquareIdentity(d: int, x: int, y: int, x2: int)
    ensures var q, n := d * y * y + 1, y * y - 1;
            q * (x * x - x2) == -Defect(d, x, y) - (q * x2 - n)
  {
    var q := d * y * y + 1;
    MulMinus(q, x * x, x2);
    assert q * (x * x) == d * (x * y) * (x * y) + x * x by {
      Distribute2(x * x, d * y * y, 1);
      assert (x * x) * (d * y * y) == d * (x * y) * (x * y);
    }
  }

  /** Decompression of x is exact: the result is the one curve point with this y and parity. */
  lemma RecoverXExact(c: Curve, y: nat, sign: nat, x: int)
    requires c.Valid() && c.p % 8 == 5 && sign < 2
    ensures RecoverX(c, y, sign) == Some(x) <==> (c.OnCurve(Point(x, y)) && x % 2 == sign)
  {
    hide Prime;
    var p := c.p;
    if y < p {
      var x2 := (y * y - 1) * ModInv(p, c.d * y * y + 1) % p;
      CurveAsSquare(c, x, y);
      if x2 == 0 {
        ZeroRoot(p, x);
        ZeroMultiple(p, 0);
      } else {
        RecoverRoot(c, y, sign, x, x2);
      }
    }
  }

  lemma ZeroRoot(p: int, x: int)
    requires Prime(p)
    ensures 0 <= x < p && Zero(p, x * x - 0) ==> x == 0
  {
    hide Zero, Prime;
    if 0 <= x < p && Zero(p, x * x) {
      Euclid(p, x, x);
      ZeroSmall(p, x);
    }
  }

  /** x^2 is not zero: the candidate of the requested parity, if it is a root. */
  lemma RecoverCandidate(c: Curve, y: nat, sign: nat, x2: int)
    requires 1 < c.p && y < c.p && x2 == (y * y - 1) * ModInv(c.p, c.d * y * y + 1) % c.p && x2 != 0
    ensures
      var r := CandidateRoot(c.p, c.i, x2);
      RecoverX(c, y, sign) == if Zero(c.p, r * r - x2) then Some(OfParity(c.p, r, sign)) else None
  {
    hide CandidateRoot, ModInv;
  }

  function OfParity(p: int, r: int, sign: nat): int {
    if r % 2 != sign then p - r else r
  }

  lemma RecoverRoot(c: Curve, y: nat, sign: nat, x: int, x2: int)
    requires c.Valid() && c.p % 8 == 5 && sign < 2 && y < c.p
    requires x2 == (y * y - 1) * ModInv(c.p, c.d * y * y + 1) % c.p && 0 < x2 < c.p
    ensures RecoverX(c, y, sign) == Some(x) <==> (0 <= x < c.p && Zero(c.p, x * x - x2) && x % 2 == sign)
  {
    hide Prime, CandidateRoot, ModInv, RecoverX;
    RecoverCandidate(c, y, sign, x2);
    CandidateOfParity(c.p, c.i, x2, sign, x);
  }

  /** The candidate of the requested parity is the one root of that parity, if there is a root. */
  lemma CandidateOfParity(p: int, i: int, q: int, sign: nat, x: int)
    requires Prime(p) && p % 8 == 5 && Zero(p, i * i + 1) && 0 < q < p && sign < 2
    ensures
      var r := CandidateRoot(p, i, q);
      (Zero(p, r * r - q) && OfParity(p, r, sign) == x) <==> (0 <= x < p && Zero(p, x * x - q) && x % 2 == sign)
  {
    var r := CandidateRoot(p, i, q);
    CandidateRange(p, i, q);
    NotZeroResidue(p, q);
    hide Prime, CandidateRoot, Zero, OfParity;
    if Zero(p, r * r - q) {
      ChosenRoot(p, q, r, sign);
      if 0 <= x < p && Zero(p, x * x - q) && x % 2 == sign {
        RootUnique(p, q, x, OfParity(p, r, sign));
      }
    } else if Zero(p, x * x - q) {
      CandidateCorrect(p, i, q, x);
    }
  }

  lemma CandidateRange(p: int, i: int, q: int)
    requires p > 1
    ensures 0 <= CandidateRoot(p, i, q) < p
  {}

  lemma NotZeroResidue(p: int, x: int)
    requires p > 0 && 0 < x < p
    ensures !Zero(p, x)
  {
    if Zero(p, x) { ZeroSmall(p, x); }
  }

  /** The root of the requested parity is again a residue and a root. */
  lemma ChosenRoot(p: int, q: int, r: int, sign: nat)
    requires p % 8 == 5 && 0 <= r < p && 0 < q < p && sign < 2 && Zero(p, r * r - q)
    ensures
      var s := OfParity(p, r, sign);
      0 <= s < p && s % 2 == sign && Zero(p, s * s - q)
  {
    RootNotZero(p, q, r);
    OtherRoot(p, q, r);
    ParityChosen(p, r, sign);
    hide Zero;
    if r % 2 != sign {
      assert OfParity(p, r, sign) == p - r;
    }
  }

  lemma ParityChosen(p: int, r: int, sign: nat)
    requires p % 8 == 5 && 0 < r < p && sign < 2
    ensures 0 <= OfParity(p, r, sign) < p && OfParity(p, r, sign) % 2 == sign
  {}

  lemma RootNotZero(p: int, q: int, r: int)
    requires 0 < q < p && Zero(p, r * r - q)
    ensures r != 0
  {
    NotZeroResidue(p, q);
    hide Zero;
    ZeroMul(p, -1, r * r - q);
  }

  // ---- Byte strings ----

  /** int.from_bytes(s, 'little') */
  function FromBytes(s: seq<Byte>): nat {
    if s == [] then 0 else s[0] as nat + 256 * FromBytes(s[1..])
  }

  /** The k-byte little-endian encoding of n modulo 256^k. */
  function ToBytes(n: nat, k: nat): (s: seq<Byte>)
    ensures |s| == k
    decreases k, n
  {
    if k == 0 then [] else [(n % 256) as Byte] + ToBytes(n / 256, k - 1)
  }

  lemma {:induction false} BytesRoundTrip(n: nat, k: nat)
    requires n < Pow(256, k)
    ensures FromBytes(ToBytes(n, k)) == n
  {
    if k > 0 {
      assert Pow(256, k) == 256 * Pow(256, k - 1);
      BytesRoundTrip(n / 256, k - 1);
      assert ToBytes(n, k)[1..] == ToBytes(n / 256, k - 1);
    }
  }

  lemma {:induction false} FromBytesBound(s: seq<Byte>)
    ensures FromBytes(s) < Pow(256, |s|)
  {
    if s != [] {
      FromBytesBound(s[1..]);
      assert Pow(256, |s|) == 256 * Pow(256, |s| - 1);
    }
  }

  lemma {:induction false} FromBytesInjective(s: seq<Byte>, t: seq<Byte>)
    requires |s| == |t| && FromBytes(s) == FromBytes(t)
    ensures s == t
  {
    if s != [] {
      FromBytesInjective(s[1..], t[1..]);
      assert s == [s[0]] + s[1..] && t == [t[0]] + t[1..];
    }
  }

  /** What the bytes are worth: each one as it is, and every later one 256 times as much as the one before. */
  lemma {:induction false} FromBytesConcat(s: seq<Byte>, t: seq<Byte>)
    ensures FromBytes(s + t) == FromBytes(s) + Pow(256, |s|) * FromBytes(t)
    ensures forall b: Byte :: FromBytes([b]) == b as nat
  {
    if s == [] {
      assert s + t == t;
    } else {
      assert (s + t)[1..] == s[1..] + t;
      FromBytesConcat(s[1..], t);
      ScaledSum(256, FromBytes(s[1..]), Pow(256, |s| - 1), FromBytes(t));
    }
    forall b: Byte ensures FromBytes([b]) == b as nat {
      assert [b][1..] == [];
    }
  }

  lemma ScaledSum(k: int, a: int, p: int, b: int)
    ensures k * (a + p * b) == k * a + (k * p) * b
  {
    assert k * (p * b) == (k * p) * b;
  }

  lemma Pow256Of32()
    ensures Pow(256, 32) == 2 * TWO_TO_255
  {
    assert Pow(256, 2) == 0x1_0000 by { PowTwo(256); }
    PowAdd(256, 2, 2);
    PowAdd(256, 4, 4);
    PowAdd(256, 8, 8);
    PowAdd(256, 16, 16);
  }

  // ---- Compressed points ----

  /** s is the 32-byte encoding of the curve point a: y in 255 bits, then the low bit of x. */
  ghost predicate Encodes(c: Curve, s: seq<Byte>, a: Point)
    requires c.p > 0
  {
    && |s| == 32
    && c.OnCurve(a)
    && FromBytes(s) % TWO_TO_255 == a.y
    && FromBytes(s) / TWO_TO_255 == a.x % 2
  }

  function PointDecompress(c: Curve, s: seq<Byte>): Option<Ext>
    requires c.p > 1
  {
    if |s| != 32 then
      None
    else
      var n := FromBytes(s);
      var sign, y := n / TWO_TO_255, n % TWO_TO_255;
      match RecoverX(c, y, sign)
      case None => None
      case Some(x) => Some(Ext(x, y, 1, x * y % c.p))
  }

  /** Decompression accepts exactly the encodings of curve points, and yields that point. */
  lemma DecompressExact(c: Curve, s: seq<Byte>, a: Point)
    requires c.Valid() && c.p % 8 == 5
    ensures Encodes(c, s, a) <==> PointDecompress(c, s) == Some(Ext(a.x, a.y, 1, a.x * a.y % c.p))
  {
    hide Zero, Prime, RecoverX, Curve.OnCurve;
    if |s| == 32 {
      SignBit(s);
      RecoverXExact(c, FromBytes(s) % TWO_TO_255, FromBytes(s) / TWO_TO_255, a.x);
    }
  }

  lemma SignBit(s: seq<Byte>)
    requires |s| == 32
    ensures FromBytes(s) / TWO_TO_255 < 2
  {
    FromBytesBound(s);
    Pow256Of32();
  }

  /** A byte string that decodes at all decodes to a valid extended point with the encoded affine value. */
  lemma DecompressValid(c: Curve, s: seq<Byte>)
    requires c.Valid() && c.p % 8 == 5 && PointDecompress(c, s).Some?
    ensures var e := PointDecompress(c, s).value;
            ValidExt(c, e) && Encodes(c, s, Affine(c, e))
  {
    hide Zero, Prime, RecoverX;
    var e := PointDecompress(c, s).value;
    var a := Point(e.x, e.y);
    DecompressExact(c, s, a);
    UnitRepresents(c, a);
    RepresentsUnique(c, e, a);
    ValidIffRepresents(c, e);
  }

  lemma UnitRepresents(c: Curve, a: Point)
    requires c.Valid() && c.OnCurve(a)
    ensures Represents(c, Ext(a.x, a.y, 1, a.x * a.y % c.p), a)
  {
    NotZeroResidue(c.p, 1);
    ZeroMultiple(c.p, 0);
    ModCongruent(c.p, a.x * a.y);
  }

  lemma NotDecompressed(c: Curve, s: seq<Byte>, a: Point)
    requires c.Valid() && c.p % 8 == 5 && PointDecompress(c, s).None?
    ensures !Encodes(c, s, a)
  {
    DecompressExact(c, s, a);
  }

  lemma EncodesUnique(c: Curve, s: seq<Byte>, a: Point, b: Point)
    requires c.Valid() && c.p % 8 == 5 && Encodes(c, s, a) && Encodes(c, s, b)
    ensures a == b
  {
    DecompressExact(c, s, a);
    DecompressExact(c, s, b);
  }

  /** The encoding of section 5.1.2 of RFC 8032. */
  function Compress(a: Point): (s: seq<Byte>)
    requires 0 <= a.y < TWO_TO_255
    ensures |s| == 32 && FromBytes(s) == a.y + TWO_TO_255 * (a.x % 2)
  {
    var n := a.y + TWO_TO_255 * (a.x % 2);
    Pow256Of32();
    BytesRoundTrip(n, 32);
    ToBytes(n, 32)
  }

  lemma HighBit(n: int, bit: int, rest: int)
    requires n == rest + TWO_TO_255 * bit && 0 <= rest < TWO_TO_255
    ensures n / TWO_TO_255 == bit && n % TWO_TO_255 == rest
  {}

  // ---- Verification ----

  /** The curve, the base point and the order of its subgroup. */
  datatype Scheme = Scheme(c: Curve, base: Point, order: nat) {
    /** Enough for verification to be exact. */
    ghost predicate Usable() {
      c.Valid() && c.p % 8 == 5 && c.OnCurve(base) && 0 < order
    }

    /** And for signatures to be made: the order is one of the base point, and values fit their encodings. */
    ghost predicate Valid() {
      && Usable()
      && c.p <= TWO_TO_255 && order < TWO_TO_255 && Multiple(c, order, base) == NEUTRAL
    }
  }

  /** A caller's argument: a byte string, or something else. */
  datatype Argument = Bytes(data: seq<Byte>) | NotBytes

  /** SHA-512 of a byte string, read as a number modulo the order. */
  function Challenge(s: Scheme, hash: seq<Byte> -> seq<Byte>, data: seq<Byte>): nat
    requires s.order > 0
  {
    FromBytes(hash(data)) % s.order
  }

  /**
    * The affine equation [s]B = R + [h]A between the encoded values, where h is the residue of SHA-512(R + A + M)
    * modulo the order.
    */
  ghost predicate Equation(s: Scheme, hash: seq<Byte> -> seq<Byte>, key: seq<Byte>, message: seq<Byte>, sig: seq<Byte>,
                           a: Point, r: Point, h: nat)
    requires s.Usable() && |sig| == 64
  {
    && Encodes(s.c, key, a)
    && Encodes(s.c, sig[..32], r)
    && h < s.order && Zero(s.order, FromBytes(hash(sig[..32] + key + message)) - h)
    && Multiple(s.c, FromBytes(sig[32..]), s.base) == Add(s.c, r, Multiple(s.c, h, a))
  }

  /** The challenge is the one residue congruent to the hash. */
  lemma ChallengeExact(s: Scheme, hash: seq<Byte> -> seq<Byte>, data: seq<Byte>, h: nat)
    requires s.order > 0
    ensures h == Challenge(s, hash, data) <==> h < s.order && Zero(s.order, FromBytes(hash(data)) - h)
  {
    var v := FromBytes(hash(data));
    assert Challenge(s, hash, data) == v % s.order;
    hide *;
    SameResidue(s.order, v, h);
    ResidueOnly(s.order, v, h);
  }

  lemma ResidueOnly(p: int, v: int, h: nat)
    requires p > 0
    ensures h == v % p <==> h < p && v % p == h % p
  {}

  /** What section 5.1.7 of RFC 8032 asks of a signature. */
  ghost predicate Accepts(s: Scheme, hash: seq<Byte> -> seq<Byte>, publicKey: Argument, message: seq<Byte>,
                          signature: Argument)
    requires s.Usable()
  {
    && publicKey.Bytes? && |publicKey.data| == 32
    && signature.Bytes? && |signature.data| == 64
    && FromBytes(signature.data[32..]) < s.order
    && exists a, r, h: nat :: Equation(s, hash, publicKey.data, message, signature.data, a, r, h)
  }

  /** Verification accepts exactly the signatures of section 5.1.7 of RFC 8032. */
  method Verify(s: Scheme, hash: seq<Byte> -> seq<Byte>, publicKey: Argument, message: seq<Byte>, signature: Argument)
    returns (ok: bool)
    requires s.Usable()
    ensures ok <==> Accepts(s, hash, publicKey, message, signature)
  {
    hide Zero, Prime, Add, Affine, ValidExt, PointAdd, PointEqual, PointDecompress;
    hide Encodes, Multiple, Curve.OnCurve, FromBytes;
    if !publicKey.Bytes? || |publicKey.data| != 32 {
      return false;
    }
    if !signature.Bytes? || |signature.data| != 64 {
      return false;
    }
    var key, sig := publicKey.data, signature.data;
    var a := PointDecompress(s.c, key);
    if a.None? {
      forall b ensures !Encodes(s.c, key, b) { NotDecompressed(s.c, key, b); }
      return false;
    }
    var rs := sig[..32];
    var r := PointDecompress(s.c, rs);
    if r.None? {
      forall b ensures !Encodes(s.c, rs, b) { NotDecompressed(s.c, rs, b); }
      return false;
    }
    var n := FromBytes(sig[32..]);
    if n >= s.order {
      return false;
    }
    var h := Challenge(s, hash, rs + key + message);
    ChallengeExact(s, hash, rs + key + message, h);
    DecompressValid(s.c, key);
    DecompressValid(s.c, rs);
    BaseValid(s);
    var left := PointMul(s.c, n, Ext(s.base.x, s.base.y, 1, s.base.x * s.base.y % s.c.p));
    var right := PointMul(s.c, h, a.value);
    PointAddCorrect(s.c, r.value, right);
    ok := PointEqual(s.c, left, PointAdd(s.c, r.value, right));
    PointEqualCorrect(s.c, left, PointAdd(s.c, r.value, right));
    EquationIff(s, hash, key, message, sig, Affine(s.c, a.value), Affine(s.c, r.value), h);
  }

  lemma BaseValid(s: Scheme)
    requires s.Usable()
    ensures var e := Ext(s.base.x, s.base.y, 1, s.base.x * s.base.y % s.c.p);
            ValidExt(s.c, e) && Affine(s.c, e) == s.base
  {
    hide Zero, Prime;
    var e := Ext(s.base.x, s.base.y, 1, s.base.x * s.base.y % s.c.p);
    UnitRepresents(s.c, s.base);
    RepresentsUnique(s.c, e, s.base);
    ValidIffRepresents(s.c, e);
  }

  lemma EquationIff(s: Scheme, hash: seq<Byte> -> seq<Byte>, key: seq<Byte>, message: seq<Byte>, sig: seq<Byte>,
                    a: Point, r: Point, h: nat)
    requires s.Usable() && |sig| == 64 && Encodes(s.c, key, a) && Encodes(s.c, sig[..32], r)
    requires h < s.order && Zero(s.order, FromBytes(hash(sig[..32] + key + message)) - h)
    ensures (exists a', r', h': nat :: Equation(s, hash, key, message, sig, a', r', h'))
       <==> Equation(s, hash, key, message, sig, a, r, h)
  {
    hide Zero, Prime, Add, Encodes, Multiple, FromBytes, Challenge;
    forall a', r', h': nat | Equation(s, hash, key, message, sig, a', r', h') ensures a' == a && r' == r && h' == h {
      EncodesUnique(s.c, key, a, a');
      EncodesUnique(s.c, sig[..32], r, r');
      ChallengeExact(s, hash, sig[..32] + key + message, h);
      ChallengeExact(s, hash, sig[..32] + key + message, h');
    }
  }

  /** The encoding of [a]base: the public key of the secret scalar a, and the commitment of a nonce. */
  ghost function EncodedMultiple(s: Scheme, a: nat): (e: seq<Byte>)
    requires s.Valid()
    ensures |e| == 32 && Encodes(s.c, e, Multiple(s.c, a, s.base))
  {
    MultipleOnCurve(s.c, a, s.base);
    var b := Multiple(s.c, a, s.base);
    HighBit(FromBytes(Compress(b)), b.x % 2, b.y);
    Compress(b)
  }

  /** The signature made with secret scalar a, nonce r and challenge h: R = [r]B, s = (r + h a) mod L. */
  ghost function HonestSignature(s: Scheme, a: nat, r: nat, h: nat): seq<Byte>
    requires s.Valid()
  {
    EncodedMultiple(s, r) + ToBytes((r + h * a) % s.order, 32)
  }

  /** Every honestly made signature is accepted: h is SHA-512 of R, A and the message, modulo the order. */
  lemma HonestAccepted(s: Scheme, hash: seq<Byte> -> seq<Byte>, a: nat, r: nat, message: seq<Byte>, h: nat)
    requires s.Valid() && h < s.order
    requires Zero(s.order, FromBytes(hash(EncodedMultiple(s, r) + EncodedMultiple(s, a) + message)) - h)
    ensures Accepts(s, hash, Bytes(EncodedMultiple(s, a)), message, Bytes(HonestSignature(s, a, r, h)))
  {
    hide Zero, Prime, Add, Encodes, Multiple, FromBytes, ToBytes, Challenge, Compress, Curve.OnCurve;
    var key, rs, sig := EncodedMultiple(s, a), EncodedMultiple(s, r), HonestSignature(s, a, r, h);
    var n := (r + h * a) % s.order;
    assert sig[..32] == rs && sig[32..] == ToBytes(n, 32);
    Pow256Of32();
    BytesRoundTrip(n, 32);
    HonestEquation(s, a, r, h);
    assert Equation(s, hash, key, message, sig, Multiple(s.c, a, s.base), Multiple(s.c, r, s.base), h);
  }

  lemma HonestEquation(s: Scheme, a: nat, r: nat, h: nat)
    requires s.Valid()
    ensures h * a >= 0
    ensures Multiple(s.c, (r + h * a) % s.order, s.base)
         == Add(s.c, Multiple(s.c, r, s.base), Multiple(s.c, h, Multiple(s.c, a, s.base)))
  {
    hide Zero, Prime, Add, Multiple, Curve.OnCurve;
    MultipleMultiple(s.c, h, a, s.base);
    MultipleModulo(s.c, s.order, r + h * a, s.base);
    MultipleAdd(s.c, r, h * a, s.base);
  }

  /** Below a prime order, distinct scalars have distinct multiples of the base point. */
  lemma ScalarUnique(s: Scheme, m: nat, n: nat)
    requires s.Valid() && Prime(s.order) && s.base != NEUTRAL && m < s.order && n < s.order
    requires Multiple(s.c, m, s.base) == Multiple(s.c, n, s.base)
    ensures m == n
  {
    hide Zero, Prime, Add, Multiple, Curve.OnCurve;
    if m < n {
      SmallerScalar(s, m, n);
    } else if n < m {
      SmallerScalar(s, n, m);
    }
  }

  lemma SmallerScalar(s: Scheme, m: nat, n: nat)
    requires s.Valid() && Prime(s.order) && m < n < s.order && Multiple(s.c, m, s.base) == Multiple(s.c, n, s.base)
    ensures s.base == NEUTRAL
  {
    hide Zero, Add, Multiple, Curve.OnCurve;
    // With [m]B = [n]B, [n - m + order]B = [order]B = O, and n - m has an inverse modulo the order.
    var k, l := n - m, s.order;
    assert Multiple(s.c, k, s.base) == NEUTRAL by {
      MultipleAdd(s.c, n, l - m, s.base);
      MultipleAdd(s.c, m, l - m, s.base);
      MultipleAdd(s.c, k, l, s.base);
      MultipleOnCurve(s.c, k, s.base);
      AddNeutral(s.c, Multiple(s.c, k, s.base));
    }
    var u := Coprime(l, k);
    InverseScalar(l, u, k);
    var v := u % l;
    MultipleMultiple(s.c, v, k, s.base);
    MultipleOfNeutral(s.c, v);
    MultipleModulo(s.c, l, v * k, s.base);
    MultipleOne(s.c, s.base);
  }

  lemma InverseScalar(l: int, u: int, k: int)
    requires l > 1 && Zero(l, u * k - 1)
    ensures (u % l) * k % l == 1
  {
    assert 1 % l == 1;
    ScaledResidue(l, u, k);
    SameResidue(l, (u % l) * k, 1);
  }

  lemma ScaledResidue(l: int, u: int, k: int)
    requires l > 0 && Zero(l, u * k - 1)
    ensures Zero(l, (u % l) * k - 1)
  {
    hide Zero;
    ModCongruent(l, u);
    ScaledCongruence(l, u % l, u, k);
  }

  lemma ScaledCongruence(l: int, r: int, u: int, k: int)
    requires l > 0 && Zero(l, r - u) && Zero(l, u * k - 1)
    ensures Zero(l, r * k - 1)
  {
    hide Zero;
    ZeroMul(l, k, r - u);
    ZeroAdd(l, k * (r - u), u * k - 1);
    MulMinus(k, r, u);
  }

  /** Signatures are not malleable: two accepted signatures with the same R are the same signature. */
  lemma SignatureUnique(s: Scheme, hash: seq<Byte> -> seq<Byte>, key: Argument, message: seq<Byte>, sig: seq<Byte>,
                        sig': seq<Byte>)
    requires s.Valid() && Prime(s.order) && s.base != NEUTRAL
    requires Accepts(s, hash, key, message, Bytes(sig)) && Accepts(s, hash, key, message, Bytes(sig'))
    requires sig[..32] == sig'[..32]
    ensures sig == sig'
  {
    hide Zero, Prime, Add, Encodes, Multiple, FromBytes, Challenge, Curve.OnCurve;
    var a, r, h: nat :| Equation(s, hash, key.data, message, sig, a, r, h);
    EquationIff(s, hash, key.data, message, sig', a, r, h);
    ScalarUnique(s, FromBytes(sig[32..]), FromBytes(sig'[32..]));
    FromBytesInjective(sig[32..], sig'[32..]);
    assert sig == sig[..32] + sig[32..] && sig' == sig'[..32] + sig'[32..];
  }

  /** R is the multiple of the base point that the equation makes it. */
  lemma CommitmentScalar(s: Scheme, a: nat, r: Point, n: nat, h: nat)
    requires s.Valid() && s.c.OnCurve(r) && h < s.order
    requires Multiple(s.c, n, s.base) == Add(s.c, r, Multiple(s.c, h, Multiple(s.c, a, s.base)))
    ensures (s.order - h) * a >= 0
    ensures Multiple(s.c, n + (s.order - h) * a, s.base) == r
  {
    hide Zero, Prime, Add, Multiple, Curve.OnCurve;
    var l, p := s.order, Multiple(s.c, a, s.base);
    MultipleOnCurve(s.c, a, s.base);
    MultipleOnCurve(s.c, h, p);
    MultipleOnCurve(s.c, l - h, p);
    MultipleMultiple(s.c, l - h, a, s.base);
    MultipleAdd(s.c, n, (l - h) * a, s.base);
    AddAssociates(s.c, r, Multiple(s.c, h, p), Multiple(s.c, l - h, p));
    MultipleAdd(s.c, h, l - h, p);
    OrderOfMultiple(s, a);
    AddNeutral(s.c, r);
  }

  lemma OrderOfMultiple(s: Scheme, a: nat)
    requires s.Valid()
    ensures Multiple(s.c, s.order, Multiple(s.c, a, s.base)) == NEUTRAL
  {
    hide Zero, Prime, Add, Multiple, Curve.OnCurve;
    MultipleMultiple(s.c, s.order, a, s.base);
    MultipleMultiple(s.c, a, s.order, s.base);
    MultipleOfNeutral(s.c, a);
    assert s.order * a == a * s.order;
  }

  /** Scalars with one multiple of the base point are congruent modulo a prime order. */
  lemma ScalarsCongruent(s: Scheme, m: nat, n: nat)
    requires s.Valid() && Prime(s.order) && s.base != NEUTRAL
    requires Multiple(s.c, m, s.base) == Multiple(s.c, n, s.base)
    ensures Zero(s.order, m - n)
  {
    SameResidue(s.order, m, n);
    hide Zero, Prime, Add, Multiple, Curve.OnCurve;
    MultipleModulo(s.c, s.order, m, s.base);
    MultipleModulo(s.c, s.order, n, s.base);
    ScalarUnique(s, m % s.order, n % s.order);
  }

  lemma ChallengesCongruent(l: nat, a: nat, n: nat, h: nat, h': nat)
    requires Prime(l) && !Zero(l, a) && Zero(l, (n + (l - h) * a) - (n + (l - h') * a))
    ensures Zero(l, h - h')
  {
    assert l > 0;
    hide Zero, Prime;
    assert (n + (l - h) * a) - (n + (l - h') * a) == a * (h' - h);
    Cancel(l, a, h' - h);
    ZeroMul(l, -1, h' - h);
  }

  /**
    * A signature binds the message: if the key of a secret scalar accepts one signature for two messages, their
    * hashes collide modulo the order.
    */
  lemma MessageBound(s: Scheme, hash: seq<Byte> -> seq<Byte>, a: nat, m: seq<Byte>, m': seq<Byte>, sig: seq<Byte>)
    requires s.Valid() && Prime(s.order) && s.base != NEUTRAL && !Zero(s.order, a) && |sig| == 64
    requires Accepts(s, hash, Bytes(EncodedMultiple(s, a)), m, Bytes(sig))
    requires Accepts(s, hash, Bytes(EncodedMultiple(s, a)), m', Bytes(sig))
    ensures
      var key := EncodedMultiple(s, a);
      Zero(s.order, FromBytes(hash(sig[..32] + key + m)) - FromBytes(hash(sig[..32] + key + m')))
  {
    hide Zero, Prime, Add, Encodes, Multiple, FromBytes, Challenge, Curve.OnCurve, EncodedMultiple;
    var l, key, n := s.order, EncodedMultiple(s, a), FromBytes(sig[32..]);
    var p, r, h: nat :| Equation(s, hash, key, m, sig, p, r, h);
    var p', r', h': nat :| Equation(s, hash, key, m', sig, p', r', h');
    EncodesUnique(s.c, key, p, Multiple(s.c, a, s.base));
    EncodesUnique(s.c, key, p', Multiple(s.c, a, s.base));
    EncodesUnique(s.c, sig[..32], r, r');
    EncodedOnCurve(s.c, sig[..32], r);
    CommitmentScalar(s, a, r, n, h);
    CommitmentScalar(s, a, r, n, h');
    ScalarsCongruent(s, n + (l - h) * a, n + (l - h') * a);
    ChallengesCongruent(l, a, n, h, h');
    var d, d' := FromBytes(hash(sig[..32] + key + m)), FromBytes(hash(sig[..32] + key + m'));
    ZeroAdd(l, d - h, d' - h');
    ZeroAdd(l, (d - h) - (d' - h'), h - h');
  }

  lemma EncodedOnCurve(c: Curve, s: seq<Byte>, a: Point)
    requires c.p > 0 && Encodes(c, s, a)
    ensures c.OnCurve(a)
  {}
}
