/** Single sign-on assertions: the checks on a signed assertion's claims and its single use. */
module ReplayCache {
  import opened Wrappers
  import Signature

  // ---- The cache of spent assertions ----

  /** The entries that can still verify at this time. */
  function Unexpired(seen: map<string, int>, now: int): map<string, int> {
    map k | k in seen && seen[k] > now :: seen[k]
  }

  /** A use of an assertion that passed every other check. */
  datatype Use = Use(jti: string, exp: int, now: int)

  /** The cache after a use: expired entries are dropped, and a new assertion is recorded. */
  function AfterUse(seen: map<string, int>, u: Use): map<string, int> {
    var live := Unexpired(seen, u.now);
    if u.jti in live then live else live[u.jti := u.exp]
  }

  predicate Fresh(seen: map<string, int>, u: Use) {
    u.jti !in Unexpired(seen, u.now)
  }

  function SeenAfter(uses: seq<Use>): map<string, int> {
    if uses == [] then map[] else AfterUse(SeenAfter(uses[..|uses| - 1]), uses[|uses| - 1])
  }

  /** Use i of the run was accepted. */
  predicate Accepted(uses: seq<Use>, i: nat)
    requires i < |uses|
  {
    Fresh(SeenAfter(uses[..i]), uses[i])
  }

  /** The clock does not go back, and no expired assertion reaches the cache. */
  ghost predicate Timely(uses: seq<Use>) {
    && (forall i, j :: 0 <= i <= j < |uses| ==> uses[i].now <= uses[j].now)
    && (forall i :: 0 <= i < |uses| ==> uses[i].now < uses[i].exp)
  }

  ghost predicate AcceptedPair(uses: seq<Use>, jti: string, exp: int) {
    exists i: nat :: i < |uses| && Accepted(uses, i) && uses[i].jti == jti && uses[i].exp == exp
  }

  lemma AcceptedPrefix(uses: seq<Use>, jti: string, exp: int)
    requires uses != []
    ensures var n := |uses| - 1;
            AcceptedPair(uses, jti, exp) <==>
            AcceptedPair(uses[..n], jti, exp) || (Accepted(uses, n) && uses[n].jti == jti && uses[n].exp == exp)
  {
    var n := |uses| - 1;
    assert forall i :: 0 <= i <= n ==> uses[..n][..i] == uses[..i];
    if AcceptedPair(uses[..n], jti, exp) {
      var i: nat :| i < n && Accepted(uses[..n], i) && uses[..n][i].jti == jti && uses[..n][i].exp == exp;
      assert Accepted(uses, i);
    }
    if AcceptedPair(uses, jti, exp) {
      var i: nat :| i < |uses| && Accepted(uses, i) && uses[i].jti == jti && uses[i].exp == exp;
      if i < n { assert Accepted(uses[..n], i); }
    }
  }

  /** The cache holds exactly the accepted assertions that have not expired. */
  lemma {:induction false} SeenExact(uses: seq<Use>, jti: string, exp: int)
    requires Timely(uses) && uses != []
    ensures (jti in SeenAfter(uses) && SeenAfter(uses)[jti] == exp)
            <==> AcceptedPair(uses, jti, exp) && exp > uses[|uses| - 1].now
  {
    var n := |uses| - 1;
    AcceptedPrefix(uses, jti, exp);
    if n > 0 {
      SeenExact(uses[..n], jti, exp);
      assert uses[n - 1].now <= uses[n].now;
      assert Timely(uses[..n]);
    }
  }

  /** No assertion is accepted twice. */
  lemma SingleUse(uses: seq<Use>, i: nat, j: nat)
    requires Timely(uses) && i < j < |uses| && Accepted(uses, i)
    requires uses[i].jti == uses[j].jti && uses[i].exp == uses[j].exp
    ensures !Accepted(uses, j)
  {
    var prefix := uses[..j];
    assert Timely(prefix);
    assert prefix[..i] == uses[..i];
    assert Accepted(prefix, i);
    assert AcceptedPair(prefix, uses[j].jti, uses[j].exp);
    assert prefix[|prefix| - 1].now <= uses[j].now < uses[j].exp;
    SeenExact(prefix, uses[j].jti, uses[j].exp);
  }

  // ---- Verification of an assertion ----

  datatype Json = JInt(n: int) | JBool(b: bool) | JString(s: string) | JOther | Missing

  /** Python counts booleans as integers. */
  function AsInt(v: Json): Option<int> {
    match v
    case JInt(n) => Some(n)
    case JBool(b) => Some(if b then 1 else 0)
    case _ => None
  }

  datatype Claims = Claims(iss: Json, aud: Json, exp: Json, iat: Json, sub: Json, jti: Json)

  /** The claim is this integer; a boolean counts as 0 or 1. */
  predicate IsInt(v: Json, n: int) {
    v == JInt(n) || (v == JBool(true) && n == 1) || (v == JBool(false) && n == 0)
  }

  lemma AsIntExact(v: Json, n: int)
    ensures AsInt(v) == Some(n) <==> IsInt(v, n)
  {}

  type Bytes = seq<Signature.Byte>

  /** A token that splits into three parts and decodes; the signed bytes are its first two parts. */
  datatype Token = Token(alg: Json, typ: Json, kid: Json, claims: Claims, signed: Bytes, signature: Bytes)

  /** The key is the decoded one, empty if it does not decode. */
  datatype Config = Config(issuer: string, audience: string, kid: string, key: Bytes)

  const CLOCK_SKEW := 30

  /** Everything but the single use: among it, the signature equation of section 5.1.7 of RFC 8032. */
  ghost predicate Holds(scheme: Signature.Scheme, hash: Bytes -> Bytes, cfg: Config, t: Token, now: int)
    requires scheme.Usable()
  {
    && |cfg.key| == 32
    && Signature.Accepts(scheme, hash, Signature.Argument.Bytes(cfg.key), t.signed,
                         Signature.Argument.Bytes(t.signature))
    && ClaimsHold(cfg, t, now)
  }

  /** The checks on header and claims: 30 seconds of clock skew are forgiven for the time of issue, none for the end. */
  ghost predicate ClaimsHold(cfg: Config, t: Token, now: int) {
    var c := t.claims;
    && t.alg == JString("EdDSA") && t.typ == JString("nxa")
    && (cfg.kid != "" ==> t.kid == JString(cfg.kid))
    && c.iss == JString(cfg.issuer) && c.aud == JString(cfg.audience)
    && (exists exp :: IsInt(c.exp, exp) && now < exp)
    && (exists iat :: IsInt(c.iat, iat) && iat <= now + 30)
    && (exists sub :: c.sub == JString(sub) && sub != "")
    && (exists jti :: c.jti == JString(jti) && jti != "")
  }

  /** The same, told by what the checks compute. */
  lemma ClaimsComputed(cfg: Config, t: Token, now: int)
    ensures
      var c := t.claims;
      ClaimsHold(cfg, t, now)
      <==> && t.alg == JString("EdDSA") && t.typ == JString("nxa")
           && (cfg.kid != "" ==> t.kid == JString(cfg.kid))
           && c.iss == JString(cfg.issuer) && c.aud == JString(cfg.audience)
           && AsInt(c.exp).Some? && AsInt(c.iat).Some?
           && now < AsInt(c.exp).value && AsInt(c.iat).value <= now + CLOCK_SKEW
           && c.sub.JString? && c.sub.s != "" && c.jti.JString? && c.jti.s != ""
  {
    var c := t.claims;
    if AsInt(c.exp).Some? && AsInt(c.iat).Some? {
      AsIntExact(c.exp, AsInt(c.exp).value);
      AsIntExact(c.iat, AsInt(c.iat).value);
    }
    if c.sub.JString? && c.jti.JString? {
      assert c.sub == JString(c.sub.s) && c.jti == JString(c.jti.s);
    }
  }

  class Verifier {
    const scheme: Signature.Scheme
    const hash: Bytes -> Bytes
    var seen: map<string, int>
    ghost var uses: seq<Use>

    /** The cache is the one its uses produce, and the uses are timely. */
    ghost predicate Valid()
      reads this
    {
      scheme.Usable() && seen == SeenAfter(uses) && Timely(uses)
    }

    constructor (scheme: Signature.Scheme, hash: Bytes -> Bytes)
      requires scheme.Usable()
      ensures Valid() && uses == [] && this.scheme == scheme && this.hash == hash
    {
      this.scheme, this.hash := scheme, hash;
      seen := map[];
      uses := [];
    }

    ghost predicate NotBefore(now: int)
      reads this
    {
      uses != [] ==> uses[|uses| - 1].now <= now
    }

    /** Records a jti as spent; false if it was already spent. */
    method Remember(jti: string, exp: int, now: int) returns (isNew: bool)
      modifies this`seen
      ensures seen == AfterUse(old(seen), Use(jti, exp, now))
      ensures isNew <==> Fresh(old(seen), Use(jti, exp, now))
    {
      ghost var before := seen;
      var todo := seen.Keys;
      while todo != {}
        invariant todo <= seen.Keys
        invariant seen.Keys <= before.Keys
        invariant forall k :: k in seen ==> seen[k] == before[k]
        invariant forall k :: k in before ==> (k in seen <==> k in todo || before[k] > now)
      {
        var k :| k in todo;
        if seen[k] <= now {
          seen := seen - {k};
        }
        todo := todo - {k};
      }
      assert seen == Unexpired(before, now);
      if jti in seen {
        return false;
      }
      seen := seen[jti := exp];
      return true;
    }

    /** The subject of an assertion, or None. A token that does not decode is None here too. */
    method Verify(cfg: Option<Config>, token: Option<Token>, now: int) returns (subject: Option<string>)
      requires Valid() && NotBefore(now)
      modifies this
      ensures Valid() && NotBefore(now)
      ensures subject.Some? <==> cfg.Some? && token.Some? && Holds(scheme, hash, cfg.value, token.value, now)
                                 && !exists exp :: AcceptedPair(old(uses), token.value.claims.jti.s, exp) && exp > now
      ensures subject.Some? ==> subject.value == token.value.claims.sub.s
      ensures cfg.Some? && token.Some? && Holds(scheme, hash, cfg.value, token.value, now) ==>
                exists exp :: IsInt(token.value.claims.exp, exp)
                              && uses == old(uses) + [Use(token.value.claims.jti.s, exp, now)]
      ensures !(cfg.Some? && token.Some? && Holds(scheme, hash, cfg.value, token.value, now)) ==> uses == old(uses)
    {
      hide SeenAfter, AfterUse, Fresh, AcceptedPair, Signature.Accepts, Signature.Scheme.Usable;
      if cfg.None? || token.None? {
        return None;
      }
      var valid := Check(cfg.value, token.value, now);
      if !valid {
        return None;
      }
      var c := token.value.claims;
      AsIntExact(c.exp, if AsInt(c.exp).Some? then AsInt(c.exp).value else 0);
      var exp := AsInt(c.exp).value;
      ghost var before, u := uses, Use(c.jti.s, exp, now);
      var isNew := Remember(c.jti.s, exp, now);
      FreshMeans(before, u);
      OneMoreUse(before, u);
      uses := uses + [u];
      if !isNew {
        return None;
      }
      return Some(c.sub.s);
    }

    /** The checks on header, signature and claims, one after the other. */
    method Check(cfg: Config, t: Token, now: int) returns (ok: bool)
      requires Valid()
      ensures ok <==> Holds(scheme, hash, cfg, t, now)
    {
      ClaimsComputed(cfg, t, now);
      hide SeenAfter, Timely, Signature.Accepts, Signature.Scheme.Usable, ClaimsHold;
      if |cfg.key| != 32 {
        return false;
      }
      if t.alg != JString("EdDSA") || t.typ != JString("nxa") {
        return false;
      }
      if cfg.kid != "" && t.kid != JString(cfg.kid) {
        return false;
      }
      var signed := Signature.Verify(scheme, hash, Signature.Argument.Bytes(cfg.key), t.signed,
                                     Signature.Argument.Bytes(t.signature));
      if !signed {
        return false;
      }
      var c := t.claims;
      if c.iss != JString(cfg.issuer) {
        return false;
      }
      if c.aud != JString(cfg.audience) {
        return false;
      }
      var exp, iat := AsInt(c.exp), AsInt(c.iat);
      if exp.None? || iat.None? {
        return false;
      }
      if now >= exp.value || iat.value > now + CLOCK_SKEW {
        return false;
      }
      if !c.sub.JString? || c.sub.s == "" {
        return false;
      }
      if !c.jti.JString? || c.jti.s == "" {
        return false;
      }
      return true;
    }
  }

  lemma OneMoreUse(uses: seq<Use>, u: Use)
    requires Timely(uses) && (uses != [] ==> uses[|uses| - 1].now <= u.now) && u.now < u.exp
    ensures Timely(uses + [u]) && SeenAfter(uses + [u]) == AfterUse(SeenAfter(uses), u)
  {
    StillTimely(uses, u);
    var longer := uses + [u];
    SeenLast(longer);
    hide *;
    assert longer[..|longer| - 1] == uses && longer[|longer| - 1] == u;
  }

  lemma SeenLast(uses: seq<Use>)
    requires uses != []
    ensures SeenAfter(uses) == AfterUse(SeenAfter(uses[..|uses| - 1]), uses[|uses| - 1])
  {}

  lemma StillTimely(uses: seq<Use>, u: Use)
    requires Timely(uses) && (uses != [] ==> uses[|uses| - 1].now <= u.now) && u.now < u.exp
    ensures Timely(uses + [u])
  {
    var longer := uses + [u];
    forall i, j | 0 <= i <= j < |longer| ensures longer[i].now <= longer[j].now {
      if i < |uses| {
        assert uses[i].now <= uses[|uses| - 1].now;
      }
    }
  }

  /** A use is fresh exactly when no accepted assertion with its jti is still alive. */
  lemma FreshMeans(uses: seq<Use>, u: Use)
    requires Timely(uses) && (uses != [] ==> uses[|uses| - 1].now <= u.now)
    ensures Fresh(SeenAfter(uses), u) <==> !exists exp :: AcceptedPair(uses, u.jti, exp) && exp > u.now
  {
    var seen := SeenAfter(uses);
    if uses != [] {
      if u.jti in Unexpired(seen, u.now) {
        SeenExact(uses, u.jti, seen[u.jti]);
      }
      if exp :| AcceptedPair(uses, u.jti, exp) && exp > u.now {
        SeenExact(uses, u.jti, exp);
      }
    }
  }
}
