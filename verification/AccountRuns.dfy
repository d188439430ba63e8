/** What every run of requests keeps of the logins, presets and tokens, and what overlapping requests can lose. */
module AccountRuns {
  import opened Wrappers
  import opened Accounts
  import Tags

  datatype Sent = Sent(who: Identity, request: Request)

  function Run(c: Config, sent: seq<Sent>): Config {
    if sent == [] then c
    else Apply(Run(c, sent[..|sent| - 1]), sent[|sent| - 1].who, sent[|sent| - 1].request).0
  }

  /** Each request is authenticated against the configuration it changes. */
  predicate OneAtATime(c: Config, sent: seq<Sent>) {
    forall k :: 0 <= k < |sent| ==> Current(Run(c, sent[..k]), sent[k].who)
  }

  /** Requests one at a time keep every invariant of the configuration. */
  lemma {:induction false} RunKeeps(c: Config, sent: seq<Sent>)
    requires PresetsResolve(c) && TokensOwned(c) && HasAdmin(c) && OneAtATime(c, sent)
    ensures PresetsResolve(Run(c, sent)) && TokensOwned(Run(c, sent)) && HasAdmin(Run(c, sent))
  {
    if sent != [] {
      hide PresetsResolve, TokensOwned, HasAdmin, Current, Apply;
      var n := |sent| - 1;
      FirstOnes(c, sent);
      hide OneAtATime;
      RunKeeps(c, sent[..n]);
      CurrentSenderKeeps(Run(c, sent[..n]), sent[n].who, sent[n].request);
    }
  }

  lemma FirstOnes(c: Config, sent: seq<Sent>)
    requires OneAtATime(c, sent) && sent != []
    ensures OneAtATime(c, sent[..|sent| - 1]) && Current(Run(c, sent[..|sent| - 1]), sent[|sent| - 1].who)
  {
    hide Run, Current;
    var rest := sent[..|sent| - 1];
    forall k | 0 <= k < |rest| ensures Current(Run(c, rest[..k]), rest[k].who) {
      assert rest[..k] == sent[..k];
    }
  }

  /** However requests overlap, no preset reference ever dangles, and a preset and literal tags never coexist. */
  lemma {:induction false} RunKeepsScopes(c: Config, sent: seq<Sent>)
    ensures PresetsResolve(c) ==> PresetsResolve(Run(c, sent))
    ensures ScopesExclusive(c) ==> ScopesExclusive(Run(c, sent))
  {
    if sent != [] {
      var n := |sent| - 1;
      RunKeepsScopes(c, sent[..n]);
      var before, who, r := Run(c, sent[..n]), sent[n].who, sent[n].request;
      hide PresetsResolve, ScopesExclusive, Apply;
      if PresetsResolve(before) {
        PresetsKept(before, who, r);
      }
      if ScopesExclusive(before) {
        ExclusiveKept(before, who, r);
      }
    }
  }

  /** The requests that may change what a login sees. */
  predicate Touches(c: Config, r: Request, user: string) {
    || (r.UpdateUser? && r.user == user)
    || (r.DeleteUser? && r.user == user)
    || (r.SavePreset? && user in c.users && c.users[user].preset == Some(r.preset))
  }

  /** A login whose record and preset no request touches sees the same hosts after any run. */
  lemma {:induction false} ScopeOnlyChangedBy(c: Config, sent: seq<Sent>, user: string)
    requires PresetsResolve(c) && user in c.users
    requires forall k :: 0 <= k < |sent| ==> !Touches(Run(c, sent[..k]), sent[k].request, user)
    ensures
      var after := Run(c, sent);
      && user in after.users && after.users[user].role == c.users[user].role
      && UserScope(after.users[user], after.presets) == UserScope(c.users[user], c.presets)
  {
    if sent != [] {
      var n := |sent| - 1;
      forall k | 0 <= k < n ensures !Touches(Run(c, sent[..n][..k]), sent[..n][k].request, user) {
        assert sent[..n][..k] == sent[..k];
      }
      ScopeOnlyChangedBy(c, sent[..n], user);
      RunKeepsScopes(c, sent[..n]);
      hide Touches, UserScope, PresetsResolve, Apply;
      UntouchedScope(Run(c, sent[..n]), sent[n].who, sent[n].request, user);
    }
  }

  lemma UntouchedScope(c: Config, who: Identity, r: Request, user: string)
    requires PresetsResolve(c) && user in c.users && !Touches(c, r, user)
    ensures
      var after := Apply(c, who, r).0;
      && user in after.users && after.users[user].role == c.users[user].role
      && UserScope(after.users[user], after.presets) == UserScope(c.users[user], c.presets)
  {
    RecordKept(c, who, r, user);
    if c.users[user].preset.Some? {
      PresetKept(c, who, r, user);
    }
    hide Apply, Limit, PresetsResolve, Touches;
  }

  lemma RecordKept(c: Config, who: Identity, r: Request, user: string)
    requires user in c.users && !Touches(c, r, user)
    ensures
      var after := Apply(c, who, r).0;
      && user in after.users
      && after.users[user].role == c.users[user].role
      && after.users[user].tags == c.users[user].tags
      && after.users[user].preset == c.users[user].preset
  {
    hide Tags.Clean, ValidName, ValidTokenName, Held;
  }

  lemma PresetKept(c: Config, who: Identity, r: Request, user: string)
    requires user in c.users && !Touches(c, r, user) && c.users[user].preset.Some?
    ensures
      var after, p := Apply(c, who, r).0, c.users[user].preset.value;
      && (p in after.presets <==> p in c.presets)
      && (p in c.presets ==> after.presets[p] == c.presets[p])
  {
    hide Tags.Clean, ValidName, ValidTokenName;
    if r.DeletePreset? && c.users[user].preset == Some(r.preset) {
      assert Held(c.users, r.preset);
    }
  }

  // ---- Session generations ----

  /** By how much an accepted request raises the login's session generation. */
  function Raised(c: Config, who: Identity, r: Request, user: string): nat {
    match r
    case UpdateUser(target, _, password, revoke, _, _) =>
      if target == user && UpdateAccepted(c, who, r)
      then (if password != "" then 1 else 0) + (if revoke then 1 else 0) else 0
    case ChangePassword(_, _) =>
      if who.session == Some(user) && ChangeAccepted(c, who, r) then 1 else 0
    case _ => 0
  }

  predicate Deletes(c: Config, s: Sent, user: string) {
    s.request == DeleteUser(user) && DeleteAccepted(c, s.who, user)
  }

  predicate DeletedIn(c: Config, sent: seq<Sent>, user: string) {
    exists k :: 0 <= k < |sent| && Deletes(Run(c, sent[..k]), sent[k], user)
  }

  /** The raises since the login was last deleted, or since the start of the run. */
  function RaisedSince(c: Config, sent: seq<Sent>, user: string): nat {
    if sent == [] then 0
    else
      var n := |sent| - 1;
      var before := Run(c, sent[..n]);
      if Deletes(before, sent[n], user) then 0
      else RaisedSince(c, sent[..n], user) + Raised(before, sent[n].who, sent[n].request, user)
  }

  lemma GenerationStep(c: Config, s: Sent, user: string)
    ensures
      var after, raised := Apply(c, s.who, s.request).0, Raised(c, s.who, s.request, user);
      if Deletes(c, s, user) then user !in after.users
      else if user !in c.users then raised == 0 && (user in after.users ==> after.users[user].generation == 0)
      else
        && user in after.users && after.users[user].generation == c.users[user].generation + raised
        && (raised == 0 ==> after.users[user].password == c.users[user].password)
  {
    AcceptedExactly(c, s.who, s.request);
    hide Tags.Clean, ValidName, ValidTokenName, Held, Admins, DeleteAccepted;
  }

  lemma DeletedPrefix(c: Config, sent: seq<Sent>, user: string)
    requires sent != []
    ensures DeletedIn(c, sent, user)
       <==> DeletedIn(c, sent[..|sent| - 1], user) || Deletes(Run(c, sent[..|sent| - 1]), sent[|sent| - 1], user)
  {
    hide Run, Deletes;
    var n := |sent| - 1;
    assert forall k :: 0 <= k <= n ==> sent[..n][..k] == sent[..k];
    if DeletedIn(c, sent[..n], user) {
      var k :| 0 <= k < n && Deletes(Run(c, sent[..n][..k]), sent[..n][k], user);
      assert Deletes(Run(c, sent[..k]), sent[k], user);
    }
    if DeletedIn(c, sent, user) {
      var k :| 0 <= k < |sent| && Deletes(Run(c, sent[..k]), sent[k], user);
      if k < n {
        assert Deletes(Run(c, sent[..n][..k]), sent[..n][k], user);
      }
    }
  }

  /**
    * Over every run a login's session generation is the number of raises since it was last deleted, on top
    * of the generation it had at the start if it never was.
    */
  lemma {:induction false} GenerationExact(c: Config, sent: seq<Sent>, user: string)
    ensures
      var start := if user in c.users && !DeletedIn(c, sent, user) then c.users[user].generation else 0;
      if user in Run(c, sent).users then Run(c, sent).users[user].generation == start + RaisedSince(c, sent, user)
      else RaisedSince(c, sent, user) == 0 && (user !in c.users || DeletedIn(c, sent, user))
  {
    if sent != [] {
      var n := |sent| - 1;
      GenerationExact(c, sent[..n], user);
      GenerationStep(Run(c, sent[..n]), sent[n], user);
      DeletedPrefix(c, sent, user);
      hide Apply, Raised, Deletes, DeletedIn;
    }
  }

  /**
    * While a login is not deleted its generation never goes back, and it goes up exactly with the requests
    * that raise it, among them every change of its password.
    */
  lemma {:induction false} SessionsEnd(c: Config, sent: seq<Sent>, user: string)
    requires user in c.users && !DeletedIn(c, sent, user)
    ensures user in Run(c, sent).users && Run(c, sent).users[user].generation >= c.users[user].generation
    ensures Run(c, sent).users[user].generation > c.users[user].generation
       <==> exists k :: 0 <= k < |sent| && Raised(Run(c, sent[..k]), sent[k].who, sent[k].request, user) > 0
    ensures Run(c, sent).users[user].password != c.users[user].password
        ==> Run(c, sent).users[user].generation > c.users[user].generation
  {
    if sent != [] {
      var n := |sent| - 1;
      DeletedPrefix(c, sent, user);
      SessionsEnd(c, sent[..n], user);
      GenerationStep(Run(c, sent[..n]), sent[n], user);
      hide Apply, Raised, Deletes, DeletedIn;
      assert forall k :: 0 <= k <= n ==> sent[..n][..k] == sent[..k];
      assert Run(c, sent) == Apply(Run(c, sent[..n]), sent[n].who, sent[n].request).0;
      RaisePrefix(c, sent, user);
    }
  }

  lemma RaisePrefix(c: Config, sent: seq<Sent>, user: string)
    requires sent != []
    ensures
      var n := |sent| - 1;
      (exists k :: 0 <= k < |sent| && Raised(Run(c, sent[..k]), sent[k].who, sent[k].request, user) > 0)
      <==>
      || (exists k :: 0 <= k < n && Raised(Run(c, sent[..n][..k]), sent[..n][k].who, sent[..n][k].request, user) > 0)
      || Raised(Run(c, sent[..n]), sent[n].who, sent[n].request, user) > 0
  {
    hide Run, Raised;
    var n := |sent| - 1;
    assert forall k :: 0 <= k <= n ==> sent[..n][..k] == sent[..k];
    if k :| 0 <= k < |sent| && Raised(Run(c, sent[..k]), sent[k].who, sent[k].request, user) > 0 {
      if k < n {
        assert Raised(Run(c, sent[..n][..k]), sent[..n][k].who, sent[..n][k].request, user) > 0;
      }
    }
    if k :| 0 <= k < n && Raised(Run(c, sent[..n][..k]), sent[..n][k].who, sent[..n][k].request, user) > 0 {
      assert Raised(Run(c, sent[..k]), sent[k].who, sent[k].request, user) > 0;
    }
  }

  /** A session of the login is accepted while its stamp is the login's generation. */
  predicate SessionAccepted(c: Config, user: string, stamp: nat) {
    user in c.users && c.users[user].generation == stamp
  }

  lemma {:induction false} RunFrom(c: Config, sent: seq<Sent>, m: nat)
    requires m <= |sent|
    ensures Run(c, sent) == Run(Run(c, sent[..m]), sent[m..])
  {
    if m == |sent| {
      assert sent[..m] == sent && sent[m..] == [];
    } else {
      var n := |sent| - 1;
      RunFrom(c, sent[..n], m);
      assert sent[..n][..m] == sent[..m] && sent[..n][m..] == sent[m..][..n - m];
      hide Apply;
    }
  }

  /**
    * A session stamped at some moment of a run is accepted later exactly when no accepted request in between
    * raised the generation of its login, as long as the login is not deleted in between.
    */
  lemma StampAccepted(c: Config, sent: seq<Sent>, m: nat, user: string, stamp: nat)
    requires m <= |sent| && SessionAccepted(Run(c, sent[..m]), user, stamp)
    requires forall k :: m <= k < |sent| ==> !Deletes(Run(c, sent[..k]), sent[k], user)
    ensures SessionAccepted(Run(c, sent), user, stamp)
       <==> forall k :: m <= k < |sent| ==> Raised(Run(c, sent[..k]), sent[k].who, sent[k].request, user) == 0
  {
    hide Run, Raised, Deletes;
    var mid, rest := Run(c, sent[..m]), sent[m..];
    RunFrom(c, sent, m);
    forall k | m <= k < |sent| ensures Run(c, sent[..k]) == Run(mid, rest[..k - m]) && rest[k - m] == sent[k] {
      RunFrom(c, sent[..k], m);
      assert sent[..k][..m] == sent[..m] && sent[..k][m..] == rest[..k - m];
    }
    assert forall j :: 0 <= j < |rest| ==> Run(mid, rest[..j]) == Run(c, sent[..m + j]) && rest[j] == sent[m + j];
    SessionsEnd(mid, rest, user);
  }

  // ---- Runs that show what can happen ----

  lemma RunTwo(c: Config, s: Sent, t: Sent)
    ensures Run(c, [s]) == Apply(c, s.who, s.request).0
    ensures Run(c, [s, t]) == Apply(Run(c, [s]), t.who, t.request).0
  {
    hide Apply;
    assert [s, t][..1] == [s] && [s][..0] == [];
  }

  /** A login deleted and added again by one admin starts over at generation 0, whatever it had reached. */
  lemma ReaddedLoginStartsOver(a: string, admin: User, u: string, rec: User, password: string)
    requires a != u && admin.role.Admin? && rec.role == Viewer && rec.generation > 0
    requires ValidName(u) && |password| >= MIN_PASSWORD
    ensures
      var c := Config(map[a := admin, u := rec], map[], map[]);
      var byA := Identity(a, Admin, false, Some(a));
      var sent := [Sent(byA, DeleteUser(u)), Sent(byA, AddUser(u, Some(Viewer), password, "", []))];
      && OneAtATime(c, sent) && DeletedIn(c, sent, u)
      && u in Run(c, sent).users && Run(c, sent).users[u].generation == 0 < c.users[u].generation
  {
    var c := Config(map[a := admin, u := rec], map[], map[]);
    var byA := Identity(a, Admin, false, Some(a));
    var s, t := Sent(byA, DeleteUser(u)), Sent(byA, AddUser(u, Some(Viewer), password, "", []));
    RunTwo(c, s, t);
    var mid := Apply(c, byA, s.request).0;
    assert mid.users == map[a := admin];
    assert Apply(mid, byA, t.request).0.users[u].generation == 0;
    assert [s, t][..0] == [] && [s, t][..1] == [s];
    assert Deletes(Run(c, [s, t][..0]), [s, t][0], u);
    assert Current(c, byA) && Current(mid, byA);
    hide Apply, Current, Deletes;
  }

  /** A login deleted after its own request was authenticated still mints a token, which nobody owns. */
  lemma OverlapOrphansToken(a: string, admin: User, u: string, rec: User, hash: string, id: string)
    requires a != u && admin.role.Admin? && rec.role == Viewer
    ensures
      var c := Config(map[a := admin, u := rec], map[], map[]);
      var byA, byU := Identity(a, Admin, false, Some(a)), Identity(u, Viewer, false, Some(u));
      && TokensOwned(c) && Current(c, byA) && Current(c, byU)
      && !TokensOwned(Run(c, [Sent(byA, DeleteUser(u)), Sent(byU, CreateToken(hash, id, ""))]))
  {
    var c := Config(map[a := admin, u := rec], map[], map[]);
    var byA, byU := Identity(a, Admin, false, Some(a)), Identity(u, Viewer, false, Some(u));
    var s, t := Sent(byA, DeleteUser(u)), Sent(byU, CreateToken(hash, id, ""));
    RunTwo(c, s, t);
    var mid := Apply(c, byA, s.request).0;
    assert mid.users == map[a := admin] && mid.tokens == map[];
    TokensKept(mid, byU, t.request);
    hide Apply;
  }

  /** Two admins who were both authenticated before either request took the lock can demote each other. */
  lemma OverlapLosesAdmins(a: string, b: string, u: User)
    requires a != b && u.role.Admin?
    ensures
      var c := Config(map[a := u, b := u], map[], map[]);
      var byA, byB := Identity(a, Admin, false, Some(a)), Identity(b, Admin, false, Some(b));
      var demoteB := UpdateUser(b, Some(Some(Viewer)), "", false, None, None);
      var demoteA := UpdateUser(a, Some(Some(Viewer)), "", false, None, None);
      && HasAdmin(c) && Current(c, byA) && Current(c, byB)
      && !HasAdmin(Run(c, [Sent(byA, demoteB), Sent(byB, demoteA)]))
  {
    var c := Config(map[a := u, b := u], map[], map[]);
    var byA, byB := Identity(a, Admin, false, Some(a)), Identity(b, Admin, false, Some(b));
    var demoteB := UpdateUser(b, Some(Some(Viewer)), "", false, None, None);
    var demoteA := UpdateUser(a, Some(Some(Viewer)), "", false, None, None);
    assert a in c.users && c.users[a].role.Admin?;
    RunTwo(c, Sent(byA, demoteB), Sent(byB, demoteA));
    var mid := Apply(c, byA, demoteB).0;
    var end := Apply(mid, byB, demoteA).0;
    assert mid.users[b].role == Viewer && end.users[a].role == Viewer && end.users[b] == mid.users[b];
    hide Apply;
  }
}
