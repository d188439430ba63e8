/** What one edit of a host does to the record it is committed to, fresh or changed meanwhile. */
module RegistryEdits {
  import opened Wrappers
  import opened Registry
  import opened RegistryRuns
  import Tags

  // ---- Committed on the record it was computed from ----

  /** The host is contacted again, and reports its role, version and capabilities. */
  predicate Reports(cur: Node, req: Request) {
    Reprobes(cur, req) && cur.hostType != PasswordHost
  }

  /** Name, tags, address and credentials: what the request names has the value it asks for, the rest is as before. */
  predicate SettingsAsRequested(cur: Node, req: Request, after: Node) {
    && after.id == cur.id && after.hostType == cur.hostType
    && after.name == (if req.name.Some? && req.name.value != "" then req.name.value else cur.name)
    && after.tags == (if req.tags.Some? then Tags.Clean(req.tags.value) else cur.tags)
    && after.baseUrl == (if req.baseUrl != "" then TrimSlash(req.baseUrl) else cur.baseUrl)
    && after.username == (if cur.hostType == PasswordHost && req.username != "" then req.username else cur.username)
    && after.verify == (if cur.hostType != Nexus && req.verify.Some? then req.verify.value else cur.verify)
    && after.secret
       == (if cur.hostType == PasswordHost && req.password != "" then req.password
           else if cur.hostType != PasswordHost && req.token != "" then req.token
           else cur.secret)
  }

  /** The request changes how the host is contacted: its address, credentials or TLS flag. */
  predicate ChangesConnection(cur: Node, req: Request) {
    || (req.baseUrl != "" && TrimSlash(req.baseUrl) != cur.baseUrl)
    || (cur.hostType != PasswordHost && req.token != "")
    || (cur.hostType == PasswordHost && (req.password != "" || req.username !in {"", cur.username}))
    || (cur.hostType != Nexus && req.verify.Some?)
  }

  /**
    * An edit is refused for an unusable window, then for an unusable type, and then, if it changes how the host
    * is contacted, when the host does not answer; nothing else stops it.
    */
  lemma EditOutcome(cur: Node, req: Request, probe: Option<Probe>)
    ensures Reprobes(cur, req) <==> ChangesConnection(cur, req)
    ensures
      var badWindow, badType := req.disabled == Some(true) && req.until == Some(None), req.asType == Some(BadLabel);
      var unreachable := ChangesConnection(cur, req) && probe.None?;
      var outcome := EditsFor(cur, req, probe);
      && (outcome == Refused(BadWindow) <==> badWindow)
      && (outcome == Refused(BadType) <==> !badWindow && badType)
      && (outcome == Refused(Unreachable) <==> !badWindow && !badType && unreachable)
      && (outcome.Commits? <==> !badWindow && !badType && !unreachable)
  {
    hide TrimSlash, PlainEdits, ProbedEdits;
  }

  /** The type with its pin, and the pause with its window: a plain pause or resume clears the window. */
  predicate StatusAsRequested(cur: Node, req: Request, after: Node) {
    && after.pinned == (if req.asType.Some? then req.asType.value.Manual? else cur.pinned)
    && after.kind == (if req.asType.None? then cur.kind
                      else if req.asType.value.Manual? then req.asType.value.text else cur.typeAuto)
    && after.disabled == Get(req.disabled, cur.disabled)
    && after.disabledUntil == (if req.disabled.None? then cur.disabledUntil
                               else if req.disabled.value && req.until.Some? && req.until.value.Some?
                               then Some(At(req.until.value.value)) else None)
  }

  /** What only the host itself says: changed by a probe alone, and then to what the probe saw. */
  predicate ReportsAsProbed(cur: Node, req: Request, probe: Option<Probe>, after: Node) {
    && after.typeAuto == cur.typeAuto && after.lastSeen == cur.lastSeen
    && (Reprobes(cur, req) ==> probe.Some? && after.certFp == probe.value.certFp)
    && (!Reprobes(cur, req) ==> after.certFp == cur.certFp)
    && (Reports(cur, req) ==>
          && probe.Some? && after.role == probe.value.role
          && after.version == probe.value.version && after.capabilities == probe.value.capabilities)
    && (!Reports(cur, req) ==>
          after.role == cur.role && after.version == cur.version && after.capabilities == cur.capabilities)
  }

  /**
    * Committed on the record it was computed from, an edit does what the request asks and leaves every other
    * field alone, whether or not the host was contacted again.
    */
  lemma FreshCommit(cur: Node, req: Request, probe: Option<Probe>)
    requires EditsFor(cur, req, probe).Commits? && TrimSlash(cur.baseUrl) == cur.baseUrl
    ensures
      var after := Update(cur, EditsFor(cur, req, probe).edits);
      && SettingsAsRequested(cur, req, after)
      && StatusAsRequested(cur, req, after)
      && ReportsAsProbed(cur, req, probe, after)
  {
    SettingsFresh(cur, req, probe);
    StatusFresh(cur, req, probe);
    ReportsFresh(cur, req, probe);
  }

  lemma SettingsFresh(cur: Node, req: Request, probe: Option<Probe>)
    requires EditsFor(cur, req, probe).Commits? && TrimSlash(cur.baseUrl) == cur.baseUrl
    ensures SettingsAsRequested(cur, req, Update(cur, EditsFor(cur, req, probe).edits))
  {
    PlainLeaves(cur, req);
    NamesOfEdits(cur, req, probe);
    ConnectionFresh(cur, req, probe);
    hide TrimSlash, Tags.Clean, EditsFor, PlainEdits;
  }

  lemma NamesOfEdits(cur: Node, req: Request, probe: Option<Probe>)
    requires EditsFor(cur, req, probe).Commits?
    ensures
      var e := EditsFor(cur, req, probe).edits;
      && e.name == (if req.name.Some? then Some(Or(req.name.value, cur.name)) else None)
      && e.tags == (if req.tags.Some? then Some(Tags.Clean(req.tags.value)) else None)
  {
    hide TrimSlash, Tags.Clean, Reprobes;
  }

  lemma ConnectionFresh(cur: Node, req: Request, probe: Option<Probe>)
    requires EditsFor(cur, req, probe).Commits? && TrimSlash(cur.baseUrl) == cur.baseUrl
    ensures
      var e := EditsFor(cur, req, probe).edits;
      && Get(e.baseUrl, cur.baseUrl) == (if req.baseUrl != "" then TrimSlash(req.baseUrl) else cur.baseUrl)
      && Get(e.username, cur.username)
         == (if cur.hostType == PasswordHost && req.username != "" then req.username else cur.username)
      && Get(e.verify, cur.verify)
         == (if cur.hostType != Nexus && req.verify.Some? then req.verify.value else cur.verify)
      && Get(e.secret, cur.secret)
         == (if cur.hostType == PasswordHost then Or(req.password, cur.secret) else Or(req.token, cur.secret))
  {
    PlainLeaves(cur, req);
    hide TrimSlash, Tags.Clean, PlainEdits;
  }

  lemma StatusFresh(cur: Node, req: Request, probe: Option<Probe>)
    requires EditsFor(cur, req, probe).Commits?
    ensures StatusAsRequested(cur, req, Update(cur, EditsFor(cur, req, probe).edits))
  {
    TypeOfEdits(cur, req, probe);
    PauseOfEdits(cur, req, probe);
    hide EditsFor;
  }

  /** Where the pause and its window come from. */
  lemma PauseOfEdits(cur: Node, req: Request, probe: Option<Probe>)
    requires EditsFor(cur, req, probe).Commits?
    ensures
      var e := EditsFor(cur, req, probe).edits;
      && e.disabled == req.disabled
      && e.disabledUntil == (if req.disabled.None? then None
                             else if req.disabled.value && req.until.Some? && req.until.value.Some?
                             then Some(Some(At(req.until.value.value))) else Some(None))
  {
    hide TrimSlash, Tags.Clean, Reprobes;
  }

  lemma ReportsFresh(cur: Node, req: Request, probe: Option<Probe>)
    requires EditsFor(cur, req, probe).Commits?
    ensures ReportsAsProbed(cur, req, probe, Update(cur, EditsFor(cur, req, probe).edits))
  {
    hide TrimSlash, Tags.Clean, Reprobes;
  }

  // ---- Committed on a record that has changed meanwhile ----

  /** Name, tags, type and pause come from the request alone, except a blank name and an un-pinned type. */
  lemma StalePlainFields(cur: Node, n: Node, req: Request, probe: Option<Probe>)
    requires EditsFor(cur, req, probe).Commits?
    ensures
      var after := Update(n, EditsFor(cur, req, probe).edits);
      && (req.name.None? ==> after.name == n.name)
      && (req.name == Some("") ==> (after.name == n.name <==> cur.name == n.name))
      && (req.tags.None? ==> after.tags == n.tags)
      && (req.asType.None? ==> after.kind == n.kind && after.pinned == n.pinned)
      && (req.disabled.None? ==> after.disabled == n.disabled && after.disabledUntil == n.disabledUntil)
      && after.typeAuto == n.typeAuto && after.lastSeen == n.lastSeen
  {
    hide TrimSlash, Tags.Clean, Reprobes;
  }

  /**
    * A commit computed from an older snapshot keeps the address, login name, TLS flag and secret that its
    * request does not name exactly when it does not contact the host again, or the snapshot still agrees.
    */
  lemma StaleCommit(cur: Node, n: Node, req: Request, probe: Option<Probe>)
    requires EditsFor(cur, req, probe).Commits?
    ensures
      var after := Update(n, EditsFor(cur, req, probe).edits);
      && (req.baseUrl == "" ==>
            (after.baseUrl == n.baseUrl <==> !Reprobes(cur, req) || TrimSlash(cur.baseUrl) == n.baseUrl))
      && (req.username == "" ==>
            (after.username == n.username <==>
             !Reprobes(cur, req) || cur.hostType != PasswordHost || cur.username == n.username))
      && (req.verify.None? ==>
            (after.verify == n.verify <==> !Reprobes(cur, req) || cur.hostType == Nexus || cur.verify == n.verify))
      && ((if cur.hostType == PasswordHost then req.password else req.token) == "" ==> after.secret == n.secret)
  {
    hide TrimSlash, Tags.Clean, PlainEdits, Reprobes;
    PlainLeaves(cur, req);
  }

  /** The pin, role, version and capabilities are kept exactly when no probe replaces them by something else. */
  lemma StaleReports(cur: Node, n: Node, req: Request, probe: Option<Probe>)
    requires EditsFor(cur, req, probe).Commits?
    ensures
      var after := Update(n, EditsFor(cur, req, probe).edits);
      && (after.certFp == n.certFp <==> !Reprobes(cur, req) || probe.value.certFp == n.certFp)
      && (after.role == n.role <==> !Reports(cur, req) || probe.value.role == n.role)
      && (after.version == n.version <==> !Reports(cur, req) || probe.value.version == n.version)
      && (after.capabilities == n.capabilities <==> !Reports(cur, req) || probe.value.capabilities == n.capabilities)
  {
    hide TrimSlash, Tags.Clean, PlainEdits, Reprobes;
    PlainLeaves(cur, req);
  }

  /**
    * An address or login name that the request does name takes effect exactly when the host is contacted
    * again or the record has that value already: named as the older snapshot had it, it may be passed over.
    */
  lemma StaleNamed(cur: Node, n: Node, req: Request, probe: Option<Probe>)
    requires EditsFor(cur, req, probe).Commits?
    ensures
      var after := Update(n, EditsFor(cur, req, probe).edits);
      && (req.baseUrl != "" ==>
            (after.baseUrl == TrimSlash(req.baseUrl) <==> Reprobes(cur, req) || n.baseUrl == TrimSlash(req.baseUrl)))
      && (req.username != "" && cur.hostType == PasswordHost ==>
            (after.username == req.username <==> Reprobes(cur, req) || n.username == req.username))
  {
    hide TrimSlash, Tags.Clean, PlainEdits, Reprobes;
    PlainLeaves(cur, req);
  }

  /** Without a probe an edit leaves all this alone. */
  lemma PlainLeaves(cur: Node, req: Request)
    ensures
      var e := PlainEdits(cur, req);
      && e.baseUrl.None? && e.username.None? && e.verify.None? && e.secret.None?
      && e.certFp.None? && e.role.None? && e.version.None? && e.capabilities.None?
  {}

  // ---- Runs that show what can happen ----

  const BLANK := Request(None, None, None, None, None, "", "", "", "", None)

  /**
    * Two requests on one host: the second commits a new address, then the first, which only set a token, puts
    * the old one back.
    */
  lemma AddressReverted(w: World, n: Node, token: string, url: string, probe: Probe)
    requires Lookup(w.nodes, n.id) == Some(n) && n.hostType == Nexus
    requires token != "" && url != "" && TrimSlash(url) != n.baseUrl && TrimSlash(n.baseUrl) == n.baseUrl
    ensures
      var setToken := ReadForUpdate(1, n.id, BLANK.(token := token), Some(probe));
      var setUrl := ReadForUpdate(2, n.id, BLANK.(baseUrl := url), Some(probe));
      var between := Run(w, [setToken, setUrl, CommitUpdate(2)]);
      var end := Run(w, [setToken, setUrl, CommitUpdate(2), CommitUpdate(1)]);
      && Lookup(between.nodes, n.id).Some? && Lookup(between.nodes, n.id).value.baseUrl == TrimSlash(url)
      && Lookup(end.nodes, n.id).Some? && Lookup(end.nodes, n.id).value.baseUrl == n.baseUrl
  {
    var setToken := ReadForUpdate(1, n.id, BLANK.(token := token), Some(probe));
    var setUrl := ReadForUpdate(2, n.id, BLANK.(baseUrl := url), Some(probe));
    var first, second := EditsFor(n, setToken.req, Some(probe)), EditsFor(n, setUrl.req, Some(probe));
    assert first.Commits? && first.edits.baseUrl == Some(n.baseUrl);
    assert second.Commits? && second.edits.baseUrl == Some(TrimSlash(url));
    TwoCommits(w, n, setToken, setUrl);
  }

  /** A named address is passed over: the request names it as its snapshot had it, and another moves the host first. */
  lemma NamedPassedOver(w: World, n: Node, url: string, probe: Probe)
    requires Lookup(w.nodes, n.id) == Some(n)
    requires n.baseUrl != "" && TrimSlash(n.baseUrl) == n.baseUrl && url != "" && TrimSlash(url) != n.baseUrl
    ensures
      var keep := ReadForUpdate(1, n.id, BLANK.(baseUrl := n.baseUrl), Some(probe));
      var move := ReadForUpdate(2, n.id, BLANK.(baseUrl := url), Some(probe));
      var end := Run(w, [keep, move, CommitUpdate(2), CommitUpdate(1)]);
      Lookup(end.nodes, n.id).Some? && Lookup(end.nodes, n.id).value.baseUrl == TrimSlash(url)
  {
    var keep := ReadForUpdate(1, n.id, BLANK.(baseUrl := n.baseUrl), Some(probe));
    var move := ReadForUpdate(2, n.id, BLANK.(baseUrl := url), Some(probe));
    var first, second := EditsFor(n, keep.req, Some(probe)), EditsFor(n, move.req, Some(probe));
    assert first.Commits? && first.edits.baseUrl == None;
    assert second.Commits? && second.edits.baseUrl == Some(TrimSlash(url));
    TwoCommits(w, n, keep, move);
  }

  /** A blank name undoes a rename that another request commits first. */
  lemma RenameUndone(w: World, n: Node, name: string)
    requires Lookup(w.nodes, n.id) == Some(n) && name != "" && name != n.name
    ensures
      var blankName := ReadForUpdate(1, n.id, BLANK.(name := Some("")), None);
      var rename := ReadForUpdate(2, n.id, BLANK.(name := Some(name)), None);
      var between := Run(w, [blankName, rename, CommitUpdate(2)]);
      var end := Run(w, [blankName, rename, CommitUpdate(2), CommitUpdate(1)]);
      && Lookup(between.nodes, n.id).Some? && Lookup(between.nodes, n.id).value.name == name
      && Lookup(end.nodes, n.id).Some? && Lookup(end.nodes, n.id).value.name == n.name
  {
    var blankName := ReadForUpdate(1, n.id, BLANK.(name := Some("")), None);
    var rename := ReadForUpdate(2, n.id, BLANK.(name := Some(name)), None);
    var first, second := EditsFor(n, blankName.req, None), EditsFor(n, rename.req, None);
    assert first.Commits? && first.edits.name == Some(n.name);
    assert second.Commits? && second.edits.name == Some(name);
    TwoCommits(w, n, blankName, rename);
  }

  /** Two edits read from one record: the second commits, then the first. */
  lemma TwoCommits(w: World, n: Node, a: Action, b: Action)
    requires Lookup(w.nodes, n.id) == Some(n)
    requires a.ReadForUpdate? && a.tid == 1 && a.id == n.id && EditsFor(n, a.req, a.probe).Commits?
    requires b.ReadForUpdate? && b.tid == 2 && b.id == n.id && EditsFor(n, b.req, b.probe).Commits?
    ensures
      var m := Update(n, EditsFor(n, b.req, b.probe).edits);
      && Lookup(Run(w, [a, b, CommitUpdate(2)]).nodes, n.id) == Some(m)
      && Lookup(Run(w, [a, b, CommitUpdate(2), CommitUpdate(1)]).nodes, n.id)
         == Some(Update(m, EditsFor(n, a.req, a.probe).edits))
  {
    RunFour(w, a, b, CommitUpdate(2), CommitUpdate(1));
    var first, second := EditsFor(n, a.req, a.probe).edits, EditsFor(n, b.req, b.probe).edits;
    UpdateReadLookup(w, n, a);
    UpdateReadLookup(Act(w, a), n, b);
    var w2 := Act(Act(w, a), b);
    assert w2.requests[1] == Editing(n.id, first);
    assert Update(n, second).id == n.id;
    hide EditsFor, Run, Lookup, Update, Act;
    CommitLookup(w2, 2, n);
    CommitLookup(Act(w2, CommitUpdate(2)), 1, Update(n, second));
  }

  lemma UpdateReadLookup(w: World, n: Node, a: Action)
    requires Lookup(w.nodes, n.id) == Some(n)
    requires a.ReadForUpdate? && a.id == n.id && EditsFor(n, a.req, a.probe).Commits?
    ensures
      Act(w, a).nodes == w.nodes
      && Act(w, a).requests == w.requests[a.tid := Editing(n.id, EditsFor(n, a.req, a.probe).edits)]
  {
    hide EditsFor, Lookup;
  }

  /**
    * A re-pin that an administrator has reviewed and committed is undone by an edit that probed the host
    * before and commits after: the old pin is back.
    */
  lemma PinReverted(w: World, n: Node, token: string, fp: string, probe: Probe)
    requires Lookup(w.nodes, n.id) == Some(n) && n.hostType == Nexus && IsHttps(n.baseUrl)
    requires token != "" && probe.certFp == n.certFp != fp
    ensures
      var setToken := ReadForUpdate(1, n.id, BLANK.(token := token), Some(probe));
      var review := ReadForRepin(2, n.id, fp, Some(fp));
      var between := Run(w, [setToken, review, CommitRepin(2)]);
      var end := Run(w, [setToken, review, CommitRepin(2), CommitUpdate(1)]);
      && Lookup(between.nodes, n.id).Some? && Lookup(between.nodes, n.id).value.certFp == fp
      && Lookup(end.nodes, n.id).Some? && Lookup(end.nodes, n.id).value.certFp == n.certFp
  {
    var setToken := ReadForUpdate(1, n.id, BLANK.(token := token), Some(probe));
    var review := ReadForRepin(2, n.id, fp, Some(fp));
    RunFour(w, setToken, review, CommitRepin(2), CommitUpdate(1));
    var edits := EditsFor(n, setToken.req, Some(probe));
    assert edits.Commits? && edits.edits.certFp == Some(n.certFp);
    UpdateReadLookup(w, n, setToken);
    var w1 := Act(w, setToken);
    assert PinFor(n, fp, Some(fp)) == Some(fp);
    RepinReadLookup(w1, n, review, fp);
    var w2 := Act(w1, review);
    assert w2.requests[1] == Editing(n.id, edits.edits);
    var m := n.(certFp := fp);
    assert Update(m, edits.edits).certFp == n.certFp;
    hide EditsFor, Run, Lookup, Update, Act, PinFor;
    CommitPinLookup(w2, 2, n, fp);
    CommitLookup(Act(w2, CommitRepin(2)), 1, m);
  }

  lemma RepinReadLookup(w: World, n: Node, a: Action, fp: string)
    requires Lookup(w.nodes, n.id) == Some(n)
    requires a.ReadForRepin? && a.id == n.id && PinFor(n, a.expected, a.observed) == Some(fp)
    ensures Act(w, a).nodes == w.nodes && Act(w, a).requests == w.requests[a.tid := Repinning(n.id, fp)]
  {
    hide PinFor, Lookup;
  }

  lemma CommitPinLookup(w: World, tid: nat, n: Node, fp: string)
    requires tid in w.requests && w.requests[tid] == Repinning(n.id, fp) && Lookup(w.nodes, n.id) == Some(n)
    ensures Lookup(Act(w, CommitRepin(tid)).nodes, n.id) == Some(n.(certFp := fp))
    ensures Act(w, CommitRepin(tid)).requests == w.requests - {tid}
  {
    LookupReplace(w.nodes, n.(certFp := fp), n.id);
    hide Lookup, Replace;
  }

  lemma CommitLookup(w: World, tid: nat, n: Node)
    requires tid in w.requests && w.requests[tid].Editing? && w.requests[tid].id == n.id
    requires Lookup(w.nodes, n.id) == Some(n)
    ensures Lookup(Act(w, CommitUpdate(tid)).nodes, n.id) == Some(Update(n, w.requests[tid].edits))
    ensures Act(w, CommitUpdate(tid)).requests == w.requests - {tid}
  {
    LookupReplace(w.nodes, Update(n, w.requests[tid].edits), n.id);
  }

  lemma RunFour(w: World, a: Action, b: Action, c: Action, d: Action)
    ensures Run(w, [a, b, c]) == Act(Act(Act(w, a), b), c)
    ensures Run(w, [a, b, c, d]) == Act(Run(w, [a, b, c]), d)
  {
    hide Act;
    assert [a, b, c, d][..3] == [a, b, c] && [a, b, c][..2] == [a, b] && [a, b][..1] == [a] && [a][..0] == [];
    assert Run(w, [a]) == Act(w, a);
    assert Run(w, [a, b]) == Act(Run(w, [a]), b);
  }

  /**
    * An un-pin is read, a fan-out brings a new suggestion, and then the un-pin commits: the host is left
    * showing the old suggestion.
    */
  lemma OldSuggestionShown(w: World, n: Node, newType: string, now: int)
    requires Lookup(w.nodes, n.id) == Some(n) && n.pinned && !n.disabled
    requires newType !in {"", "Unknown", n.typeAuto}
    ensures
      var unpin := ReadForUpdate(1, n.id, BLANK.(asType := Some(Auto)), None);
      var finish := FinishPoll(1, map[n.id := Envelope(true, newType, "", [])], now);
      var end := Run(w, [unpin, StartPoll(1, now), finish, CommitUpdate(1)]);
      && Lookup(end.nodes, n.id).Some?
      && !Lookup(end.nodes, n.id).value.pinned
      && Lookup(end.nodes, n.id).value.kind == n.typeAuto != newType == Lookup(end.nodes, n.id).value.typeAuto
  {
    var unpin := ReadForUpdate(1, n.id, BLANK.(asType := Some(Auto)), None);
    var seen := map[n.id := Envelope(true, newType, "", [])];
    var start, finish := StartPoll(1, now), FinishPoll(1, seen, now);
    RunFour(w, unpin, start, finish, CommitUpdate(1));
    var w1 := Act(w, unpin);
    UnpinRead(w, n);
    StartLookup(w1, n, now);
    FinishLookup(Act(w1, start), n, seen, now);
    var m := Refreshed(n, seen, now);
    assert m.pinned && m.typeAuto == newType && m.id == n.id;
    var edits := NO_EDITS.(pinned := Some(false), kind := Some(n.typeAuto));
    var after := Update(m, edits);
    assert !after.pinned && after.kind == n.typeAuto && after.typeAuto == newType;
    hide Run, Lookup, Refreshed, Act, EditsFor, Update;
    CommitLookup(Act(Act(w1, start), finish), 1, m);
  }

  lemma UnpinRead(w: World, n: Node)
    requires Lookup(w.nodes, n.id) == Some(n)
    ensures
      var after := Act(w, ReadForUpdate(1, n.id, BLANK.(asType := Some(Auto)), None));
      && after.nodes == w.nodes && 1 in after.requests
      && after.requests[1] == Editing(n.id, NO_EDITS.(pinned := Some(false), kind := Some(n.typeAuto)))
  {
    hide Lookup;
  }

  lemma StartLookup(w: World, n: Node, now: int)
    requires Lookup(w.nodes, n.id) == Some(n) && !n.disabled
    ensures
      var after := Act(w, StartPoll(1, now));
      && Lookup(after.nodes, n.id) == Some(n) && after.requests == w.requests
      && 1 in after.polls && n.id in after.polls[1]
  {
    LookupResumed(w.nodes, now, n.id);
    hide Lookup, ResumeAll, Active;
    ActiveHas(ResumeAll(w.nodes, now), n);
  }

  lemma FinishLookup(w: World, n: Node, seen: map<Id, Envelope>, now: int)
    requires Lookup(w.nodes, n.id) == Some(n) && seen.Keys == {n.id} && 1 in w.polls && n.id in w.polls[1]
    ensures
      var after := Act(w, FinishPoll(1, seen, now));
      Lookup(after.nodes, n.id) == Some(Refreshed(n, seen, now)) && after.requests == w.requests
  {
    hide Lookup, RefreshAll, Refreshed;
    assert forall id :: id in seen ==> id in {n.id};
    assert (map id | id in seen && id in w.polls[1] :: seen[id]) == seen;
    LookupRefreshed(w.nodes, seen, now, n.id);
  }

  lemma ActiveHas(nodes: seq<Node>, n: Node)
    requires Lookup(nodes, n.id) == Some(n) && !n.disabled
    ensures n.id in Active(nodes)
  {
    assert n in nodes;
  }

  // ---- The displayed type ----

  /** An unpinned host shows the type the controller suggests for it. */
  predicate ShowsSuggestion(n: Node) {
    n.pinned || n.kind == n.typeAuto
  }

  /** A refresh keeps this, and brings it back for every host it could classify. */
  lemma RefreshShowsSuggestion(n: Node, seen: map<Id, Envelope>, now: int)
    ensures ShowsSuggestion(n) ==> ShowsSuggestion(Refreshed(n, seen, now))
    ensures n.id in seen && seen[n.id].ok && seen[n.id].typeAuto !in {"", "Unknown"}
        ==> ShowsSuggestion(Refreshed(n, seen, now))
  {}

  /** An edit keeps it too, except an un-pin whose snapshot is older than the last suggestion. */
  lemma EditShowsSuggestion(cur: Node, n: Node, req: Request, probe: Option<Probe>)
    requires EditsFor(cur, req, probe).Commits? && ShowsSuggestion(n)
    ensures ShowsSuggestion(Update(n, EditsFor(cur, req, probe).edits))
       <==> req.asType != Some(Auto) || cur.typeAuto == n.typeAuto
  {
    TypeOfEdits(cur, req, probe);
    hide EditsFor;
  }

  /** Where the type and the pin of an edit come from. */
  lemma TypeOfEdits(cur: Node, req: Request, probe: Option<Probe>)
    requires EditsFor(cur, req, probe).Commits?
    ensures
      var e := EditsFor(cur, req, probe).edits;
      && req.asType != Some(BadLabel)
      && e.pinned == (if req.asType.Some? then Some(req.asType.value.Manual?) else None)
      && e.kind == (if req.asType.None? then None
                    else if req.asType.value.Manual? then Some(req.asType.value.text) else Some(cur.typeAuto))
  {
    hide TrimSlash, Tags.Clean, Reprobes;
  }
}
