/**
  * Every interleaving of the registry's requests and of the monitor: unlocked phases read a record
  * or the whole list, locked sections change it later.
  */
module RegistryRuns {
  import opened Wrappers
  import opened Registry
  import Tags

  /** What a request remembers between its unlocked phase and its locked section. */
  datatype Pending = Editing(id: Id, edits: Edits) | Repinning(id: Id, certFp: string)

  /** The saved registry, the requests under way, and the hosts each fan-out under way is asking. */
  datatype World = World(nodes: seq<Node>, requests: map<nat, Pending>, polls: map<nat, set<Id>>)

  datatype Action =
    | AddNode(node: Node)
    | ReadForUpdate(tid: nat, id: Id, req: Request, probe: Option<Probe>)
    | CommitUpdate(tid: nat)
    | DeleteNode(id: Id)
    | ReadForRepin(tid: nat, id: Id, expected: string, observed: Option<string>)
    | CommitRepin(tid: nat)
    | StartPoll(tid: nat, now: int)
    | FinishPoll(tid: nat, results: map<Id, Envelope>, now: int)

  predicate ByMonitor(a: Action) {
    a.StartPoll? || a.FinishPoll?
  }

  predicate IsHttps(url: string) {
    |url| >= 5 && url[0] in "hH" && url[1] in "tT" && url[2] in "tT" && url[3] in "pP" && url[4] in "sS"
  }

  /** The pin a re-pin request will commit, if it gets that far. */
  function PinFor(cur: Node, expected: string, observed: Option<string>): Option<string> {
    if !IsHttps(cur.baseUrl) || observed.None? then None
    else if expected != "" && observed.value != expected then None
    else if observed.value == cur.certFp then None
    else observed
  }

  /**
    * A pin is committed exactly if the host speaks HTTPS, a certificate was observed, it is the one the
    * administrator reviewed, if any, and it is not the pin already.
    */
  lemma PinForExactly(cur: Node, expected: string, observed: Option<string>, fp: string)
    ensures PinFor(cur, expected, observed) == Some(fp)
       <==> && |cur.baseUrl| >= 5
            && (forall i :: 0 <= i < 5 ==> cur.baseUrl[i] == "https"[i] || cur.baseUrl[i] == "HTTPS"[i])
            && observed == Some(fp) && expected in {"", fp} && cur.certFp != fp
  {}

  /** The locked section an action performs, if any. */
  function SectionOf(w: World, a: Action): Option<Section> {
    match a
    case AddNode(n) => Some(Enroll(n))
    case CommitUpdate(tid) =>
      if tid in w.requests && w.requests[tid].Editing?
      then Some(Commit(w.requests[tid].id, w.requests[tid].edits)) else None
    case DeleteNode(id) => Some(Delete(id))
    case CommitRepin(tid) =>
      if tid in w.requests && w.requests[tid].Repinning?
      then Some(Repin(w.requests[tid].id, w.requests[tid].certFp)) else None
    case StartPoll(tid, now) => Some(Resume(now))
    case FinishPoll(tid, results, now) =>
      if tid in w.polls then Some(Refresh(map id | id in results && id in w.polls[tid] :: results[id], now)) else None
    case _ => None
  }

  /** The requests under way after an action. */
  function RequestsAfter(nodes: seq<Node>, requests: map<nat, Pending>, a: Action): map<nat, Pending> {
    match a
    case ReadForUpdate(tid, id, req, probe) =>
      var cur := Lookup(nodes, id);
      if cur.None? then requests
      else
        var outcome := EditsFor(cur.value, req, probe);
        if outcome.Commits? then requests[tid := Editing(id, outcome.edits)] else requests
    case ReadForRepin(tid, id, expected, observed) =>
      var cur := Lookup(nodes, id);
      if cur.None? then requests
      else
        var pin := PinFor(cur.value, expected, observed);
        if pin.Some? then requests[tid := Repinning(id, pin.value)] else requests
    case CommitUpdate(tid) => requests - {tid}
    case CommitRepin(tid) => requests - {tid}
    case _ => requests
  }

  function Active(nodes: seq<Node>): set<Id> {
    set n | n in nodes && !n.disabled :: n.id
  }

  /** One atomic action; a fan-out asks the hosts that are not paused once expired pauses have ended. */
  function Act(w: World, a: Action): World {
    var section := SectionOf(w, a);
    var nodes := if section.Some? then Perform(w.nodes, section.value) else w.nodes;
    World(nodes, RequestsAfter(w.nodes, w.requests, a),
          match a
          case StartPoll(tid, now) => w.polls[tid := Active(nodes)]
          case FinishPoll(tid, _, _) => w.polls - {tid}
          case _ => w.polls)
  }

  function Run(w: World, actions: seq<Action>): World {
    if actions == [] then w else Act(Run(w, actions[..|actions| - 1]), actions[|actions| - 1])
  }

  // ---- The simple form: a ledger that only administrators write ----

  /**
    * What belongs to the administrators: everything but what the host reports about itself, with the
    * type only while it is pinned and the pause only while it has no window.
    */
  datatype Owned = Owned(hostType: HostType, name: string, tags: seq<string>, baseUrl: string, certFp: string,
                         role: string, secret: string, username: string, verify: bool,
                         manualType: Option<string>, heldPaused: bool)

  function OwnedOf(n: Node): Owned {
    Owned(n.hostType, n.name, n.tags, n.baseUrl, n.certFp, n.role, n.secret, n.username, n.verify,
          if n.pinned then Some(n.kind) else None,
          n.disabled && !(n.disabledUntil.Some? && n.disabledUntil.value.At?))
  }

  function UpdateOwned(o: Owned, e: Edits): Owned {
    o.(name := Get(e.name, o.name),
       tags := Get(e.tags, o.tags),
       baseUrl := Get(e.baseUrl, o.baseUrl),
       certFp := Get(e.certFp, o.certFp),
       role := Get(e.role, o.role),
       secret := Get(e.secret, o.secret),
       username := Get(e.username, o.username),
       verify := Get(e.verify, o.verify),
       manualType := if e.pinned.None? then o.manualType else if e.pinned.value then e.kind else None,
       heldPaused :=
         if e.disabled.None? then o.heldPaused
         else
           && e.disabled.value
           && !(e.disabledUntil.Some? && e.disabledUntil.value.Some? && e.disabledUntil.value.value.At?))
  }

  datatype Ledger = Ledger(hosts: map<Id, Owned>, requests: map<nat, Pending>)

  /** A record showing only what belongs to the administrators. */
  function Bare(id: Id, o: Owned): Node {
    Node(id, o.hostType, o.name, o.tags, o.baseUrl, o.certFp, o.role, o.secret, o.username, o.verify,
         o.manualType.Some?, if o.manualType.Some? then o.manualType.value else "", "", "", [], None, false, None)
  }

  /** Edits without the type they copy from what the host reported. */
  function Owning(e: Edits): Edits {
    if e.pinned == Some(true) then e else e.(kind := None)
  }

  function OwningPending(p: Pending): Pending {
    if p.Editing? then Editing(p.id, Owning(p.edits)) else p
  }

  /** One action on the ledger: the monitor's do nothing. */
  function LedgerAct(l: Ledger, a: Action): Ledger {
    match a
    case AddNode(n) => l.(hosts := l.hosts[n.id := OwnedOf(n)])
    case ReadForUpdate(tid, id, req, probe) =>
      if id !in l.hosts then l
      else
        var outcome := EditsFor(Bare(id, l.hosts[id]), req, probe);
        if outcome.Commits? then l.(requests := l.requests[tid := Editing(id, Owning(outcome.edits))]) else l
    case CommitUpdate(tid) =>
      Ledger(if tid in l.requests && l.requests[tid].Editing? && l.requests[tid].id in l.hosts
             then l.hosts[l.requests[tid].id := UpdateOwned(l.hosts[l.requests[tid].id], l.requests[tid].edits)]
             else l.hosts,
             l.requests - {tid})
    case DeleteNode(id) => l.(hosts := l.hosts - {id})
    case ReadForRepin(tid, id, expected, observed) =>
      if id !in l.hosts then l
      else
        var pin := PinFor(Bare(id, l.hosts[id]), expected, observed);
        if pin.Some? then l.(requests := l.requests[tid := Repinning(id, pin.value)]) else l
    case CommitRepin(tid) =>
      Ledger(if tid in l.requests && l.requests[tid].Repinning? && l.requests[tid].id in l.hosts
             then l.hosts[l.requests[tid].id := l.hosts[l.requests[tid].id].(certFp := l.requests[tid].certFp)]
             else l.hosts,
             l.requests - {tid})
    case StartPoll(_, _) => l
    case FinishPoll(_, _, _) => l
  }

  function LedgerRun(l: Ledger, actions: seq<Action>): Ledger {
    if actions == [] then l else LedgerAct(LedgerRun(l, actions[..|actions| - 1]), actions[|actions| - 1])
  }

  // ---- The registry shows the ledger ----

  /** The registry and the ledger agree on one id. */
  predicate ShowsAt(nodes: seq<Node>, hosts: map<Id, Owned>, id: Id) {
    && (Lookup(nodes, id).Some? <==> id in hosts)
    && (id in hosts ==> hosts[id] == OwnedOf(Lookup(nodes, id).value))
  }

  /** Each host's administrator-owned fields are those of the ledger, and there are no other hosts. */
  ghost predicate Shows(nodes: seq<Node>, hosts: map<Id, Owned>) {
    forall id :: ShowsAt(nodes, hosts, id)
  }

  /** The edits of a request name a type with every pin, and a window with every pause. */
  predicate Complete(e: Edits) {
    && (e.pinned.None? ==> e.kind.None?)
    && (e.pinned == Some(true) ==> e.kind.Some?)
    && (e.disabled.Some? <==> e.disabledUntil.Some?)
  }

  ghost predicate SameRequests(requests: map<nat, Pending>, owned: map<nat, Pending>) {
    && requests.Keys == owned.Keys
    && forall tid :: tid in requests ==>
         && owned[tid] == OwningPending(requests[tid])
         && (requests[tid].Editing? ==> Complete(requests[tid].edits))
  }

  ghost predicate Reflects(w: World, l: Ledger) {
    Shows(w.nodes, l.hosts) && SameRequests(w.requests, l.requests)
  }

  lemma EditsComplete(cur: Node, req: Request, probe: Option<Probe>)
    requires EditsFor(cur, req, probe).Commits?
    ensures Complete(EditsFor(cur, req, probe).edits)
  {}

  lemma PlainOwned(cur: Node, req: Request)
    ensures
      var bare := Bare(cur.id, OwnedOf(cur));
      && Owning(PlainEdits(cur, req)) == Owning(PlainEdits(bare, req))
      && (Reprobes(cur, req) <==> Reprobes(bare, req))
  {
    hide Tags.Clean;
  }

  lemma ProbedOwned(cur: Node, req: Request, e: Edits, b: Edits, info: Probe)
    requires Owning(e) == Owning(b)
    ensures Owning(ProbedEdits(cur, req, e, info)) == Owning(ProbedEdits(Bare(cur.id, OwnedOf(cur)), req, b, info))
  {
    hide TrimSlash;
  }

  lemma EditsOwned(cur: Node, req: Request, probe: Option<Probe>)
    ensures
      var mine, bare := EditsFor(cur, req, probe), EditsFor(Bare(cur.id, OwnedOf(cur)), req, probe);
      && (mine.Commits? <==> bare.Commits?)
      && (mine.Commits? ==> Owning(mine.edits) == Owning(bare.edits))
  {
    PlainOwned(cur, req);
    if probe.Some? {
      ProbedOwned(cur, req, PlainEdits(cur, req), PlainEdits(Bare(cur.id, OwnedOf(cur)), req), probe.value);
    }
    hide PlainEdits, ProbedEdits, Reprobes, Owning, Bare, OwnedOf;
  }

  lemma UpdateOwnedOf(n: Node, e: Edits)
    requires Complete(e)
    ensures OwnedOf(Update(n, e)) == UpdateOwned(OwnedOf(n), Owning(e))
  {}

  lemma MonitorKeepsOwned(n: Node, seen: map<Id, Envelope>, now: int)
    ensures OwnedOf(Refreshed(n, seen, now)) == OwnedOf(n) && Refreshed(n, seen, now).id == n.id
    ensures OwnedOf(Resumed(n, now)) == OwnedOf(n) && Resumed(n, now).id == n.id
  {}

  lemma EnrollShown(nodes: seq<Node>, hosts: map<Id, Owned>, n: Node)
    requires Shows(nodes, hosts) && n.id !in hosts
    ensures Shows(nodes + [n], hosts[n.id := OwnedOf(n)])
  {
    hide Lookup, OwnedOf;
    var after := hosts[n.id := OwnedOf(n)];
    forall id ensures ShowsAt(nodes + [n], after, id) {
      assert ShowsAt(nodes, hosts, id);
      LookupAppend(nodes, n, id);
    }
  }

  lemma ReplaceShown(nodes: seq<Node>, hosts: map<Id, Owned>, n: Node)
    requires Shows(nodes, hosts) && n.id in hosts
    ensures Shows(Replace(nodes, n), hosts[n.id := OwnedOf(n)])
  {
    hide Lookup, Replace, OwnedOf;
    assert ShowsAt(nodes, hosts, n.id);
    var after := hosts[n.id := OwnedOf(n)];
    forall id ensures ShowsAt(Replace(nodes, n), after, id) {
      assert ShowsAt(nodes, hosts, id);
      LookupReplace(nodes, n, id);
    }
  }

  lemma DeleteShown(nodes: seq<Node>, hosts: map<Id, Owned>, gone: Id)
    requires Shows(nodes, hosts)
    ensures Shows(Without(nodes, gone), hosts - {gone})
  {
    hide Lookup, Without, OwnedOf;
    forall id ensures ShowsAt(Without(nodes, gone), hosts - {gone}, id) {
      assert ShowsAt(nodes, hosts, id);
      LookupWithout(nodes, gone, id);
    }
  }

  lemma MonitorShown(nodes: seq<Node>, hosts: map<Id, Owned>, seen: map<Id, Envelope>, now: int)
    requires Shows(nodes, hosts)
    ensures Shows(RefreshAll(nodes, seen, now), hosts)
    ensures Shows(ResumeAll(nodes, now), hosts)
  {
    hide Lookup, OwnedOf, Refreshed, Resumed, RefreshAll, ResumeAll;
    forall id ensures ShowsAt(RefreshAll(nodes, seen, now), hosts, id) && ShowsAt(ResumeAll(nodes, now), hosts, id) {
      assert ShowsAt(nodes, hosts, id);
      LookupRefreshed(nodes, seen, now, id);
      LookupResumed(nodes, now, id);
      if id in hosts {
        MonitorKeepsOwned(Lookup(nodes, id).value, seen, now);
      }
    }
  }

  lemma RequestAdded(requests: map<nat, Pending>, owned: map<nat, Pending>, tid: nat, p: Pending)
    requires SameRequests(requests, owned) && (p.Editing? ==> Complete(p.edits))
    ensures SameRequests(requests[tid := p], owned[tid := OwningPending(p)])
  {}

  lemma RequestDropped(requests: map<nat, Pending>, owned: map<nat, Pending>, tid: nat)
    requires SameRequests(requests, owned)
    ensures SameRequests(requests - {tid}, owned - {tid})
  {}

  lemma UpdateRead(w: World, l: Ledger, a: Action)
    requires Reflects(w, l) && a.ReadForUpdate?
    ensures Reflects(Act(w, a), LedgerAct(l, a))
  {
    assert ShowsAt(w.nodes, l.hosts, a.id);
    var cur := Lookup(w.nodes, a.id);
    if cur.Some? {
      EditsOwned(cur.value, a.req, a.probe);
      if EditsFor(cur.value, a.req, a.probe).Commits? {
        EditsComplete(cur.value, a.req, a.probe);
        RequestAdded(w.requests, l.requests, a.tid, Editing(a.id, EditsFor(cur.value, a.req, a.probe).edits));
      }
    }
    hide Shows, EditsFor, OwnedOf, Owning, Complete, SameRequests, Lookup, Bare;
  }

  lemma RepinRead(w: World, l: Ledger, a: Action)
    requires Reflects(w, l) && a.ReadForRepin?
    ensures Reflects(Act(w, a), LedgerAct(l, a))
  {
    assert ShowsAt(w.nodes, l.hosts, a.id);
    var cur := Lookup(w.nodes, a.id);
    if cur.Some? {
      var pin := PinFor(cur.value, a.expected, a.observed);
      assert pin == PinFor(Bare(a.id, l.hosts[a.id]), a.expected, a.observed);
      if pin.Some? {
        RequestAdded(w.requests, l.requests, a.tid, Repinning(a.id, pin.value));
      }
    }
    hide Shows, PinFor, OwnedOf, SameRequests, Lookup, Bare;
  }

  lemma CommitReflected(w: World, l: Ledger, a: Action)
    requires Reflects(w, l) && (a.CommitUpdate? || a.CommitRepin?)
    ensures Reflects(Act(w, a), LedgerAct(l, a))
  {
    RequestDropped(w.requests, l.requests, a.tid);
    if a.tid in w.requests {
      var p := w.requests[a.tid];
      assert ShowsAt(w.nodes, l.hosts, p.id);
      var cur := Lookup(w.nodes, p.id);
      if cur.Some? {
        if a.CommitUpdate? && p.Editing? {
          UpdateOwnedOf(cur.value, p.edits);
          ReplaceShown(w.nodes, l.hosts, Update(cur.value, p.edits));
        }
        if a.CommitRepin? && p.Repinning? {
          ReplaceShown(w.nodes, l.hosts, cur.value.(certFp := p.certFp));
        }
      }
    }
    hide Shows, Owning, Complete, UpdateOwned, Lookup, Replace, Update;
  }

  lemma ActReflected(w: World, l: Ledger, a: Action)
    requires Reflects(w, l) && (a.AddNode? ==> a.node.id !in l.hosts)
    ensures Reflects(Act(w, a), LedgerAct(l, a))
  {
    match a
    case AddNode(n) => EnrollShown(w.nodes, l.hosts, n);
    case DeleteNode(id) => DeleteShown(w.nodes, l.hosts, id);
    case StartPoll(tid, now) => MonitorShown(w.nodes, l.hosts, map[], now);
    case FinishPoll(tid, results, now) =>
      if tid in w.polls {
        MonitorShown(w.nodes, l.hosts, map id | id in results && id in w.polls[tid] :: results[id], now);
      }
    case ReadForUpdate(_, _, _, _) => UpdateRead(w, l, a);
    case ReadForRepin(_, _, _, _) => RepinRead(w, l, a);
    case CommitUpdate(_) => CommitReflected(w, l, a);
    case CommitRepin(_) => CommitReflected(w, l, a);
  }

  // ---- Whole runs ----

  /** The ids a run enrolls. */
  function Enrolled(actions: seq<Action>): set<Id> {
    set a | a in actions && a.AddNode? :: a.node.id
  }

  /** Enrollment draws ids that were never used before. */
  predicate FreshIds(used: set<Id>, actions: seq<Action>) {
    forall k :: 0 <= k < |actions| && actions[k].AddNode? ==> actions[k].node.id !in used + Enrolled(actions[..k])
  }

  /** The id was deleted after it had been enrolled, or after the start if it was there then. */
  predicate DeletedAfter(initial: set<Id>, actions: seq<Action>, id: Id) {
    exists j :: 0 <= j < |actions| && actions[j] == DeleteNode(id) && id in initial + Enrolled(actions[..j])
  }

  lemma FreshPrefix(used: set<Id>, actions: seq<Action>)
    requires FreshIds(used, actions) && actions != []
    ensures FreshIds(used, actions[..|actions| - 1])
  {
    var rest := actions[..|actions| - 1];
    forall k | 0 <= k < |rest| && rest[k].AddNode? ensures rest[k].node.id !in used + Enrolled(rest[..k]) {
      assert rest[k] == actions[k] && rest[..k] == actions[..k];
    }
  }

  lemma EnrolledStep(actions: seq<Action>)
    requires actions != []
    ensures Enrolled(actions)
         == Enrolled(actions[..|actions| - 1])
          + if actions[|actions| - 1].AddNode? then {actions[|actions| - 1].node.id} else {}
  {
    var rest, last := actions[..|actions| - 1], actions[|actions| - 1];
    assert actions == rest + [last];
    forall id ensures id in Enrolled(actions) <==> id in Enrolled(rest) || (last.AddNode? && id == last.node.id) {
      if id in Enrolled(rest) {
        var a :| a in rest && a.AddNode? && a.node.id == id;
        assert a in actions;
      }
      if last.AddNode? && id == last.node.id {
        assert last in actions;
      }
    }
  }

  lemma DeletedAfterStep(initial: set<Id>, actions: seq<Action>, id: Id)
    requires actions != []
    ensures
      var rest, last := actions[..|actions| - 1], actions[|actions| - 1];
      DeletedAfter(initial, actions, id)
      <==> DeletedAfter(initial, rest, id) || (last == DeleteNode(id) && id in initial + Enrolled(rest))
  {
    hide Enrolled;
    var n := |actions| - 1;
    var rest := actions[..n];
    assert forall j :: 0 <= j <= n ==> rest[..j] == actions[..j];
    if DeletedAfter(initial, rest, id) {
      var j :| 0 <= j < n && rest[j] == DeleteNode(id) && id in initial + Enrolled(rest[..j]);
      assert actions[j] == DeleteNode(id);
    }
    if DeletedAfter(initial, actions, id) {
      var j :| 0 <= j < |actions| && actions[j] == DeleteNode(id) && id in initial + Enrolled(actions[..j]);
      if j < n {
        assert rest[j] == DeleteNode(id);
      }
    }
  }

  lemma DeletedWasKnown(initial: set<Id>, actions: seq<Action>, id: Id)
    requires DeletedAfter(initial, actions, id)
    ensures id in initial + Enrolled(actions)
  {
    var j :| 0 <= j < |actions| && actions[j] == DeleteNode(id) && id in initial + Enrolled(actions[..j]);
    assert forall a :: a in actions[..j] ==> a in actions;
  }

  /** The ledger's ids are those enrolled and not deleted since. */
  lemma {:induction false} LedgerIds(l: Ledger, actions: seq<Action>, id: Id)
    requires FreshIds(l.hosts.Keys, actions)
    ensures id in LedgerRun(l, actions).hosts
       <==> id in l.hosts.Keys + Enrolled(actions) && !DeletedAfter(l.hosts.Keys, actions, id)
  {
    if actions != [] {
      var n := |actions| - 1;
      var rest, last := actions[..n], actions[n];
      FreshPrefix(l.hosts.Keys, actions);
      LedgerIds(l, rest, id);
      LedgerKeys(LedgerRun(l, rest), last);
      EnrolledStep(actions);
      DeletedAfterStep(l.hosts.Keys, actions, id);
      assert last.AddNode? ==> last.node.id !in l.hosts.Keys + Enrolled(rest);
      if DeletedAfter(l.hosts.Keys, rest, id) {
        DeletedWasKnown(l.hosts.Keys, rest, id);
      }
      hide LedgerAct, FreshIds, Enrolled, DeletedAfter;
    }
  }

  /**
    * In every interleaving the registry holds exactly the hosts enrolled and not deleted since: nothing is
    * lost, and no late edit, re-pin or refresh brings a host back.
    */
  lemma IdsExact(w: World, l: Ledger, actions: seq<Action>, id: Id)
    requires Reflects(w, l) && FreshIds(l.hosts.Keys, actions)
    ensures Lookup(Run(w, actions).nodes, id).Some?
       <==> id in l.hosts.Keys + Enrolled(actions) && !DeletedAfter(l.hosts.Keys, actions, id)
  {
    RunReflected(w, l, actions);
    assert ShowsAt(Run(w, actions).nodes, LedgerRun(l, actions).hosts, id);
    hide Reflects, Run, LedgerRun, Lookup, OwnedOf, FreshIds, Enrolled, DeletedAfter;
    LedgerIds(l, actions, id);
  }

  lemma LedgerKeys(l: Ledger, a: Action)
    ensures LedgerAct(l, a).hosts.Keys
         == if a.AddNode? then l.hosts.Keys + {a.node.id}
            else if a.DeleteNode? then l.hosts.Keys - {a.id}
            else l.hosts.Keys
  {}

  /**
    * In every interleaving the registry shows the ledger. The ledger skips the monitor's steps, so no
    * refresh and no ended window drops an administrator's edit, and no late commit revives a host.
    */
  lemma {:induction false} RunReflected(w: World, l: Ledger, actions: seq<Action>)
    requires Reflects(w, l) && FreshIds(l.hosts.Keys, actions)
    ensures Reflects(Run(w, actions), LedgerRun(l, actions))
  {
    if actions != [] {
      var rest, last := actions[..|actions| - 1], actions[|actions| - 1];
      FreshPrefix(l.hosts.Keys, actions);
      RunReflected(w, l, rest);
      if last.AddNode? {
        assert actions[|actions| - 1].node.id !in l.hosts.Keys + Enrolled(rest);
        LedgerIds(l, rest, last.node.id);
      }
      hide Reflects, LedgerAct, Act, FreshIds, Enrolled;
      ActReflected(Run(w, rest), LedgerRun(l, rest), last);
    }
  }

  /** In every interleaving no two records share an id. */
  lemma {:induction false} RunDistinct(w: World, l: Ledger, actions: seq<Action>)
    requires Reflects(w, l) && FreshIds(l.hosts.Keys, actions) && DistinctIds(w.nodes)
    ensures DistinctIds(Run(w, actions).nodes)
  {
    if actions != [] {
      var rest, last := actions[..|actions| - 1], actions[|actions| - 1];
      FreshPrefix(l.hosts.Keys, actions);
      RunDistinct(w, l, rest);
      if last.AddNode? {
        assert actions[|actions| - 1].node.id !in l.hosts.Keys + Enrolled(rest);
        IdsExact(w, l, rest, last.node.id);
      }
      var section := SectionOf(Run(w, rest), last);
      hide Reflects, FreshIds, Enrolled, DeletedAfter, DistinctIds, Perform, Lookup;
      if section.Some? {
        PerformDistinct(Run(w, rest).nodes, section.value);
      }
    }
  }

  // ---- The last writer ----

  /** One of the settings that administrators edit. */
  datatype Setting = Name(text: string) | TagList(tags: seq<string>) | Address(url: string)

  datatype Which = TheName | TheTags | TheAddress

  function SettingOf(n: Node, which: Which): Setting {
    match which
    case TheName => Name(n.name)
    case TheTags => TagList(n.tags)
    case TheAddress => Address(n.baseUrl)
  }

  /** What a locked section writes to this setting of this host, if it does. */
  function Written(s: Section, id: Id, which: Which): Option<Setting> {
    match s
    case Enroll(n) => if n.id == id then Some(SettingOf(n, which)) else None
    case Commit(target, e) =>
      if target != id then None
      else
        match which {
          case TheName => if e.name.Some? then Some(Name(e.name.value)) else None
          case TheTags => if e.tags.Some? then Some(TagList(e.tags.value)) else None
          case TheAddress => if e.baseUrl.Some? then Some(Address(e.baseUrl.value)) else None
        }
    case _ => None
  }

  /** What action k of a run writes to this setting of this host, if it does. */
  function WrittenAt(w: World, actions: seq<Action>, k: nat, id: Id, which: Which): Option<Setting>
    requires k < |actions|
  {
    var section := SectionOf(Run(w, actions[..k]), actions[k]);
    if section.Some? then Written(section.value, id, which) else None
  }

  lemma WriteStep(nodes: seq<Node>, s: Section, id: Id, which: Which)
    requires Lookup(Perform(nodes, s), id).Some?
    requires s.Enroll? && s.node.id == id ==> Lookup(nodes, id).None?
    ensures
      var setting := SettingOf(Lookup(Perform(nodes, s), id).value, which);
      match Written(s, id, which)
      case Some(v) => v == setting
      case None => Lookup(nodes, id).Some? && SettingOf(Lookup(nodes, id).value, which) == setting
  {
    hide Lookup, Refreshed, Resumed, RefreshAll, ResumeAll, Replace, Without;
    match s
    case Enroll(n) => LookupAppend(nodes, n, id);
    case Delete(gone) => LookupWithout(nodes, gone, id);
    case Commit(target, e) =>
      if Lookup(nodes, target).Some? {
        LookupReplace(nodes, Update(Lookup(nodes, target).value, e), id);
      }
    case Repin(target, fp) =>
      if Lookup(nodes, target).Some? {
        LookupReplace(nodes, Lookup(nodes, target).value.(certFp := fp), id);
      }
    case Resume(now) =>
      LookupResumed(nodes, now, id);
      MonitorKeepsOwned(Lookup(nodes, id).value, map[], now);
    case Refresh(seen, now) =>
      LookupRefreshed(nodes, seen, now, id);
      MonitorKeepsOwned(Lookup(nodes, id).value, seen, now);
  }

  /** v was written by an action that no later one overwrote, or was there from the start and never written. */
  ghost predicate LastWritten(w: World, actions: seq<Action>, id: Id, which: Which, v: Setting) {
    || (exists k: nat :: k < |actions| && WrittenAt(w, actions, k, id, which) == Some(v)
                         && forall j: nat :: k < j < |actions| ==> WrittenAt(w, actions, j, id, which).None?)
    || (&& (forall j: nat :: j < |actions| ==> WrittenAt(w, actions, j, id, which).None?)
        && Lookup(w.nodes, id).Some? && SettingOf(Lookup(w.nodes, id).value, which) == v)
  }

  lemma LastWrittenStep(w: World, actions: seq<Action>, id: Id, which: Which, v: Setting)
    requires actions != []
    requires WrittenAt(w, actions, |actions| - 1, id, which) == Some(v)
          || (&& WrittenAt(w, actions, |actions| - 1, id, which).None?
              && LastWritten(w, actions[..|actions| - 1], id, which, v))
    ensures LastWritten(w, actions, id, which, v)
  {
    hide Run, SectionOf, Written, Lookup, SettingOf, WrittenAt;
    var n := |actions| - 1;
    var rest := actions[..n];
    forall j: nat | j < n ensures WrittenAt(w, rest, j, id, which) == WrittenAt(w, actions, j, id, which) {
      WrittenPrefix(w, actions, j, id, which);
    }
    if WrittenAt(w, actions, n, id, which).None? {
      if k: nat :| k < n && WrittenAt(w, rest, k, id, which) == Some(v)
                   && forall j: nat :: k < j < n ==> WrittenAt(w, rest, j, id, which).None? {
        assert WrittenAt(w, actions, k, id, which) == Some(v);
      }
    }
  }

  lemma WrittenPrefix(w: World, actions: seq<Action>, j: nat, id: Id, which: Which)
    requires j < |actions| - 1
    ensures WrittenAt(w, actions[..|actions| - 1], j, id, which) == WrittenAt(w, actions, j, id, which)
  {
    hide Run, SectionOf, Written;
    assert actions[..|actions| - 1][..j] == actions[..j];
  }

  /**
    * In every interleaving the name, tags and address of a living host are those of the last enrollment or
    * committed edit that carries them.
    */
  lemma {:induction false} LastWriterWins(w: World, l: Ledger, actions: seq<Action>, id: Id, which: Which)
    requires Reflects(w, l) && FreshIds(l.hosts.Keys, actions)
    requires Lookup(Run(w, actions).nodes, id).Some?
    ensures LastWritten(w, actions, id, which, SettingOf(Lookup(Run(w, actions).nodes, id).value, which))
  {
    if actions != [] {
      var n := |actions| - 1;
      var rest, last := actions[..n], actions[n];
      var before := Run(w, rest);
      FreshPrefix(l.hosts.Keys, actions);
      if last.AddNode? {
        assert last.node.id !in l.hosts.Keys + Enrolled(rest);
        IdsExact(w, l, rest, last.node.id);
      }
      var v := SettingOf(Lookup(Run(w, actions).nodes, id).value, which);
      var section := SectionOf(before, last);
      assert Run(w, actions) == Act(before, last);
      if section.Some? {
        WriteStep(before.nodes, section.value, id, which);
      }
      hide Reflects, FreshIds, Enrolled, DeletedAfter, Lookup, Perform, Written, SettingOf, Run, LastWritten;
      if WrittenAt(w, actions, n, id, which).None? {
        LastWriterWins(w, l, rest, id, which);
      }
      LastWrittenStep(w, actions, id, which, v);
    }
  }

  // ---- Where a run starts ----

  /** The ledger of a registry that is at rest. */
  function Hosts(nodes: seq<Node>): map<Id, Owned> {
    var ids := set n | n in nodes :: n.id;
    map id | id in ids :: OwnedOf(Lookup(nodes, id).value)
  }

  /** With no request under way every registry has a ledger to start from. */
  lemma StartReflects(nodes: seq<Node>, polls: map<nat, set<Id>>)
    ensures Reflects(World(nodes, map[], polls), Ledger(Hosts(nodes), map[]))
  {
    forall id ensures ShowsAt(nodes, Hosts(nodes), id) {
      var found := Lookup(nodes, id);
      hide Lookup, OwnedOf;
      if found.Some? {
        assert found.value in nodes;
      }
    }
  }

  // ---- Runs without the monitor ----

  function WithoutMonitor(actions: seq<Action>): seq<Action> {
    if actions == [] then []
    else
      var rest, last := WithoutMonitor(actions[..|actions| - 1]), actions[|actions| - 1];
      if ByMonitor(last) then rest else rest + [last]
  }

  lemma {:induction false} LedgerSkipsMonitor(l: Ledger, actions: seq<Action>)
    ensures LedgerRun(l, WithoutMonitor(actions)) == LedgerRun(l, actions)
  {
    if actions != [] {
      hide LedgerAct;
      var rest, last := actions[..|actions| - 1], actions[|actions| - 1];
      LedgerSkipsMonitor(l, rest);
      MonitorSkips(l, last);
      var kept := WithoutMonitor(rest);
      assert (kept + [last])[..|kept|] == kept;
    }
  }

  lemma MonitorSkips(l: Ledger, a: Action)
    ensures ByMonitor(a) ==> LedgerAct(l, a) == l
  {}

  lemma {:induction false} EnrolledWithoutMonitor(actions: seq<Action>)
    ensures Enrolled(WithoutMonitor(actions)) == Enrolled(actions)
  {
    if actions != [] {
      var rest, last := actions[..|actions| - 1], actions[|actions| - 1];
      EnrolledWithoutMonitor(rest);
      EnrolledStep(actions);
      if !ByMonitor(last) {
        var kept := WithoutMonitor(actions);
        assert kept[..|kept| - 1] == WithoutMonitor(rest);
        EnrolledStep(kept);
      }
    }
  }

  lemma {:induction false} FreshWithoutMonitor(used: set<Id>, actions: seq<Action>)
    requires FreshIds(used, actions)
    ensures FreshIds(used, WithoutMonitor(actions))
  {
    if actions != [] {
      var rest, last := actions[..|actions| - 1], actions[|actions| - 1];
      FreshPrefix(used, actions);
      FreshWithoutMonitor(used, rest);
      if !ByMonitor(last) {
        EnrolledWithoutMonitor(rest);
        FreshAppend(used, WithoutMonitor(rest), last);
      }
    }
  }

  lemma FreshAppend(used: set<Id>, actions: seq<Action>, a: Action)
    requires FreshIds(used, actions) && (a.AddNode? ==> a.node.id !in used + Enrolled(actions))
    ensures FreshIds(used, actions + [a])
  {
    var all := actions + [a];
    forall k | 0 <= k < |all| && all[k].AddNode? ensures all[k].node.id !in used + Enrolled(all[..k]) {
      if k < |actions| {
        assert all[..k] == actions[..k];
      } else {
        assert all[..k] == actions;
      }
    }
  }

  /** The records agree on everything that administrators decide. */
  predicate SameOwned(m: Node, n: Node) {
    && m.hostType == n.hostType && m.name == n.name && m.tags == n.tags && m.baseUrl == n.baseUrl
    && m.certFp == n.certFp && m.role == n.role && m.secret == n.secret && m.username == n.username
    && m.verify == n.verify && m.pinned == n.pinned && (m.pinned ==> m.kind == n.kind)
    && (m.disabled && m.disabledUntil in {None, Some(Unreadable)} <==>
        n.disabled && n.disabledUntil in {None, Some(Unreadable)})
  }

  /** Taking every monitor step out of a run changes nothing that belongs to the administrators. */
  lemma MonitorNeverInterferes(w: World, l: Ledger, actions: seq<Action>, id: Id)
    requires Reflects(w, l) && FreshIds(l.hosts.Keys, actions)
    ensures
      var polled := Lookup(Run(w, actions).nodes, id);
      var quiet := Lookup(Run(w, WithoutMonitor(actions)).nodes, id);
      && (polled.Some? <==> quiet.Some?)
      && (polled.Some? ==> SameOwned(polled.value, quiet.value))
  {
    RunReflected(w, l, actions);
    FreshWithoutMonitor(l.hosts.Keys, actions);
    RunReflected(w, l, WithoutMonitor(actions));
    LedgerSkipsMonitor(l, actions);
    var hosts := LedgerRun(l, actions).hosts;
    assert ShowsAt(Run(w, actions).nodes, hosts, id) && ShowsAt(Run(w, WithoutMonitor(actions)).nodes, hosts, id);
    hide LedgerRun, Run, Lookup, FreshIds, Reflects, SameOwned, OwnedOf;
    if id in hosts {
      OwnedAgrees(Lookup(Run(w, actions).nodes, id).value, Lookup(Run(w, WithoutMonitor(actions)).nodes, id).value);
    }
  }

  lemma OwnedAgrees(m: Node, n: Node)
    requires OwnedOf(m) == OwnedOf(n)
    ensures SameOwned(m, n)
  {}

  // ---- Pauses over whole runs ----

  /** A locked section that deletes the host or writes its pause. */
  predicate WritesPause(s: Section, id: Id) {
    || s == Delete(id)
    || (s.Commit? && s.id == id && (s.edits.disabled.Some? || s.edits.disabledUntil.Some?))
  }

  /** The pause of a record, with its end if it has one that can be read. */
  datatype Pause = Running | Paused(until: Option<Until>)

  function PauseOf(n: Node): Pause {
    if n.disabled then Paused(n.disabledUntil) else Running
  }

  lemma SectionKeepsPause(nodes: seq<Node>, s: Section, id: Id)
    requires Lookup(nodes, id).Some? && !WritesPause(s, id)
    ensures Lookup(Perform(nodes, s), id).Some?
    ensures
      var n, m := Lookup(nodes, id).value, Lookup(Perform(nodes, s), id).value;
      if s.Resume? then m == Resumed(n, s.now)
      else m.disabled == n.disabled && m.disabledUntil == n.disabledUntil
  {
    hide Lookup, Resumed, RefreshAll, ResumeAll, Replace, Without;
    match s
    case Enroll(n) => LookupAppend(nodes, n, id);
    case Delete(gone) => LookupWithout(nodes, gone, id);
    case Commit(target, e) =>
      if Lookup(nodes, target).Some? {
        LookupReplace(nodes, Update(Lookup(nodes, target).value, e), id);
      }
    case Repin(target, fp) =>
      if Lookup(nodes, target).Some? {
        LookupReplace(nodes, Lookup(nodes, target).value.(certFp := fp), id);
      }
    case Resume(now) => LookupResumed(nodes, now, id);
    case Refresh(seen, now) => LookupRefreshed(nodes, seen, now, id);
  }

  /** No action from i on deletes the host or writes its pause. */
  ghost predicate PauseUntouched(w: World, actions: seq<Action>, i: nat, id: Id) {
    forall k :: i <= k < |actions| ==>
      var section := SectionOf(Run(w, actions[..k]), actions[k]);
      section.Some? ==> !WritesPause(section.value, id)
  }

  lemma PauseUntouchedPrefix(w: World, actions: seq<Action>, i: nat, id: Id)
    requires i < |actions| && PauseUntouched(w, actions, i, id)
    ensures
      var n := |actions| - 1;
      && PauseUntouched(w, actions[..n], i, id) && actions[..n][..i] == actions[..i]
      && var section := SectionOf(Run(w, actions[..n]), actions[n]);
         section.Some? ==> !WritesPause(section.value, id)
  {
    hide Run, SectionOf, WritesPause;
    var rest := actions[..|actions| - 1];
    assert forall k :: i <= k < |rest| ==> rest[..k] == actions[..k] && rest[k] == actions[k];
  }

  /** What an action that does not write the pause makes of it: only a poll at or after the end ends it. */
  lemma PauseStep(w: World, a: Action, id: Id)
    requires Lookup(w.nodes, id).Some?
    requires SectionOf(w, a).Some? ==> !WritesPause(SectionOf(w, a).value, id)
    ensures Lookup(Act(w, a).nodes, id).Some?
    ensures
      var before, after := PauseOf(Lookup(w.nodes, id).value), PauseOf(Lookup(Act(w, a).nodes, id).value);
      && (before.Running? ==> after == before)
      && (before.Paused? && before.until in {None, Some(Unreadable)} ==> after == before)
      && forall end :: before == Paused(Some(At(end))) ==>
           after == if a.StartPoll? && a.now >= end then Running else before
  {
    var section := SectionOf(w, a);
    assert a.StartPoll? ==> section == Some(Resume(a.now));
    assert section.Some? && section.value.Resume? ==> a.StartPoll?;
    hide Lookup, Perform, WritesPause, SectionOf;
    if section.Some? {
      SectionKeepsPause(w.nodes, section.value, id);
    }
  }

  /**
    * In every interleaving a maintenance window that no request touches lasts until the first poll at or after
    * its end, and from then on the host is not paused.
    */
  lemma {:induction false} WindowLasts(w: World, actions: seq<Action>, i: nat, id: Id, end: int)
    requires i <= |actions| && PauseUntouched(w, actions, i, id)
    requires Lookup(Run(w, actions[..i]).nodes, id).Some?
    requires PauseOf(Lookup(Run(w, actions[..i]).nodes, id).value) == Paused(Some(At(end)))
    ensures Lookup(Run(w, actions).nodes, id).Some?
    ensures PauseOf(Lookup(Run(w, actions).nodes, id).value)
         == if exists k :: i <= k < |actions| && actions[k].StartPoll? && actions[k].now >= end
            then Running else Paused(Some(At(end)))
  {
    hide Lookup, Act, SectionOf, PauseOf, PauseUntouched;
    if i == |actions| {
      assert actions[..i] == actions;
    } else {
      PauseUntouchedPrefix(w, actions, i, id);
      WindowLasts(w, actions[..|actions| - 1], i, id, end);
      PauseStep(Run(w, actions[..|actions| - 1]), actions[|actions| - 1], id);
    }
  }

  /** A pause without a readable end lasts until a request ends it. */
  lemma {:induction false} PauseLasts(w: World, actions: seq<Action>, i: nat, id: Id, until: Option<Until>)
    requires i <= |actions| && PauseUntouched(w, actions, i, id)
    requires until in {None, Some(Unreadable)} && Lookup(Run(w, actions[..i]).nodes, id).Some?
    requires PauseOf(Lookup(Run(w, actions[..i]).nodes, id).value) == Paused(until)
    ensures Lookup(Run(w, actions).nodes, id).Some?
    ensures PauseOf(Lookup(Run(w, actions).nodes, id).value) == Paused(until)
  {
    hide Lookup, Act, SectionOf, PauseOf, PauseUntouched;
    if i == |actions| {
      assert actions[..i] == actions;
    } else {
      PauseUntouchedPrefix(w, actions, i, id);
      PauseLasts(w, actions[..|actions| - 1], i, id, until);
      PauseStep(Run(w, actions[..|actions| - 1]), actions[|actions| - 1], id);
    }
  }

  /** A fan-out asks the hosts that are not paused, or whose window has passed when it starts. */
  lemma PollAsks(w: World, tid: nat, now: int, id: Id)
    requires DistinctIds(w.nodes)
    ensures tid in Act(w, StartPoll(tid, now)).polls
    ensures id in Act(w, StartPoll(tid, now)).polls[tid]
       <==> && Lookup(w.nodes, id).Some?
            && var n := Lookup(w.nodes, id).value;
               n.disabled ==> exists t :: n.disabledUntil == Some(At(t)) && t <= now
  {
    var after := ResumeAll(w.nodes, now);
    LookupResumed(w.nodes, now, id);
    PerformDistinct(w.nodes, Resume(now));
    ActiveExactly(after, id);
    if Lookup(w.nodes, id).Some? {
      DueMeans(Lookup(w.nodes, id).value, now);
    }
    hide Lookup, Active, DistinctIds;
  }

  lemma ActiveExactly(nodes: seq<Node>, id: Id)
    requires DistinctIds(nodes)
    ensures id in Active(nodes) <==> Lookup(nodes, id).Some? && !Lookup(nodes, id).value.disabled
  {
    LookupUnique(nodes, id);
    hide Lookup;
  }

  /** A fan-out changes no record of a host that it did not ask or did not reach. */
  lemma OnlyAskedHealed(w: World, tid: nat, results: map<Id, Envelope>, now: int, id: Id)
    requires !(tid in w.polls && id in w.polls[tid] && id in results && results[id].ok)
    ensures Lookup(Act(w, FinishPoll(tid, results, now)).nodes, id) == Lookup(w.nodes, id)
  {
    hide Lookup, RefreshAll;
    if tid in w.polls {
      LookupRefreshed(w.nodes, map i | i in results && i in w.polls[tid] :: results[i], now, id);
    }
  }
}
