/** The node registry: a list of records, loaded, changed and saved inside locked sections. */
module Registry {
  import opened Wrappers
  import Tags

  type Id = string

  datatype HostType = Nexus | TokenHost | PasswordHost

  /** The end of a maintenance window. */
  datatype Until = At(time: int) | Unreadable

  datatype Node = Node(
    id: Id, hostType: HostType, name: string, tags: seq<string>, baseUrl: string, certFp: string,
    role: string, secret: string, username: string, verify: bool, pinned: bool,
    kind: string, typeAuto: string, version: string, capabilities: seq<string>,
    lastSeen: Option<int>, disabled: bool, disabledUntil: Option<Until>)

  /** The fields one edit sets; the others are left alone. */
  datatype Edits = Edits(
    name: Option<string>, tags: Option<seq<string>>, baseUrl: Option<string>, certFp: Option<string>,
    role: Option<string>, secret: Option<string>, username: Option<string>, verify: Option<bool>,
    pinned: Option<bool>, kind: Option<string>, version: Option<string>, capabilities: Option<seq<string>>,
    disabled: Option<bool>, disabledUntil: Option<Option<Until>>)

  function Get<T>(edit: Option<T>, current: T): T {
    if edit.Some? then edit.value else current
  }

  function Update(n: Node, e: Edits): Node {
    n.(name := Get(e.name, n.name),
       tags := Get(e.tags, n.tags),
       baseUrl := Get(e.baseUrl, n.baseUrl),
       certFp := Get(e.certFp, n.certFp),
       role := Get(e.role, n.role),
       secret := Get(e.secret, n.secret),
       username := Get(e.username, n.username),
       verify := Get(e.verify, n.verify),
       pinned := Get(e.pinned, n.pinned),
       kind := Get(e.kind, n.kind),
       version := Get(e.version, n.version),
       capabilities := Get(e.capabilities, n.capabilities),
       disabled := Get(e.disabled, n.disabled),
       disabledUntil := Get(e.disabledUntil, n.disabledUntil))
  }

  // ---- The request behind an edit ----

  datatype Label = Auto | Manual(text: string) | BadLabel

  /** The fields of an edit request; text fields are already stripped, "" when missing. */
  datatype Request = Request(
    name: Option<string>, tags: Option<seq<string>>, disabled: Option<bool>, until: Option<Option<int>>,
    asType: Option<Label>, baseUrl: string, token: string, username: string, password: string, verify: Option<bool>)

  datatype Probe = Probe(certFp: string, role: string, version: string, capabilities: seq<string>)

  datatype Refusal = NotFound | BadWindow | BadType | Unreachable

  datatype Outcome = Commits(edits: Edits) | Refused(why: Refusal)

  const NO_EDITS := Edits(None, None, None, None, None, None, None, None, None, None, None, None, None, None)

  /** url.rstrip('/'): what is cut off is slashes, and none is left at the end. */
  function TrimSlash(url: string): (t: string)
    ensures t <= url && forall i :: |t| <= i < |url| ==> url[i] == '/'
    ensures t != "" ==> t[|t| - 1] != '/'
  {
    if url != "" && url[|url| - 1] == '/' then TrimSlash(url[..|url| - 1]) else url
  }

  function Or(text: string, otherwise: string): string {
    if text == "" then otherwise else text
  }

  predicate UrlChanged(baseUrl: string, req: Request) {
    req.baseUrl != "" && TrimSlash(req.baseUrl) != baseUrl
  }

  /** Whether the request makes the controller contact the host again. */
  predicate Reprobes(cur: Node, req: Request) {
    match cur.hostType
    case PasswordHost =>
      || UrlChanged(cur.baseUrl, req) || req.password != ""
      || (req.username != "" && req.username != cur.username) || req.verify.Some?
    case Nexus => UrlChanged(cur.baseUrl, req) || req.token != ""
    case TokenHost => UrlChanged(cur.baseUrl, req) || req.token != "" || req.verify.Some?
  }

  /** What the request changes without contacting the host. */
  function PlainEdits(cur: Node, req: Request): Edits {
    NO_EDITS.(
      name := if req.name.Some? then Some(Or(req.name.value, cur.name)) else None,
      tags := if req.tags.Some? then Some(Tags.Clean(req.tags.value)) else None,
      disabled := req.disabled,
      disabledUntil :=
        if req.disabled == Some(true) && req.until.Some? && req.until.value.Some?
        then Some(Some(At(req.until.value.value)))
        else if req.disabled.Some? then Some(None) else None,
      pinned := if req.asType.Some? then Some(req.asType.value.Manual?) else None,
      kind :=
        if req.asType.Some? && req.asType.value.Manual? then Some(req.asType.value.text)
        else if req.asType.Some? then Some(cur.typeAuto) else None)
  }

  function ProbedEdits(cur: Node, req: Request, e: Edits, info: Probe): Edits {
    var url := TrimSlash(Or(req.baseUrl, cur.baseUrl));
    match cur.hostType
    case PasswordHost =>
      e.(baseUrl := Some(url), certFp := Some(info.certFp), username := Some(Or(req.username, cur.username)),
         verify := Some(Get(req.verify, cur.verify)),
         secret := if req.password != "" then Some(req.password) else None)
    case _ =>
      e.(baseUrl := Some(url), certFp := Some(info.certFp), role := Some(info.role), version := Some(info.version),
         capabilities := Some(info.capabilities),
         secret := if req.token != "" then Some(req.token) else None,
         verify := if cur.hostType == Nexus then None else Some(Get(req.verify, cur.verify)))
  }

  /** The edits a request makes of the record it read, given what the probe answers. */
  function EditsFor(cur: Node, req: Request, probe: Option<Probe>): Outcome {
    if req.disabled == Some(true) && req.until == Some(None) then Refused(BadWindow)
    else if req.asType == Some(BadLabel) then Refused(BadType)
    else if !Reprobes(cur, req) then Commits(PlainEdits(cur, req))
    else if probe.None? then Refused(Unreachable)
    else Commits(ProbedEdits(cur, req, PlainEdits(cur, req), probe.value))
  }

  // ---- What a fan-out reports ----

  datatype Envelope = Envelope(ok: bool, typeAuto: string, version: string, capabilities: seq<string>)

  function Reclassify(n: Node, typeAuto: string): Node {
    if typeAuto == "" || typeAuto == "Unknown" then n
    else n.(typeAuto := typeAuto, kind := if n.pinned then n.kind else typeAuto)
  }

  function Refreshed(n: Node, seen: map<Id, Envelope>, now: int): Node {
    if n.id in seen && seen[n.id].ok then
      var r := seen[n.id];
      var m := Reclassify(n.(lastSeen := Some(now)), r.typeAuto);
      m.(version := Or(r.version, m.version),
         capabilities := if r.capabilities != [] then r.capabilities else m.capabilities)
    else
      n
  }

  /** A pause ends when its window has passed; one without a readable window does not end by itself. */
  predicate Due(n: Node, now: int) {
    n.disabled && n.disabledUntil.Some? && n.disabledUntil.value.At? && n.disabledUntil.value.time <= now
  }

  function Resumed(n: Node, now: int): Node {
    if Due(n, now) then n.(disabled := false, disabledUntil := None) else n
  }

  // ---- The locked sections ----

  datatype Section =
    | Enroll(node: Node)
    | Commit(id: Id, edits: Edits)
    | Delete(id: Id)
    | Repin(id: Id, certFp: string)
    | Resume(now: int)
    | Refresh(seen: map<Id, Envelope>, now: int)

  /** The first record with this id. */
  function Lookup(nodes: seq<Node>, id: Id): (n: Option<Node>)
    ensures n.Some? ==> n.value in nodes && n.value.id == id
    ensures n.None? ==> forall m :: m in nodes ==> m.id != id
  {
    if nodes == [] then None
    else if nodes[0].id == id then Some(nodes[0])
    else Lookup(nodes[1..], id)
  }

  /** The registry with the first record of this id replaced. */
  function Replace(nodes: seq<Node>, n: Node): (r: seq<Node>)
    ensures |r| == |nodes|
  {
    if nodes == [] then []
    else if nodes[0].id == n.id then [n] + nodes[1..]
    else [nodes[0]] + Replace(nodes[1..], n)
  }

  function Without(nodes: seq<Node>, id: Id): seq<Node> {
    if nodes == [] then []
    else (if nodes[0].id == id then [] else [nodes[0]]) + Without(nodes[1..], id)
  }

  function RefreshAll(nodes: seq<Node>, seen: map<Id, Envelope>, now: int): (r: seq<Node>)
    ensures |r| == |nodes|
  {
    if nodes == [] then [] else [Refreshed(nodes[0], seen, now)] + RefreshAll(nodes[1..], seen, now)
  }

  function ResumeAll(nodes: seq<Node>, now: int): (r: seq<Node>)
    ensures |r| == |nodes|
  {
    if nodes == [] then [] else [Resumed(nodes[0], now)] + ResumeAll(nodes[1..], now)
  }

  /** The names of the hosts whose pause ends now. */
  function DueNames(nodes: seq<Node>, now: int): seq<string> {
    if nodes == [] then []
    else (if Due(nodes[0], now) then [Or(nodes[0].name, nodes[0].id)] else []) + DueNames(nodes[1..], now)
  }

  /** A reached host that a fan-out could classify and whose type is not pinned. */
  predicate Reclassified(n: Node, seen: map<Id, Envelope>) {
    n.id in seen && seen[n.id].ok && seen[n.id].typeAuto !in {"", "Unknown"} && !n.pinned
  }

  /** The types that the fan-out's own response shows at once. */
  function ShownTypes(nodes: seq<Node>, seen: map<Id, Envelope>): map<Id, string> {
    if nodes == [] then map[]
    else
      var rest, n := ShownTypes(nodes[..|nodes| - 1], seen), nodes[|nodes| - 1];
      if Reclassified(n, seen) then rest[n.id := seen[n.id].typeAuto] else rest
  }

  /** The registry after one locked section. */
  function Perform(nodes: seq<Node>, s: Section): seq<Node> {
    match s
    case Enroll(n) => nodes + [n]
    case Commit(id, e) =>
      var n := Lookup(nodes, id);
      if n.Some? then Replace(nodes, Update(n.value, e)) else nodes
    case Delete(id) => Without(nodes, id)
    case Repin(id, fp) =>
      var n := Lookup(nodes, id);
      if n.Some? then Replace(nodes, n.value.(certFp := fp)) else nodes
    case Resume(now) => ResumeAll(nodes, now)
    case Refresh(seen, now) => RefreshAll(nodes, seen, now)
  }

  /** i is the first position with this id. */
  predicate First(nodes: seq<Node>, id: Id, i: nat) {
    i < |nodes| && nodes[i].id == id && forall j :: 0 <= j < i ==> nodes[j].id != id
  }

  /** What a fan-out makes of one record: a reached host reports when it was seen, its type, version and
      capabilities. */
  predicate Healed(before: Node, after: Node, seen: map<Id, Envelope>, now: int) {
    if before.id in seen && seen[before.id].ok then
      var r := seen[before.id];
      var classified := r.typeAuto != "" && r.typeAuto != "Unknown";
      && after.lastSeen == Some(now)
      && after.typeAuto == (if classified then r.typeAuto else before.typeAuto)
      && after.kind == (if classified && !before.pinned then r.typeAuto else before.kind)
      && after.version == (if r.version != "" then r.version else before.version)
      && after.capabilities == (if r.capabilities != [] then r.capabilities else before.capabilities)
      && after == before.(lastSeen := after.lastSeen, typeAuto := after.typeAuto, kind := after.kind,
                          version := after.version, capabilities := after.capabilities)
    else
      after == before
  }

  lemma {:induction false} RefreshedAt(nodes: seq<Node>, seen: map<Id, Envelope>, now: int, i: nat)
    requires i < |nodes|
    ensures Healed(nodes[i], RefreshAll(nodes, seen, now)[i], seen, now)
  {
    if i > 0 {
      RefreshedAt(nodes[1..], seen, now, i - 1);
      hide Healed, Refreshed;
    }
  }

  lemma {:induction false} ResumedAt(nodes: seq<Node>, now: int, i: nat)
    requires i < |nodes|
    ensures ResumeAll(nodes, now)[i] == Resumed(nodes[i], now)
  {
    if i > 0 {
      ResumedAt(nodes[1..], now, i - 1);
    }
  }

  /** The positions of the pauses that end now. */
  ghost function DueAt(nodes: seq<Node>, now: int): (at: seq<nat>)
    ensures forall k, m :: 0 <= k < m < |at| ==> at[k] < at[m]
    ensures forall i: nat :: i in at <==> i < |nodes| && Due(nodes[i], now)
  {
    if nodes == [] then []
    else
      var n: nat := |nodes| - 1;
      var at := DueAt(nodes[..n], now);
      assert forall k :: 0 <= k < |at| ==> at[k] in at;
      at + if Due(nodes[n], now) then [n] else []
  }

  lemma {:induction false} DueNamesLast(nodes: seq<Node>, now: int)
    requires nodes != []
    ensures
      var n := |nodes| - 1;
      DueNames(nodes, now)
      == DueNames(nodes[..n], now) + if Due(nodes[n], now) then [Or(nodes[n].name, nodes[n].id)] else []
  {
    hide Due, Or;
    if |nodes| > 1 {
      DueNamesLast(nodes[1..], now);
      assert nodes[1..][..|nodes| - 2] == nodes[..|nodes| - 1][1..];
    }
  }

  lemma {:induction false} DueNamed(nodes: seq<Node>, now: int)
    ensures
      var at, names := DueAt(nodes, now), DueNames(nodes, now);
      && |at| == |names|
      && forall k :: 0 <= k < |at| ==> at[k] < |nodes| && names[k] == Or(nodes[at[k]].name, nodes[at[k]].id)
  {
    if nodes != [] {
      DueNamesLast(nodes, now);
      DueNamed(nodes[..|nodes| - 1], now);
      hide DueNames, Due, Or;
    }
  }

  /** The windows that have passed end, and with them their pauses; every other record is as it was. */
  ghost predicate PausesEnded(before: seq<Node>, after: seq<Node>, now: int) {
    && |after| == |before|
    && forall i :: 0 <= i < |before| ==>
         var n := before[i];
         if n.disabled && exists t :: n.disabledUntil == Some(At(t)) && t <= now
         then after[i] == n.(disabled := false, disabledUntil := None)
         else after[i] == n
  }

  /** names has the name, or else the id, of each record that changed, in the order of the list. */
  ghost predicate NamesChanged(before: seq<Node>, after: seq<Node>, names: seq<string>)
    requires |after| == |before|
  {
    exists at: seq<nat> :: ChangedAt(before, after, at) && NamesAt(before, names, at)
  }

  /** at lists the positions of the records that changed, in order. */
  ghost predicate ChangedAt(before: seq<Node>, after: seq<Node>, at: seq<nat>)
    requires |after| == |before|
  {
    && (forall k, m :: 0 <= k < m < |at| ==> at[k] < at[m])
    && forall i: nat :: i in at <==> i < |before| && after[i] != before[i]
  }

  ghost predicate NamesAt(nodes: seq<Node>, names: seq<string>, at: seq<nat>) {
    && |at| == |names|
    && forall k :: 0 <= k < |at| ==>
         && at[k] < |nodes|
         && names[k] == if nodes[at[k]].name != "" then nodes[at[k]].name else nodes[at[k]].id
  }

  lemma ResumeOutcome(nodes: seq<Node>, now: int)
    ensures PausesEnded(nodes, ResumeAll(nodes, now), now)
    ensures NamesChanged(nodes, ResumeAll(nodes, now), DueNames(nodes, now))
  {
    ResumedMeans(nodes, now);
    DueChanged(nodes, now);
    DueNamed(nodes, now);
    assert NamesAt(nodes, DueNames(nodes, now), DueAt(nodes, now));
    hide ResumeAll, DueNames, DueAt, PausesEnded, ChangedAt, NamesAt;
  }

  lemma ResumedMeans(nodes: seq<Node>, now: int)
    ensures PausesEnded(nodes, ResumeAll(nodes, now), now)
  {
    forall i | 0 <= i < |nodes|
      ensures ResumeAll(nodes, now)[i] == Resumed(nodes[i], now)
      ensures Due(nodes[i], now) <==>
              nodes[i].disabled && exists t :: nodes[i].disabledUntil == Some(At(t)) && t <= now
    {
      ResumedAt(nodes, now, i);
      DueMeans(nodes[i], now);
    }
    hide ResumeAll, Due;
  }

  lemma DueChanged(nodes: seq<Node>, now: int)
    ensures ChangedAt(nodes, ResumeAll(nodes, now), DueAt(nodes, now))
  {
    forall i: nat | i < |nodes| ensures Due(nodes[i], now) <==> ResumeAll(nodes, now)[i] != nodes[i] {
      ResumedAt(nodes, now, i);
    }
    hide ResumeAll, DueAt, Due;
  }

  lemma DueMeans(n: Node, now: int)
    ensures Due(n, now) <==> n.disabled && exists t :: n.disabledUntil == Some(At(t)) && t <= now
  {
    if Due(n, now) {
      assert n.disabledUntil == Some(At(n.disabledUntil.value.time));
    }
  }

  /** The fan-out could classify a host of this id, and its type is not pinned. */
  ghost predicate ShowsNewType(nodes: seq<Node>, seen: map<Id, Envelope>, id: Id) {
    && id in seen && seen[id].ok && seen[id].typeAuto != "" && seen[id].typeAuto != "Unknown"
    && exists n :: n in nodes && n.id == id && !n.pinned
  }

  /** Deletion leaves the other records in their order. */
  lemma {:induction false} WithoutConcat(a: seq<Node>, b: seq<Node>, id: Id)
    ensures Without(a + b, id) == Without(a, id) + Without(b, id)
  {
    if a == [] {
      assert a + b == b;
    } else {
      assert (a + b)[1..] == a[1..] + b;
      WithoutConcat(a[1..], b, id);
    }
  }

  lemma WithoutOne(n: Node, id: Id)
    ensures Without([n], id) == if n.id == id then [] else [n]
  {
    assert [n][1..] == [];
  }

  // ---- What each section does to a lookup ----

  lemma {:induction false} LookupAppend(nodes: seq<Node>, n: Node, id: Id)
    ensures Lookup(nodes + [n], id)
         == if Lookup(nodes, id).Some? then Lookup(nodes, id) else if n.id == id then Some(n) else None
  {
    if nodes != [] {
      assert (nodes + [n])[1..] == nodes[1..] + [n];
      LookupAppend(nodes[1..], n, id);
    }
  }

  lemma {:induction false} LookupReplace(nodes: seq<Node>, n: Node, id: Id)
    requires Lookup(nodes, n.id).Some?
    ensures Lookup(Replace(nodes, n), id) == if id == n.id then Some(n) else Lookup(nodes, id)
  {
    if nodes[0].id != n.id {
      LookupReplace(nodes[1..], n, id);
    }
  }

  lemma {:induction false} LookupWithout(nodes: seq<Node>, gone: Id, id: Id)
    ensures Lookup(Without(nodes, gone), id) == if id == gone then None else Lookup(nodes, id)
  {
    if nodes != [] {
      LookupWithout(nodes[1..], gone, id);
      var rest := Without(nodes[1..], gone);
      assert ([nodes[0]] + rest)[1..] == rest && [] + rest == rest;
    }
  }

  lemma {:induction false} LookupRefreshed(nodes: seq<Node>, seen: map<Id, Envelope>, now: int, id: Id)
    ensures Lookup(RefreshAll(nodes, seen, now), id)
         == if Lookup(nodes, id).Some? then Some(Refreshed(Lookup(nodes, id).value, seen, now)) else None
  {
    if nodes != [] {
      LookupRefreshed(nodes[1..], seen, now, id);
    }
  }

  lemma {:induction false} LookupResumed(nodes: seq<Node>, now: int, id: Id)
    ensures Lookup(ResumeAll(nodes, now), id)
         == if Lookup(nodes, id).Some? then Some(Resumed(Lookup(nodes, id).value, now)) else None
  {
    if nodes != [] {
      LookupResumed(nodes[1..], now, id);
    }
  }

  // ---- Ids stay distinct ----

  predicate DistinctIds(nodes: seq<Node>) {
    forall i, j :: 0 <= i < j < |nodes| ==> nodes[i].id != nodes[j].id
  }

  lemma {:induction false} ReplaceIds(nodes: seq<Node>, n: Node, i: nat)
    requires i < |nodes|
    ensures Replace(nodes, n)[i].id == nodes[i].id
  {
    if nodes[0].id != n.id && i > 0 {
      ReplaceIds(nodes[1..], n, i - 1);
    }
  }

  lemma {:induction false} MonitorIds(nodes: seq<Node>, seen: map<Id, Envelope>, now: int, i: nat)
    requires i < |nodes|
    ensures RefreshAll(nodes, seen, now)[i].id == nodes[i].id && ResumeAll(nodes, now)[i].id == nodes[i].id
  {
    if i > 0 {
      MonitorIds(nodes[1..], seen, now, i - 1);
    }
  }

  lemma {:induction false} WithoutDistinct(nodes: seq<Node>, id: Id)
    requires DistinctIds(nodes)
    ensures DistinctIds(Without(nodes, id)) && forall n :: n in Without(nodes, id) ==> n in nodes
  {
    if nodes != [] {
      WithoutDistinct(nodes[1..], id);
      assert forall n :: n in nodes[1..] ==> n in nodes && n.id != nodes[0].id;
    }
  }

  /** Every locked section keeps the ids distinct, given that enrollment brings a new one. */
  lemma PerformDistinct(nodes: seq<Node>, s: Section)
    requires DistinctIds(nodes) && (s.Enroll? ==> Lookup(nodes, s.node.id).None?)
    ensures DistinctIds(Perform(nodes, s))
  {
    hide Lookup, Refreshed, Resumed, RefreshAll, ResumeAll, Replace, Without;
    var after := Perform(nodes, s);
    match s
    case Delete(id) => WithoutDistinct(nodes, id);
    case Enroll(n) => assert forall m :: m in nodes ==> m.id != n.id;
    case Commit(id, e) =>
      if Lookup(nodes, id).Some? {
        forall i: nat | i < |nodes| ensures after[i].id == nodes[i].id {
          ReplaceIds(nodes, Update(Lookup(nodes, id).value, e), i);
        }
      }
    case Repin(id, fp) =>
      if Lookup(nodes, id).Some? {
        forall i: nat | i < |nodes| ensures after[i].id == nodes[i].id {
          ReplaceIds(nodes, Lookup(nodes, id).value.(certFp := fp), i);
        }
      }
    case Resume(now) =>
      forall i: nat | i < |nodes| ensures after[i].id == nodes[i].id {
        MonitorIds(nodes, map[], now, i);
      }
    case Refresh(seen, now) =>
      forall i: nat | i < |nodes| ensures after[i].id == nodes[i].id {
        MonitorIds(nodes, seen, now, i);
      }
  }

  // ---- The store ----

  class Store {
    var nodes: seq<Node>
    /** Every locked section so far, oldest first. */
    ghost var log: seq<Section>

    /** The saved registry is the outcome of the logged sections. */
    ghost predicate Valid()
      reads this
    {
      nodes == Replay(log)
    }

    constructor ()
      ensures Valid() && nodes == [] && log == []
    {
      nodes, log := [], [];
    }

    method Append(node: Node)
      requires Valid()
      modifies this
      ensures Valid() && log == old(log) + [Enroll(node)]
      ensures nodes == old(nodes) + [node]
    {
      nodes := nodes + [node];
      log := log + [Enroll(node)];
    }

    /** Reload the record and apply the edits, if it still exists. */
    method CommitEdits(id: Id, edits: Edits) returns (found: bool)
      requires Valid()
      modifies this
      ensures Valid() && log == old(log) + [Commit(id, edits)]
      ensures found <==> Lookup(old(nodes), id).Some?
      ensures !found ==> nodes == old(nodes)
      ensures found ==> exists i: nat ::
                First(old(nodes), id, i) && nodes == old(nodes)[i := Update(old(nodes)[i], edits)]
    {
      var i := IndexOf(nodes, id);
      log := log + [Commit(id, edits)];
      if i == |nodes| {
        return false;
      }
      ReplaceAt(nodes, i, Update(nodes[i], edits));
      assert First(nodes, id, i);
      nodes := nodes[i := Update(nodes[i], edits)];
      return true;
    }

    method CommitPin(id: Id, certFp: string) returns (found: bool)
      requires Valid()
      modifies this
      ensures Valid() && log == old(log) + [Repin(id, certFp)]
      ensures found <==> Lookup(old(nodes), id).Some?
      ensures !found ==> nodes == old(nodes)
      ensures found ==> exists i: nat ::
                First(old(nodes), id, i) && nodes == old(nodes)[i := old(nodes)[i].(certFp := certFp)]
    {
      var i := IndexOf(nodes, id);
      log := log + [Repin(id, certFp)];
      if i == |nodes| {
        return false;
      }
      ReplaceAt(nodes, i, nodes[i].(certFp := certFp));
      assert First(nodes, id, i);
      nodes := nodes[i := nodes[i].(certFp := certFp)];
      return true;
    }

    method Remove(id: Id) returns (found: bool)
      requires Valid()
      modifies this
      ensures Valid() && log == old(log) + [Delete(id)]
      ensures nodes == Without(old(nodes), id)
      ensures found <==> Lookup(old(nodes), id).Some?
    {
      var kept := Others(nodes, id);
      WithoutShorter(nodes, id);
      found := |kept| != |nodes|;
      nodes := kept;
      log := log + [Delete(id)];
    }

    /** Heal the records of the hosts a fan-out reached; save only if there was one. */
    method RefreshFromResults(seen: map<Id, Envelope>, now: int) returns (shown: map<Id, string>)
      requires Valid()
      modifies this
      ensures Valid() && log == old(log) + [Refresh(seen, now)]
      ensures |nodes| == |old(nodes)|
      ensures forall i :: 0 <= i < |nodes| ==> Healed(old(nodes)[i], nodes[i], seen, now)
      ensures forall id :: id in shown <==> ShowsNewType(old(nodes), seen, id)
      ensures forall id :: id in shown ==> id in seen && shown[id] == seen[id].typeAuto
    {
      var reg, dirty;
      reg, dirty, shown := RefreshEach(nodes, seen, now);
      forall i | 0 <= i < |nodes| ensures Healed(nodes[i], reg[i], seen, now) {
        RefreshedAt(nodes, seen, now, i);
      }
      forall id ensures id in shown <==> ShowsNewType(nodes, seen, id)
                ensures id in shown ==> id in seen && shown[id] == seen[id].typeAuto {
        ShownExactly(nodes, seen, id);
      }
      ReplayStep(log, Refresh(seen, now));
      hide Replay, RefreshAll, ShownTypes, Healed, ShowsNewType;
      if dirty {
        nodes := reg;
      }
      log := log + [Refresh(seen, now)];
    }

    /**
      * Resume every host whose window has passed; save only if there was one. Every other record stays as it is,
      * and the resumed hosts are named in the order of the list.
      */
    method ExpirePauses(now: int) returns (resumed: seq<string>)
      requires Valid()
      modifies this
      ensures Valid() && log == old(log) + [Resume(now)]
      ensures PausesEnded(old(nodes), nodes, now)
      ensures NamesChanged(old(nodes), nodes, resumed)
    {
      var reg;
      reg, resumed := ResumeEach(nodes, now);
      ResumeOutcome(nodes, now);
      hide ResumeAll, DueNames, PausesEnded, NamesChanged;
      if resumed != [] {
        nodes := reg;
      }
      log := log + [Resume(now)];
    }
  }

  function Replay(log: seq<Section>): seq<Node> {
    if log == [] then [] else Perform(Replay(log[..|log| - 1]), log[|log| - 1])
  }

  lemma ReplayStep(log: seq<Section>, s: Section)
    ensures Replay(log + [s]) == Perform(Replay(log), s)
  {
    hide Perform;
    assert (log + [s])[..|log|] == log;
  }

  method Others(nodes: seq<Node>, id: Id) returns (kept: seq<Node>)
    ensures kept == Without(nodes, id)
  {
    kept := [];
    for i := 0 to |nodes|
      invariant kept + Without(nodes[i..], id) == Without(nodes, id)
    {
      assert nodes[i..][1..] == nodes[i + 1..];
      assert Without(nodes[i..], id) == (if nodes[i].id == id then [] else [nodes[i]]) + Without(nodes[i + 1..], id);
      hide Without;
      if nodes[i].id != id {
        kept := kept + [nodes[i]];
      }
    }
  }

  lemma {:induction false} WithoutShorter(nodes: seq<Node>, id: Id)
    ensures |Without(nodes, id)| <= |nodes|
    ensures |Without(nodes, id)| == |nodes| <==> Lookup(nodes, id).None?
  {
    if nodes != [] {
      WithoutShorter(nodes[1..], id);
    }
  }

  lemma WriteStep(reg: seq<Node>, nodes: seq<Node>, i: nat, m: Node, tail: seq<Node>, whole: seq<Node>)
    requires i < |reg| == |nodes| && reg[i..] == nodes[i..] && reg[..i] + ([m] + tail) == whole
    ensures reg[i := m][..i + 1] + tail == whole && reg[i := m][i + 1..] == nodes[i + 1..]
  {
    assert reg[i := m][..i + 1] == reg[..i] + [m];
    assert reg[..i] + ([m] + tail) == (reg[..i] + [m]) + tail;
    assert reg[i := m][i + 1..] == reg[i..][1..];
  }

  /** dirty says whether some record was reached by the fan-out; shown collects the types its response shows. */
  method RefreshEach(nodes: seq<Node>, seen: map<Id, Envelope>, now: int)
    returns (reg: seq<Node>, dirty: bool, shown: map<Id, string>)
    ensures reg == RefreshAll(nodes, seen, now)
    ensures !dirty ==> reg == nodes
    ensures shown == ShownTypes(nodes, seen)
  {
    reg, dirty, shown := nodes, false, map[];
    for i := 0 to |reg|
      invariant |reg| == |nodes| && reg[i..] == nodes[i..]
      invariant reg[..i] + RefreshAll(nodes[i..], seen, now) == RefreshAll(nodes, seen, now)
      invariant !dirty ==> reg == nodes
      invariant shown == ShownTypes(nodes[..i], seen)
    {
      assert reg[i] == reg[i..][0] == nodes[i];
      var m := Refreshed(reg[i], seen, now);
      assert !(reg[i].id in seen && seen[reg[i].id].ok) ==> m == reg[i];
      RefreshStep(nodes, i, seen, now);
      ShownStep(nodes, i, seen);
      WriteStep(reg, nodes, i, m, RefreshAll(nodes[i + 1..], seen, now), RefreshAll(nodes, seen, now));
      hide RefreshAll, Refreshed, ShownTypes;
      if reg[i].id in seen && seen[reg[i].id].ok {
        dirty := true;
        if Reclassified(reg[i], seen) {
          shown := shown[reg[i].id := seen[reg[i].id].typeAuto];
        }
      }
      reg := reg[i := m];
    }
    assert reg[..|reg|] == reg && nodes[..|nodes|] == nodes;
  }

  lemma ShownStep(nodes: seq<Node>, i: nat, seen: map<Id, Envelope>)
    requires i < |nodes|
    ensures ShownTypes(nodes[..i + 1], seen)
         == if Reclassified(nodes[i], seen) then ShownTypes(nodes[..i], seen)[nodes[i].id := seen[nodes[i].id].typeAuto]
            else ShownTypes(nodes[..i], seen)
  {
    assert nodes[..i + 1][..i] == nodes[..i];
  }

  /** What the response shows is what the healed record shows. */
  lemma {:induction false} ShownIsStored(nodes: seq<Node>, seen: map<Id, Envelope>, now: int, id: Id)
    requires DistinctIds(nodes)
    ensures id in ShownTypes(nodes, seen) ==>
              && Lookup(RefreshAll(nodes, seen, now), id).Some?
              && Lookup(RefreshAll(nodes, seen, now), id).value.kind == ShownTypes(nodes, seen)[id]
  {
    LookupRefreshed(nodes, seen, now, id);
    ShownExactly(nodes, seen, id);
    LookupUnique(nodes, id);
    hide RefreshAll, ShownTypes, Lookup;
  }

  /** The response shows the new types of exactly the hosts that were classified and are not pinned. */
  lemma {:induction false} ShownExactly(nodes: seq<Node>, seen: map<Id, Envelope>, id: Id)
    ensures id in ShownTypes(nodes, seen) <==> ShowsNewType(nodes, seen, id)
    ensures id in ShownTypes(nodes, seen) ==> ShownTypes(nodes, seen)[id] == seen[id].typeAuto
  {
    if nodes != [] {
      var rest, last := nodes[..|nodes| - 1], nodes[|nodes| - 1];
      ShownExactly(rest, seen, id);
      assert forall n :: n in nodes <==> n in rest || n == last;
    }
  }

  lemma LookupUnique(nodes: seq<Node>, id: Id)
    requires DistinctIds(nodes)
    ensures forall n :: n in nodes && n.id == id ==> Lookup(nodes, id) == Some(n)
  {}

  lemma RefreshStep(nodes: seq<Node>, i: nat, seen: map<Id, Envelope>, now: int)
    requires i < |nodes|
    ensures RefreshAll(nodes[i..], seen, now)
         == [Refreshed(nodes[i], seen, now)] + RefreshAll(nodes[i + 1..], seen, now)
  {
    assert nodes[i..][1..] == nodes[i + 1..];
  }

  method ResumeEach(nodes: seq<Node>, now: int) returns (reg: seq<Node>, resumed: seq<string>)
    ensures reg == ResumeAll(nodes, now)
    ensures resumed == DueNames(nodes, now)
    ensures resumed == [] ==> reg == nodes
  {
    reg, resumed := nodes, [];
    for i := 0 to |reg|
      invariant |reg| == |nodes| && reg[i..] == nodes[i..]
      invariant reg[..i] + ResumeAll(nodes[i..], now) == ResumeAll(nodes, now)
      invariant resumed + DueNames(nodes[i..], now) == DueNames(nodes, now)
      invariant resumed == [] ==> reg == nodes
    {
      assert reg[i] == reg[i..][0] == nodes[i];
      ResumeStep(nodes, i, now);
      WriteStep(reg, nodes, i, Resumed(reg[i], now), ResumeAll(nodes[i + 1..], now), ResumeAll(nodes, now));
      AppendedNames(resumed, if Due(reg[i], now) then [Or(reg[i].name, reg[i].id)] else [],
                    DueNames(nodes[i + 1..], now));
      assert !Due(reg[i], now) ==> reg[i := Resumed(reg[i], now)] == reg;
      hide ResumeAll, DueNames;
      if Due(reg[i], now) {
        resumed := resumed + [Or(reg[i].name, reg[i].id)];
        reg := reg[i := reg[i].(disabled := false, disabledUntil := None)];
      }
    }
    assert reg[..|reg|] == reg;
  }

  lemma AppendedNames(a: seq<string>, b: seq<string>, c: seq<string>)
    ensures a + (b + c) == (a + b) + c && a + [] == a
  {}

  lemma ResumeStep(nodes: seq<Node>, i: nat, now: int)
    requires i < |nodes|
    ensures ResumeAll(nodes[i..], now) == [Resumed(nodes[i], now)] + ResumeAll(nodes[i + 1..], now)
    ensures DueNames(nodes[i..], now)
         == (if Due(nodes[i], now) then [Or(nodes[i].name, nodes[i].id)] else []) + DueNames(nodes[i + 1..], now)
  {
    assert nodes[i..][1..] == nodes[i + 1..];
  }

  method IndexOf(nodes: seq<Node>, id: Id) returns (i: nat)
    ensures i <= |nodes|
    ensures i < |nodes| ==> Lookup(nodes, id) == Some(nodes[i])
    ensures i == |nodes| ==> Lookup(nodes, id) == None
    ensures forall j :: 0 <= j < i ==> nodes[j].id != id
  {
    i := 0;
    while i < |nodes| && nodes[i].id != id
      invariant 0 <= i <= |nodes|
      invariant forall j :: 0 <= j < i ==> nodes[j].id != id
      invariant Lookup(nodes, id) == Lookup(nodes[i..], id)
    {
      assert nodes[i..][1..] == nodes[i + 1..];
      i := i + 1;
    }
  }

  lemma {:induction false} ReplaceAt(nodes: seq<Node>, i: nat, n: Node)
    requires i < |nodes| && nodes[i].id == n.id
    requires forall j :: 0 <= j < i ==> nodes[j].id != n.id
    ensures Replace(nodes, n) == nodes[i := n]
  {
    if i > 0 {
      ReplaceAt(nodes[1..], i - 1, n);
    }
  }
}
