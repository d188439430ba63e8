/** Snapshots of alertable conditions, their diff, and acknowledgements. */
module Monitoring {
  import opened Wrappers
  import Sorting

  type HostId = string
  type Key = string

  /** A condition on a host. */
  type Pair = (HostId, Key)

  datatype Severity = Critical | Warning | Info

  datatype Condition = Condition(severity: Severity, detail: string)

  /** One host's poll result. The conditions are what the host's data amounts to when it is monitored. */
  datatype Envelope = Envelope(id: HostId, name: Option<string>, disabled: bool, conditions: map<Key, Condition>)

  datatype Entry = Entry(name: string, conditions: map<Key, Condition>)

  type Snapshot = map<HostId, Entry>

  datatype Kind = Firing | Changed | Recovered

  datatype Event = Event(hostId: HostId, host: string, key: Key, kind: Kind, severity: Severity, detail: string)

  function PairOf(e: Event): Pair {
    (e.hostId, e.key)
  }

  /** A paused host reports nothing. */
  function HostConditions(r: Envelope): map<Key, Condition> {
    if r.disabled then map[] else r.conditions
  }

  /** Later results for the same id replace earlier ones; results without an id are skipped. */
  function SnapshotConditions(results: seq<Envelope>): Snapshot {
    if results == [] then
      map[]
    else
      var r := results[|results| - 1];
      var rest := SnapshotConditions(results[..|results| - 1]);
      if r.id == "" then rest
      else rest[r.id := Entry(if r.name.Some? then r.name.value else r.id, HostConditions(r))]
  }

  /** The (host, key) pairs of a snapshot. */
  function Pairs(snap: Snapshot): set<Pair> {
    set h, k | h in snap && k in snap[h].conditions :: (h, k)
  }

  function ConditionAt(snap: Snapshot, pk: Pair): Condition
    requires pk in Pairs(snap)
  {
    snap[pk.0].conditions[pk.1]
  }

  /** The (host, key) -> detail map of a snapshot. */
  function Details(snap: Snapshot): map<Pair, string> {
    map pk | pk in Pairs(snap) :: ConditionAt(snap, pk).detail
  }

  // ---- The pure diff ----

  /** The event of the diff for one pair, if any. Hosts missing from cur give no event. */
  function DiffEvent(prev: Snapshot, cur: Snapshot, pk: Pair): Option<Event> {
    if pk.0 !in cur then
      None
    else if pk in Pairs(cur) then
      var c := ConditionAt(cur, pk);
      if pk !in Pairs(prev) then
        Some(Event(pk.0, cur[pk.0].name, pk.1, Firing, c.severity, c.detail))
      else if ConditionAt(prev, pk).detail != c.detail then
        Some(Event(pk.0, cur[pk.0].name, pk.1, Changed, c.severity, c.detail))
      else
        None
    else if pk in Pairs(prev) then
      Some(Event(pk.0, cur[pk.0].name, pk.1, Recovered, ConditionAt(prev, pk).severity, ConditionAt(prev, pk).detail))
    else
      None
  }

  ghost predicate DistinctPairs(events: seq<Event>) {
    forall i, j :: 0 <= i < j < |events| ==> PairOf(events[i]) != PairOf(events[j])
  }

  /** events lists exactly the events of the diff, one for each pair that has one. */
  ghost predicate IsDiff(prev: Snapshot, cur: Snapshot, events: seq<Event>) {
    && DistinctPairs(events)
    && (forall e :: e in events ==> DiffEvent(prev, cur, PairOf(e)) == Some(e))
    && (forall pk :: DiffEvent(prev, cur, pk).Some? ==> DiffEvent(prev, cur, pk).value in events)
  }

  /** Kinds in the order firing, changed, recovered, and within a kind the worst severity first. */
  function Rank(e: Event): int {
    3 * (match e.kind case Firing => 0 case Changed => 1 case Recovered => 2)
    + (match e.severity case Critical => 0 case Warning => 1 case Info => 2)
  }

  predicate Ranked(events: seq<Event>) {
    Sorting.Ordered(events, Rank)
  }

  /** Firing before changed before recovered, and within a kind critical before warning before information. */
  lemma RankedMeans(events: seq<Event>)
    ensures Ranked(events) <==> forall i, j :: 0 <= i < j < |events| ==> !Precedes(events[j], events[i])
  {
    assert forall d: Event, e: Event :: Precedes(d, e) <==> Rank(d) < Rank(e);
  }

  predicate Precedes(d: Event, e: Event) {
    if d.kind == e.kind then
      d.severity != e.severity && (d.severity == Critical || e.severity == Info)
    else
      d.kind == Firing || e.kind == Recovered
  }

  lemma DistinctPermutation(s: seq<Event>, t: seq<Event>)
    requires DistinctPairs(s) && multiset(s) == multiset(t)
    ensures DistinctPairs(t)
  {
    forall i, j | 0 <= i < j < |t| ensures PairOf(t[i]) != PairOf(t[j]) {
      if PairOf(t[i]) == PairOf(t[j]) {
        assert t[i] in multiset(s) && t[j] in multiset(s);
        var a :| 0 <= a < |s| && s[a] == t[i];
        var b :| 0 <= b < |s| && s[b] == t[j];
        assert a == b;
        TwiceListed(t, i, j);
        OnceListed(s, a);
      }
    }
  }

  lemma TwiceListed(t: seq<Event>, i: nat, j: nat)
    requires i < j < |t| && t[i] == t[j]
    ensures multiset(t)[t[i]] >= 2
  {
    assert t == t[..j] + [t[j]] + t[j + 1..];
    assert t[..j][i] == t[i];
    assert t[i] in multiset(t[..j]);
  }

  lemma OnceListed(s: seq<Event>, a: nat)
    requires DistinctPairs(s) && a < |s|
    ensures multiset(s)[s[a]] == 1
  {
    assert s == s[..a] + [s[a]] + s[a + 1..];
    assert s[a] !in multiset(s[..a]) && s[a] !in multiset(s[a + 1..]);
  }

  function ConditionsOf(snap: Snapshot, h: HostId): map<Key, Condition> {
    if h in snap then snap[h].conditions else map[]
  }

  /** The diff of a host that is still there, key by key: firing is a key the host did not have, changed one that now
      has another text, recovered one it has no longer, under the host's current name. */
  lemma DiffExactly(prev: Snapshot, cur: Snapshot, events: seq<Event>, e: Event)
    requires IsDiff(prev, cur, events)
    ensures
      var was, now := ConditionsOf(prev, e.hostId), ConditionsOf(cur, e.hostId);
      e in events <==>
      && e.hostId in cur && e.host == cur[e.hostId].name
      && match e.kind
         case Firing => e.key !in was && e.key in now && now[e.key] == Condition(e.severity, e.detail)
         case Changed =>
           && e.key in was && e.key in now && was[e.key].detail != now[e.key].detail
           && now[e.key] == Condition(e.severity, e.detail)
         case Recovered => e.key in was && e.key !in now && was[e.key] == Condition(e.severity, e.detail)
  {
    var pk := PairOf(e);
    assert forall snap: Snapshot, p: Pair :: p in Pairs(snap) <==> p.0 in snap && p.1 in snap[p.0].conditions;
    assert e in events <==> DiffEvent(prev, cur, pk) == Some(e);
  }

  /** events lists exactly the diff's events for the pairs of s. */
  ghost predicate IsDiffOn(prev: Snapshot, cur: Snapshot, events: seq<Event>, s: set<Pair>) {
    && DistinctPairs(events)
    && (forall e :: e in events ==> PairOf(e) in s && DiffEvent(prev, cur, PairOf(e)) == Some(e))
    && (forall pk :: pk in s && DiffEvent(prev, cur, pk).Some? ==> DiffEvent(prev, cur, pk).value in events)
  }

  /** Treating one more pair. */
  lemma DiffExtend(prev: Snapshot, cur: Snapshot, events: seq<Event>, s: set<Pair>, pk: Pair, events': seq<Event>)
    requires IsDiffOn(prev, cur, events, s) && pk !in s
    requires events' == events + (if DiffEvent(prev, cur, pk).Some? then [DiffEvent(prev, cur, pk).value] else [])
    ensures IsDiffOn(prev, cur, events', s + {pk})
  {
    hide Pairs, ConditionAt;
  }

  /** Compares two snapshots, host by host and key by key. */
  method DiffSnapshots(prev: Snapshot, cur: Snapshot) returns (events: seq<Event>)
    ensures IsDiff(prev, cur, events) && Ranked(events)
  {
    events := [];
    var hosts := cur.Keys;
    ghost var done: set<Pair> := {};
    while hosts != {}
      invariant hosts <= cur.Keys
      invariant IsDiffOn(prev, cur, events, done)
      invariant forall pk :: pk in done <==> pk in Pairs(prev) + Pairs(cur) && pk.0 in cur.Keys - hosts
    {
      hide DiffEvent, DistinctPairs;
      var hid :| hid in hosts;
      events, done := DiffHost(prev, cur, hid, events, done);
      hosts := hosts - {hid};
    }
    ghost var unsorted := events;
    DiffComplete(prev, cur, events, done);
    Sorting.SortedBy(events, Rank);
    events := Sorting.SortBy(events, Rank);
    DistinctPermutation(unsorted, events);
    forall e ensures e in events <==> e in unsorted {
      assert e in events <==> e in multiset(events);
    }
  }

  lemma DiffComplete(prev: Snapshot, cur: Snapshot, events: seq<Event>, done: set<Pair>)
    requires IsDiffOn(prev, cur, events, done)
    requires forall pk :: pk in done <==> pk in Pairs(prev) + Pairs(cur) && pk.0 in cur
    ensures IsDiff(prev, cur, events)
  {}

  /** The events of one host: its current conditions first, then those that cleared. */
  method DiffHost(prev: Snapshot, cur: Snapshot, hid: HostId, before: seq<Event>, ghost done: set<Pair>)
    returns (events: seq<Event>, ghost treated: set<Pair>)
    requires hid in cur && IsDiffOn(prev, cur, before, done) && forall pk :: pk in done ==> pk.0 != hid
    ensures IsDiffOn(prev, cur, events, treated)
    ensures forall pk :: pk in treated <==> pk in done || (pk in Pairs(prev) + Pairs(cur) && pk.0 == hid)
  {
    hide DistinctPairs, IsDiffOn;
    events, treated := before, done;
    var name, cconds := cur[hid].name, cur[hid].conditions;
    var pconds := if hid in prev then prev[hid].conditions else map[];
    var keys := cconds.Keys;
    while keys != {}
      invariant keys <= cconds.Keys
      invariant IsDiffOn(prev, cur, events, treated)
      invariant forall pk :: pk in treated <==> pk in done || (pk.0 == hid && pk.1 in cconds.Keys - keys)
    {
      var key :| key in keys;
      var meta := cconds[key];
      ghost var shorter := events;
      if key !in pconds {
        events := events + [Event(hid, name, key, Firing, meta.severity, meta.detail)];
      } else if pconds[key].detail != meta.detail {
        events := events + [Event(hid, name, key, Changed, meta.severity, meta.detail)];
      }
      DiffExtend(prev, cur, shorter, treated, (hid, key), events);
      treated := treated + {(hid, key)};
      keys := keys - {key};
    }
    keys := pconds.Keys;
    while keys != {}
      invariant keys <= pconds.Keys
      invariant IsDiffOn(prev, cur, events, treated)
      invariant forall pk :: pk in treated <==>
                             pk in done || (pk.0 == hid && (pk.1 in cconds.Keys || pk.1 in pconds.Keys - keys))
    {
      var key :| key in keys;
      var meta := pconds[key];
      if key !in cconds {
        ghost var shorter := events;
        events := events + [Event(hid, name, key, Recovered, meta.severity, meta.detail)];
        DiffExtend(prev, cur, shorter, treated, (hid, key), events);
        treated := treated + {(hid, key)};
      }
      keys := keys - {key};
    }
  }

  // ---- The diff is a patch ----

  function Apply(m: map<Pair, string>, e: Event): map<Pair, string> {
    if e.kind == Recovered then m - {PairOf(e)} else m[PairOf(e) := e.detail]
  }

  function ApplyAll(m: map<Pair, string>, events: seq<Event>): map<Pair, string> {
    if events == [] then m else Apply(ApplyAll(m, events[..|events| - 1]), events[|events| - 1])
  }

  /** Where an event list with distinct pairs takes a pair, whatever the order of the list. */
  lemma {:induction false} ApplyLookup(m: map<Pair, string>, events: seq<Event>, pk: Pair)
    requires DistinctPairs(events)
    ensures (forall e :: e in events ==> PairOf(e) != pk) ==>
            (pk in ApplyAll(m, events) <==> pk in m) && (pk in m ==> ApplyAll(m, events)[pk] == m[pk])
    ensures forall e :: e in events && PairOf(e) == pk ==>
            (if e.kind == Recovered then pk !in ApplyAll(m, events)
             else pk in ApplyAll(m, events) && ApplyAll(m, events)[pk] == e.detail)
  {
    if events != [] {
      var rest, last := events[..|events| - 1], events[|events| - 1];
      ApplyLookup(m, rest, pk);
      forall e | e in events && PairOf(e) == pk ensures e == last || PairOf(last) != pk {
        var i :| 0 <= i < |events| && events[i] == e;
        if i < |events| - 1 { assert PairOf(events[i]) != PairOf(last); }
      }
      assert forall e :: e in rest ==> e in events;
    }
  }

  function Restrict(m: map<Pair, string>, hosts: set<HostId>): map<Pair, string> {
    map pk | pk in m && pk.0 in hosts :: m[pk]
  }

  /** Applying the diff's events, in any order, to the previous details of the hosts that are still
      there gives the current details. */
  lemma DiffIsPatch(prev: Snapshot, cur: Snapshot, events: seq<Event>)
    requires IsDiff(prev, cur, events)
    ensures ApplyAll(Restrict(Details(prev), cur.Keys), events) == Details(cur)
  {
    var m := Restrict(Details(prev), cur.Keys);
    var after := ApplyAll(m, events);
    forall pk
      ensures pk in after <==> pk in Details(cur)
      ensures pk in after ==> after[pk] == Details(cur)[pk]
    {
      ApplyLookup(m, events, pk);
      if e :| e in events && PairOf(e) == pk {
        assert DiffEvent(prev, cur, pk) == Some(e);
      } else {
        assert DiffEvent(prev, cur, pk).None?;
      }
    }
  }

  // ---- Acknowledgements ----

  datatype Ack = Ack(author: string, note: string, ts: int, until: Option<int>)

  function AckKey(h: HostId, k: Key): string {
    h + "|" + k
  }

  /** Condition keys hold no '|', so an acknowledgement names one pair. */
  lemma {:induction false} AckKeyInjective(h: HostId, k: Key, h': HostId, k': Key)
    requires '|' !in k && '|' !in k' && AckKey(h, k) == AckKey(h', k')
    ensures h == h' && k == k'
  {
    var s := AckKey(h, k);
    assert s[|h|] == '|' && s[|h'|] == '|';
    AfterSeparator(h, k);
    AfterSeparator(h', k');
    assert h == s[..|h|] && h' == s[..|h'|];
    assert k == s[|h| + 1..] && k' == s[|h'| + 1..];
  }

  lemma AfterSeparator(h: HostId, k: Key)
    requires '|' !in k
    ensures forall n :: |h| < n < |AckKey(h, k)| ==> AckKey(h, k)[n] != '|'
  {
    forall n | |h| < n < |AckKey(h, k)| ensures AckKey(h, k)[n] != '|' {
      assert AckKey(h, k)[n] == k[n - |h| - 1];
    }
  }

  /** An acknowledgement without an end, or whose end is still ahead. */
  predicate Running(a: Ack, now: real) {
    a.until.None? || a.until.value as real > now
  }

  /** The acknowledgements that prune_acks keeps. */
  function Kept(acks: map<string, Ack>, present: set<string>, now: real): map<string, Ack> {
    map k | k in acks && k in present && Running(acks[k], now) :: acks[k]
  }

  datatype Health = Health(key: Key, severity: Severity, detail: string)

  predicate Quiet(acks: map<string, Ack>, h: HostId, key: Key, now: real) {
    AckKey(h, key) in acks && Running(acks[AckKey(h, key)], now)
  }

  function Filter(entries: seq<Health>, quiet: bool, acks: map<string, Ack>, h: HostId, now: real): seq<Health> {
    if entries == [] then []
    else
      var rest, last := Filter(entries[..|entries| - 1], quiet, acks, h, now), entries[|entries| - 1];
      if Quiet(acks, h, last.key, now) == quiet then rest + [last] else rest
  }

  /** Entry by entry and in order, on the side that its acknowledgement puts it. */
  lemma {:induction false} FilterConcat(a: seq<Health>, b: seq<Health>, quiet: bool, acks: map<string, Ack>, h: HostId,
                                        now: real)
    ensures Filter(a + b, quiet, acks, h, now) == Filter(a, quiet, acks, h, now) + Filter(b, quiet, acks, h, now)
  {
    if b == [] {
      assert a + b == a;
    } else {
      assert (a + b)[..|a + b| - 1] == a + b[..|b| - 1];
      FilterConcat(a, b[..|b| - 1], quiet, acks, h, now);
    }
  }

  lemma FilterOne(e: Health, quiet: bool, acks: map<string, Ack>, h: HostId, now: real)
    ensures
      var key := h + "|" + e.key;
      var running := key in acks && (acks[key].until == None || now < acks[key].until.value as real);
      Filter([e], quiet, acks, h, now) == if running == quiet then [e] else []
  {
    assert [e][..0] == [];
  }

  /** Splits a host's health entries into live and acknowledged ones, keeping the order. */
  method SplitAcked(entries: seq<Health>, acks: map<string, Ack>, h: HostId, now: real)
    returns (live: seq<Health>, acked: seq<(Health, Ack)>)
    ensures live == Filter(entries, false, acks, h, now)
    ensures |acked| == |Filter(entries, true, acks, h, now)|
    ensures forall i :: 0 <= i < |acked| ==>
            acked[i].0 == Filter(entries, true, acks, h, now)[i]
            && AckKey(h, acked[i].0.key) in acks && acked[i].1 == acks[AckKey(h, acked[i].0.key)]
  {
    live, acked := [], [];
    for i := 0 to |entries|
      invariant live == Filter(entries[..i], false, acks, h, now)
      invariant |acked| == |Filter(entries[..i], true, acks, h, now)|
      invariant forall j :: 0 <= j < |acked| ==>
                acked[j].0 == Filter(entries[..i], true, acks, h, now)[j]
                && AckKey(h, acked[j].0.key) in acks && acked[j].1 == acks[AckKey(h, acked[j].0.key)]
    {
      var e := entries[i];
      assert entries[..i + 1][..i] == entries[..i];
      var k := AckKey(h, e.key);
      if k in acks && (acks[k].until.None? || acks[k].until.value as real > now) {
        acked := acked + [(e, acks[k])];
      } else {
        live := live + [e];
      }
    }
    assert entries[..|entries|] == entries;
  }

  /** The stored acknowledgements, pruned in place. */
  class AckStore {
    var acks: map<string, Ack>

    constructor ()
      ensures acks == map[]
    {
      acks := map[];
    }

    method PruneAcks(present: set<string>, now: real) returns (gone: set<string>)
      modifies this
      ensures acks == Kept(old(acks), present, now)
      ensures gone == old(acks).Keys - acks.Keys
      ensures forall k :: k in acks <==>
              k in old(acks) && k in present && (old(acks)[k].until == None || now < old(acks)[k].until.value as real)
      ensures forall k :: k in acks ==> acks[k] == old(acks)[k]
    {
      gone := set k | k in acks && (k !in present || (acks[k].until.Some? && acks[k].until.value as real <= now));
      var todo := gone;
      while todo != {}
        invariant todo <= gone
        invariant acks == old(acks) - (gone - todo)
      {
        var k :| k in todo;
        acks := acks - {k};
        todo := todo - {k};
        assert old(acks) - (gone - todo) == old(acks) - (gone - todo - {k}) - {k};
      }
    }
  }

  /** For one clock, the entries that split_acked hides are those whose acknowledgement prune_acks keeps. */
  lemma {:induction false} HiddenIffKept(entries: seq<Health>, acks: map<string, Ack>, h: HostId, present: set<string>,
                                         now: real, e: Health)
    requires forall x :: x in entries ==> AckKey(h, x.key) in present
    ensures e in Filter(entries, true, acks, h, now) <==> e in entries && AckKey(h, e.key) in Kept(acks, present, now)
    ensures e in Filter(entries, false, acks, h, now) <==> e in entries && AckKey(h, e.key) !in Kept(acks, present, now)
  {
    if entries != [] {
      var rest, last := entries[..|entries| - 1], entries[|entries| - 1];
      assert entries == rest + [last];
      HiddenIffKept(rest, acks, h, present, now, e);
    }
  }

  /** The store after a run of cycles, each pruning with its own present set and clock. */
  function KeptOver(acks: map<string, Ack>, cycles: seq<(set<string>, real)>): map<string, Ack> {
    if cycles == [] then acks
    else
      var last := cycles[|cycles| - 1];
      Kept(KeptOver(acks, cycles[..|cycles| - 1]), last.0, last.1)
  }

  /** An acknowledgement lasts exactly as long as its condition is present and its end has not come. */
  lemma {:induction false} AckLifetime(acks: map<string, Ack>, cycles: seq<(set<string>, real)>, k: string)
    requires k in acks
    ensures k in KeptOver(acks, cycles) <==>
            forall c :: c in cycles ==> k in c.0 && (acks[k].until == None || c.1 < acks[k].until.value as real)
    ensures k in KeptOver(acks, cycles) ==> KeptOver(acks, cycles)[k] == acks[k]
  {
    if cycles != [] {
      var rest, last := cycles[..|cycles| - 1], cycles[|cycles| - 1];
      assert cycles == rest + [last];
      AckLifetime(acks, rest, k);
      assert forall c :: c in cycles <==> c in rest || c == last;
    }
  }
}
