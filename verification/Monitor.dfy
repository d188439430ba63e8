/** The alert monitor: one cycle of the notifier, proved against a step on its running state. */
module Monitor {
  import opened Wrappers
  import opened Monitoring

  /** What the notifier remembers between cycles. */
  datatype State = State(
    streak: map<Pair, nat>,       // consecutive cycles a condition has been present
    active: set<Pair>,            // conditions reported as firing
    lastFire: map<Pair, real>,    // when each was last reported
    detail: map<Pair, string>,    // the text last reported for each active condition
    seeded: bool)

  const INITIAL := State(map[], {}, map[], map[], false)

  /** What one cycle sees: the snapshot, the acknowledged pairs, the paused hosts, the clock and the threshold. */
  datatype Frame = Frame(snap: Snapshot, acked: set<Pair>, paused: set<HostId>, now: real, flap: int)

  /** The conditions the notifier tracks: present and not acknowledged. */
  function Present(f: Frame): set<Pair> {
    Pairs(f.snap) - f.acked
  }

  /** Pairs dropped from tracking without an event: paused or removed host, or acknowledged. */
  predicate Gone(f: Frame, pk: Pair) {
    pk.0 in f.paused || pk.0 !in f.snap || pk in f.acked
  }

  function Since(m: map<Pair, real>, pk: Pair): real {
    if pk in m then m[pk] else 0.0
  }

  function Count(m: map<Pair, nat>, pk: Pair): nat {
    if pk in m then m[pk] else 0
  }

  function Text(m: map<Pair, string>, pk: Pair): Option<string> {
    if pk in m then Some(m[pk]) else None
  }

  function Stamp(m: map<Pair, real>, s: set<Pair>, now: real): map<Pair, real> {
    m + (map pk | pk in s :: now)
  }

  /** The current texts of the pairs of s replace those of m. */
  function Retext(m: map<Pair, string>, s: set<Pair>, snap: Snapshot): map<Pair, string>
    requires s <= Pairs(snap)
  {
    m + (map pk | pk in s :: ConditionAt(snap, pk).detail)
  }

  // ---- The step, pair by pair ----

  /** After the silent drops. */
  function DropGone(st: State, f: Frame): State {
    var dropped := set pk | pk in st.active && Gone(f, pk);
    st.(active := st.active - dropped,
        detail := st.detail - dropped,
        lastFire := st.lastFire - dropped,
        streak := map pk | pk in st.streak && !Gone(f, pk) :: st.streak[pk])
  }

  /** Streaks of present pairs advance, others end. */
  function Advance(streak: map<Pair, nat>, present: set<Pair>): map<Pair, nat> {
    map pk | pk in present :: Count(streak, pk) + 1
  }

  /** st is the state after drops and streaks: is pk, present in f, reported now? */
  predicate Speaks(st: State, f: Frame, cooldown: real, pk: Pair)
    requires pk in Present(f)
  {
    && !(pk in st.active && Text(st.detail, pk) == Some(ConditionAt(f.snap, pk).detail))
    && Count(st.streak, pk) >= f.flap
    && f.now - Since(st.lastFire, pk) >= cooldown
  }

  function Reported(st: State, f: Frame, cooldown: real): set<Pair> {
    set pk | pk in Present(f) && Speaks(st, f, cooldown, pk)
  }

  function Ready(st: State, f: Frame): State {
    var d := DropGone(st, f);
    d.(streak := Advance(d.streak, Present(f)))
  }

  /** The first cycle adopts the current conditions silently. */
  function Seed(st: State, f: Frame): State {
    st.(active := Present(f),
        lastFire := Stamp(st.lastFire, Present(f), f.now),
        detail := Retext(st.detail, Present(f), f.snap),
        seeded := true)
  }

  /** The state after one cycle. */
  function Step(st: State, f: Frame, cooldown: real): State {
    var r := Ready(st, f);
    if !r.seeded then
      Seed(r, f)
    else
      var fired := Reported(r, f, cooldown);
      r.(active := (r.active + fired) * Present(f),
         lastFire := Stamp(r.lastFire, fired, f.now),
         detail := Retext(r.detail, fired, f.snap) - (r.active - Present(f)))
  }

  /** The event one cycle emits for a pair, if any. A recovery carries the text that cleared. */
  function EventAt(st: State, f: Frame, cooldown: real, pk: Pair): Option<Event> {
    var r := Ready(st, f);
    if !r.seeded then
      None
    else if pk in Present(f) then
      if Speaks(r, f, cooldown, pk) then
        var c := ConditionAt(f.snap, pk);
        Some(Event(pk.0, f.snap[pk.0].name, pk.1, if pk in r.active then Changed else Firing, c.severity, c.detail))
      else
        None
    else if pk in r.active then
      Some(Event(pk.0, if pk.0 in f.snap then f.snap[pk.0].name else pk.0, pk.1, Recovered, Info,
                 if pk in r.detail then r.detail[pk] else ""))
    else
      None
  }

  /** events lists exactly what a cycle emits, one event for each pair that has one. */
  ghost predicate IsReport(st: State, f: Frame, cooldown: real, events: seq<Event>) {
    && DistinctPairs(events)
    && (forall e :: e in events ==> EventAt(st, f, cooldown, PairOf(e)) == Some(e))
    && (forall pk :: EventAt(st, f, cooldown, pk).Some? ==> EventAt(st, f, cooldown, pk).value in events)
  }

  /** The recoveries come after everything else. */
  predicate RecoveriesLast(events: seq<Event>) {
    forall i, j :: 0 <= i < j < |events| && events[i].kind.Recovered? ==> events[j].kind.Recovered?
  }

  /** The same, restricted to the pairs of s. */
  ghost predicate IsReportOn(st: State, f: Frame, cooldown: real, events: seq<Event>, s: set<Pair>) {
    && DistinctPairs(events)
    && (forall e :: e in events ==> PairOf(e) in s && EventAt(st, f, cooldown, PairOf(e)) == Some(e))
    && (forall pk :: pk in s && EventAt(st, f, cooldown, pk).Some? ==> EventAt(st, f, cooldown, pk).value in events)
  }

  lemma ReportExtend(st: State, f: Frame, cooldown: real, events: seq<Event>, s: set<Pair>, pk: Pair)
    requires IsReportOn(st, f, cooldown, events, s) && pk !in s
    ensures EventAt(st, f, cooldown, pk).None? ==> IsReportOn(st, f, cooldown, events, s + {pk})
    ensures EventAt(st, f, cooldown, pk).Some? ==>
            IsReportOn(st, f, cooldown, events + [EventAt(st, f, cooldown, pk).value], s + {pk})
  {
    assert forall e :: EventAt(st, f, cooldown, pk) == Some(e) ==> PairOf(e) == pk;
    hide EventAt;
  }

  /** What a cycle sees of a poll, the stored acknowledgements and the clocks. */
  function FrameOf(results: seq<Envelope>, acks: map<string, Ack>, ackNow: real, now: real, flap: int): Frame {
    var snap := SnapshotConditions(results);
    var kept := Kept(acks, AckKeys(snap), ackNow);
    Frame(snap,
          set pk | pk in Pairs(snap) && AckKey(pk.0, pk.1) in kept,
          set r | r in results && r.disabled :: r.id,
          now, flap)
  }

  function AckKeys(snap: Snapshot): set<string> {
    set pk | pk in Pairs(snap) :: AckKey(pk.0, pk.1)
  }

  /** The notifier's running state. */
  class Notifier {
    var streak: map<Pair, nat>
    var active: set<Pair>
    var lastFire: map<Pair, real>
    var detail: map<Pair, string>
    var seeded: bool
    const cooldown: real

    constructor (cooldown: real)
      ensures Abs() == INITIAL && this.cooldown == cooldown
    {
      streak, active, lastFire, detail, seeded := map[], {}, map[], map[], false;
      this.cooldown := cooldown;
    }

    ghost function Abs(): State
      reads this
    {
      State(streak, active, lastFire, detail, seeded)
    }

    /** Forgets the reports of paused, removed and acknowledged pairs, without an event. */
    method DropReports(f: Frame)
      modifies this`active, this`detail, this`lastFire
      ensures var dropped := set pk | pk in old(active) && Gone(f, pk);
              && active == old(active) - dropped
              && detail == old(detail) - dropped
              && lastFire == old(lastFire) - dropped
    {
      ghost var before := Abs();
      var dropped := set pk | pk in active && Gone(f, pk);
      var todo := dropped;
      while todo != {}
        invariant todo <= dropped
        invariant active == before.active - (dropped - todo)
        invariant detail == before.detail - (dropped - todo)
        invariant lastFire == before.lastFire - (dropped - todo)
      {
        var pk :| pk in todo;
        assert dropped - (todo - {pk}) == (dropped - todo) + {pk};
        active := active - {pk};
        detail := detail - {pk};
        lastFire := lastFire - {pk};
        todo := todo - {pk};
      }
      assert dropped - todo == dropped;
    }

    /** Forgets the streaks of the same pairs. */
    method DropStreaks(f: Frame)
      modifies this`streak
      ensures streak == map pk | pk in old(streak) && !Gone(f, pk) :: old(streak)[pk]
    {
      hide Gone;
      ghost var before := streak;
      var dropped := set pk | pk in streak && Gone(f, pk);
      var todo := dropped;
      while todo != {}
        invariant todo <= dropped
        invariant streak == before - (dropped - todo)
      {
        var pk :| pk in todo;
        assert dropped - (todo - {pk}) == (dropped - todo) + {pk};
        streak := streak - {pk};
        todo := todo - {pk};
      }
      assert dropped - todo == dropped;
    }

    /** Advances the streaks of present pairs and ends the others. */
    method AdvanceStreaks(present: set<Pair>)
      modifies this`streak
      ensures streak == Advance(old(streak), present)
    {
      ghost var before := streak;
      var todo := present;
      while todo != {}
        invariant todo <= present
        invariant streak.Keys == before.Keys + (present - todo)
        invariant forall pk :: pk in streak ==>
                  streak[pk] == if pk in present - todo then Count(before, pk) + 1 else before[pk]
      {
        var pk :| pk in todo;
        streak := streak[pk := Count(streak, pk) + 1];
        todo := todo - {pk};
      }
      todo := streak.Keys - present;
      while todo != {}
        invariant todo == streak.Keys - present && present <= streak.Keys
        invariant forall pk :: pk in present ==> streak[pk] == Count(before, pk) + 1
      {
        var pk :| pk in todo;
        streak := streak - {pk};
        todo := todo - {pk};
      }
      assert streak.Keys == present;
    }

    /** The first cycle adopts what is present, silently. */
    method Adopt(f: Frame)
      modifies this`active, this`lastFire, this`detail, this`seeded
      ensures Abs() == Seed(old(Abs()), f)
    {
      hide Pairs, ConditionAt, Stamp, Retext;
      ghost var before := Abs();
      var present := Present(f);
      active := present;
      var todo := present;
      StampNone(before, f);
      assert present - todo == {};
      while todo != {}
        invariant todo <= present && active == present && seeded == before.seeded
        invariant lastFire == Stamp(before.lastFire, present - todo, f.now)
        invariant detail == Retext(before.detail, present - todo, f.snap)
      {
        var pk :| pk in todo;
        StampedElsewhere(before.lastFire, present - todo, f.now, pk);
        RetextedElsewhere(before.detail, present - todo, f.snap, pk);
        assert present - (todo - {pk}) == present - todo + {pk};
        lastFire := lastFire[pk := f.now];
        detail := detail[pk := ConditionAt(f.snap, pk).detail];
        todo := todo - {pk};
      }
      assert present - todo == present;
      seeded := true;
    }

    /** Reports every present pair that is stable, out of its cooldown, and new or changed. */
    method Fire(f: Frame, ghost st: State) returns (events: seq<Event>)
      requires st.seeded && Abs() == Ready(st, f)
      modifies this`active, this`lastFire, this`detail
      ensures var r, fired := Ready(st, f), Reported(Ready(st, f), f, cooldown);
              && active == r.active + fired
              && lastFire == Stamp(r.lastFire, fired, f.now)
              && detail == Retext(r.detail, fired, f.snap)
      ensures IsReportOn(st, f, cooldown, events, Present(f))
      ensures forall e :: e in events ==> !e.kind.Recovered?
    {
      hide Ready, IsReportOn, ConditionAt, Pairs, Stamp, Retext, Speaks, EventAt;
      events := [];
      ghost var r := Ready(st, f);
      ghost var fired := Reported(r, f, cooldown);
      var present := Present(f);
      var todo := present;
      NothingReported(st, f, cooldown);
      StampNone(r, f);
      assert present - todo == {} && fired - todo == {};
      while todo != {}
        invariant todo <= present
        invariant active == r.active + (fired - todo)
        invariant lastFire == Stamp(r.lastFire, fired - todo, f.now)
        invariant detail == Retext(r.detail, fired - todo, f.snap)
        invariant IsReportOn(st, f, cooldown, events, present - todo)
        invariant forall e :: e in events ==> !e.kind.Recovered?
      {
        var pk :| pk in todo;
        ghost var rest := todo - {pk};
        var meta := ConditionAt(f.snap, pk);
        StampedElsewhere(r.lastFire, fired - todo, f.now, pk);
        RetextedElsewhere(r.detail, fired - todo, f.snap, pk);
        ReportExtend(st, f, cooldown, events, present - todo, pk);
        SpeaksMeans(st, f, cooldown, pk);
        assert present - rest == present - todo + {pk};
        assert fired - rest == if pk in fired then fired - todo + {pk} else fired - todo;
        var wasActive := pk in active;
        if wasActive && Text(detail, pk) == Some(meta.detail) {
        } else if Count(streak, pk) < f.flap {
        } else if f.now - Since(lastFire, pk) < cooldown {
        } else {
          events := events + [Event(pk.0, f.snap[pk.0].name, pk.1, if wasActive then Changed else Firing,
                                    meta.severity, meta.detail)];
          active := active + {pk};
          detail := detail[pk := meta.detail];
          lastFire := lastFire[pk := f.now];
        }
        todo := todo - {pk};
      }
      assert present - todo == present && fired - todo == fired;
    }

    /** Reports every active pair that is no longer present. */
    method Recover(f: Frame, ghost st: State, fires: seq<Event>) returns (events: seq<Event>)
      requires st.seeded && IsReportOn(st, f, cooldown, fires, Present(f))
      requires var r := Ready(st, f);
               && active - Present(f) == r.active - Present(f)
               && forall pk :: pk in r.active - Present(f) ==> Text(detail, pk) == Text(r.detail, pk)
      modifies this`active, this`detail
      ensures active == old(active) * Present(f)
      ensures detail == old(detail) - (old(active) - Present(f))
      ensures IsReport(st, f, cooldown, fires + events)
      ensures forall e :: e in events ==> e.kind.Recovered?
    {
      hide Ready, IsReportOn, ConditionAt, Pairs, EventAt;
      events := [];
      ghost var before, texts := active, detail;
      var present := Present(f);
      var gone := active - present;
      var todo := gone;
      assert present + (gone - todo) == present && fires + events == fires;
      while todo != {}
        invariant todo <= gone && present == Present(f)
        invariant active == before - (gone - todo)
        invariant detail == texts - (gone - todo)
        invariant IsReportOn(st, f, cooldown, fires + events, present + (gone - todo))
        invariant forall e :: e in events ==> e.kind.Recovered?
      {
        var pk :| pk in todo;
        RecoveryMeans(st, f, cooldown, pk);
        ReportExtend(st, f, cooldown, fires + events, present + (gone - todo), pk);
        assert gone - (todo - {pk}) == gone - todo + {pk};
        assert present + (gone - todo) + {pk} == present + (gone - (todo - {pk}));
        var name := if pk.0 in f.snap then f.snap[pk.0].name else pk.0;
        var e := Event(pk.0, name, pk.1, Recovered, Info, if pk in detail then detail[pk] else "");
        assert fires + events + [e] == fires + (events + [e]);
        events := events + [e];
        detail := detail - {pk};
        active := active - {pk};
        todo := todo - {pk};
      }
      assert gone - todo == gone;
      ReportComplete(st, f, cooldown, fires + events, present + gone);
    }

    /** Silent drops, then streaks. */
    method Track(f: Frame)
      modifies this`active, this`detail, this`lastFire, this`streak
      ensures Abs() == Ready(old(Abs()), f)
    {
      hide Advance, Pairs;
      DropReports(f);
      DropStreaks(f);
      AdvanceStreaks(Present(f));
    }

    /** After the drops and streaks: adopt silently the first time, then report. */
    method Settle(f: Frame, ghost st: State) returns (events: seq<Event>)
      requires Abs() == Ready(st, f)
      modifies this
      ensures Abs() == Step(st, f, cooldown)
      ensures IsReport(st, f, cooldown, events) && RecoveriesLast(events)
    {
      hide IsReport, IsReportOn, Pairs, ConditionAt, Stamp, Retext, Reported, Advance;
      assert Ready(st, f).seeded == st.seeded;
      events := [];
      if !seeded {
        Adopt(f);
        NothingSeeding(st, f, cooldown);
        return;
      }
      StepActive(Ready(st, f), f, cooldown);
      hide Ready;
      var fires := Fire(f, st);
      var recoveries := Recover(f, st, fires);
      events := fires + recoveries;
    }

    /** One monitor cycle: prunes the acknowledgements, then takes the step and reports its events. */
    method Cycle(results: seq<Envelope>, store: AckStore, ackNow: real, now: real, flap: int)
      returns (events: seq<Event>)
      modifies this, store
      ensures store.acks == Kept(old(store.acks), AckKeys(SnapshotConditions(results)), ackNow)
      ensures
        var f := FrameOf(results, old(store.acks), ackNow, now, flap);
        Abs() == Step(old(Abs()), f, cooldown) && IsReport(old(Abs()), f, cooldown, events)
      ensures forall i, j :: 0 <= i < j < |events| && events[i].kind == Recovered ==> events[j].kind == Recovered
    {
      hide IsReport, Step, Ready, Pairs;
      ghost var st := Abs();
      var snap := SnapshotConditions(results);
      var gone := store.PruneAcks(AckKeys(snap), ackNow);
      var f := Frame(snap, set pk | pk in Pairs(snap) && AckKey(pk.0, pk.1) in store.acks,
                     set r | r in results && r.disabled :: r.id, now, flap);
      Track(f);
      events := Settle(f, st);
    }
  }

  lemma NothingSeeding(st: State, f: Frame, cooldown: real)
    requires !st.seeded
    ensures IsReport(st, f, cooldown, [])
  {}

  lemma NothingReported(st: State, f: Frame, cooldown: real)
    ensures IsReportOn(st, f, cooldown, [], {})
  {}

  lemma StampNone(r: State, f: Frame)
    ensures Stamp(r.lastFire, {}, f.now) == r.lastFire && Retext(r.detail, {}, f.snap) == r.detail
  {}

  /** A pair outside s keeps its stamp, and can be stamped next. */
  lemma StampedElsewhere(m: map<Pair, real>, s: set<Pair>, now: real, pk: Pair)
    requires pk !in s
    ensures Since(Stamp(m, s, now), pk) == Since(m, pk)
    ensures Stamp(m, s, now)[pk := now] == Stamp(m, s + {pk}, now)
  {}

  lemma RetextedElsewhere(m: map<Pair, string>, s: set<Pair>, snap: Snapshot, pk: Pair)
    requires pk !in s && s <= Pairs(snap) && pk in Pairs(snap)
    ensures Text(Retext(m, s, snap), pk) == Text(m, pk)
    ensures Retext(m, s, snap)[pk := ConditionAt(snap, pk).detail] == Retext(m, s + {pk}, snap)
  {
    hide Pairs, ConditionAt;
  }

  lemma SpeaksMeans(st: State, f: Frame, cooldown: real, pk: Pair)
    requires st.seeded && pk in Present(f)
    ensures pk.0 in f.snap
    ensures var r, c := Ready(st, f), ConditionAt(f.snap, pk);
            && (pk in Reported(r, f, cooldown) <==>
                !(pk in r.active && Text(r.detail, pk) == Some(c.detail))
                && Count(r.streak, pk) >= f.flap && f.now - Since(r.lastFire, pk) >= cooldown)
            && EventAt(st, f, cooldown, pk) ==
               if pk in Reported(r, f, cooldown)
               then Some(Event(pk.0, f.snap[pk.0].name, pk.1, if pk in r.active then Changed else Firing,
                               c.severity, c.detail))
               else None
  {}

  lemma RecoveryMeans(st: State, f: Frame, cooldown: real, pk: Pair)
    requires st.seeded && pk !in Present(f) && pk in Ready(st, f).active
    ensures EventAt(st, f, cooldown, pk)
         == Some(Event(pk.0, if pk.0 in f.snap then f.snap[pk.0].name else pk.0, pk.1, Recovered, Info,
                       if Text(Ready(st, f).detail, pk).Some? then Text(Ready(st, f).detail, pk).value else ""))
  {}

  lemma ReportComplete(st: State, f: Frame, cooldown: real, events: seq<Event>, s: set<Pair>)
    requires st.seeded && IsReportOn(st, f, cooldown, events, s)
    requires s == Present(f) + (Ready(st, f).active - Present(f))
    ensures IsReport(st, f, cooldown, events)
  {
    forall pk | pk !in s ensures EventAt(st, f, cooldown, pk).None? {}
    hide EventAt;
  }

  lemma StepActive(r: State, f: Frame, cooldown: real)
    ensures r.active + Reported(r, f, cooldown) - Present(f) == r.active - Present(f)
    ensures forall pk :: pk !in Present(f) ==>
            Text(Retext(r.detail, Reported(r, f, cooldown), f.snap), pk) == Text(r.detail, pk)
  {}
}
