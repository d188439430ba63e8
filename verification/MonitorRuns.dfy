/** What every run of the alert monitor keeps. A run is the sequence of frames its cycles saw. */
module MonitorRuns {
  import opened Wrappers
  import opened Monitoring
  import opened Monitor

  function StateAfter(run: seq<Frame>, cooldown: real): State {
    if run == [] then INITIAL
    else Step(StateAfter(run[..|run| - 1], cooldown), run[|run| - 1], cooldown)
  }

  /** The event emitted for pk in cycle i of the run. */
  function EventIn(run: seq<Frame>, cooldown: real, i: nat, pk: Pair): Option<Event>
    requires i < |run|
  {
    EventAt(StateAfter(run[..i], cooldown), run[i], cooldown, pk)
  }

  /** A report of something that is the case: firing or changed. */
  predicate Alert(e: Option<Event>) {
    e.Some? && e.value.kind != Recovered
  }

  lemma PrefixOf(run: seq<Frame>, i: nat)
    requires 0 < i <= |run|
    ensures run[..i][..i - 1] == run[..i - 1] && run[..i][i - 1] == run[i - 1]
  {}

  lemma AfterPrefix(run: seq<Frame>, cooldown: real, i: nat)
    requires i < |run|
    ensures StateAfter(run[..i + 1], cooldown) == Step(StateAfter(run[..i], cooldown), run[i], cooldown)
  {
    PrefixOf(run, i + 1);
  }

  // ---- State invariants ----

  /** The coupling of the four maps. */
  ghost predicate Coupled(st: State) {
    && st.detail.Keys == st.active
    && st.active <= st.lastFire.Keys
    && (!st.seeded ==> st == INITIAL)
  }

  /** Every step keeps the coupling, and what is active is present and has a streak. */
  lemma StepCoupled(st: State, f: Frame, cooldown: real)
    requires Coupled(st)
    ensures Coupled(Step(st, f, cooldown)) && Step(st, f, cooldown).seeded
    ensures Step(st, f, cooldown).active <= Present(f)
    ensures Step(st, f, cooldown).streak.Keys == Present(f)
  {
    hide Pairs, ConditionAt, Speaks, Gone;
  }

  lemma {:induction false} RunCoupled(run: seq<Frame>, cooldown: real)
    ensures Coupled(StateAfter(run, cooldown))
    ensures StateAfter(run, cooldown).seeded <==> run != []
    ensures run != [] ==> StateAfter(run, cooldown).active <= Present(run[|run| - 1])
  {
    if run != [] {
      RunCoupled(run[..|run| - 1], cooldown);
      StepCoupled(StateAfter(run[..|run| - 1], cooldown), run[|run| - 1], cooldown);
    }
  }

  // ---- Debounce ----

  /** The length of the current unbroken run of cycles in which pk was tracked. A paused host's
      earlier cycles do not count. */
  function Unbroken(run: seq<Frame>, pk: Pair): nat {
    if run == [] then 0
    else
      var f := run[|run| - 1];
      if pk !in Present(f) then 0
      else if Gone(f, pk) then 1
      else Unbroken(run[..|run| - 1], pk) + 1
  }

  lemma StepStreak(st: State, f: Frame, cooldown: real, pk: Pair)
    ensures Count(Step(st, f, cooldown).streak, pk)
         == if pk !in Present(f) then 0 else if Gone(f, pk) then 1 else Count(st.streak, pk) + 1
    ensures Step(st, f, cooldown).streak == Ready(st, f).streak
  {
    hide Pairs, ConditionAt, Speaks, Gone;
  }

  /** The stored streak is the length of the unbroken run. */
  lemma {:induction false} StreakIsUnbroken(run: seq<Frame>, cooldown: real, pk: Pair)
    ensures Count(StateAfter(run, cooldown).streak, pk) == Unbroken(run, pk)
  {
    if run != [] {
      StreakIsUnbroken(run[..|run| - 1], cooldown, pk);
      StepStreak(StateAfter(run[..|run| - 1], cooldown), run[|run| - 1], cooldown, pk);
    }
  }

  /** No alert before the condition has lasted flap cycles, and the first cycle never alerts. */
  lemma Debounced(run: seq<Frame>, cooldown: real, i: nat, pk: Pair)
    requires i < |run| && Alert(EventIn(run, cooldown, i, pk))
    ensures Unbroken(run[..i + 1], pk) >= run[i].flap && i > 0
  {
    StreakIsUnbroken(run[..i + 1], cooldown, pk);
    AfterPrefix(run, cooldown, i);
    StepStreak(StateAfter(run[..i], cooldown), run[i], cooldown, pk);
    RunCoupled(run[..i], cooldown);
  }

  // ---- Event grammar ----

  lemma EventKind(st: State, f: Frame, cooldown: real, pk: Pair)
    requires EventAt(st, f, cooldown, pk).Some?
    ensures
      var e := EventAt(st, f, cooldown, pk).value;
      && PairOf(e) == pk
      && (e.kind == Firing ==> pk !in st.active || Gone(f, pk))
      && (e.kind != Firing ==> pk in st.active && !Gone(f, pk))
      && (e.kind == Recovered <==> pk !in Present(f))
  {
    hide Pairs, ConditionAt, Speaks, Gone;
  }

  /** As told by the events and the silent drops alone: adopted or fired, and neither recovered nor dropped since. */
  predicate Open(run: seq<Frame>, cooldown: real, pk: Pair) {
    if run == [] then false
    else
      var n := |run| - 1;
      if n == 0 then pk in Present(run[0])
      else
        match EventIn(run, cooldown, n, pk)
        case Some(e) => e.kind != Recovered
        case None => Open(run[..n], cooldown, pk) && !Gone(run[n], pk)
  }

  lemma {:induction false} OpenIsActive(run: seq<Frame>, cooldown: real, pk: Pair)
    ensures Open(run, cooldown, pk) <==> pk in StateAfter(run, cooldown).active
  {
    hide Step, EventAt, Gone;
    if run != [] {
      var n := |run| - 1;
      OpenIsActive(run[..n], cooldown, pk);
      RunCoupled(run[..n], cooldown);
      if n == 0 {
        SeedActive(StateAfter(run[..n], cooldown), run[n], cooldown);
      } else {
        StepActiveByEvents(StateAfter(run[..n], cooldown), run[n], cooldown, pk);
      }
    }
  }

  /**
    * The grammar of a run's events: firing opens a pair that is not open; changed and recovered come only
    * for an open pair that is not dropped in that cycle, and recovered exactly when it is no longer present.
    */
  lemma Grammar(run: seq<Frame>, cooldown: real, i: nat, pk: Pair)
    requires i < |run| && EventIn(run, cooldown, i, pk).Some?
    ensures
      var open := Open(run[..i], cooldown, pk) && !Gone(run[i], pk);
      var e := EventIn(run, cooldown, i, pk).value;
      && PairOf(e) == pk
      && (e.kind == Firing ==> !open)
      && (e.kind != Firing ==> open)
      && (e.kind == Recovered <==> pk !in Present(run[i]))
  {
    OpenIsActive(run[..i], cooldown, pk);
    EventKind(StateAfter(run[..i], cooldown), run[i], cooldown, pk);
    hide EventAt, Gone, Open, StateAfter;
  }

  /** Applying a cycle's event list to the set of active pairs. */
  function ApplyEvents(s: set<Pair>, events: seq<Event>): set<Pair> {
    if events == [] then s
    else
      var rest, e := ApplyEvents(s, events[..|events| - 1]), events[|events| - 1];
      if e.kind == Recovered then rest - {PairOf(e)} else rest + {PairOf(e)}
  }

  lemma {:induction false} ApplyEventsLookup(s: set<Pair>, events: seq<Event>, pk: Pair)
    requires DistinctPairs(events)
    ensures (forall e :: e in events ==> PairOf(e) != pk) ==> (pk in ApplyEvents(s, events) <==> pk in s)
    ensures forall e :: e in events && PairOf(e) == pk ==> (pk in ApplyEvents(s, events) <==> e.kind != Recovered)
  {
    if events != [] {
      var rest, last := events[..|events| - 1], events[|events| - 1];
      ApplyEventsLookup(s, rest, pk);
      forall e | e in events && PairOf(e) == pk ensures e == last || PairOf(last) != pk {
        var i :| 0 <= i < |events| && events[i] == e;
        if i < |events| - 1 { assert PairOf(events[i]) != PairOf(last); }
      }
      assert forall e :: e in rest ==> e in events;
    }
  }

  function Dropped(s: set<Pair>, f: Frame): set<Pair> {
    set pk | pk in s && Gone(f, pk)
  }

  /** The active set rebuilt from the seed, the silent drops and the emitted events alone. */
  function Replay(run: seq<Frame>, logs: seq<seq<Event>>): set<Pair>
    requires |logs| == |run|
  {
    if run == [] then {}
    else
      var n := |run| - 1;
      if n == 0 then Present(run[0])
      else
        var before := Replay(run[..n], logs[..n]);
        ApplyEvents(before - Dropped(before, run[n]), logs[n])
  }

  lemma StepActiveByEvents(st: State, f: Frame, cooldown: real, pk: Pair)
    requires st.seeded
    ensures EventAt(st, f, cooldown, pk).None? ==>
            (pk in Step(st, f, cooldown).active <==> pk in st.active && !Gone(f, pk))
    ensures EventAt(st, f, cooldown, pk).Some? ==>
            (pk in Step(st, f, cooldown).active <==> EventAt(st, f, cooldown, pk).value.kind != Recovered)
  {
    hide Pairs, ConditionAt, Gone;
  }

  /** The event log and the silent drops rebuild the active set. */
  lemma {:induction false} ReplayRebuilds(run: seq<Frame>, cooldown: real, logs: seq<seq<Event>>)
    requires |logs| == |run|
    requires forall i :: 0 <= i < |run| ==> IsReport(StateAfter(run[..i], cooldown), run[i], cooldown, logs[i])
    ensures Replay(run, logs) == StateAfter(run, cooldown).active
  {
    hide Step, EventAt, Gone;
    if run != [] {
      var n := |run| - 1;
      var st, f := StateAfter(run[..n], cooldown), run[n];
      assert forall i :: 0 <= i < n ==> run[..n][..i] == run[..i];
      ReplayRebuilds(run[..n], cooldown, logs[..n]);
      RunCoupled(run[..n], cooldown);
      if n == 0 {
        SeedActive(st, f, cooldown);
      } else {
        assert IsReport(st, f, cooldown, logs[n]);
        ReplayStep(st, f, cooldown, logs[n]);
      }
    }
  }

  lemma EventPair(st: State, f: Frame, cooldown: real, pk: Pair)
    requires EventAt(st, f, cooldown, pk).Some?
    ensures PairOf(EventAt(st, f, cooldown, pk).value) == pk
  {}

  lemma ReplayStep(st: State, f: Frame, cooldown: real, log: seq<Event>)
    requires st.seeded && IsReport(st, f, cooldown, log)
    ensures ApplyEvents(st.active - Dropped(st.active, f), log) == Step(st, f, cooldown).active
  {
    hide Step, EventAt, Gone, ApplyEvents;
    var kept := st.active - Dropped(st.active, f);
    forall pk ensures pk in ApplyEvents(kept, log) <==> pk in Step(st, f, cooldown).active {
      ApplyEventsLookup(kept, log, pk);
      StepActiveByEvents(st, f, cooldown, pk);
      if EventAt(st, f, cooldown, pk).Some? {
        EventPair(st, f, cooldown, pk);
      }
    }
  }

  lemma SeedActive(st: State, f: Frame, cooldown: real)
    requires !st.seeded
    ensures Step(st, f, cooldown).active == Present(f)
  {}

  /** The text of the last alert for pk, or the one adopted by the first cycle. */
  function LastText(run: seq<Frame>, cooldown: real, pk: Pair): Option<string> {
    if run == [] then None
    else
      var i := |run| - 1;
      var e := EventIn(run, cooldown, i, pk);
      if i == 0 && pk in Present(run[0]) then Some(ConditionAt(run[0].snap, pk).detail)
      else if Alert(e) then Some(e.value.detail)
      else LastText(run[..i], cooldown, pk)
  }

  lemma StepText(st: State, f: Frame, cooldown: real, pk: Pair)
    requires Coupled(st) && pk in Step(st, f, cooldown).active
    ensures !st.seeded ==> Text(Step(st, f, cooldown).detail, pk) == Some(ConditionAt(f.snap, pk).detail)
    ensures Alert(EventAt(st, f, cooldown, pk)) ==>
            Text(Step(st, f, cooldown).detail, pk) == Some(EventAt(st, f, cooldown, pk).value.detail)
    ensures st.seeded && !Alert(EventAt(st, f, cooldown, pk)) ==>
            pk in st.active && Text(Step(st, f, cooldown).detail, pk) == Text(st.detail, pk)
  {
    hide Pairs, ConditionAt, Gone;
  }

  /** The stored text of an active pair is the last one sent or adopted. */
  lemma {:induction false} DetailIsLastText(run: seq<Frame>, cooldown: real, pk: Pair)
    requires pk in StateAfter(run, cooldown).active
    ensures Text(StateAfter(run, cooldown).detail, pk) == LastText(run, cooldown, pk)
  {
    var n := |run| - 1;
    RunCoupled(run[..n], cooldown);
    var st := StateAfter(run[..n], cooldown);
    StepCoupled(st, run[n], cooldown);
    StepText(st, run[n], cooldown, pk);
    if n > 0 && !Alert(EventIn(run, cooldown, n, pk)) {
      DetailIsLastText(run[..n], cooldown, pk);
    }
  }

  // ---- Nothing is withheld without a reason ----

  lemma StepAlert(st: State, f: Frame, cooldown: real, pk: Pair)
    requires st.seeded && pk in Present(f)
    ensures var e, next, text := EventAt(st, f, cooldown, pk), Step(st, f, cooldown), ConditionAt(f.snap, pk).detail;
            && (Alert(e) ==> e.value.detail == text && pk in next.active && Text(next.detail, pk) == Some(text)
                             && Since(next.lastFire, pk) == f.now)
            && (!Alert(e) ==> (pk in next.active && Text(next.detail, pk) == Some(text))
                              || Count(next.streak, pk) < f.flap || f.now - Since(next.lastFire, pk) < cooldown)
            && (Alert(e) ==> Count(next.streak, pk) >= f.flap
                             && f.now - Since(DropGone(st, f).lastFire, pk) >= cooldown
                             && !(pk in st.active && !Gone(f, pk) && Text(st.detail, pk) == Some(text)))
  {
    hide Pairs, ConditionAt, Gone;
  }

  /** After every later cycle a tracked condition is reported with its current text, or is below the
      flap threshold, or is inside its cooldown. */
  lemma NothingWithheld(run: seq<Frame>, cooldown: real, i: nat, pk: Pair)
    requires 0 < i < |run| && pk in Present(run[i])
    ensures var st := StateAfter(run[..i + 1], cooldown);
            || (pk in st.active && Text(st.detail, pk) == Some(ConditionAt(run[i].snap, pk).detail))
            || Unbroken(run[..i + 1], pk) < run[i].flap
            || run[i].now - Since(st.lastFire, pk) < cooldown
  {
    hide Step, EventAt, Pairs, ConditionAt;
    AfterPrefix(run, cooldown, i);
    RunCoupled(run[..i], cooldown);
    StepAlert(StateAfter(run[..i], cooldown), run[i], cooldown, pk);
    StreakIsUnbroken(run[..i + 1], cooldown, pk);
  }

  // ---- Spacing ----

  /** pk was reported, or adopted by the first cycle, in cycle i. */
  predicate Stamped(run: seq<Frame>, cooldown: real, i: nat, pk: Pair)
    requires i < |run|
  {
    Alert(EventIn(run, cooldown, i, pk)) || (i == 0 && pk in Present(run[0]))
  }

  /** pk was active and dropped silently in cycle k. */
  predicate DroppedIn(run: seq<Frame>, cooldown: real, k: nat, pk: Pair)
    requires k < |run|
  {
    pk in StateAfter(run[..k], cooldown).active && Gone(run[k], pk)
  }

  lemma StepStamp(st: State, f: Frame, cooldown: real, pk: Pair)
    ensures Alert(EventAt(st, f, cooldown, pk)) || (!st.seeded && pk in Present(f)) ==>
            pk in Step(st, f, cooldown).lastFire && Step(st, f, cooldown).lastFire[pk] == f.now
    ensures pk in Step(st, f, cooldown).lastFire ==>
            Step(st, f, cooldown).lastFire[pk] == f.now
            || (pk in st.lastFire && Step(st, f, cooldown).lastFire[pk] == st.lastFire[pk])
  {
    hide Pairs, ConditionAt, Gone, Speaks;
  }

  /** What a later cycle does to a stamp that it does not drop: only an alert moves it, by the cooldown at least. */
  lemma StampMoves(st: State, f: Frame, cooldown: real, pk: Pair)
    requires st.seeded && pk in st.lastFire && !(pk in st.active && Gone(f, pk))
    ensures pk in Step(st, f, cooldown).lastFire
    ensures if Alert(EventAt(st, f, cooldown, pk))
            then Step(st, f, cooldown).lastFire[pk] == f.now && f.now - st.lastFire[pk] >= cooldown
            else Step(st, f, cooldown).lastFire[pk] == st.lastFire[pk]
  {
    hide Pairs, ConditionAt, Gone;
  }

  /** Whatever the clock does, a stamp never goes back while the pair is not dropped. */
  lemma {:induction false} StampKept(run: seq<Frame>, cooldown: real, i: nat, k: nat, pk: Pair)
    requires cooldown >= 0.0 && i < k <= |run| && Stamped(run, cooldown, i, pk)
    requires forall l :: i < l < k ==> !DroppedIn(run, cooldown, l, pk)
    ensures pk in StateAfter(run[..k], cooldown).lastFire
    ensures StateAfter(run[..k], cooldown).lastFire[pk] >= run[i].now
    ensures (forall l :: i < l < k ==> !Alert(EventIn(run, cooldown, l, pk))) ==>
            StateAfter(run[..k], cooldown).lastFire[pk] == run[i].now
    decreases k
  {
    hide Step, EventAt;
    AfterPrefix(run, cooldown, k - 1);
    var st, f := StateAfter(run[..k - 1], cooldown), run[k - 1];
    RunCoupled(run[..k - 1], cooldown);
    if i == k - 1 {
      StepStamp(st, f, cooldown, pk);
    } else {
      StampKept(run, cooldown, i, k - 1, pk);
      assert !DroppedIn(run, cooldown, k - 1, pk);
      StampMoves(st, f, cooldown, pk);
      assert EventIn(run, cooldown, k - 1, pk) == EventAt(st, f, cooldown, pk);
    }
  }

  /**
    * Two reports of one pair are at least the cooldown apart by the clock readings of their cycles, unless it
    * was dropped while active in between. The clock may be set back in the meantime.
    */
  lemma Spaced(run: seq<Frame>, cooldown: real, i: nat, j: nat, pk: Pair)
    requires cooldown >= 0.0 && i < j < |run|
    requires Stamped(run, cooldown, i, pk) && Alert(EventIn(run, cooldown, j, pk))
    requires forall l :: i < l <= j ==> !DroppedIn(run, cooldown, l, pk)
    ensures run[j].now - run[i].now >= cooldown
  {
    hide Step, EventAt;
    StampKept(run, cooldown, i, j, pk);
    RunCoupled(run[..j], cooldown);
    assert !DroppedIn(run, cooldown, j, pk);
    StampMoves(StateAfter(run[..j], cooldown), run[j], cooldown, pk);
  }

  // ---- The latest text goes out ----

  /**
    * A change is not lost to the cooldown: once the cooldown since the stamp before the cycle is over and the
    * threshold is reached, the cycle ends with the current text as the last one sent or adopted.
    */
  lemma LatestTextSent(run: seq<Frame>, cooldown: real, i: nat, pk: Pair)
    requires 0 < i < |run| && pk in Present(run[i]) && Unbroken(run[..i + 1], pk) >= run[i].flap
    requires run[i].now - Since(DropGone(StateAfter(run[..i], cooldown), run[i]).lastFire, pk) >= cooldown
    ensures LastText(run[..i + 1], cooldown, pk) == Some(ConditionAt(run[i].snap, pk).detail)
  {
    var st, f := StateAfter(run[..i], cooldown), run[i];
    AfterPrefix(run, cooldown, i);
    RunCoupled(run[..i], cooldown);
    StreakIsUnbroken(run[..i + 1], cooldown, pk);
    StepSends(st, f, cooldown, pk);
    DetailIsLastText(run[..i + 1], cooldown, pk);
    hide Step, StateAfter, LastText, Unbroken, DropGone;
  }

  lemma StepSends(st: State, f: Frame, cooldown: real, pk: Pair)
    requires st.seeded && pk in Present(f) && Count(Step(st, f, cooldown).streak, pk) >= f.flap
    requires f.now - Since(DropGone(st, f).lastFire, pk) >= cooldown
    ensures
      var next := Step(st, f, cooldown);
      pk in next.active && Text(next.detail, pk) == Some(ConditionAt(f.snap, pk).detail)
  {
    hide Pairs, ConditionAt, Gone;
  }

  /**
    * The same told by events alone: when the cooldown has passed since the last report of a pair, or since its
    * adoption, and it was not dropped, a condition past the threshold has its current text sent.
    */
  lemma LatestTextAfterReport(run: seq<Frame>, cooldown: real, k: nat, i: nat, pk: Pair)
    requires cooldown >= 0.0 && k < i < |run| && Stamped(run, cooldown, k, pk)
    requires forall l :: k < l < i ==> !Alert(EventIn(run, cooldown, l, pk))
    requires forall l :: k < l <= i ==> !DroppedIn(run, cooldown, l, pk)
    requires pk in Present(run[i]) && Unbroken(run[..i + 1], pk) >= run[i].flap
    requires run[i].now - run[k].now >= cooldown
    ensures LastText(run[..i + 1], cooldown, pk) == Some(ConditionAt(run[i].snap, pk).detail)
  {
    hide Step, EventAt, LastText, Unbroken;
    StampKept(run, cooldown, k, i, pk);
    assert !DroppedIn(run, cooldown, i, pk);
    LatestTextSent(run, cooldown, i, pk);
  }

  // ---- Acknowledgements ----

  lemma AckedSilent(st: State, f: Frame, cooldown: real, pk: Pair)
    requires pk in f.acked
    ensures EventAt(st, f, cooldown, pk).None?
  {
    hide Pairs, ConditionAt, Speaks;
  }

  lemma {:induction false} InactiveUntilAlert(run: seq<Frame>, cooldown: real, i: nat, j: nat, pk: Pair)
    requires i < j <= |run| && pk !in Present(run[i])
    requires forall l :: i < l < j ==> !Alert(EventIn(run, cooldown, l, pk))
    ensures pk !in StateAfter(run[..j], cooldown).active
    decreases j
  {
    hide Step, EventAt;
    if j == i + 1 {
      RunCoupled(run[..j], cooldown);
    } else {
      InactiveUntilAlert(run, cooldown, i, j - 1, pk);
      AfterPrefix(run, cooldown, j - 1);
      RunCoupled(run[..j - 1], cooldown);
      StepActiveByEvents(StateAfter(run[..j - 1], cooldown), run[j - 1], cooldown, pk);
      assert !Alert(EventIn(run, cooldown, j - 1, pk));
    }
  }

  /** The first event after a cycle in which a pair was absent or acknowledged reports it as new. */
  lemma RecurrenceIsNew(run: seq<Frame>, cooldown: real, i: nat, j: nat, pk: Pair)
    requires i < j < |run| && pk !in Present(run[i])
    requires forall l :: i < l < j ==> !Alert(EventIn(run, cooldown, l, pk))
    requires EventIn(run, cooldown, j, pk).Some?
    ensures EventIn(run, cooldown, j, pk).value.kind == Firing
  {
    InactiveUntilAlert(run, cooldown, i, j, pk);
    EventKind(StateAfter(run[..j], cooldown), run[j], cooldown, pk);
    hide Step, EventAt;
  }

  // ---- Refinement of the pure diff ----

  ghost predicate Clocked(run: seq<Frame>) {
    forall i, j :: 0 <= i <= j < |run| ==> run[i].now <= run[j].now
  }

  /** Threshold 1, nothing acknowledged or paused, and a clock that never goes back. */
  ghost predicate Plain(run: seq<Frame>) {
    && Clocked(run)
    && (forall i :: 0 <= i < |run| ==>
          run[i].flap == 1 && run[i].acked == {} && run[i].paused == {} && run[i].now >= 0.0)
  }

  /** The notifier's memory mirrors the last snapshot. */
  ghost predicate Mirrors(st: State, prev: Snapshot, now: real) {
    && st.seeded
    && st.active == Pairs(prev)
    && st.detail == Details(prev)
    && (forall pk :: pk in st.lastFire ==> st.lastFire[pk] <= now)
  }

  /** The notifier reports every recovery as information. */
  function Toned(e: Event): Event {
    if e.kind.Recovered? then e.(severity := Info) else e
  }

  lemma PlainEvent(st: State, prev: Snapshot, f: Frame, pk: Pair)
    requires Mirrors(st, prev, f.now) && f.now >= 0.0 && f.flap == 1 && f.acked == {} && f.paused == {}
    ensures
      var d := DiffEvent(prev, f.snap, pk);
      EventAt(st, f, 0.0, pk) == if d.Some? then Some(Toned(d.value)) else None
  {
    hide Pairs, ConditionAt;
    var r := Ready(st, f);
    PairHost(f.snap, pk);
    assert pk in r.active <==> pk in st.active && pk.0 in f.snap;
    if pk in r.active {
      assert r.detail[pk] == ConditionAt(prev, pk).detail;
    }
    if pk in Pairs(f.snap) {
      assert Count(r.streak, pk) >= 1;
      assert Since(r.lastFire, pk) <= f.now;
    }
  }

  lemma PairHost(snap: Snapshot, pk: Pair)
    ensures pk in Pairs(snap) ==> pk.0 in snap
  {}

  lemma PlainStep(st: State, prev: Snapshot, f: Frame)
    requires Mirrors(st, prev, f.now) && f.now >= 0.0 && f.flap == 1 && f.acked == {} && f.paused == {}
    requires Coupled(st)
    ensures Mirrors(Step(st, f, 0.0), f.snap, f.now)
  {
    hide Step, EventAt, Pairs, ConditionAt, DiffEvent;
    var next := Step(st, f, 0.0);
    StepCoupled(st, f, 0.0);
    assert Present(f) == Pairs(f.snap);
    forall pk | pk in Pairs(f.snap)
      ensures pk in next.active && Text(next.detail, pk) == Some(ConditionAt(f.snap, pk).detail)
    {
      PlainKept(st, prev, f, pk);
    }
    forall pk | pk in next.lastFire ensures next.lastFire[pk] <= f.now {
      StepStamp(st, f, 0.0, pk);
    }
    assert next.detail.Keys == Pairs(f.snap);
  }

  lemma PlainKept(st: State, prev: Snapshot, f: Frame, pk: Pair)
    requires Mirrors(st, prev, f.now) && f.now >= 0.0 && f.flap == 1 && f.acked == {} && f.paused == {}
    requires pk in Pairs(f.snap) && pk in Present(f)
    ensures pk in Step(st, f, 0.0).active
    ensures Text(Step(st, f, 0.0).detail, pk) == Some(ConditionAt(f.snap, pk).detail)
  {
    hide Step, EventAt, Pairs, ConditionAt;
    StepAlert(st, f, 0.0, pk);
    StepStreak(st, f, 0.0, pk);
    StepStamp(st, f, 0.0, pk);
  }

  lemma {:induction false} PlainMirrors(run: seq<Frame>)
    requires Plain(run) && run != []
    ensures Mirrors(StateAfter(run, 0.0), run[|run| - 1].snap, run[|run| - 1].now)
  {
    hide Step, Coupled;
    var n := |run| - 1;
    var st := StateAfter(run[..n], 0.0);
    RunCoupled(run[..n], 0.0);
    if n == 0 {
      PlainSeed(st, run[0]);
    } else {
      PlainMirrors(run[..n]);
      assert run[n - 1].now <= run[n].now;
      PlainStep(st, run[n - 1].snap, run[n]);
    }
  }

  lemma PlainSeed(st: State, f: Frame)
    requires Coupled(st) && !st.seeded && f.acked == {}
    ensures Mirrors(Step(st, f, 0.0), f.snap, f.now)
  {
    hide Pairs, ConditionAt;
    assert Present(f) == Pairs(f.snap);
  }

  lemma PlainEventIn(run: seq<Frame>, i: nat, pk: Pair)
    requires Plain(run) && 0 < i < |run|
    ensures
      var d := DiffEvent(run[i - 1].snap, run[i].snap, pk);
      EventIn(run, 0.0, i, pk) == if d.Some? then Some(Toned(d.value)) else None
  {
    hide EventAt, DiffEvent;
    PlainMirrors(run[..i]);
    assert run[i - 1].now <= run[i].now;
    PlainEvent(StateAfter(run[..i], 0.0), run[i - 1].snap, run[i], pk);
  }

  function AllToned(events: seq<Event>): (out: seq<Event>)
    ensures |out| == |events|
    ensures forall k :: 0 <= k < |events| ==> out[k] == Toned(events[k])
  {
    if events == [] then [] else AllToned(events[..|events| - 1]) + [Toned(events[|events| - 1])]
  }

  /** Lists of events with distinct pairs and the same elements are permutations of each other. */
  lemma SameEvents(s: seq<Event>, t: seq<Event>)
    requires DistinctPairs(s) && DistinctPairs(t) && forall e :: e in s <==> e in t
    ensures multiset(s) == multiset(t)
  {
    forall e ensures multiset(s)[e] == multiset(t)[e] {
      CountOnce(s, e);
      CountOnce(t, e);
    }
  }

  lemma CountOnce(s: seq<Event>, e: Event)
    requires DistinctPairs(s)
    ensures multiset(s)[e] == if e in s then 1 else 0
  {
    if e in s {
      var a :| 0 <= a < |s| && s[a] == e;
      OnceListed(s, a);
    }
  }

  /**
    * From the second cycle on, what a plain run's cycle emits is, up to order, the diff of the last two
    * snapshots with every recovery as information: the same hosts, keys, kinds and texts, with silence for
    * hosts that vanish.
    */
  lemma RefinesDiff(run: seq<Frame>, i: nat, events: seq<Event>, diff: seq<Event>)
    requires Plain(run) && 0 < i < |run|
    requires IsReport(StateAfter(run[..i], 0.0), run[i], 0.0, events)
    requires IsDiff(run[i - 1].snap, run[i].snap, diff)
    ensures multiset(events) == multiset(AllToned(diff))
  {
    hide EventAt, DiffEvent, StateAfter, Plain;
    forall pk ensures EventIn(run, 0.0, i, pk) == if DiffEvent(run[i - 1].snap, run[i].snap, pk).Some?
        then Some(Toned(DiffEvent(run[i - 1].snap, run[i].snap, pk).value)) else None {
      PlainEventIn(run, i, pk);
    }
    SameElements(run, i, events, diff);
    SameEvents(events, AllToned(diff));
  }

  lemma SameElements(run: seq<Frame>, i: nat, events: seq<Event>, diff: seq<Event>)
    requires 0 < i < |run|
    requires IsReport(StateAfter(run[..i], 0.0), run[i], 0.0, events)
    requires IsDiff(run[i - 1].snap, run[i].snap, diff)
    requires forall pk :: EventIn(run, 0.0, i, pk) == if DiffEvent(run[i - 1].snap, run[i].snap, pk).Some?
        then Some(Toned(DiffEvent(run[i - 1].snap, run[i].snap, pk).value)) else None
    ensures DistinctPairs(AllToned(diff)) && forall e :: e in events <==> e in AllToned(diff)
  {
    hide EventAt, DiffEvent, StateAfter, AllToned;
    var toned := AllToned(diff);
    forall e | e in events ensures e in toned {
      assert EventIn(run, 0.0, i, PairOf(e)) == Some(e);
      var d := DiffEvent(run[i - 1].snap, run[i].snap, PairOf(e));
      assert d.value in diff;
      var k :| 0 <= k < |diff| && diff[k] == d.value;
      assert toned[k] == e;
    }
    forall e | e in toned ensures e in events {
      var k :| 0 <= k < |toned| && toned[k] == e;
      assert diff[k] in diff;
      assert EventIn(run, 0.0, i, PairOf(diff[k])) == Some(e);
    }
  }
}
