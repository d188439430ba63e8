/** The events of whole runs of the alert monitor, told by the polls' envelopes and the earlier events alone. */
module MonitorPolls {
  import opened Wrappers
  import opened Monitoring
  import opened Monitor
  import opened MonitorRuns
  import opened AckRuns

  // ---- What one poll says ----

  /** No two results of a poll carry one id. */
  ghost predicate DistinctIds(results: seq<Envelope>) {
    forall i, j :: 0 <= i < j < |results| && results[i].id == results[j].id ==> results[i].id == ""
  }

  /** The poll has a result of host h, and h is not paused. */
  ghost predicate Monitored(results: seq<Envelope>, h: HostId) {
    h != "" && exists e :: e in results && e.id == h && !e.disabled
  }

  /** The result of host h, which is not paused, has condition k. */
  ghost predicate Reports(results: seq<Envelope>, h: HostId, k: Key) {
    h != "" && exists e :: e in results && e.id == h && !e.disabled && k in e.conditions
  }

  lemma {:induction false} SnapshotOf(results: seq<Envelope>, e: Envelope)
    requires DistinctIds(results) && e in results && e.id != ""
    ensures e.id in SnapshotConditions(results)
    ensures SnapshotConditions(results)[e.id]
         == Entry(if e.name.Some? then e.name.value else e.id, if e.disabled then map[] else e.conditions)
  {
    var rest, last := results[..|results| - 1], results[|results| - 1];
    assert results == rest + [last];
    if e in rest {
      var i :| 0 <= i < |rest| && rest[i] == e;
      assert results[i].id != results[|rest|].id;
      assert DistinctIds(rest);
      SnapshotOf(rest, e);
    }
  }

  lemma {:induction false} SnapshotOnly(results: seq<Envelope>, h: HostId)
    requires h in SnapshotConditions(results)
    ensures h != "" && exists e :: e in results && e.id == h
  {
    var rest, last := results[..|results| - 1], results[|results| - 1];
    assert results == rest + [last];
    if last.id == h && h != "" {
      assert last in results;
    } else {
      SnapshotOnly(rest, h);
      var e :| e in rest && e.id == h;
      assert e in results;
    }
  }

  /** What a cycle takes from a poll; which pairs are acknowledged is left open. */
  ghost predicate Sees(f: Frame, results: seq<Envelope>) {
    && DistinctIds(results)
    && f.snap == SnapshotConditions(results)
    && f.acked <= Pairs(f.snap)
    && (forall h :: h in f.paused <==> exists e :: e in results && e.id == h && e.disabled)
  }

  /** Of two results with one id there is one. */
  lemma SameEnvelope(results: seq<Envelope>, e: Envelope, e': Envelope)
    requires DistinctIds(results) && e in results && e' in results && e.id == e'.id != ""
    ensures e == e'
  {
    var i :| 0 <= i < |results| && results[i] == e;
    var j :| 0 <= j < |results| && results[j] == e';
    assert i == j;
  }

  /** A cycle tracks the conditions its poll reports and nobody acknowledged, and looks away from every host that
      is paused or missing. */
  lemma FrameTold(f: Frame, results: seq<Envelope>, pk: Pair)
    requires Sees(f, results)
    ensures pk in Present(f) <==> Reports(results, pk.0, pk.1) && pk !in f.acked
    ensures Gone(f, pk) <==> !Monitored(results, pk.0) || pk in f.acked
    ensures pk in f.acked ==> Reports(results, pk.0, pk.1)
    ensures pk.0 in f.snap <==> pk.0 != "" && exists e :: e in results && e.id == pk.0
  {
    if pk.0 in f.snap {
      SnapshotOnly(results, pk.0);
      var e :| e in results && e.id == pk.0;
      SnapshotOf(results, e);
      forall e' | e' in results && e'.id == pk.0 ensures e' == e {
        SameEnvelope(results, e, e');
      }
    } else {
      forall e | e in results && e.id == pk.0 ensures pk.0 == "" {
        if pk.0 != "" {
          SnapshotOf(results, e);
        }
      }
    }
  }

  /** The tracked condition and the host's name are those of the host's result. */
  lemma FrameShows(f: Frame, results: seq<Envelope>, e: Envelope, pk: Pair)
    requires Sees(f, results) && e in results && e.id == pk.0 != ""
    ensures pk.0 in f.snap && f.snap[pk.0].name == if e.name.Some? then e.name.value else e.id
    ensures pk in Pairs(f.snap) ==> pk.1 in e.conditions && ConditionAt(f.snap, pk) == e.conditions[pk.1]
  {
    SnapshotOf(results, e);
  }

  // ---- What a run of polls says ----

  /** Cycle by cycle, the run saw these polls. */
  ghost predicate Told(run: seq<Frame>, polls: seq<seq<Envelope>>) {
    |run| == |polls| && forall i :: 0 <= i < |run| ==> Sees(run[i], polls[i])
  }

  /** In cycle i the pair is reported by the poll and not acknowledged. */
  ghost predicate Tracked(run: seq<Frame>, polls: seq<seq<Envelope>>, i: nat, pk: Pair)
    requires i < |run| == |polls|
  {
    Reports(polls[i], pk.0, pk.1) && pk !in run[i].acked
  }

  /** In cycle i the host is polled and not paused, and the pair is not acknowledged. */
  ghost predicate Watched(run: seq<Frame>, polls: seq<seq<Envelope>>, i: nat, pk: Pair)
    requires i < |run| == |polls|
  {
    Monitored(polls[i], pk.0) && pk !in run[i].acked
  }

  lemma TrackedTold(run: seq<Frame>, polls: seq<seq<Envelope>>, i: nat, pk: Pair)
    requires Told(run, polls) && i < |run|
    ensures pk in Present(run[i]) <==> Tracked(run, polls, i, pk)
    ensures Gone(run[i], pk) <==> !Watched(run, polls, i, pk)
    ensures Tracked(run, polls, i, pk) ==> Watched(run, polls, i, pk)
  {
    assert Sees(run[i], polls[i]);
    FrameTold(run[i], polls[i], pk);
    if Reports(polls[i], pk.0, pk.1) {
      assert Monitored(polls[i], pk.0);
    }
  }

  // ---- Streaks ----

  /** A streak reaches d exactly if the poll reported the condition in each of the last d cycles. */
  lemma {:induction false} StreakExactly(run: seq<Frame>, polls: seq<seq<Envelope>>, cooldown: real, i: nat, d: nat,
                                         pk: Pair)
    requires Told(run, polls) && i <= |run|
    ensures Count(StateAfter(run[..i], cooldown).streak, pk) >= d <==> TrackedFor(run, polls, i, d, pk)
    decreases i
  {
    assert |run| == |polls|;
    hide Step, Present, Gone, Tracked, Watched, Told;
    if i > 0 && d > 0 {
      var n: nat := i - 1;
      AfterPrefix(run, cooldown, n);
      TrackedTold(run, polls, n, pk);
      hide StateAfter, TrackedFor;
      StepStreak(StateAfter(run[..n], cooldown), run[n], cooldown, pk);
      StreakExactly(run, polls, cooldown, n, d - 1, pk);
      TrackedForStep(run, polls, n, d - 1, pk);
    }
  }

  lemma TrackedForStep(run: seq<Frame>, polls: seq<seq<Envelope>>, n: nat, d: nat, pk: Pair)
    requires n < |run| == |polls|
    ensures TrackedFor(run, polls, n + 1, d + 1, pk) <==> Tracked(run, polls, n, pk) && TrackedFor(run, polls, n, d, pk)
  {
    hide Tracked;
  }

  ghost predicate TrackedFor(run: seq<Frame>, polls: seq<seq<Envelope>>, i: nat, d: nat, pk: Pair)
    requires i <= |run| == |polls|
  {
    d <= i && forall l: nat :: i - d <= l < i ==> Tracked(run, polls, l, pk)
  }

  // ---- What is reported as firing ----

  /** Reported, or adopted by the first cycle, in cycle m, and tracked in every cycle since. */
  ghost predicate UpSince(run: seq<Frame>, polls: seq<seq<Envelope>>, cooldown: real, m: nat, i: nat, pk: Pair)
    requires i <= |run| == |polls|
  {
    m < i && Stamped(run, cooldown, m, pk) && forall l: nat :: m < l < i ==> Tracked(run, polls, l, pk)
  }

  /** A pair counts as firing exactly if it was reported or adopted and has been tracked ever since. */
  lemma {:induction false} ActiveExactly(run: seq<Frame>, polls: seq<seq<Envelope>>, cooldown: real, i: nat, pk: Pair)
    requires Told(run, polls) && i <= |run|
    ensures pk in StateAfter(run[..i], cooldown).active <==> exists m: nat :: UpSince(run, polls, cooldown, m, i, pk)
    decreases i
  {
    assert |run| == |polls|;
    hide Step, Present, Gone, Tracked, Watched, Told, EventAt;
    if i > 0 {
      var n: nat := i - 1;
      ActiveExactly(run, polls, cooldown, n, pk);
      AfterPrefix(run, cooldown, n);
      TrackedTold(run, polls, n, pk);
      ActiveStep(run, cooldown, n, pk);
      UpSinceStep(run, polls, cooldown, n, i, pk);
      hide StateAfter, Stamped, UpSince;
    }
  }

  lemma UpSinceStep(run: seq<Frame>, polls: seq<seq<Envelope>>, cooldown: real, n: nat, i: nat, pk: Pair)
    requires n < |run| == |polls| && i == n + 1
    ensures (exists m: nat :: UpSince(run, polls, cooldown, m, i, pk))
       <==> Stamped(run, cooldown, n, pk)
            || (Tracked(run, polls, n, pk) && exists m: nat :: UpSince(run, polls, cooldown, m, n, pk))
  {
    hide Tracked, Stamped;
    if m: nat :| UpSince(run, polls, cooldown, m, i, pk) {
      assert m == n || UpSince(run, polls, cooldown, m, n, pk);
    }
    if Stamped(run, cooldown, n, pk) {
      assert UpSince(run, polls, cooldown, n, i, pk);
    } else if m: nat :| UpSince(run, polls, cooldown, m, n, pk) {
      assert Tracked(run, polls, n, pk) ==> UpSince(run, polls, cooldown, m, i, pk);
    }
  }

  lemma ActiveStep(run: seq<Frame>, cooldown: real, n: nat, pk: Pair)
    requires n < |run| && (pk in Present(run[n]) ==> !Gone(run[n], pk))
    ensures
      var st := StateAfter(run[..n], cooldown);
      pk in Step(st, run[n], cooldown).active <==>
      Stamped(run, cooldown, n, pk) || (pk in st.active && pk in Present(run[n]))
  {
    var st := StateAfter(run[..n], cooldown);
    RunCoupled(run[..n], cooldown);
    if n == 0 {
      SeedActive(st, run[0], cooldown);
      assert run[..0] == [];
    } else {
      StepActiveByEvents(st, run[n], cooldown, pk);
      if EventIn(run, cooldown, n, pk).Some? {
        EventKind(st, run[n], cooldown, pk);
      } else if pk in st.active && !Gone(run[n], pk) {
        hide Present, Speaks;
        assert pk in Ready(st, run[n]).active;
      }
    }
  }

  // ---- The last report ----

  /** Cycle m is the last one before i that reported the pair or adopted it. */
  ghost predicate LastReport(run: seq<Frame>, cooldown: real, m: nat, i: nat, pk: Pair)
    requires i <= |run|
  {
    m < i && Stamped(run, cooldown, m, pk) && forall l: nat :: m < l < i ==> !Stamped(run, cooldown, l, pk)
  }

  /** While still firing after the report of cycle m, the pair was acknowledged or its host paused or removed. */
  ghost predicate Forgotten(run: seq<Frame>, polls: seq<seq<Envelope>>, m: nat, i: nat, pk: Pair)
    requires i <= |run| == |polls|
  {
    exists l: nat :: LostIn(run, polls, m, l, i, pk)
  }

  ghost predicate LostIn(run: seq<Frame>, polls: seq<seq<Envelope>>, m: nat, l: nat, i: nat, pk: Pair)
    requires i <= |run| == |polls|
  {
    m < l < i && !Watched(run, polls, l, pk) && forall n: nat :: m < n < l ==> Tracked(run, polls, n, pk)
  }

  /** With cycle m the last report, the pair is still firing exactly if it was tracked ever since. */
  lemma UpSinceLast(run: seq<Frame>, polls: seq<seq<Envelope>>, cooldown: real, m: nat, i: nat, pk: Pair)
    requires Told(run, polls) && i <= |run| && LastReport(run, cooldown, m, i, pk)
    ensures pk in StateAfter(run[..i], cooldown).active <==>
            forall l: nat :: m < l < i ==> Tracked(run, polls, l, pk)
  {
    assert |run| == |polls|;
    hide Tracked, Told, Stamped, StateAfter;
    ActiveExactly(run, polls, cooldown, i, pk);
    if m': nat :| UpSince(run, polls, cooldown, m', i, pk) {
      assert m' <= m;
    }
    if forall l: nat :: m < l < i ==> Tracked(run, polls, l, pk) {
      assert UpSince(run, polls, cooldown, m, i, pk);
    }
  }

  /** The stamp that the cooldown counts from is that of the last report, unless it was forgotten. */
  lemma {:induction false} StampExactly(run: seq<Frame>, polls: seq<seq<Envelope>>, cooldown: real, i: nat, pk: Pair)
    requires Told(run, polls) && i <= |run|
    ensures (forall m: nat :: !Stamping(run, polls, cooldown, m, i, pk)) ==>
            pk !in StateAfter(run[..i], cooldown).lastFire
    ensures forall m: nat :: Stamping(run, polls, cooldown, m, i, pk) ==>
            pk in StateAfter(run[..i], cooldown).lastFire && StateAfter(run[..i], cooldown).lastFire[pk] == run[m].now
    decreases i
  {
    assert |run| == |polls|;
    hide Step, Present, Gone, Tracked, Watched, Told, EventAt, Forgotten;
    if i > 0 {
      var n := i - 1;
      StampExactly(run, polls, cooldown, n, pk);
      AfterPrefix(run, cooldown, n);
      TrackedTold(run, polls, n, pk);
      StampStep(run, cooldown, n, pk);
      if Stamped(run, cooldown, n, pk) {
        NotForgotten(run, polls, n, i, pk);
        assert Stamping(run, polls, cooldown, n, i, pk);
      } else {
        hide StateAfter, Stamping, Stamped;
        NotStampedIn(run, polls, cooldown, n, i, pk);
      }
    }
  }

  lemma NotStampedIn(run: seq<Frame>, polls: seq<seq<Envelope>>, cooldown: real, n: nat, i: nat, pk: Pair)
    requires Told(run, polls) && n < |run| && i == n + 1 && !Stamped(run, cooldown, n, pk)
    ensures
      forall m: nat ::
        Stamping(run, polls, cooldown, m, i, pk)
        <==> Stamping(run, polls, cooldown, m, n, pk)
             && (pk in StateAfter(run[..n], cooldown).active ==> Watched(run, polls, n, pk))
  {
    assert |run| == |polls|;
    hide *;
    var lost := pk in StateAfter(run[..n], cooldown).active && !Watched(run, polls, n, pk);
    forall m: nat
      ensures Stamping(run, polls, cooldown, m, i, pk) <==> Stamping(run, polls, cooldown, m, n, pk) && !lost
    {
      if LastReport(run, cooldown, m, n, pk) {
        LostNow(run, polls, cooldown, m, n, pk);
      }
      StampingStep(run, polls, cooldown, m, n, pk, lost);
    }
  }

  ghost predicate Stamping(run: seq<Frame>, polls: seq<seq<Envelope>>, cooldown: real, m: nat, i: nat, pk: Pair)
    requires i <= |run| == |polls|
  {
    LastReport(run, cooldown, m, i, pk) && !Forgotten(run, polls, m, i, pk)
  }

  lemma NotForgotten(run: seq<Frame>, polls: seq<seq<Envelope>>, m: nat, i: nat, pk: Pair)
    requires i <= |run| == |polls| && i <= m + 1
    ensures !Forgotten(run, polls, m, i, pk)
  {}

  lemma LastReportStep(run: seq<Frame>, cooldown: real, m: nat, n: nat, pk: Pair)
    requires n < |run| && !Stamped(run, cooldown, n, pk)
    ensures LastReport(run, cooldown, m, n + 1, pk) <==> LastReport(run, cooldown, m, n, pk)
    ensures LastReport(run, cooldown, m, n, pk) ==> m < n
  {
    hide Stamped;
  }

  lemma LostStep(run: seq<Frame>, polls: seq<seq<Envelope>>, m: nat, n: nat, i: nat, pk: Pair)
    requires m < n < |run| == |polls| && i == n + 1
    ensures Forgotten(run, polls, m, i, pk) <==> Forgotten(run, polls, m, n, pk) || LostIn(run, polls, m, n, i, pk)
  {
    hide Tracked, Watched;
    if l: nat :| LostIn(run, polls, m, l, i, pk) {
      assert l == n || LostIn(run, polls, m, l, n, pk);
    }
    if l: nat :| LostIn(run, polls, m, l, n, pk) {
      assert LostIn(run, polls, m, l, i, pk);
    }
  }

  lemma StampingStep(run: seq<Frame>, polls: seq<seq<Envelope>>, cooldown: real, m: nat, n: nat, pk: Pair, lost: bool)
    requires n < |run| == |polls| && !Stamped(run, cooldown, n, pk)
    requires LastReport(run, cooldown, m, n, pk) ==> (LostIn(run, polls, m, n, n + 1, pk) <==> lost)
    ensures Stamping(run, polls, cooldown, m, n + 1, pk) <==> Stamping(run, polls, cooldown, m, n, pk) && !lost
  {
    hide *;
    LastReportStep(run, cooldown, m, n, pk);
    if LastReport(run, cooldown, m, n, pk) {
      LostStep(run, polls, m, n, n + 1, pk);
    }
    StampingMeans(run, polls, cooldown, m, n, pk);
    StampingMeans(run, polls, cooldown, m, n + 1, pk);
  }

  lemma StampingMeans(run: seq<Frame>, polls: seq<seq<Envelope>>, cooldown: real, m: nat, i: nat, pk: Pair)
    requires i <= |run| == |polls|
    ensures Stamping(run, polls, cooldown, m, i, pk)
       <==> LastReport(run, cooldown, m, i, pk) && !Forgotten(run, polls, m, i, pk)
  {}

  lemma LostNow(run: seq<Frame>, polls: seq<seq<Envelope>>, cooldown: real, m: nat, n: nat, pk: Pair)
    requires Told(run, polls) && n < |run| && LastReport(run, cooldown, m, n, pk)
    ensures LostIn(run, polls, m, n, n + 1, pk)
       <==> pk in StateAfter(run[..n], cooldown).active && !Watched(run, polls, n, pk)
  {
    UpSinceLast(run, polls, cooldown, m, n, pk);
    hide Tracked, Watched, Told, Stamped, StateAfter;
  }

  lemma StampStep(run: seq<Frame>, cooldown: real, n: nat, pk: Pair)
    requires n < |run| && (pk in Present(run[n]) ==> !Gone(run[n], pk))
    ensures
      var st, next := StateAfter(run[..n], cooldown), Step(StateAfter(run[..n], cooldown), run[n], cooldown);
      && (Stamped(run, cooldown, n, pk) ==> pk in next.lastFire && next.lastFire[pk] == run[n].now)
      && (!Stamped(run, cooldown, n, pk) ==>
            && (pk in next.lastFire <==> pk in st.lastFire && (pk in st.active ==> !Gone(run[n], pk)))
            && (pk in next.lastFire ==> next.lastFire[pk] == st.lastFire[pk]))
  {
    RunCoupled(run[..n], cooldown);
    StampStepOf(StateAfter(run[..n], cooldown), run[n], cooldown, pk);
  }

  lemma StampStepOf(st: State, f: Frame, cooldown: real, pk: Pair)
    ensures
      var next := Step(st, f, cooldown);
      var stamped := Alert(EventAt(st, f, cooldown, pk)) || (!st.seeded && pk in Present(f));
      && (stamped ==> pk in next.lastFire && next.lastFire[pk] == f.now)
      && (!stamped ==>
            && (pk in next.lastFire <==> pk in st.lastFire && (pk in st.active ==> !Gone(f, pk)))
            && (pk in next.lastFire ==> next.lastFire[pk] == st.lastFire[pk]))
  {
    hide Pairs, ConditionAt, Gone, Speaks;
  }

  // ---- The events ----

  /** The text that the poll of cycle m gave the pair. */
  ghost predicate Said(polls: seq<seq<Envelope>>, m: nat, pk: Pair, text: string)
    requires m < |polls|
  {
    exists e :: e in polls[m] && e.id == pk.0 && !e.disabled
      && pk.1 in e.conditions && e.conditions[pk.1].detail == text
  }

  lemma TextTold(run: seq<Frame>, polls: seq<seq<Envelope>>, m: nat, pk: Pair, text: string)
    requires Told(run, polls) && m < |run| && pk in Present(run[m])
    ensures Said(polls, m, pk, text) <==> ConditionAt(run[m].snap, pk).detail == text
  {
    assert Sees(run[m], polls[m]);
    FrameTold(run[m], polls[m], pk);
    var e :| e in polls[m] && e.id == pk.0 != "" && !e.disabled && pk.1 in e.conditions;
    FrameShows(run[m], polls[m], e, pk);
    forall e' | e' in polls[m] && e'.id == pk.0 ensures e' == e {
      SameEnvelope(polls[m], e, e');
    }
  }

  /** The text last sent or adopted is that of the last report. */
  lemma {:induction false} LastReportText(run: seq<Frame>, cooldown: real, m: nat, i: nat, pk: Pair)
    requires i <= |run| && LastReport(run, cooldown, m, i, pk)
    ensures pk in Present(run[m])
    ensures LastText(run[..i], cooldown, pk) == Some(ConditionAt(run[m].snap, pk).detail)
    decreases i
  {
    var n: nat := i - 1;
    PrefixOf(run, i);
    PrefixEvents(run, cooldown, n, i, pk);
    if m == n {
      RunCoupled(run[..n], cooldown);
      AlertShows(StateAfter(run[..n], cooldown), run[n], cooldown, pk);
    } else {
      assert !Stamped(run, cooldown, n, pk);
      LastReportText(run, cooldown, m, n, pk);
    }
    hide StateAfter, EventAt;
  }

  lemma PrefixEvents(run: seq<Frame>, cooldown: real, n: nat, i: nat, pk: Pair)
    requires n < i <= |run|
    ensures EventIn(run[..i], cooldown, n, pk) == EventIn(run, cooldown, n, pk)
  {
    assert run[..i][..n] == run[..n];
  }

  lemma AlertShows(st: State, f: Frame, cooldown: real, pk: Pair)
    ensures Alert(EventAt(st, f, cooldown, pk)) ==>
            st.seeded && pk in Present(f) && EventAt(st, f, cooldown, pk).value.detail == ConditionAt(f.snap, pk).detail
  {
    hide ConditionAt, Speaks, Gone;
  }

  /** An alert is due, for a tracked pair that was active or not and was last reported at a time or never. */
  lemma AlertStep(st: State, f: Frame, cooldown: real, pk: Pair)
    requires Coupled(st) && pk in Present(f) && !Gone(f, pk)
    ensures
      var next := Step(st, f, cooldown);
      var text := ConditionAt(f.snap, pk).detail;
      Alert(EventAt(st, f, cooldown, pk)) <==>
      && st.seeded
      && Count(next.streak, pk) >= f.flap
      && f.now - Since(st.lastFire, pk) >= cooldown
      && !(pk in st.active && Text(st.detail, pk) == Some(text))
  {
    hide Pairs, ConditionAt;
  }

  /** The cooldown is over: it counts from the last report, or from time zero when there is none or it was forgotten. */
  ghost predicate Rested(run: seq<Frame>, polls: seq<seq<Envelope>>, cooldown: real, i: nat, pk: Pair)
    requires i < |run| == |polls|
  {
    && (forall m: nat :: Stamping(run, polls, cooldown, m, i, pk) ==> run[i].now - run[m].now >= cooldown)
    && ((forall m: nat :: !Stamping(run, polls, cooldown, m, i, pk)) ==> run[i].now >= cooldown)
  }

  /** The pair has been tracked since its last report, and that said the same text as the poll of cycle i. */
  ghost predicate SaidAlready(run: seq<Frame>, polls: seq<seq<Envelope>>, cooldown: real, i: nat, pk: Pair)
    requires i < |run| == |polls|
  {
    exists m: nat ::
      LastReport(run, cooldown, m, i, pk) && UpSince(run, polls, cooldown, m, i, pk) && SameText(polls, m, i, pk)
  }

  ghost predicate SameText(polls: seq<seq<Envelope>>, m: nat, i: nat, pk: Pair)
    requires m < |polls| && i < |polls|
  {
    exists text :: Said(polls, m, pk, text) && Said(polls, i, pk, text)
  }

  lemma RestedTold(run: seq<Frame>, polls: seq<seq<Envelope>>, cooldown: real, i: nat, pk: Pair)
    requires Told(run, polls) && i < |run|
    ensures Rested(run, polls, cooldown, i, pk)
       <==> run[i].now - Since(StateAfter(run[..i], cooldown).lastFire, pk) >= cooldown
  {
    StampExactly(run, polls, cooldown, i, pk);
    assert |run| == |polls|;
    hide Told, StateAfter, Stamping;
    if m: nat :| Stamping(run, polls, cooldown, m, i, pk) {
      assert Since(StateAfter(run[..i], cooldown).lastFire, pk) == run[m].now;
    }
  }

  lemma SaidTold(run: seq<Frame>, polls: seq<seq<Envelope>>, cooldown: real, i: nat, pk: Pair)
    requires Told(run, polls) && i < |run| && pk in Present(run[i])
    ensures SaidAlready(run, polls, cooldown, i, pk)
       <==> pk in StateAfter(run[..i], cooldown).active
            && Text(StateAfter(run[..i], cooldown).detail, pk) == Some(ConditionAt(run[i].snap, pk).detail)
  {
    assert |run| == |polls|;
    var st := StateAfter(run[..i], cooldown);
    ActiveExactly(run, polls, cooldown, i, pk);
    if pk in st.active {
      DetailIsLastText(run[..i], cooldown, pk);
      var m := LatestReport(run, polls, cooldown, i, pk);
      LastReportText(run, cooldown, m, i, pk);
      SameTextTold(run, polls, m, i, pk);
      forall m': nat | LastReport(run, cooldown, m', i, pk) ensures m' == m {}
    }
    hide Told, StateAfter, LastReport, UpSince, SameText, Present, ConditionAt;
  }

  lemma SameTextTold(run: seq<Frame>, polls: seq<seq<Envelope>>, m: nat, i: nat, pk: Pair)
    requires Told(run, polls) && m < |run| && i < |run| && pk in Present(run[m]) && pk in Present(run[i])
    ensures SameText(polls, m, i, pk) <==> ConditionAt(run[m].snap, pk).detail == ConditionAt(run[i].snap, pk).detail
  {
    var there, here := ConditionAt(run[m].snap, pk).detail, ConditionAt(run[i].snap, pk).detail;
    TextTold(run, polls, m, pk, there);
    TextTold(run, polls, m, pk, here);
    forall text ensures Said(polls, i, pk, text) <==> here == text {
      TextTold(run, polls, i, pk, text);
    }
    hide Said, Told, Present, ConditionAt;
  }

  /** A pair that is up has a last report, and has been tracked since. */
  lemma {:induction false} LatestReport(run: seq<Frame>, polls: seq<seq<Envelope>>, cooldown: real, i: nat, pk: Pair)
    returns (m: nat)
    requires i <= |run| == |polls| && exists m: nat :: UpSince(run, polls, cooldown, m, i, pk)
    ensures LastReport(run, cooldown, m, i, pk) && UpSince(run, polls, cooldown, m, i, pk)
    decreases i
  {
    hide Stamped, Tracked;
    var n: nat := i - 1;
    m := n;
    if !Stamped(run, cooldown, n, pk) {
      UpSinceStep(run, polls, cooldown, n, i, pk);
      m := LatestReport(run, polls, cooldown, n, pk);
      LastReportStep(run, cooldown, m, n, pk);
    }
  }

  /**
    * When a run of polls alerts, told by its envelopes and the earlier alerts: in no first cycle; the condition is
    * tracked, and has been for as many cycles as the threshold says; the cooldown since the last report is over;
    * and the pair is not already up with the same text.
    */
  lemma AlertExactly(run: seq<Frame>, polls: seq<seq<Envelope>>, cooldown: real, i: nat, pk: Pair)
    requires Told(run, polls) && i < |run|
    ensures Alert(EventIn(run, cooldown, i, pk)) <==>
            && i > 0
            && Tracked(run, polls, i, pk)
            && (run[i].flap <= 0 || TrackedFor(run, polls, i + 1, run[i].flap, pk))
            && Rested(run, polls, cooldown, i, pk)
            && !SaidAlready(run, polls, cooldown, i, pk)
  {
    assert |run| == |polls|;
    var st, f := StateAfter(run[..i], cooldown), run[i];
    RunCoupled(run[..i], cooldown);
    assert run[..i] == [] <==> i == 0;
    hide Told, Step, StateAfter, EventAt, Tracked, TrackedFor, Watched, Rested, SaidAlready, UpSince, Present, Gone;
    TrackedTold(run, polls, i, pk);
    AlertShows(st, f, cooldown, pk);
    if pk in Present(f) {
      AlertStep(st, f, cooldown, pk);
      RestedTold(run, polls, cooldown, i, pk);
      SaidTold(run, polls, cooldown, i, pk);
      StableTold(run, polls, cooldown, i, pk);
    }
  }

  lemma StableTold(run: seq<Frame>, polls: seq<seq<Envelope>>, cooldown: real, i: nat, pk: Pair)
    requires Told(run, polls) && i < |run|
    ensures Count(Step(StateAfter(run[..i], cooldown), run[i], cooldown).streak, pk) >= run[i].flap
       <==> run[i].flap <= 0 || TrackedFor(run, polls, i + 1, run[i].flap, pk)
  {
    assert |run| == |polls|;
    hide Told, Step, StateAfter, TrackedFor;
    AfterPrefix(run, cooldown, i);
    if run[i].flap > 0 {
      StreakExactly(run, polls, cooldown, i + 1, run[i].flap, pk);
    }
  }

  /** An alert says changed if the pair was up, and firing if not. */
  lemma AlertKind(run: seq<Frame>, polls: seq<seq<Envelope>>, cooldown: real, i: nat, pk: Pair)
    requires Told(run, polls) && i < |run| && Alert(EventIn(run, cooldown, i, pk))
    ensures EventIn(run, cooldown, i, pk).value.kind == Changed
       <==> exists m: nat :: UpSince(run, polls, cooldown, m, i, pk)
  {
    var st, f := StateAfter(run[..i], cooldown), run[i];
    ActiveExactly(run, polls, cooldown, i, pk);
    TrackedTold(run, polls, i, pk);
    hide StateAfter, Step, Told, UpSince;
    EventKind(st, f, cooldown, pk);
    AlertShows(st, f, cooldown, pk);
  }

  /** A pair recovers exactly when it was up and the result of its host, which is not paused, no longer has it. */
  lemma RecoveredExactly(run: seq<Frame>, polls: seq<seq<Envelope>>, cooldown: real, i: nat, pk: Pair)
    requires Told(run, polls) && i < |run|
    ensures EventIn(run, cooldown, i, pk).Some? && EventIn(run, cooldown, i, pk).value.kind == Recovered
       <==> && (exists m: nat :: UpSince(run, polls, cooldown, m, i, pk))
            && Monitored(polls[i], pk.0) && !Reports(polls[i], pk.0, pk.1)
  {
    var st, f := StateAfter(run[..i], cooldown), run[i];
    RunCoupled(run[..i], cooldown);
    assert Sees(f, polls[i]);
    FrameTold(f, polls[i], pk);
    ActiveExactly(run, polls, cooldown, i, pk);
    RecoveredStep(st, f, cooldown, pk);
    hide StateAfter, Step, EventAt, Told, UpSince;
  }

  lemma RecoveredStep(st: State, f: Frame, cooldown: real, pk: Pair)
    requires Coupled(st)
    ensures EventAt(st, f, cooldown, pk).Some? && EventAt(st, f, cooldown, pk).value.kind == Recovered
       <==> pk in st.active && !Gone(f, pk) && pk !in Present(f)
  {
    hide Pairs, ConditionAt, Speaks, Gone;
  }

  /** Every event is about a polled host that is not paused, under its name; alerts carry the condition's severity and
      text, recoveries the text of the last report, as information. */
  lemma EventTold(run: seq<Frame>, polls: seq<seq<Envelope>>, cooldown: real, i: nat, pk: Pair, ev: Event)
    requires Told(run, polls) && i < |run| && EventIn(run, cooldown, i, pk) == Some(ev)
    ensures ev.hostId == pk.0 && ev.key == pk.1
    ensures
      exists e :: e in polls[i] && e.id == pk.0 && !e.disabled
        && ev.host == (if e.name.Some? then e.name.value else e.id)
        && (if ev.kind == Recovered then pk.1 !in e.conditions && ev.severity == Info
            else pk.1 in e.conditions && Condition(ev.severity, ev.detail) == e.conditions[pk.1])
    ensures ev.kind == Recovered ==>
            exists m: nat :: LastReport(run, cooldown, m, i, pk) && Said(polls, m, pk, ev.detail)
  {
    var st, f := StateAfter(run[..i], cooldown), run[i];
    RunCoupled(run[..i], cooldown);
    assert Sees(f, polls[i]);
    FrameTold(f, polls[i], pk);
    EventFields(st, f, cooldown, pk, ev);
    var e :| e in polls[i] && e.id == pk.0 != "" && !e.disabled;
    FrameShows(f, polls[i], e, pk);
    assert pk.1 in e.conditions ==> Reports(polls[i], pk.0, pk.1);
    if ev.kind == Recovered {
      ActiveExactly(run, polls, cooldown, i, pk);
      DetailIsLastText(run[..i], cooldown, pk);
      var m := LatestReport(run, polls, cooldown, i, pk);
      LastReportText(run, cooldown, m, i, pk);
      TextTold(run, polls, m, pk, ev.detail);
    }
    hide StateAfter, Step, EventAt, Told, UpSince;
  }

  lemma EventFields(st: State, f: Frame, cooldown: real, pk: Pair, ev: Event)
    requires Coupled(st) && EventAt(st, f, cooldown, pk) == Some(ev) && (pk in Present(f) ==> !Gone(f, pk))
    ensures PairOf(ev) == pk && !Gone(f, pk) && ev.host == f.snap[pk.0].name
    ensures pk in Present(f) ==> ev.kind != Recovered && Condition(ev.severity, ev.detail) == ConditionAt(f.snap, pk)
    ensures pk !in Present(f) ==>
            ev.kind == Recovered && ev.severity == Info && pk in st.active && Text(st.detail, pk) == Some(ev.detail)
  {
    hide ConditionAt, Speaks;
  }

  // ---- Pausing and starting over ----

  /** A host that is paused or missing gives no event in that cycle, and none of its pairs is up or has a streak
      after it. */
  lemma PausedSilent(run: seq<Frame>, polls: seq<seq<Envelope>>, cooldown: real, i: nat, pk: Pair)
    requires Told(run, polls) && i < |run| && !Monitored(polls[i], pk.0)
    ensures EventIn(run, cooldown, i, pk).None?
    ensures
      var after := StateAfter(run[..i + 1], cooldown);
      pk !in after.active && pk !in after.detail && pk !in after.streak
  {
    TrackedTold(run, polls, i, pk);
    AfterPrefix(run, cooldown, i);
    RunCoupled(run[..i], cooldown);
    RunCoupled(run[..i + 1], cooldown);
    StepCoupled(StateAfter(run[..i], cooldown), run[i], cooldown);
    if EventIn(run, cooldown, i, pk).Some? {
      EventFields(StateAfter(run[..i], cooldown), run[i], cooldown, pk, EventIn(run, cooldown, i, pk).value);
    }
    hide Step, EventAt, StateAfter;
  }

  /** When a condition is back after a cycle in which its host was paused or missing, it starts over: its streak is
      one, and an alert needs a threshold of at most one and says firing. */
  lemma StartsOver(run: seq<Frame>, polls: seq<seq<Envelope>>, cooldown: real, k: nat, i: nat, pk: Pair)
    requires Told(run, polls) && k < i < |run|
    requires !Monitored(polls[k], pk.0) && Tracked(run, polls, i, pk)
    requires forall l: nat :: k < l < i ==> !Tracked(run, polls, l, pk)
    ensures Count(StateAfter(run[..i + 1], cooldown).streak, pk) == 1
    ensures Alert(EventIn(run, cooldown, i, pk)) ==>
            EventIn(run, cooldown, i, pk).value.kind == Firing && run[i].flap <= 1
  {
    var n: nat := i - 1;
    assert !Tracked(run, polls, n, pk) by {
      TrackedTold(run, polls, k, pk);
      hide Tracked, Told;
    }
    hide *;
    NewStreak(run, polls, cooldown, i, pk);
    if Alert(EventIn(run, cooldown, i, pk)) {
      NewAlert(run, polls, cooldown, i, pk);
    }
  }

  lemma NewAlert(run: seq<Frame>, polls: seq<seq<Envelope>>, cooldown: real, i: nat, pk: Pair)
    requires Told(run, polls) && 0 < i < |run| && !Tracked(run, polls, i - 1, pk)
    requires Count(StateAfter(run[..i + 1], cooldown).streak, pk) == 1 && Alert(EventIn(run, cooldown, i, pk))
    ensures EventIn(run, cooldown, i, pk).value.kind == Firing && run[i].flap <= 1
  {
    TrackedTold(run, polls, i - 1, pk);
    assert EventIn(run, cooldown, i, pk).Some?;
    hide *;
    Debounced(run, cooldown, i, pk);
    StreakIsUnbroken(run[..i + 1], cooldown, pk);
    RecurrenceIsNew(run, cooldown, i - 1, i, pk);
  }

  lemma NewStreak(run: seq<Frame>, polls: seq<seq<Envelope>>, cooldown: real, i: nat, pk: Pair)
    requires Told(run, polls) && 0 < i < |run|
    requires Tracked(run, polls, i, pk) && !Tracked(run, polls, i - 1, pk)
    ensures Count(StateAfter(run[..i + 1], cooldown).streak, pk) == 1
  {
    StreakExactly(run, polls, cooldown, i + 1, 1, pk);
    StreakExactly(run, polls, cooldown, i + 1, 2, pk);
    hide StateAfter, Step, Tracked, Told;
  }

  // ---- Polls and requests ----

  /** The results of the polls among the turns, in order. */
  function PollsOf(turns: seq<Turn>): seq<seq<Envelope>> {
    if turns == [] then []
    else
      var n := |turns| - 1;
      PollsOf(turns[..n]) + if turns[n].Poll? then [turns[n].results] else []
  }

  /** A run with requests that set and drop acknowledgements in between is told by its polls. */
  lemma {:induction false} TurnsTold(acks: map<string, Ack>, turns: seq<Turn>)
    requires forall t :: t in turns && t.Poll? ==> DistinctIds(t.results)
    ensures Told(Frames(acks, turns), PollsOf(turns))
  {
    if turns != [] {
      var n: nat := |turns| - 1;
      TurnsTold(acks, turns[..n]);
      assert turns[n] in turns;
      if turns[n].Poll? {
        FrameSees(turns[n].results, AcksAfter(acks, turns[..n]), turns[n].ackNow, turns[n].now, turns[n].flap);
      }
      hide Sees, AcksAfter;
    }
  }

  lemma FrameSees(results: seq<Envelope>, acks: map<string, Ack>, ackNow: real, now: real, flap: int)
    requires DistinctIds(results)
    ensures Sees(FrameOf(results, acks, ackNow, now, flap), results)
    ensures FrameOf(results, acks, ackNow, now, flap).now == now
    ensures FrameOf(results, acks, ackNow, now, flap).flap == flap
  {
    hide SnapshotConditions, Pairs;
  }

  /** A pair is acknowledged in a cycle exactly if its poll reports it and its stored acknowledgement has no end or
      one that the clock has not reached. */
  lemma AckedExactly(results: seq<Envelope>, acks: map<string, Ack>, ackNow: real, now: real, flap: int, pk: Pair)
    requires DistinctIds(results)
    ensures
      var f, key := FrameOf(results, acks, ackNow, now, flap), pk.0 + "|" + pk.1;
      pk in f.acked <==>
      && Reports(results, pk.0, pk.1) && key in acks
      && (acks[key].until == None || ackNow < acks[key].until.value as real)
  {
    FrameSees(results, acks, ackNow, now, flap);
    FrameTold(FrameOf(results, acks, ackNow, now, flap), results, pk);
    hide SnapshotConditions, Sees, Reports;
    var f := FrameOf(results, acks, ackNow, now, flap);
    assert pk in Pairs(f.snap) ==> AckKey(pk.0, pk.1) in AckKeys(f.snap);
  }

  /** Some pair that the poll reports has this acknowledgement key. */
  ghost predicate KeyReported(results: seq<Envelope>, key: string) {
    exists h, k :: Reports(results, h, k) && h + "|" + k == key
  }

  /** A poll spares an acknowledgement if it reports the condition and the end has not come, a request if it is about
      another one. */
  ghost predicate Spares(t: Turn, key: string, a: Ack) {
    match t
    case Poll(results, ackNow, _, _) =>
      KeyReported(results, key) && (a.until == None || ackNow < a.until.value as real)
    case SetAck(k, _) => k != key
    case DropAck(k) => k != key
  }

  ghost predicate Lasts(turns: seq<Turn>, s: nat, key: string, a: Ack) {
    forall l: nat :: s <= l < |turns| ==> Spares(turns[l], key, a)
  }

  /** An acknowledgement was stored in turn s, and has lasted since. */
  ghost predicate StoredSince(turns: seq<Turn>, s: nat, key: string, a: Ack) {
    s < |turns| && turns[s] == SetAck(key, a) && Lasts(turns, s + 1, key, a)
  }

  /** The stored acknowledgements, told by the turns: one that a request set, or that was there at the start, and that
      has lasted since. */
  lemma {:induction false} StoredExactly(acks: map<string, Ack>, turns: seq<Turn>, key: string, a: Ack)
    requires forall t :: t in turns && t.Poll? ==> DistinctIds(t.results)
    ensures key in AcksAfter(acks, turns) && AcksAfter(acks, turns)[key] == a
       <==> || (exists s: nat :: StoredSince(turns, s, key, a))
            || (key in acks && acks[key] == a && Lasts(turns, 0, key, a))
  {
    if turns != [] {
      var n: nat := |turns| - 1;
      var rest := turns[..n];
      StoredExactly(acks, rest, key, a);
      assert turns[n] in turns;
      assert turns == rest + [turns[n]];
      StoredStep(acks, rest, turns[n], key, a);
      LastsStep(rest, turns[n], 0, key, a);
      StoredSinceStep(rest, turns[n], key, a);
      hide AcksAfter, Lasts, KeyReported, StoredSince;
    }
  }

  lemma LastsStep(turns: seq<Turn>, t: Turn, s: nat, key: string, a: Ack)
    requires s <= |turns|
    ensures Lasts(turns + [t], s, key, a) <==> Lasts(turns, s, key, a) && Spares(t, key, a)
  {
    hide Spares;
    var longer := turns + [t];
    assert longer[|turns|] == t;
    assert forall l: nat :: l < |turns| ==> longer[l] == turns[l];
  }

  lemma StoredSinceStep(turns: seq<Turn>, t: Turn, key: string, a: Ack)
    ensures (exists s: nat :: StoredSince(turns + [t], s, key, a))
       <==> t == SetAck(key, a) || (Spares(t, key, a) && exists s: nat :: StoredSince(turns, s, key, a))
  {
    hide Lasts, Spares;
    var longer := turns + [t];
    forall s: nat | s < |turns|
      ensures StoredSince(longer, s, key, a) <==> StoredSince(turns, s, key, a) && Spares(t, key, a)
    {
      LastsStep(turns, t, s + 1, key, a);
    }
    assert Lasts(longer, |turns| + 1, key, a) by { LastsNothing(longer, key, a); }
    assert StoredSince(longer, |turns|, key, a) <==> t == SetAck(key, a);
  }

  lemma LastsNothing(turns: seq<Turn>, key: string, a: Ack)
    ensures Lasts(turns, |turns|, key, a)
  {}

  lemma StoredStep(acks: map<string, Ack>, turns: seq<Turn>, t: Turn, key: string, a: Ack)
    requires t.Poll? ==> DistinctIds(t.results)
    ensures
      var before, after := AcksAfter(acks, turns), AcksAfter(acks, turns + [t]);
      key in after && after[key] == a
      <==> t == SetAck(key, a) || (Spares(t, key, a) && key in before && before[key] == a)
  {
    assert (turns + [t])[..|turns|] == turns;
    if t.Poll? {
      KeysTold(t.results, key);
    }
    hide KeyReported, AckKeys, SnapshotConditions;
  }

  lemma KeysTold(results: seq<Envelope>, key: string)
    requires DistinctIds(results)
    ensures key in AckKeys(SnapshotConditions(results)) <==> KeyReported(results, key)
  {
    var f := FrameOf(results, map[], 0.0, 0.0, 0);
    FrameSees(results, map[], 0.0, 0.0, 0);
    forall h, k ensures (h, k) in Pairs(f.snap) <==> Reports(results, h, k) {
      FrameTold(f, results, (h, k));
    }
    hide SnapshotConditions, Sees, Reports, Pairs;
    if pk :| pk in Pairs(f.snap) && AckKey(pk.0, pk.1) == key {
      assert Reports(results, pk.0, pk.1);
    }
    if h, k :| Reports(results, h, k) && h + "|" + k == key {
      assert (h, k) in Pairs(f.snap) && AckKey((h, k).0, (h, k).1) == key;
    }
  }
}
