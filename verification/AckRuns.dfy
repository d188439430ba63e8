/** Runs of polls with an acknowledgement store that requests change in between. */
module AckRuns {
  import opened Wrappers
  import opened Monitoring
  import opened Monitor
  import opened MonitorRuns

  /** A cycle with its poll results, clocks and threshold, or a request that sets or drops an acknowledgement. */
  datatype Turn =
    | Poll(results: seq<Envelope>, ackNow: real, now: real, flap: int)
    | SetAck(key: string, ack: Ack)
    | DropAck(key: string)

  /** The stored acknowledgements after the turns: each poll prunes them. */
  function AcksAfter(acks: map<string, Ack>, turns: seq<Turn>): map<string, Ack> {
    if turns == [] then acks
    else
      var before := AcksAfter(acks, turns[..|turns| - 1]);
      match turns[|turns| - 1]
      case Poll(results, ackNow, _, _) => Kept(before, AckKeys(SnapshotConditions(results)), ackNow)
      case SetAck(key, ack) => before[key := ack]
      case DropAck(key) => before - {key}
  }

  /** What the cycle of turn i sees. */
  function FrameAt(acks: map<string, Ack>, turns: seq<Turn>, i: nat): Frame
    requires i < |turns| && turns[i].Poll?
  {
    FrameOf(turns[i].results, AcksAfter(acks, turns[..i]), turns[i].ackNow, turns[i].now, turns[i].flap)
  }

  /** The frames of the polls, in order: the run that the notifier goes through. */
  function Frames(acks: map<string, Ack>, turns: seq<Turn>): seq<Frame> {
    if turns == [] then []
    else
      var n := |turns| - 1;
      Frames(acks, turns[..n]) + if turns[n].Poll? then [FrameAt(acks, turns, n)] else []
  }

  /** The number of the cycle that turn i is. */
  function CycleOf(acks: map<string, Ack>, turns: seq<Turn>, i: nat): nat
    requires i < |turns|
  {
    |Frames(acks, turns[..i])|
  }

  lemma {:induction false} FramesPrefix(acks: map<string, Ack>, turns: seq<Turn>, i: nat)
    requires i <= |turns|
    ensures Frames(acks, turns[..i]) <= Frames(acks, turns)
  {
    if i < |turns| {
      var n := |turns| - 1;
      FramesPrefix(acks, turns[..n], i);
      assert turns[..n][..i] == turns[..i];
    } else {
      assert turns[..i] == turns;
    }
  }

  lemma FrameOfTurn(acks: map<string, Ack>, turns: seq<Turn>, i: nat)
    requires i < |turns| && turns[i].Poll?
    ensures CycleOf(acks, turns, i) < |Frames(acks, turns)|
    ensures Frames(acks, turns)[CycleOf(acks, turns, i)] == FrameAt(acks, turns, i)
  {
    FramesPrefix(acks, turns, i + 1);
    assert turns[..i + 1][..i] == turns[..i];
  }

  lemma CyclesInOrder(acks: map<string, Ack>, turns: seq<Turn>, i: nat, j: nat)
    requires i < j < |turns| && turns[i].Poll?
    ensures CycleOf(acks, turns, i) < CycleOf(acks, turns, j)
  {
    FramesPrefix(acks, turns[..j], i + 1);
    assert turns[..j][..i + 1] == turns[..i + 1] && turns[..i + 1][..i] == turns[..i];
  }

  /** Condition keys hold no '|'. */
  predicate PlainKeys(snap: Snapshot) {
    forall pk :: pk in Pairs(snap) ==> '|' !in pk.1
  }

  lemma KeyPresent(snap: Snapshot, pk: Pair)
    requires PlainKeys(snap) && '|' !in pk.1
    ensures AckKey(pk.0, pk.1) in AckKeys(snap) <==> pk in Pairs(snap)
  {
    hide Pairs, AckKey;
    forall q | q in Pairs(snap) && AckKey(q.0, q.1) == AckKey(pk.0, pk.1) ensures q == pk {
      AckKeyInjective(q.0, q.1, pk.0, pk.1);
    }
  }

  /** Acknowledging a pair silences that pair, as long as the acknowledgement runs, and changes no other. */
  lemma AckSilencesOne(results: seq<Envelope>, acks: map<string, Ack>, pk: Pair, a: Ack,
                       ackNow: real, now: real, flap: int)
    requires PlainKeys(SnapshotConditions(results)) && '|' !in pk.1
    ensures
      var before := FrameOf(results, acks, ackNow, now, flap);
      var after := FrameOf(results, acks[AckKey(pk.0, pk.1) := a], ackNow, now, flap);
      after.acked == before.acked - {pk} +
        if pk in Pairs(before.snap) && (a.until == None || ackNow < a.until.value as real) then {pk} else {}
  {
    var snap := SnapshotConditions(results);
    var more := acks[AckKey(pk.0, pk.1) := a];
    KeyPresent(snap, pk);
    hide Pairs, SnapshotConditions, AckKey;
    forall q | q in Pairs(snap) && q != pk ensures AckKey(q.0, q.1) != AckKey(pk.0, pk.1) {
      if AckKey(q.0, q.1) == AckKey(pk.0, pk.1) {
        AckKeyInjective(q.0, q.1, pk.0, pk.1);
      }
    }
  }

  // ---- From an acknowledgement on ----

  /** Over the turns after s, the condition stays present, the acknowledgement runs, and no request touches it. */
  predicate Undisturbed(turns: seq<Turn>, s: nat, t: nat, pk: Pair, a: Ack) {
    forall l :: s < l <= t && l < |turns| ==>
      match turns[l]
      case Poll(results, ackNow, _, _) =>
        pk in Pairs(SnapshotConditions(results)) && (a.until == None || ackNow < a.until.value as real)
      case SetAck(key, _) => key != AckKey(pk.0, pk.1)
      case DropAck(key) => key != AckKey(pk.0, pk.1)
  }

  lemma {:induction false} AckHolds(acks: map<string, Ack>, turns: seq<Turn>, s: nat, t: nat, pk: Pair, a: Ack)
    requires s <= t < |turns| && turns[s] == SetAck(AckKey(pk.0, pk.1), a) && Undisturbed(turns, s, t, pk, a)
    ensures AckKey(pk.0, pk.1) in AcksAfter(acks, turns[..t + 1])
    ensures AcksAfter(acks, turns[..t + 1])[AckKey(pk.0, pk.1)] == a
    decreases t
  {
    assert turns[..t + 1][..t] == turns[..t];
    if s < t {
      AckHolds(acks, turns, s, t - 1, pk, a);
      hide Pairs, SnapshotConditions, AckKey, Running;
      assert turns[t].Poll? ==> AckKey(pk.0, pk.1) in AckKeys(SnapshotConditions(turns[t].results));
    }
  }

  /** While its condition stays and its end has not come, an acknowledgement keeps the pair silent in every cycle. */
  lemma AckSilences(acks: map<string, Ack>, turns: seq<Turn>, cooldown: real, s: nat, t: nat, pk: Pair, a: Ack)
    requires s < t < |turns| && turns[s] == SetAck(AckKey(pk.0, pk.1), a) && Undisturbed(turns, s, t, pk, a)
    requires turns[t].Poll?
    ensures CycleOf(acks, turns, t) < |Frames(acks, turns)|
    ensures EventIn(Frames(acks, turns), cooldown, CycleOf(acks, turns, t), pk).None?
  {
    AckHolds(acks, turns, s, t - 1, pk, a);
    FrameOfTurn(acks, turns, t);
    hide Pairs, SnapshotConditions, AckKey, EventAt, StateAfter, AcksAfter, Frames, Running;
    assert pk in FrameAt(acks, turns, t).acked;
    var i := CycleOf(acks, turns, t);
    AckedSilent(StateAfter(Frames(acks, turns)[..i], cooldown), Frames(acks, turns)[i], cooldown, pk);
  }

  // ---- After the condition has cleared once ----

  lemma {:induction false} AckGone(acks: map<string, Ack>, turns: seq<Turn>, i: nat, j: nat, pk: Pair)
    requires i < j <= |turns| && turns[i].Poll? && '|' !in pk.1
    requires PlainKeys(SnapshotConditions(turns[i].results)) && pk !in Pairs(SnapshotConditions(turns[i].results))
    requires forall l :: i < l < j && turns[l].SetAck? ==> turns[l].key != AckKey(pk.0, pk.1)
    ensures AckKey(pk.0, pk.1) !in AcksAfter(acks, turns[..j])
    decreases j
  {
    assert turns[..j][..j - 1] == turns[..j - 1];
    if j == i + 1 {
      KeyPresent(SnapshotConditions(turns[i].results), pk);
    } else {
      AckGone(acks, turns, i, j - 1, pk);
    }
    hide Pairs, SnapshotConditions, AckKey, Running;
  }

  /**
    * An acknowledgement ends by itself: a condition that was absent in one poll and is present again later is
    * tracked, unless it was acknowledged anew, and the first event it gives is firing.
    */
  lemma RecurrenceTracked(acks: map<string, Ack>, turns: seq<Turn>, cooldown: real, i: nat, j: nat, pk: Pair)
    requires i < j < |turns| && turns[i].Poll? && turns[j].Poll? && '|' !in pk.1
    requires PlainKeys(SnapshotConditions(turns[i].results)) && pk !in Pairs(SnapshotConditions(turns[i].results))
    requires pk in Pairs(SnapshotConditions(turns[j].results))
    requires forall l :: i < l < j && turns[l].SetAck? ==> turns[l].key != AckKey(pk.0, pk.1)
    ensures pk in Present(FrameAt(acks, turns, j))
    ensures
      var run, m, n := Frames(acks, turns), CycleOf(acks, turns, i), CycleOf(acks, turns, j);
      && m < n < |run| && run[n] == FrameAt(acks, turns, j)
      && ((forall l :: m < l < n ==> !Alert(EventIn(run, cooldown, l, pk))) && EventIn(run, cooldown, n, pk).Some?
          ==> EventIn(run, cooldown, n, pk).value.kind == Firing)
  {
    AckGone(acks, turns, i, j, pk);
    FrameOfTurn(acks, turns, i);
    FrameOfTurn(acks, turns, j);
    CyclesInOrder(acks, turns, i, j);
    hide Pairs, SnapshotConditions, AckKey, EventAt, StateAfter, AcksAfter, Frames, Running;
    assert pk !in Present(FrameAt(acks, turns, i));
    var run, m, n := Frames(acks, turns), CycleOf(acks, turns, i), CycleOf(acks, turns, j);
    if (forall l :: m < l < n ==> !Alert(EventIn(run, cooldown, l, pk))) && EventIn(run, cooldown, n, pk).Some? {
      RecurrenceIsNew(run, cooldown, m, n, pk);
    }
  }
}
