/** The login throttle: a pruned in-memory table of failed attempts that answers as the full history would. */
module LoginThrottle {

  datatype FailKey = Ip(ip: string) | User(ip: string, user: string)

  /** What happened to the throttle, oldest first. */
  datatype Attempt = Failed(ip: string, user: string, at: real) | Succeeded(ip: string, user: string)

  /** The timestamps still inside the window. */
  function Recent(ts: seq<real>, now: real, window: real): (r: seq<real>)
    ensures |r| <= |ts|
  {
    if ts == [] then []
    else
      var rest, t := Recent(ts[..|ts| - 1], now, window), ts[|ts| - 1];
      if now - t < window then rest + [t] else rest
  }

  /** Every failure of a key in the complete history; a success clears its (ip, user) key. */
  function History(log: seq<Attempt>, key: FailKey): seq<real> {
    if log == [] then []
    else
      var rest := History(log[..|log| - 1], key);
      match log[|log| - 1]
      case Failed(ip, user, at) => if key == Ip(ip) || key == User(ip, user) then rest + [at] else rest
      case Succeeded(ip, user) => if key == User(ip, user) then [] else rest
  }

  // ---- The log, read position by position ----

  /** Entry i of the log is a failure that counts for the key: one of its address, or one of its address and user
      with no success since. */
  predicate Counts(log: seq<Attempt>, key: FailKey, i: nat)
    requires i < |log|
  {
    match log[i]
    case Failed(ip, user, _) =>
      key == Ip(ip) || (key == User(ip, user) && forall j :: i < j < |log| ==> log[j] != Succeeded(ip, user))
    case Succeeded(_, _) => false
  }

  /** The failures of a key that are less than a window old. */
  ghost function RecentFailures(log: seq<Attempt>, key: FailKey, now: real, window: real): set<nat> {
    set i: nat | i < |log| && Counts(log, key, i) && now - log[i].at < window
  }

  /** The failures of a key in [from, from + window). */
  ghost function FailuresFrom(log: seq<Attempt>, key: FailKey, from: real, window: real): set<nat> {
    set i: nat | i < |log| && Counts(log, key, i) && from <= log[i].at < from + window
  }

  lemma CountsStep(log: seq<Attempt>, key: FailKey)
    requires log != []
    ensures
      var n := |log| - 1;
      && (Counts(log, key, n) <==> log[n].Failed? && key in {Ip(log[n].ip), User(log[n].ip, log[n].user)})
      && forall i: nat :: i < n ==>
           (Counts(log, key, i)
            <==> Counts(log[..n], key, i) && !(log[n].Succeeded? && key == User(log[n].ip, log[n].user)))
  {
    var n := |log| - 1;
    forall i: nat | i < n
      ensures Counts(log, key, i) <==>
              Counts(log[..n], key, i) && !(log[n].Succeeded? && key == User(log[n].ip, log[n].user))
    {
      assert log[..n][i] == log[i];
    }
  }

  lemma {:induction false} RecentCount(log: seq<Attempt>, key: FailKey, now: real, window: real)
    ensures |Recent(History(log, key), now, window)| == |RecentFailures(log, key, now, window)|
  {
    if log == [] {
      assert RecentFailures(log, key, now, window) == {};
    } else {
      var n := |log| - 1;
      var ts := History(log[..n], key);
      RecentCount(log[..n], key, now, window);
      RecentFailuresStep(log, key, now, window);
      if log[n].Failed? {
        assert (ts + [log[n].at])[..|ts|] == ts;
      }
      hide RecentFailures;
    }
  }

  lemma RecentFailuresStep(log: seq<Attempt>, key: FailKey, now: real, window: real)
    requires log != []
    ensures
      var n := |log| - 1;
      var before, after := |RecentFailures(log[..n], key, now, window)|, |RecentFailures(log, key, now, window)|;
      after == match log[n]
               case Failed(ip, user, at) =>
                 before + if key in {Ip(ip), User(ip, user)} && now - at < window then 1 else 0
               case Succeeded(ip, user) => if key == User(ip, user) then 0 else before
  {
    var n: nat := |log| - 1;
    CountsStep(log, key);
    hide Counts;
    var before, after := RecentFailures(log[..n], key, now, window), RecentFailures(log, key, now, window);
    var cleared := log[n].Succeeded? && key == User(log[n].ip, log[n].user);
    var added := if Counts(log, key, n) && now - log[n].at < window then {n} else {};
    forall i: nat ensures i in after <==> (i in before && !cleared) || i in added {
      assert i < n ==> log[..n][i] == log[i];
    }
    assert after == (if cleared then {} else before) + added;
    assert n !in before;
  }

  lemma {:induction false} FailuresCount(log: seq<Attempt>, key: FailKey, from: real, window: real)
    ensures |Within(History(log, key), from, window)| == |FailuresFrom(log, key, from, window)|
  {
    if log == [] {
      assert FailuresFrom(log, key, from, window) == {};
    } else {
      var n := |log| - 1;
      FailuresCount(log[..n], key, from, window);
      FailuresStep(log, key, from, window);
      assert Within([], from, window) == [];
      if log[n].Failed? {
        WithinAppend(History(log[..n], key), log[n].at, from, window);
      }
      hide Within, FailuresFrom;
    }
  }

  lemma FailuresStep(log: seq<Attempt>, key: FailKey, from: real, window: real)
    requires log != []
    ensures
      var n := |log| - 1;
      var before, after := |FailuresFrom(log[..n], key, from, window)|, |FailuresFrom(log, key, from, window)|;
      after == match log[n]
               case Failed(ip, user, at) =>
                 before + if key in {Ip(ip), User(ip, user)} && from <= at < from + window then 1 else 0
               case Succeeded(ip, user) => if key == User(ip, user) then 0 else before
  {
    var n: nat := |log| - 1;
    CountsStep(log, key);
    hide Counts;
    var before, after := FailuresFrom(log[..n], key, from, window), FailuresFrom(log, key, from, window);
    var cleared := log[n].Succeeded? && key == User(log[n].ip, log[n].user);
    var added := if Counts(log, key, n) && from <= log[n].at < from + window then {n} else {};
    forall i: nat ensures i in after <==> (i in before && !cleared) || i in added {
      assert i < n ==> log[..n][i] == log[i];
    }
    assert after == (if cleared then {} else before) + added;
    assert n !in before;
  }

  /** With RecentOne: what is recent of a list is each timestamp less than a window old, in order. */
  lemma {:induction false} RecentAppend(ts: seq<real>, us: seq<real>, now: real, window: real)
    ensures Recent(ts + us, now, window) == Recent(ts, now, window) + Recent(us, now, window)
  {
    if us == [] {
      assert ts + us == ts;
    } else {
      var s := ts + us;
      assert s[..|s| - 1] == ts + us[..|us| - 1];
      RecentAppend(ts, us[..|us| - 1], now, window);
    }
  }

  lemma RecentOne(t: real, now: real, window: real)
    ensures Recent([t], now, window) == if now - t < window then [t] else []
  {
    assert [t][..0] == [];
  }

  /** Pruning earlier does not change what is recent later. */
  lemma {:induction false} RecentOfRecent(ts: seq<real>, earlier: real, now: real, window: real)
    requires earlier <= now
    ensures Recent(Recent(ts, earlier, window), now, window) == Recent(ts, now, window)
  {
    if ts != [] {
      var rest, t := ts[..|ts| - 1], ts[|ts| - 1];
      RecentOfRecent(rest, earlier, now, window);
      if earlier - t < window {
        RecentAppend(Recent(rest, earlier, window), [t], now, window);
        assert [t][..0] == [];
      }
    }
  }

  /** The table entry and the full history agree at every time from clock on. */
  ghost predicate Agrees(ts: seq<real>, full: seq<real>, clock: real, window: real) {
    forall now :: clock <= now ==> Recent(ts, now, window) == Recent(full, now, window)
  }

  lemma AgreesAfterPrune(ts: seq<real>, full: seq<real>, clock: real, now: real, window: real)
    requires Agrees(ts, full, clock, window) && clock <= now
    ensures Agrees(Recent(ts, now, window), full, now, window)
  {
    forall later | now <= later ensures Recent(Recent(ts, now, window), later, window) == Recent(full, later, window) {
      RecentOfRecent(ts, now, later, window);
    }
  }

  lemma AgreesAfterAppend(ts: seq<real>, full: seq<real>, clock: real, t: real, window: real)
    requires Agrees(ts, full, clock, window)
    ensures Agrees(ts + [t], full + [t], clock, window)
  {
    forall now | clock <= now ensures Recent(ts + [t], now, window) == Recent(full + [t], now, window) {
      RecentAppend(ts, [t], now, window);
      RecentAppend(full, [t], now, window);
    }
  }

  function Entry(fails: map<FailKey, seq<real>>, key: FailKey): seq<real> {
    if key in fails then fails[key] else []
  }

  class Throttle {
    var fails: map<FailKey, seq<real>>
    const window: real
    const maxPerUser: int
    const maxPerIp: int
    ghost var log: seq<Attempt>
    ghost var clock: real

    /** The table agrees with the complete log from the last observed time on. */
    ghost predicate Valid()
      reads this
    {
      forall key :: Agrees(Entry(fails, key), History(log, key), clock, window)
    }

    constructor (window: real, maxPerUser: int, maxPerIp: int)
      ensures Valid() && log == [] && clock == 0.0
      ensures this.window == window && this.maxPerUser == maxPerUser && this.maxPerIp == maxPerIp
    {
      fails := map[];
      this.window, this.maxPerUser, this.maxPerIp := window, maxPerUser, maxPerIp;
      log, clock := [], 0.0;
    }

    /** Drops the expired timestamps of one key, and the key itself when none is left. */
    method PruneFails(key: FailKey, now: real) returns (ts: seq<real>)
      modifies this`fails
      ensures ts == Recent(Entry(old(fails), key), now, window) == Entry(fails, key)
      ensures forall k :: k != key ==> Entry(fails, k) == Entry(old(fails), k)
    {
      ts := Recent(Entry(fails, key), now, window);
      if ts != [] {
        fails := fails[key := ts];
      } else {
        fails := fails - {key};
      }
    }

    /** Pruning keeps the agreement. */
    lemma PrunedAgrees(before: map<FailKey, seq<real>>, after: map<FailKey, seq<real>>, earlier: real, now: real)
      requires earlier <= now
      requires forall key :: Agrees(Entry(before, key), History(log, key), earlier, window)
      requires forall key :: Entry(after, key) == Entry(before, key)
                             || Entry(after, key) == Recent(Entry(before, key), now, window)
      ensures forall key :: Agrees(Entry(after, key), History(log, key), now, window)
    {
      forall key ensures Agrees(Entry(after, key), History(log, key), now, window) {
        assert Agrees(Entry(before, key), History(log, key), earlier, window);
        AgreesAfterPrune(Entry(before, key), History(log, key), earlier, now, window);
      }
    }

    /** The answer is the one the complete log gives: a limit is reached by failures less than a window old. */
    method LoginThrottled(ip: string, user: string, now: real) returns (throttled: bool)
      requires Valid() && clock <= now
      modifies this`fails, this`clock
      ensures Valid() && clock == now
      ensures throttled <==> |RecentFailures(log, Ip(ip), now, window)| >= maxPerIp
                             || |RecentFailures(log, User(ip, user), now, window)| >= maxPerUser
    {
      RecentCount(log, Ip(ip), now, window);
      RecentCount(log, User(ip, user), now, window);
      ghost var before := fails;
      assert Agrees(Entry(fails, Ip(ip)), History(log, Ip(ip)), clock, window);
      assert Agrees(Entry(fails, User(ip, user)), History(log, User(ip, user)), clock, window);
      var ts := PruneFails(Ip(ip), now);
      throttled := |ts| >= maxPerIp;
      PrunedAgrees(before, fails, clock, now);
      if !throttled {
        ghost var middle := fails;
        ghost var earlier := clock;
        clock := now;
        assert Entry(fails, User(ip, user)) == Entry(before, User(ip, user));
        ts := PruneFails(User(ip, user), now);
        throttled := |ts| >= maxPerUser;
        PrunedAgrees(middle, fails, now, now);
      }
      clock := now;
    }

    /** Prunes every key. */
    method Sweep(now: real)
      modifies this`fails
      ensures forall key :: Entry(fails, key) == Recent(Entry(old(fails), key), now, window)
    {
      ghost var before := fails;
      var todo := fails.Keys;
      while todo != {}
        invariant forall key :: key in before.Keys - todo ==>
                    Entry(fails, key) == Recent(Entry(before, key), now, window)
        invariant forall key :: key !in before.Keys - todo ==> Entry(fails, key) == Entry(before, key)
        invariant todo <= before.Keys
      {
        var key :| key in todo;
        var ts := PruneFails(key, now);
        todo := todo - {key};
      }
    }

    /** Records one failure under both keys; a large table is swept first. */
    method LoginFailed(ip: string, user: string, now: real)
      requires Valid() && clock <= now
      modifies this`fails, this`clock, this`log
      ensures Valid() && clock == now && log == old(log) + [Failed(ip, user, now)]
    {
      ghost var before := fails;
      if |fails| > 5000 {
        Sweep(now);
      }
      PrunedAgrees(before, fails, clock, now);
      ghost var swept := fails;
      fails := fails[Ip(ip) := Entry(fails, Ip(ip)) + [now]];
      fails := fails[User(ip, user) := Entry(fails, User(ip, user)) + [now]];
      ghost var longer := log + [Failed(ip, user, now)];
      forall key ensures Agrees(Entry(fails, key), History(longer, key), now, window) {
        assert longer[..|longer| - 1] == log;
        assert Agrees(Entry(swept, key), History(log, key), now, window);
        if key == Ip(ip) || key == User(ip, user) {
          AgreesAfterAppend(Entry(swept, key), History(log, key), now, now, window);
        }
      }
      log := longer;
      clock := now;
    }

    /** A success clears the failures of its own (ip, user) key. */
    method LoginSucceeded(ip: string, user: string)
      requires Valid()
      modifies this`fails, this`log
      ensures Valid() && log == old(log) + [Succeeded(ip, user)]
    {
      ghost var before, longer := fails, log + [Succeeded(ip, user)];
      fails := fails - {User(ip, user)};
      forall key ensures Agrees(Entry(fails, key), History(longer, key), clock, window) {
        assert longer[..|longer| - 1] == log;
        assert Agrees(Entry(before, key), History(log, key), clock, window);
      }
      log := longer;
    }

    /** One login request: throttled, refused, or let in. The password check takes time. */
    method Login(ip: string, user: string, correct: bool, checked: real, answered: real) returns (outcome: Outcome)
      requires Valid() && clock <= checked <= answered
      modifies this
      ensures Valid()
      ensures outcome.TooMany? <==> |RecentFailures(old(log), Ip(ip), checked, window)| >= maxPerIp
                                    || |RecentFailures(old(log), User(ip, user), checked, window)| >= maxPerUser
      ensures !outcome.TooMany? ==> (outcome.LetIn? <==> correct)
      ensures log == old(log) + match outcome { case TooMany => [] case Refused => [Failed(ip, user, answered)]
                                                case LetIn => [Succeeded(ip, user)] }
      ensures outcome == Answer(old(log), ip, user, correct, checked, window, maxPerIp, maxPerUser)
      ensures log
           == old(log) + Recorded(old(log), ip, user, correct, checked, answered, window, maxPerIp, maxPerUser)
      ensures clock <= answered
    {
      var throttled := LoginThrottled(ip, user, checked);
      if throttled {
        return TooMany;
      }
      if !correct {
        LoginFailed(ip, user, answered);
        return Refused;
      }
      LoginSucceeded(ip, user);
      return LetIn;
    }
  }

  datatype Outcome = TooMany | Refused | LetIn

  /** The answer the complete history calls for. */
  ghost function Answer(log: seq<Attempt>, ip: string, user: string, correct: bool, now: real,
                        window: real, maxPerIp: int, maxPerUser: int): Outcome {
    if |RecentFailures(log, Ip(ip), now, window)| >= maxPerIp
       || |RecentFailures(log, User(ip, user), now, window)| >= maxPerUser then TooMany
    else if correct then LetIn
    else Refused
  }

  /** What a request adds to the history. */
  ghost function Recorded(log: seq<Attempt>, ip: string, user: string, correct: bool, checked: real, answered: real,
                          window: real, maxPerIp: int, maxPerUser: int): seq<Attempt> {
    match Answer(log, ip, user, correct, checked, window, maxPerIp, maxPerUser)
    case TooMany => []
    case Refused => [Failed(ip, user, answered)]
    case LetIn => [Succeeded(ip, user)]
  }

  // ---- The failure budget over whole runs ----

  datatype Request = Request(ip: string, user: string, correct: bool, checked: real, answered: real)

  /** The history after a run of requests served one at a time. */
  ghost function LogOf(requests: seq<Request>, window: real, maxPerIp: int, maxPerUser: int): seq<Attempt> {
    if requests == [] then []
    else
      var log := LogOf(requests[..|requests| - 1], window, maxPerIp, maxPerUser);
      var r := requests[|requests| - 1];
      log + Recorded(log, r.ip, r.user, r.correct, r.checked, r.answered, window, maxPerIp, maxPerUser)
  }

  /** Requests do not overlap and the clock does not go back. */
  ghost predicate OneAtATime(requests: seq<Request>) {
    && (forall i :: 0 <= i < |requests| ==> requests[i].checked <= requests[i].answered)
    && (forall i, j :: 0 <= i < j < |requests| ==> requests[i].answered <= requests[j].checked)
  }

  /** The timestamps in [from, from + window). */
  function Within(ts: seq<real>, from: real, window: real): seq<real> {
    if ts == [] then []
    else
      var rest, t := Within(ts[..|ts| - 1], from, window), ts[|ts| - 1];
      if from <= t < from + window then rest + [t] else rest
  }

  lemma {:induction false} WithinRecent(ts: seq<real>, from: real, now: real, window: real)
    requires now < from + window
    ensures |Within(ts, from, window)| <= |Recent(ts, now, window)|
  {
    if ts != [] {
      WithinRecent(ts[..|ts| - 1], from, now, window);
    }
  }

  /** The limit of failures in a window for a key. */
  function LimitOf(key: FailKey, maxPerIp: int, maxPerUser: int): int {
    if key.Ip? then maxPerIp else maxPerUser
  }

  /** A request leaves a key's history alone, clears it, or adds a failure to a history below the limit. */
  lemma HistoryStep(log: seq<Attempt>, r: Request, window: real, maxPerIp: int, maxPerUser: int, key: FailKey)
    ensures
      var before := History(log, key);
      var added := Recorded(log, r.ip, r.user, r.correct, r.checked, r.answered, window, maxPerIp, maxPerUser);
      var after := History(log + added, key);
      || after == before || after == []
      || (after == before + [r.answered] && |Recent(before, r.checked, window)| < LimitOf(key, maxPerIp, maxPerUser))
  {
    var added := Recorded(log, r.ip, r.user, r.correct, r.checked, r.answered, window, maxPerIp, maxPerUser);
    RecentCount(log, key, r.checked, window);
    hide Recent, RecentFailures;
    if added == [] {
      assert log + added == log;
    } else {
      assert (log + added)[..|log + added| - 1] == log;
    }
  }

  lemma WithinAppend(ts: seq<real>, t: real, from: real, window: real)
    ensures Within(ts + [t], from, window)
         == if from <= t < from + window then Within(ts, from, window) + [t] else Within(ts, from, window)
  {
    assert (ts + [t])[..|ts|] == ts;
  }

  /**
    * In any window at most maxPerIp failed password checks are recorded from one address, and at most
    * maxPerUser for one address and user name since that login last succeeded from there.
    */
  lemma FailureBudget(requests: seq<Request>, window: real, maxPerIp: int, maxPerUser: int, key: FailKey, from: real)
    requires OneAtATime(requests) && maxPerIp >= 0 && maxPerUser >= 0
    ensures |FailuresFrom(LogOf(requests, window, maxPerIp, maxPerUser), key, from, window)|
         <= LimitOf(key, maxPerIp, maxPerUser)
  {
    hide FailuresFrom, LogOf, OneAtATime;
    HistoryBudget(requests, window, maxPerIp, maxPerUser, key, from);
    FailuresCount(LogOf(requests, window, maxPerIp, maxPerUser), key, from, window);
  }

  lemma {:induction false} HistoryBudget(requests: seq<Request>, window: real, maxPerIp: int, maxPerUser: int,
                                         key: FailKey, from: real)
    requires OneAtATime(requests) && maxPerIp >= 0 && maxPerUser >= 0
    ensures |Within(History(LogOf(requests, window, maxPerIp, maxPerUser), key), from, window)|
         <= LimitOf(key, maxPerIp, maxPerUser)
  {
    if requests != [] {
      var n := |requests| - 1;
      var r := requests[n];
      var log := LogOf(requests[..n], window, maxPerIp, maxPerUser);
      HistoryBudget(requests[..n], window, maxPerIp, maxPerUser, key, from);
      HistoryStep(log, r, window, maxPerIp, maxPerUser, key);
      var next := LogOf(requests, window, maxPerIp, maxPerUser);
      hide *;
      BudgetStep(History(log, key), History(next, key), r.checked, r.answered, from, window,
                 LimitOf(key, maxPerIp, maxPerUser));
    }
  }

  lemma BudgetStep(before: seq<real>, after: seq<real>, checked: real, answered: real, from: real, window: real,
                   limit: int)
    requires |Within(before, from, window)| <= limit && checked <= answered
    requires || after == before || after == []
             || (after == before + [answered] && |Recent(before, checked, window)| < limit)
    ensures |Within(after, from, window)| <= limit
  {
    WithinAppend(before, answered, from, window);
    assert Within([], from, window) == [];
    if answered < from + window {
      WithinRecent(before, from, checked, window);
    }
    hide Within, Recent;
  }

  // ---- Requests that overlap ----

  /** The check and the record of one request are separate steps; other requests may come between. */
  datatype Action =
    | Start(id: nat, ip: string, user: string, at: real)
    | Finish(id: nat, correct: bool, at: real)

  datatype Sender = Sender(ip: string, user: string)

  /** The history and the requests that were let through the check and have not recorded their answer yet. */
  datatype Serving = Serving(log: seq<Attempt>, open: map<nat, Sender>)

  ghost function Serve(s: Serving, a: Action, window: real, maxPerIp: int, maxPerUser: int): Serving {
    match a
    case Start(id, ip, user, at) =>
      if id in s.open || Answer(s.log, ip, user, false, at, window, maxPerIp, maxPerUser).TooMany? then s
      else s.(open := s.open[id := Sender(ip, user)])
    case Finish(id, correct, at) =>
      if id !in s.open then s
      else
        var who := s.open[id];
        Serving(s.log + [if correct then Succeeded(who.ip, who.user) else Failed(who.ip, who.user, at)], s.open - {id})
  }

  ghost function After(run: seq<Action>, window: real, maxPerIp: int, maxPerUser: int): Serving {
    if run == [] then Serving([], map[])
    else
      Serve(After(run[..|run| - 1], window, maxPerIp, maxPerUser), run[|run| - 1], window, maxPerIp, maxPerUser)
  }

  predicate InOrder(run: seq<Action>) {
    forall i, j :: 0 <= i < j < |run| ==> run[i].at <= run[j].at
  }

  predicate Concerns(key: FailKey, who: Sender) {
    key == Ip(who.ip) || key == User(who.ip, who.user)
  }

  function OpenFor(s: Serving, key: FailKey): set<nat> {
    set id | id in s.open && Concerns(key, s.open[id])
  }

  /** The largest number of requests of a key that were open at one time. */
  ghost function Peak(run: seq<Action>, window: real, maxPerIp: int, maxPerUser: int, key: FailKey): nat {
    if run == [] then 0
    else
      var earlier := Peak(run[..|run| - 1], window, maxPerIp, maxPerUser, key);
      var now := |OpenFor(After(run, window, maxPerIp, maxPerUser), key)|;
      if now > earlier then now else earlier
  }

  lemma StartStep(s: Serving, a: Action, window: real, maxPerIp: int, maxPerUser: int, key: FailKey)
    requires a.Start?
    ensures
      var next := Serve(s, a, window, maxPerIp, maxPerUser);
      && next.log == s.log
      && (OpenFor(next, key) == OpenFor(s, key)
          || |Recent(History(s.log, key), a.at, window)| < LimitOf(key, maxPerIp, maxPerUser))
  {
    RecentCount(s.log, key, a.at, window);
    hide Recent, History, RecentFailures;
    var next := Serve(s, a, window, maxPerIp, maxPerUser);
    if next != s && !Concerns(key, Sender(a.ip, a.user)) {
      assert OpenFor(next, key) == OpenFor(s, key);
    }
  }

  lemma FinishStep(s: Serving, a: Action, window: real, maxPerIp: int, maxPerUser: int, key: FailKey)
    requires a.Finish?
    ensures
      var next := Serve(s, a, window, maxPerIp, maxPerUser);
      var before, after := History(s.log, key), History(next.log, key);
      if a.id in OpenFor(s, key)
      then OpenFor(next, key) == OpenFor(s, key) - {a.id} && after in {before + [a.at], before, []}
      else OpenFor(next, key) == OpenFor(s, key) && after == before
  {
    hide Answer;
    if a.id in s.open {
      var next := Serve(s, a, window, maxPerIp, maxPerUser);
      assert next.log[..|next.log| - 1] == s.log;
    }
  }

  /**
    * With at most k requests of a key between their check and their record at any time, the log holds at most
    * k - 1 failures of the key more than the limit in any window.
    */
  lemma OverlapBudget(run: seq<Action>, window: real, maxPerIp: int, maxPerUser: int, key: FailKey, from: real, k: nat)
    requires InOrder(run) && maxPerIp >= 0 && maxPerUser >= 0
    requires Peak(run, window, maxPerIp, maxPerUser, key) <= k && 1 <= k
    ensures |FailuresFrom(After(run, window, maxPerIp, maxPerUser).log, key, from, window)|
         <= LimitOf(key, maxPerIp, maxPerUser) + k - 1
  {
    hide FailuresFrom, After, InOrder, Peak;
    OverlapHistory(run, window, maxPerIp, maxPerUser, key, from, k);
    FailuresCount(After(run, window, maxPerIp, maxPerUser).log, key, from, window);
  }

  lemma {:induction false} OverlapHistory(run: seq<Action>, window: real, maxPerIp: int, maxPerUser: int,
                                          key: FailKey, from: real, k: nat)
    requires InOrder(run) && maxPerIp >= 0 && maxPerUser >= 0
    requires Peak(run, window, maxPerIp, maxPerUser, key) <= k && 1 <= k
    ensures
      var s := After(run, window, maxPerIp, maxPerUser);
      var held := |Within(History(s.log, key), from, window)|;
      && held <= LimitOf(key, maxPerIp, maxPerUser) + k - 1
      && (run == [] || run[|run| - 1].at < from + window ==>
            held + |OpenFor(s, key)| <= LimitOf(key, maxPerIp, maxPerUser) + k - 1)
  {
    if run == [] {
      assert OpenFor(After(run, window, maxPerIp, maxPerUser), key) == {};
    } else {
      var n := |run| - 1;
      var s, a := After(run[..n], window, maxPerIp, maxPerUser), run[n];
      OverlapHistory(run[..n], window, maxPerIp, maxPerUser, key, from, k);
      if a.Start? {
        StartStep(s, a, window, maxPerIp, maxPerUser, key);
      } else {
        FinishStep(s, a, window, maxPerIp, maxPerUser, key);
      }
      var before := History(s.log, key);
      WithinAppend(before, a.at, from, window);
      assert Within([], from, window) == [];
      if a.at < from + window {
        WithinRecent(before, from, a.at, window);
      }
      hide History, Serve, Within, Recent, OpenFor;
    }
  }

  // ---- A run that uses the whole overlap ----

  function Fails(ip: string, user: string, at: real, n: nat): seq<Attempt> {
    seq(n, _ => Failed(ip, user, at))
  }

  lemma {:induction false} FailsCount(ip: string, user: string, at: real, n: nat, window: real, key: FailKey)
    requires Concerns(key, Sender(ip, user)) && window > 0.0
    ensures
      var ts := History(Fails(ip, user, at, n), key);
      |Recent(ts, at, window)| == |Within(ts, at, window)| == n
  {
    if n > 0 {
      var log := Fails(ip, user, at, n);
      assert log[..n - 1] == Fails(ip, user, at, n - 1);
      FailsCount(ip, user, at, n - 1, window, key);
      var ts := History(log[..n - 1], key);
      assert History(log, key) == ts + [at] && (ts + [at])[..|ts|] == ts;
    }
  }

  /** Every step of the run is at one time, at most k requests are open at once, and it ends in s. */
  ghost predicate Reaches(run: seq<Action>, at: real, s: Serving, window: real, maxPerIp: int, maxPerUser: int,
                          key: FailKey, k: nat) {
    && (forall i :: 0 <= i < |run| ==> run[i].at == at)
    && Peak(run, window, maxPerIp, maxPerUser, key) <= k
    && After(run, window, maxPerIp, maxPerUser) == s
  }

  lemma Extended(run: seq<Action>, at: real, s: Serving, window: real, maxPerIp: int, maxPerUser: int,
                 key: FailKey, k: nat, a: Action)
    requires Reaches(run, at, s, window, maxPerIp, maxPerUser, key, k) && a.at == at
    requires |Serve(s, a, window, maxPerIp, maxPerUser).open| <= k
    ensures Reaches(run + [a], at, Serve(s, a, window, maxPerIp, maxPerUser), window, maxPerIp, maxPerUser, key, k)
  {
    hide Serve;
    assert (run + [a])[..|run|] == run;
    var next := Serve(s, a, window, maxPerIp, maxPerUser);
    SubsetSize(OpenFor(next, key), next.open.Keys);
  }

  lemma SubsetSize(s: set<nat>, t: set<nat>)
    requires s <= t
    ensures |s| <= |t|
  {
    assert t == s + (t - s);
  }

  /** The requests 0, ..., k - 1 of one sender. */
  function OpenOnes(who: Sender, k: nat): (open: map<nat, Sender>)
    ensures |open| == k && forall id: nat :: id in open <==> id < k
  {
    if k == 0 then map[] else OpenOnes(who, k - 1)[k - 1 := who]
  }

  lemma Starts(ip: string, user: string, at: real, n: nat, k: nat, window: real, maxPerIp: int, maxPerUser: int)
    requires window > 0.0 && n < maxPerIp && n < maxPerUser
    ensures
      var log, who := Fails(ip, user, at, n), Sender(ip, user);
      Serve(Serving(log, OpenOnes(who, k)), Start(k, ip, user, at), window, maxPerIp, maxPerUser)
      == Serving(log, OpenOnes(who, k + 1))
  {
    FailsCount(ip, user, at, n, window, Ip(ip));
    FailsCount(ip, user, at, n, window, User(ip, user));
    RecentCount(Fails(ip, user, at, n), Ip(ip), at, window);
    RecentCount(Fails(ip, user, at, n), User(ip, user), at, window);
    hide History, Recent, Within, Fails, RecentFailures;
  }

  lemma Finishes(ip: string, user: string, at: real, n: nat, k: nat, window: real, maxPerIp: int, maxPerUser: int)
    ensures
      var log, who := Fails(ip, user, at, n), Sender(ip, user);
      Serve(Serving(log, OpenOnes(who, k + 1)), Finish(k, false, at), window, maxPerIp, maxPerUser)
      == Serving(Fails(ip, user, at, n + 1), OpenOnes(who, k))
  {
    hide Answer;
    assert Fails(ip, user, at, n) + [Failed(ip, user, at)] == Fails(ip, user, at, n + 1);
    var who := Sender(ip, user);
    assert OpenOnes(who, k + 1) - {k} == OpenOnes(who, k);
  }

  /** n wrong attempts one after the other. */
  function OneByOne(ip: string, user: string, at: real, n: nat): seq<Action> {
    if n == 0 then [] else OneByOne(ip, user, at, n - 1) + [Start(0, ip, user, at)] + [Finish(0, false, at)]
  }

  /** The run and then k requests, all checked before any of them is recorded. */
  function Checked(run: seq<Action>, ip: string, user: string, at: real, k: nat): seq<Action> {
    if k == 0 then run else Checked(run, ip, user, at, k - 1) + [Start(k - 1, ip, user, at)]
  }

  function Recording(run: seq<Action>, at: real, k: nat): seq<Action>
    decreases k
  {
    if k == 0 then run else Recording(run + [Finish(k - 1, false, at)], at, k - 1)
  }

  lemma RunFacts(run: seq<Action>, at: real, s: Serving, window: real, maxPerIp: int, maxPerUser: int,
                 key: FailKey, k: nat)
    requires Reaches(run, at, s, window, maxPerIp, maxPerUser, key, k)
    ensures InOrder(run) && Peak(run, window, maxPerIp, maxPerUser, key) <= k
    ensures After(run, window, maxPerIp, maxPerUser) == s
  {
    hide Peak, After;
  }

  lemma NothingReached(ip: string, user: string, at: real, window: real, maxPerIp: int, maxPerUser: int,
                       key: FailKey, k: nat)
    ensures Reaches([], at, Serving(Fails(ip, user, at, 0), OpenOnes(Sender(ip, user), 0)),
                    window, maxPerIp, maxPerUser, key, k)
  {
    hide OpenFor;
    assert After([], window, maxPerIp, maxPerUser).log == Fails(ip, user, at, 0);
  }

  lemma {:induction false} OneByOneReaches(ip: string, user: string, at: real, n: nat, window: real,
                                           maxPerIp: int, maxPerUser: int, key: FailKey, k: nat)
    requires 1 <= k && window > 0.0 && n <= maxPerIp && n <= maxPerUser
    ensures Reaches(OneByOne(ip, user, at, n), at, Serving(Fails(ip, user, at, n), OpenOnes(Sender(ip, user), 0)),
                    window, maxPerIp, maxPerUser, key, k)
  {
    var who := Sender(ip, user);
    hide Reaches, Serve, OpenOnes;
    if n == 0 {
      NothingReached(ip, user, at, window, maxPerIp, maxPerUser, key, k);
    } else {
      hide Fails;
      OneByOneReaches(ip, user, at, n - 1, window, maxPerIp, maxPerUser, key, k);
      Starts(ip, user, at, n - 1, 0, window, maxPerIp, maxPerUser);
      Finishes(ip, user, at, n - 1, 0, window, maxPerIp, maxPerUser);
      var run, s := OneByOne(ip, user, at, n - 1), Serving(Fails(ip, user, at, n - 1), OpenOnes(who, 0));
      Extended(run, at, s, window, maxPerIp, maxPerUser, key, k, Start(0, ip, user, at));
      var t := Serving(s.log, OpenOnes(who, 1));
      Extended(run + [Start(0, ip, user, at)], at, t, window, maxPerIp, maxPerUser, key, k, Finish(0, false, at));
    }
  }

  lemma {:induction false} CheckedReaches(run: seq<Action>, ip: string, user: string, at: real, n: nat, j: nat,
                                          window: real, maxPerIp: int, maxPerUser: int, key: FailKey, k: nat)
    requires j <= k && window > 0.0 && n < maxPerIp && n < maxPerUser
    requires Reaches(run, at, Serving(Fails(ip, user, at, n), OpenOnes(Sender(ip, user), 0)),
                     window, maxPerIp, maxPerUser, key, k)
    ensures Reaches(Checked(run, ip, user, at, j), at,
                    Serving(Fails(ip, user, at, n), OpenOnes(Sender(ip, user), j)),
                    window, maxPerIp, maxPerUser, key, k)
  {
    if j > 0 {
      hide Reaches, Serve, Fails, OpenOnes;
      CheckedReaches(run, ip, user, at, n, j - 1, window, maxPerIp, maxPerUser, key, k);
      Starts(ip, user, at, n, j - 1, window, maxPerIp, maxPerUser);
      Extended(Checked(run, ip, user, at, j - 1), at,
               Serving(Fails(ip, user, at, n), OpenOnes(Sender(ip, user), j - 1)),
               window, maxPerIp, maxPerUser, key, k, Start(j - 1, ip, user, at));
    }
  }

  lemma {:induction false} RecordingReaches(run: seq<Action>, ip: string, user: string, at: real, n: nat, j: nat,
                                            window: real, maxPerIp: int, maxPerUser: int, key: FailKey, k: nat)
    requires j <= k
    requires Reaches(run, at, Serving(Fails(ip, user, at, n), OpenOnes(Sender(ip, user), j)),
                     window, maxPerIp, maxPerUser, key, k)
    ensures Reaches(Recording(run, at, j), at,
                    Serving(Fails(ip, user, at, n + j), OpenOnes(Sender(ip, user), 0)),
                    window, maxPerIp, maxPerUser, key, k)
    decreases j
  {
    hide Reaches, Serve, Fails, OpenOnes;
    if j > 0 {
      Finishes(ip, user, at, n, j - 1, window, maxPerIp, maxPerUser);
      Extended(run, at, Serving(Fails(ip, user, at, n), OpenOnes(Sender(ip, user), j)),
               window, maxPerIp, maxPerUser, key, k, Finish(j - 1, false, at));
      RecordingReaches(run + [Finish(j - 1, false, at)], ip, user, at, n + 1, j - 1,
                       window, maxPerIp, maxPerUser, key, k);
    }
  }

  /**
    * The bound is reached: after one failure less than the smaller limit, k requests that pass the check
    * together fill both keys of their sender to k - 1 failures over that limit.
    */
  lemma BudgetExceeded(ip: string, user: string, at: real, limit: nat, k: nat, window: real, maxPerIp: int,
                       maxPerUser: int, key: FailKey)
    requires 1 <= k && window > 0.0 && 1 <= limit <= maxPerIp && limit <= maxPerUser
    requires Concerns(key, Sender(ip, user))
    ensures
      var run := Recording(Checked(OneByOne(ip, user, at, limit - 1), ip, user, at, k), at, k);
      && InOrder(run) && Peak(run, window, maxPerIp, maxPerUser, key) <= k
      && |FailuresFrom(After(run, window, maxPerIp, maxPerUser).log, key, at, window)| == limit + k - 1
  {
    hide *;
    var first := OneByOne(ip, user, at, limit - 1);
    var run := Checked(first, ip, user, at, k);
    OneByOneReaches(ip, user, at, limit - 1, window, maxPerIp, maxPerUser, key, k);
    CheckedReaches(first, ip, user, at, limit - 1, k, window, maxPerIp, maxPerUser, key, k);
    RecordingReaches(run, ip, user, at, limit - 1, k, window, maxPerIp, maxPerUser, key, k);
    var log := Fails(ip, user, at, limit - 1 + k);
    RunFacts(Recording(run, at, k), at, Serving(log, OpenOnes(Sender(ip, user), 0)),
             window, maxPerIp, maxPerUser, key, k);
    FailsCount(ip, user, at, limit - 1 + k, window, key);
    FailuresCount(log, key, at, window);
  }
}
