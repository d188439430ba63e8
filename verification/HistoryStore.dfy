/** The history ring buffer: rows pruned on each write, queried as the unbounded log would be. */
module HistoryStore {
  import opened Wrappers
  import D = Downsample
  import Sorting

  /** What a fan-out reports about one host. */
  datatype Report = Report(id: string, ok: bool, cpu: Option<real>, mem: Option<real>,
                           usedBytes: Option<int>, sizeBytes: Option<int>)

  datatype Row = Row(host: string, ts: int, ok: bool, cpu: Option<real>, mem: Option<real>,
                     used: Option<int>, size: Option<int>)

  datatype Metric = Cpu | Mem | Other

  /** A zero or missing byte count is stored as missing. */
  function NonZero(bytes: Option<int>): Option<int> {
    if bytes == Some(0) then None else bytes
  }

  /** One row for each report that names its host. */
  function RowsOf(reports: seq<Report>, now: int): seq<Row> {
    if reports == [] then []
    else
      var rest, r := RowsOf(reports[..|reports| - 1], now), reports[|reports| - 1];
      if r.id == "" then rest
      else rest + [Row(r.id, now, r.ok, r.cpu, r.mem, NonZero(r.usedBytes), NonZero(r.sizeBytes))]
  }

  /** Report by report and in order: one row for each that names its host, with a byte count of zero left out. */
  lemma {:induction false} RowsConcat(a: seq<Report>, b: seq<Report>, now: int)
    ensures RowsOf(a + b, now) == RowsOf(a, now) + RowsOf(b, now)
  {
    if b == [] {
      assert a + b == a;
    } else {
      assert (a + b)[..|a + b| - 1] == a + b[..|b| - 1];
      RowsConcat(a, b[..|b| - 1], now);
    }
  }

  lemma RowsOne(r: Report, now: int)
    ensures r.id == "" ==> RowsOf([r], now) == []
    ensures r.id != "" ==>
              && |RowsOf([r], now)| == 1
              && var row := RowsOf([r], now)[0];
                 && row.host == r.id && row.ts == now && row.ok == r.ok && row.cpu == r.cpu && row.mem == r.mem
                 && row.used == (if r.usedBytes == Some(0) then None else r.usedBytes)
                 && row.size == (if r.sizeBytes == Some(0) then None else r.sizeBytes)
  {
    assert [r][..0] == [];
  }

  /** The rows not older than the cutoff. */
  function Since(rows: seq<Row>, cutoff: int): seq<Row> {
    if rows == [] then []
    else
      var rest, r := Since(rows[..|rows| - 1], cutoff), rows[|rows| - 1];
      if r.ts >= cutoff then rest + [r] else rest
  }

  lemma {:induction false} SinceAppend(a: seq<Row>, b: seq<Row>, cutoff: int)
    ensures Since(a + b, cutoff) == Since(a, cutoff) + Since(b, cutoff)
  {
    if b == [] {
      assert a + b == a;
    } else {
      var s := a + b;
      assert s[..|s| - 1] == a + b[..|b| - 1];
      SinceAppend(a, b[..|b| - 1], cutoff);
    }
  }

  lemma {:induction false} SinceSince(rows: seq<Row>, earlier: int, cutoff: int)
    requires earlier <= cutoff
    ensures Since(Since(rows, earlier), cutoff) == Since(rows, cutoff)
  {
    if rows != [] {
      var rest, r := rows[..|rows| - 1], rows[|rows| - 1];
      SinceSince(rest, earlier, cutoff);
      assert [r][..0] == [];
      SinceAppend(Since(rest, earlier), [r], cutoff);
    }
  }

  // ---- Queries, as functions of a table ----

  /** WHERE host_id = ? AND ts >= ? */
  function Matching(rows: seq<Row>, host: string, since: int): seq<Row> {
    if rows == [] then []
    else
      var rest, r := Matching(rows[..|rows| - 1], host, since), rows[|rows| - 1];
      if r.host == host && r.ts >= since then rest + [r] else rest
  }

  /** With OneRow: exactly the host's rows of the window, in order. */
  lemma {:induction false} MatchingConcat(a: seq<Row>, b: seq<Row>, host: string, since: int)
    ensures Matching(a + b, host, since) == Matching(a, host, since) + Matching(b, host, since)
  {
    if b == [] {
      assert a + b == a;
    } else {
      assert (a + b)[..|a + b| - 1] == a + b[..|b| - 1];
      MatchingConcat(a, b[..|b| - 1], host, since);
    }
  }

  function TsOf(r: Row): int {
    r.ts
  }

  /** ORDER BY ts; rows with one timestamp keep their order. */
  function OrderByTs(rows: seq<Row>): seq<Row> {
    Sorting.SortBy(rows, TsOf)
  }

  function Query(rows: seq<Row>, host: string, since: int): seq<Row> {
    OrderByTs(Matching(rows, host, since))
  }

  function Value(r: Row, metric: Metric): Option<real> {
    match metric
    case Mem => r.mem
    case _ => r.cpu
  }

  function Column(rows: seq<Row>, metric: Metric): seq<D.Row> {
    if rows == [] then []
    else
      var r := rows[|rows| - 1];
      Column(rows[..|rows| - 1], metric) + [D.Row(Some(r.ts), Value(r, metric))]
  }

  /** The chosen metric of each row at its timestamp; anything but memory is the CPU. */
  lemma {:induction false} ColumnAt(rows: seq<Row>, metric: Metric)
    ensures |Column(rows, metric)| == |rows|
    ensures forall i :: 0 <= i < |rows| ==>
              && Column(rows, metric)[i].ts == Some(rows[i].ts)
              && Column(rows, metric)[i].value == if metric == Mem then rows[i].mem else rows[i].cpu
  {
    if rows != [] {
      ColumnAt(rows[..|rows| - 1], metric);
    }
  }

  function Reachable(rows: seq<Row>): nat {
    if rows == [] then 0
    else Reachable(rows[..|rows| - 1]) + if rows[|rows| - 1].ok then 1 else 0
  }

  function UsedPoints(rows: seq<Row>): seq<(int, int)> {
    if rows == [] then []
    else
      var rest, r := UsedPoints(rows[..|rows| - 1]), rows[|rows| - 1];
      if r.used.Some? then rest + [(r.ts, r.used.value)] else rest
  }

  /** Row by row and in order: a row with a used size gives a point. */
  lemma {:induction false} UsedPointsConcat(a: seq<Row>, b: seq<Row>)
    ensures UsedPoints(a + b) == UsedPoints(a) + UsedPoints(b)
    ensures forall r: Row :: UsedPoints([r]) == if r.used.Some? then [(r.ts, r.used.value)] else []
  {
    assert forall r: Row :: [r][..0] == [];
    if b == [] {
      assert a + b == a;
    } else {
      assert (a + b)[..|a + b| - 1] == a + b[..|b| - 1];
      UsedPointsConcat(a, b[..|b| - 1]);
    }
  }

  function WindowStart(now: int, hours: real): int {
    now - D.Truncate(hours * 3600.0)
  }

  /** A row is in a window of some hours exactly if it is at most that many hours old. */
  lemma WindowExact(now: int, hours: real, ts: int)
    requires hours >= 0.0
    ensures ts >= WindowStart(now, hours) <==> (now - ts) as real <= hours * 3600.0
  {
    D.TruncateExact(hours * 3600.0);
  }

  /** The percentage of reachable samples, and how many samples there were. */
  function AvailabilityOf(rows: seq<Row>, host: string, since: int): (Option<real>, nat) {
    var q := Matching(rows, host, since);
    (if q == [] then None else Some(Reachable(q) as real / |q| as real * 100.0), |q|)
  }

  /** The samples of a host in a window, by their positions in the table. */
  ghost function Samples(rows: seq<Row>, host: string, since: int): set<nat> {
    set i: nat | i < |rows| && rows[i].host == host && rows[i].ts >= since
  }

  ghost function UpSamples(rows: seq<Row>, host: string, since: int): set<nat> {
    set i: nat | i < |rows| && rows[i].host == host && rows[i].ts >= since && rows[i].ok
  }

  lemma SamplesStep(rows: seq<Row>, n: nat, host: string, since: int)
    requires |rows| == n + 1
    ensures
      var here := rows[n].host == host && rows[n].ts >= since;
      |Samples(rows, host, since)| == |Samples(rows[..n], host, since)| + if here then 1 else 0
  {
    var here := rows[n].host == host && rows[n].ts >= since;
    var before, after := Samples(rows[..n], host, since), Samples(rows, host, since);
    forall i: nat ensures i in after <==> i in before || (here && i == n) {
      assert i < n ==> rows[..n][i] == rows[i];
    }
    assert n !in before;
    hide Samples;
    assert after == before + if here then {n} else {};
  }

  lemma UpSamplesStep(rows: seq<Row>, n: nat, host: string, since: int)
    requires |rows| == n + 1
    ensures
      var here := rows[n].host == host && rows[n].ts >= since && rows[n].ok;
      |UpSamples(rows, host, since)| == |UpSamples(rows[..n], host, since)| + if here then 1 else 0
  {
    var here := rows[n].host == host && rows[n].ts >= since && rows[n].ok;
    var before, after := UpSamples(rows[..n], host, since), UpSamples(rows, host, since);
    forall i: nat ensures i in after <==> i in before || (here && i == n) {
      assert i < n ==> rows[..n][i] == rows[i];
    }
    assert n !in before;
    hide UpSamples;
    assert after == before + if here then {n} else {};
  }

  lemma {:induction false} SampleCounts(rows: seq<Row>, host: string, since: int)
    ensures |Matching(rows, host, since)| == |Samples(rows, host, since)|
    ensures Reachable(Matching(rows, host, since)) == |UpSamples(rows, host, since)|
  {
    if rows == [] {
      assert Samples(rows, host, since) == {} && UpSamples(rows, host, since) == {};
    } else {
      var rest, r := rows[..|rows| - 1], rows[|rows| - 1];
      SampleCounts(rest, host, since);
      SamplesStep(rows, |rest|, host, since);
      UpSamplesStep(rows, |rest|, host, since);
      hide Samples, UpSamples;
      var found := Matching(rest, host, since);
      assert (found + [r])[..|found|] == found;
    }
  }

  /** The share of the host's samples in the window at which it was reachable, and how many samples there are. */
  lemma AvailabilityExact(rows: seq<Row>, host: string, since: int)
    ensures
      var n, up := |Samples(rows, host, since)|, |UpSamples(rows, host, since)|;
      AvailabilityOf(rows, host, since) == (if n == 0 then None else Some(up as real / n as real * 100.0), n)
  {
    SampleCounts(rows, host, since);
    hide Matching, Reachable, Samples, UpSamples;
  }

  predicate InOrder(rows: seq<Row>) {
    forall i, j :: 0 <= i < j < |rows| ==> rows[i].ts <= rows[j].ts
  }

  lemma {:induction false} MatchingExact(rows: seq<Row>, host: string, since: int)
    ensures forall r :: r in Matching(rows, host, since) <==> r in rows && r.host == host && r.ts >= since
  {
    if rows != [] {
      var rest, last := rows[..|rows| - 1], rows[|rows| - 1];
      MatchingExact(rest, host, since);
      assert forall r :: r in rows <==> r in rest || r == last;
    }
  }

  lemma OrderedByTs(rows: seq<Row>)
    ensures InOrder(OrderByTs(rows)) && multiset(OrderByTs(rows)) == multiset(rows)
  {
    Sorting.SortedBy(rows, TsOf);
    hide Sorting.SortBy;
    var s := OrderByTs(rows);
    forall i, j | 0 <= i < j < |s| ensures s[i].ts <= s[j].ts {
      assert TsOf(s[i]) <= TsOf(s[j]);
    }
  }

  /** A query lists exactly the host's rows of its window, each as often as the table holds it, in time order. */
  lemma QueryInOrder(rows: seq<Row>, host: string, since: int)
    ensures InOrder(Query(rows, host, since))
    ensures multiset(Query(rows, host, since)) == multiset(Matching(rows, host, since))
    ensures forall r :: r in Query(rows, host, since) <==> r in rows && r.host == host && r.ts >= since
  {
    OrderedByTs(Matching(rows, host, since));
    MatchingExact(rows, host, since);
    forall r ensures r in Query(rows, host, since) <==> r in Matching(rows, host, since) {
      assert r in Query(rows, host, since) <==> r in multiset(Query(rows, host, since));
      assert r in Matching(rows, host, since) <==> r in multiset(Matching(rows, host, since));
    }
  }

  /** A query over the pruned rows is a query of all rows over what is left of its window. */
  lemma {:induction false} MatchingSince(rows: seq<Row>, cutoff: int, host: string, since: int)
    ensures Matching(Since(rows, cutoff), host, since) == Matching(rows, host, Later(since, cutoff))
  {
    if rows != [] {
      var rest, r := rows[..|rows| - 1], rows[|rows| - 1];
      MatchingSince(rest, cutoff, host, since);
      if r.ts >= cutoff {
        assert (Since(rest, cutoff) + [r])[..|Since(rest, cutoff)|] == Since(rest, cutoff);
      }
    }
  }

  function Later(a: int, b: int): int {
    if a < b then b else a
  }

  lemma OneRow(r: Row, host: string, since: int)
    ensures Since([r], since) == if r.ts >= since then [r] else []
    ensures Matching([r], host, since) == if r.host == host && r.ts >= since then [r] else []
  {
    assert [r][..0] == [];
  }

  /** Whatever the table holds, pruning at a cutoff leaves all queries alone exactly if the window begins no earlier. */
  lemma CutoffExact(cutoff: int, since: int)
    ensures (forall rows, host :: Query(Since(rows, cutoff), host, since) == Query(rows, host, since))
       <==> cutoff <= since
  {
    if cutoff <= since {
      forall rows, host ensures Query(Since(rows, cutoff), host, since) == Query(rows, host, since) {
        MatchingSince(rows, cutoff, host, since);
      }
    } else {
      var row := Row("", since, true, None, None, None, None);
      OneRow(row, "", since);
      OneRow(row, "", cutoff);
      assert Query(Since([row], cutoff), "", since) != Query([row], "", since);
    }
  }

  method MakeRows(reports: seq<Report>, now: int) returns (added: seq<Row>)
    ensures added == RowsOf(reports, now)
  {
    added := [];
    for k := 0 to |reports|
      invariant added == RowsOf(reports[..k], now)
    {
      var r := reports[k];
      assert reports[..k + 1][..k] == reports[..k];
      if r.id != "" {
        added := added + [Row(r.id, now, r.ok, r.cpu, r.mem, NonZero(r.usedBytes), NonZero(r.sizeBytes))];
      }
    }
    assert reports[..|reports|] == reports;
  }

  // ---- A table and the log of everything recorded ----

  /** One recording. */
  datatype Batch = Batch(reports: seq<Report>, now: int)

  /** Every row ever recorded. */
  function LogOf(batches: seq<Batch>): seq<Row> {
    if batches == [] then []
    else
      var last := batches[|batches| - 1];
      LogOf(batches[..|batches| - 1]) + RowsOf(last.reports, last.now)
  }

  /** The table: each recording appends its rows and then prunes by its own clock. */
  function TableOf(batches: seq<Batch>, retention: int): seq<Row> {
    if batches == [] then []
    else
      var last := batches[|batches| - 1];
      Since(TableOf(batches[..|batches| - 1], retention) + RowsOf(last.reports, last.now), last.now - retention)
  }

  /** The latest time of any recording. */
  function Peak(batches: seq<Batch>): Option<int> {
    if batches == [] then None
    else
      var rest, now := Peak(batches[..|batches| - 1]), batches[|batches| - 1].now;
      Some(if rest.Some? then Later(rest.value, now) else now)
  }

  /** The peak is the time of some recording, and no recording is later. */
  lemma {:induction false} PeakExact(batches: seq<Batch>)
    ensures Peak(batches).None? <==> batches == []
    ensures batches != [] ==> exists b :: b in batches && Peak(batches) == Some(b.now)
    ensures forall b :: b in batches ==> b.now <= Peak(batches).value
  {
    if batches != [] {
      var rest, last := batches[..|batches| - 1], batches[|batches| - 1];
      PeakExact(rest);
      assert forall b :: b in batches <==> b in rest || b == last;
    }
  }

  /** However the clock moved, the table and the log agree from the latest recording minus the retention on. */
  lemma {:induction false} TableAgrees(batches: seq<Batch>, retention: int)
    requires batches != []
    ensures
      var cutoff := Peak(batches).value - retention;
      Since(TableOf(batches, retention), cutoff) == Since(LogOf(batches), cutoff)
  {
    hide Since, RowsOf;
    var rest, last := batches[..|batches| - 1], batches[|batches| - 1];
    var table, log, added := TableOf(rest, retention), LogOf(rest), RowsOf(last.reports, last.now);
    var cutoff := Peak(batches).value - retention;
    if rest != [] {
      TableAgrees(rest, retention);
      SinceSince(table, Peak(rest).value - retention, cutoff);
      SinceSince(log, Peak(rest).value - retention, cutoff);
    }
    SinceSince(table + added, last.now - retention, cutoff);
    SinceAppend(table, added, cutoff);
    SinceAppend(log, added, cutoff);
  }

  /** While the clock does not go back, the table is exactly the logged rows inside the retention. */
  lemma {:induction false} TableExact(batches: seq<Batch>, retention: int)
    requires batches != [] && forall i, j :: 0 <= i < j < |batches| ==> batches[i].now <= batches[j].now
    ensures Peak(batches) == Some(batches[|batches| - 1].now)
    ensures TableOf(batches, retention) == Since(LogOf(batches), batches[|batches| - 1].now - retention)
  {
    hide Since, RowsOf;
    var rest, last := batches[..|batches| - 1], batches[|batches| - 1];
    var table, log, added := TableOf(rest, retention), LogOf(rest), RowsOf(last.reports, last.now);
    if rest != [] {
      TableExact(rest, retention);
      SinceSince(log, rest[|rest| - 1].now - retention, last.now - retention);
    }
    SinceAppend(table, added, last.now - retention);
    SinceAppend(log, added, last.now - retention);
  }

  /** For a window that begins no earlier than that, the pruned table answers as the whole log. */
  lemma WindowAgrees(batches: seq<Batch>, retention: int, host: string, since: int)
    requires batches != [] ==> since >= Peak(batches).value - retention
    ensures Matching(TableOf(batches, retention), host, since) == Matching(LogOf(batches), host, since)
    ensures Query(TableOf(batches, retention), host, since) == Query(LogOf(batches), host, since)
  {
    if batches != [] {
      var cutoff := Peak(batches).value - retention;
      TableAgrees(batches, retention);
      MatchingSince(TableOf(batches, retention), cutoff, host, since);
      MatchingSince(LogOf(batches), cutoff, host, since);
    }
  }

  lemma Counted(rows: seq<Row>, host: string, since: int)
    ensures AvailabilityOf(rows, host, since).1 == |Matching(rows, host, since)|
  {
    hide Matching, Reachable;
  }

  lemma MatchingLast(a: Row, b: Row, host: string, since: int)
    ensures Matching([a] + [b], host, since) == Matching([a], host, since) + Matching([b], host, since)
  {
    OneRow(b, host, since);
    assert ([a] + [b])[..1] == [a];
  }

  /** The second of two rows is left when the first is older than the cutoff and the second is not. */
  lemma FirstPruned(a: Row, b: Row, earlier: int, cutoff: int)
    requires a.ts >= earlier && a.ts < cutoff <= b.ts
    ensures Since(Since([a], earlier) + [b], cutoff) == [b]
  {
    OneRow(a, "", earlier);
    OneRow(a, "", cutoff);
    OneRow(b, "", cutoff);
    SinceAppend([a], [b], cutoff);
    hide Since;
    assert [] + [b] == [b];
  }

  function UpReport(host: string): Report {
    Report(host, true, None, None, None, None)
  }

  function UpRow(host: string, ts: int): Row {
    Row(host, ts, true, None, None, None, None)
  }

  lemma OneReport(host: string, now: int)
    requires host != ""
    ensures RowsOf([UpReport(host)], now) == [UpRow(host, now)]
  {
    assert [UpReport(host)][..0] == [];
  }

  lemma TwoRecordings(host: string, first: int, now: int, retention: int)
    requires host != ""
    ensures
      var batches := [Batch([UpReport(host)], first), Batch([UpReport(host)], now)];
      && LogOf(batches) == [UpRow(host, first)] + [UpRow(host, now)]
      && TableOf(batches, retention)
         == Since(Since([UpRow(host, first)], first - retention) + [UpRow(host, now)], now - retention)
  {
    OneReport(host, first);
    OneReport(host, now);
    hide RowsOf, Since, UpReport, UpRow;
    var a, b := Batch([UpReport(host)], first), Batch([UpReport(host)], now);
    assert [a, b][..1] == [a] && [a][..0] == [];
    assert LogOf([a]) == [] + [UpRow(host, first)] == [UpRow(host, first)];
    assert TableOf([a], retention) == Since([] + [UpRow(host, first)], first - retention);
  }

  /** Two recordings further apart than the retention: a longer window counts one sample where the log has two. */
  lemma LongWindowMisses(host: string, first: int, now: int, retention: int, since: int)
    requires host != "" && since <= first < now - retention && retention >= 0
    ensures
      var batches := [Batch([UpReport(host)], first), Batch([UpReport(host)], now)];
      && AvailabilityOf(LogOf(batches), host, since).1 == 2
      && AvailabilityOf(TableOf(batches, retention), host, since).1 == 1
  {
    TwoRecordings(host, first, now, retention);
    LogCounted(host, first, now, since);
    TableCounted(UpRow(host, first), UpRow(host, now), host, first - retention, now - retention, since);
    hide LogOf, TableOf, AvailabilityOf, Since, UpReport, UpRow;
  }

  lemma LogCounted(host: string, first: int, now: int, since: int)
    requires since <= first && since <= now
    ensures AvailabilityOf([UpRow(host, first)] + [UpRow(host, now)], host, since).1 == 2
  {
    var a, b := UpRow(host, first), UpRow(host, now);
    Counted([a] + [b], host, since);
    MatchingLast(a, b, host, since);
    OneRow(a, host, since);
    OneRow(b, host, since);
    hide AvailabilityOf, Matching, Since;
  }

  lemma OneCounted(r: Row, host: string, since: int)
    requires r.host == host && r.ts >= since
    ensures AvailabilityOf([r], host, since).1 == 1
  {
    Counted([r], host, since);
    OneRow(r, host, since);
    hide *;
  }

  lemma TableCounted(a: Row, b: Row, host: string, earlier: int, cutoff: int, since: int)
    requires a.ts >= earlier && a.ts < cutoff <= b.ts && b.host == host && b.ts >= since
    ensures AvailabilityOf(Since(Since([a], earlier) + [b], cutoff), host, since).1 == 1
  {
    hide *;
    FirstPruned(a, b, earlier, cutoff);
    OneCounted(b, host, since);
  }

  // ---- The store ----

  class Store {
    const retention: int
    var rows: seq<Row>
    /** Every recording so far. */
    ghost var batches: seq<Batch>

    ghost predicate Valid()
      reads this
    {
      rows == TableOf(batches, retention)
    }

    constructor (retentionDays: int)
      ensures Valid() && batches == [] && retention == retentionDays * 86400
    {
      retention := retentionDays * 86400;
      rows, batches := [], [];
    }

    /** One row per named host, then the prune. */
    method Record(reports: seq<Report>, now: int)
      requires Valid()
      modifies this
      ensures Valid() && batches == old(batches) + [Batch(reports, now)]
      ensures rows == Since(old(rows) + RowsOf(reports, now), now - retention)
    {
      var added := MakeRows(reports, now);
      rows := rows + added;
      rows := Since(rows, now - retention);
      batches := batches + [Batch(reports, now)];
    }

    method Series(host: string, hours: real, buckets: int, metric: Metric, now: int) returns (out: seq<D.Reading>)
      requires Valid()
      ensures out == D.Downsampled(Column(Query(rows, host, WindowStart(now, hours)), metric), buckets)
      ensures InsideRetention(now, hours)
          ==> out == D.Downsampled(Column(Query(LogOf(batches), host, WindowStart(now, hours)), metric), buckets)
    {
      var found := Query(rows, host, WindowStart(now, hours));
      Answers(now, hours, host);
      out := D.Downsample(Column(found, metric), buckets);
    }

    method Availability(host: string, hours: real, now: int) returns (percent: Option<real>, n: nat)
      requires Valid()
      ensures (percent, n) == AvailabilityOf(rows, host, WindowStart(now, hours))
      ensures InsideRetention(now, hours)
          ==> (percent, n) == AvailabilityOf(LogOf(batches), host, WindowStart(now, hours))
    {
      var found := Matching(rows, host, WindowStart(now, hours));
      Answers(now, hours, host);
      var up := 0;
      for k := 0 to |found|
        invariant up == Reachable(found[..k])
      {
        assert found[..k + 1][..k] == found[..k];
        up := up + if found[k].ok then 1 else 0;
      }
      assert found[..|found|] == found;
      n := |found|;
      percent := if n == 0 then None else Some(up as real / n as real * 100.0);
    }

    method StoragePoints(host: string, hours: real, now: int) returns (points: seq<(int, int)>)
      requires Valid()
      ensures points == UsedPoints(Query(rows, host, WindowStart(now, hours)))
      ensures InsideRetention(now, hours) ==> points == UsedPoints(Query(LogOf(batches), host, WindowStart(now, hours)))
    {
      var found := Query(rows, host, WindowStart(now, hours));
      Answers(now, hours, host);
      points := [];
      for k := 0 to |found|
        invariant points == UsedPoints(found[..k])
      {
        assert found[..k + 1][..k] == found[..k];
        if found[k].used.Some? {
          points := points + [(found[k].ts, found[k].used.value)];
        }
      }
      assert found[..|found|] == found;
    }

    /** The window begins no earlier than the latest recording minus the retention. */
    ghost predicate InsideRetention(now: int, hours: real)
      reads this
    {
      batches != [] ==> WindowStart(now, hours) >= Peak(batches).value - retention
    }

    lemma Answers(now: int, hours: real, host: string)
      requires Valid()
      ensures InsideRetention(now, hours)
          ==> Matching(rows, host, WindowStart(now, hours)) == Matching(LogOf(batches), host, WindowStart(now, hours))
    {
      if InsideRetention(now, hours) {
        WindowAgrees(batches, retention, host, WindowStart(now, hours));
      }
    }

    /** So it is for every window no longer than the retention once the clock has reached the latest recording. */
    lemma ShortWindow(now: int, hours: real)
      requires D.Truncate(hours * 3600.0) <= retention && (batches != [] ==> Peak(batches).value <= now)
      ensures InsideRetention(now, hours)
    {}
  }
}
