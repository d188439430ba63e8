/** Averaging a series into time-ordered buckets. */
module Downsample {
  import opened Wrappers
  import Sorting

  datatype Row = Row(ts: Option<int>, value: Option<real>)

  /** A row with a timestamp; the value is missing when the host was down. */
  datatype Reading = Reading(ts: int, value: Option<real>)

  function Dated(rows: seq<Row>): seq<Reading> {
    if rows == [] then []
    else
      var rest, r := Dated(rows[..|rows| - 1]), rows[|rows| - 1];
      if r.ts.Some? then rest + [Reading(r.ts.value, r.value)] else rest
  }

  /** Row by row and in order: a row with a timestamp is that reading, any other is left out. */
  lemma {:induction false} DatedConcat(a: seq<Row>, b: seq<Row>)
    ensures Dated(a + b) == Dated(a) + Dated(b)
    ensures forall v :: Dated([Row(None, v)]) == []
    ensures forall t, v :: Dated([Row(Some(t), v)]) == [Reading(t, v)]
  {
    assert forall r: Row :: [r][..0] == [];
    if b == [] {
      assert a + b == a;
    } else {
      assert (a + b)[..|a + b| - 1] == a + b[..|b| - 1];
      DatedConcat(a, b[..|b| - 1]);
    }
  }

  function Values(rs: seq<Reading>): (vs: seq<Option<real>>)
    ensures |vs| == |rs|
  {
    if rs == [] then [] else Values(rs[..|rs| - 1]) + [rs[|rs| - 1].value]
  }

  lemma {:induction false} ValuesAt(rs: seq<Reading>, i: nat)
    requires i < |rs|
    ensures Values(rs)[i] == rs[i].value
  {
    if i < |rs| - 1 {
      ValuesAt(rs[..|rs| - 1], i);
    }
  }

  // ---- Sorting ----

  predicate Sorted(rs: seq<Reading>) {
    forall i, j :: 0 <= i < j < |rs| ==> rs[i].ts <= rs[j].ts
  }

  function TsOf(r: Reading): int {
    r.ts
  }

  function SortByTs(rs: seq<Reading>): seq<Reading> {
    Sorting.SortBy(rs, TsOf)
  }

  lemma SortSorted(rs: seq<Reading>)
    ensures Sorted(SortByTs(rs))
  {
    Sorting.SortedBy(rs, TsOf);
    hide Sorting.SortBy;
    var s := SortByTs(rs);
    forall i, j | 0 <= i < j < |s| ensures s[i].ts <= s[j].ts {
      assert TsOf(s[i]) <= TsOf(s[j]);
    }
  }

  // ---- Sums and means ----

  /** The sum of the values that are not missing. */
  function Total(vs: seq<Option<real>>): real {
    if vs == [] then 0.0
    else Total(vs[..|vs| - 1]) + if vs[|vs| - 1].Some? then vs[|vs| - 1].value else 0.0
  }

  /** How many values are not missing. */
  function Count(vs: seq<Option<real>>): nat {
    if vs == [] then 0
    else Count(vs[..|vs| - 1]) + if vs[|vs| - 1].Some? then 1 else 0
  }

  function Mean(vs: seq<Option<real>>): Option<real> {
    if Count(vs) == 0 then None else Some(Total(vs) / Count(vs) as real)
  }

  lemma TotalOne(v: real)
    ensures Total([Some(v)]) == v && Count([Some(v)]) == 1
    ensures Total([None]) == 0.0 && Count([None]) == 0
  {
    assert forall w: Option<real> :: [w][..0] == [];
  }

  /** With TotalOne: only values that are not missing are summed and counted. */
  lemma {:induction false} TotalConcat(us: seq<Option<real>>, vs: seq<Option<real>>)
    ensures Total(us + vs) == Total(us) + Total(vs)
    ensures Count(us + vs) == Count(us) + Count(vs)
  {
    if vs == [] {
      assert us + vs == us;
    } else {
      var s := us + vs;
      assert s[..|s| - 1] == us + vs[..|vs| - 1];
      TotalConcat(us, vs[..|vs| - 1]);
    }
  }

  /** A mean weighted with its count is the sum it was taken over. */
  function Share(mean: Option<real>, count: nat): real {
    if mean.Some? then mean.value * count as real else 0.0
  }

  lemma {:induction false} NothingKnown(vs: seq<Option<real>>)
    requires Count(vs) == 0
    ensures Total(vs) == 0.0
  {
    if vs != [] {
      NothingKnown(vs[..|vs| - 1]);
    }
  }

  lemma MeanTimesCount(vs: seq<Option<real>>)
    ensures Share(Mean(vs), Count(vs)) == Total(vs)
  {
    if Count(vs) == 0 {
      NothingKnown(vs);
    }
  }

  /** The mean of no known value is missing; any other is the value that, taken for each of them, gives their sum. */
  lemma {:induction false} MeanExact(vs: seq<Option<real>>)
    ensures Mean(vs) == None <==> forall v :: v in vs ==> v == None
    ensures Mean(vs).Some? ==> Mean(vs).value * Count(vs) as real == Total(vs)
  {
    CountNone(vs);
  }

  lemma {:induction false} CountNone(vs: seq<Option<real>>)
    ensures Count(vs) == 0 <==> forall v :: v in vs ==> v == None
  {
    if vs != [] {
      var rest, last := vs[..|vs| - 1], vs[|vs| - 1];
      CountNone(rest);
      assert vs == rest + [last];
      assert last in vs && forall v :: v in rest ==> v in vs;
      assert forall v :: v in vs ==> v in rest || v == last;
    }
  }

  lemma {:induction false} InsertTotal(r: Reading, s: seq<Reading>)
    ensures Total(Values(Sorting.Insert(r, s, TsOf))) == Total(Values(s)) + Total([r.value])
    ensures Count(Values(Sorting.Insert(r, s, TsOf))) == Count(Values(s)) + Count([r.value])
  {
    assert [r.value][..0] == [];
    if s == [] || TsOf(s[|s| - 1]) <= TsOf(r) {
      assert (s + [r])[..|s|] == s;
      TotalConcat(Values(s), [r.value]);
    } else {
      var rest, last := s[..|s| - 1], s[|s| - 1];
      InsertTotal(r, rest);
      var t := Sorting.Insert(r, s, TsOf);
      assert t[..|t| - 1] == Sorting.Insert(r, rest, TsOf);
      TotalConcat(Values(Sorting.Insert(r, rest, TsOf)), [last.value]);
      TotalConcat(Values(rest), [last.value]);
    }
  }

  lemma {:induction false} SortTotal(rs: seq<Reading>)
    ensures Total(Values(SortByTs(rs))) == Total(Values(rs))
    ensures Count(Values(SortByTs(rs))) == Count(Values(rs))
  {
    if rs != [] {
      var rest, last := rs[..|rs| - 1], rs[|rs| - 1];
      SortTotal(rest);
      InsertTotal(last, SortByTs(rest));
      TotalConcat(Values(rest), [last.value]);
    }
  }

  // ---- Buckets ----

  /** The span t0..t1 cut into equal buckets. */
  datatype Grid = Grid(t0: int, t1: int, buckets: int)

  predicate ValidGrid(g: Grid) {
    g.t0 < g.t1 && g.buckets >= 1
  }

  function Width(g: Grid): (w: real)
    requires ValidGrid(g)
    ensures w > 0.0 && w * g.buckets as real == (g.t1 - g.t0) as real
  {
    (g.t1 - g.t0) as real / g.buckets as real
  }

  /** Where a bucket begins. */
  function Edge(g: Grid, b: int): real
    requires ValidGrid(g)
  {
    g.t0 as real + b as real * Width(g)
  }

  /** Truncation toward zero. */
  function Truncate(x: real): int {
    if x < 0.0 then -((-x).Floor) else x.Floor
  }

  /** Cut toward zero: less than one away. */
  lemma TruncateExact(x: real)
    ensures x >= 0.0 ==> Truncate(x) as real <= x < Truncate(x) as real + 1.0
    ensures x < 0.0 ==> Truncate(x) as real - 1.0 < x <= Truncate(x) as real
  {}

  /** The edges go from t0 to t1 in equal steps. */
  lemma EdgeExact(g: Grid, b: int)
    requires ValidGrid(g)
    ensures Edge(g, 0) == g.t0 as real && Edge(g, g.buckets) == g.t1 as real
    ensures (Edge(g, b + 1) - Edge(g, b)) * g.buckets as real == (g.t1 - g.t0) as real
  {
    var w := Width(g);
    hide Width;
    assert (b + 1) as real * w == b as real * w + w;
    assert g.buckets as real * w == w * g.buckets as real;
    assert Edge(g, 0) == g.t0 as real + 0.0 * w;
  }

  function BucketOf(g: Grid, ts: int): (b: int)
    requires ValidGrid(g)
  {
    var q := Truncate((ts - g.t0) as real / Width(g));
    if q < g.buckets - 1 then q else g.buckets - 1
  }

  lemma FloorTimes(q: real, w: real)
    requires w > 0.0
    ensures q.Floor as real * w <= q * w < (q.Floor + 1) as real * w
  {
    var n := q.Floor as real;
    Scale(n, q, w);
    Scale(q, n + 1.0, w);
    assert (q.Floor + 1) as real == n + 1.0;
  }

  lemma QuotientNonNegative(x: real, w: real)
    requires x >= 0.0 && w > 0.0
    ensures x / w >= 0.0
  {
    var q := x / w;
    Scale(q, 0.0, w);
    assert q * w == x;
  }

  lemma FloorOfQuotient(x: real, w: real)
    requires x >= 0.0 && w > 0.0
    ensures (x / w).Floor >= 0
    ensures (x / w).Floor as real * w <= x < ((x / w).Floor + 1) as real * w
  {
    var q := x / w;
    QuotientNonNegative(x, w);
    FloorTimes(q, w);
    assert q * w == x;
    assert x < (q.Floor + 1) as real * w;
  }

  lemma Scale(a: real, b: real, w: real)
    requires w > 0.0
    ensures a <= b ==> a * w <= b * w
    ensures a < b ==> a * w < b * w
  {}

  /** A timestamp of the span falls into a bucket of the grid, no earlier than where it begins and before the next. */
  lemma BucketCovers(g: Grid, ts: int)
    requires ValidGrid(g) && g.t0 <= ts <= g.t1
    ensures 0 <= BucketOf(g, ts) < g.buckets
    ensures Edge(g, BucketOf(g, ts)) <= ts as real
    ensures ts as real < Edge(g, BucketOf(g, ts) + 1) || BucketOf(g, ts) == g.buckets - 1
  {
    var x, w := (ts - g.t0) as real, Width(g);
    FloorOfQuotient(x, w);
    hide Width;
    var q := (x / w).Floor;
    QuotientNonNegative(x, w);
    Scale(BucketOf(g, ts) as real, q as real, w);
  }

  /** Later timestamps never fall into earlier buckets. */
  lemma BucketMonotone(g: Grid, s: int, t: int)
    requires ValidGrid(g) && g.t0 <= s <= t <= g.t1
    ensures BucketOf(g, s) <= BucketOf(g, t)
  {
    BucketCovers(g, s);
    BucketCovers(g, t);
    if BucketOf(g, t) < BucketOf(g, s) {
      EdgeMonotone(g, BucketOf(g, t) + 1, BucketOf(g, s));
    }
  }

  lemma EdgeMonotone(g: Grid, b: int, c: int)
    requires ValidGrid(g) && b <= c
    ensures Edge(g, b) <= Edge(g, c)
  {
    Scale(b as real, c as real, Width(g));
  }

  predicate Within(g: Grid, rs: seq<Reading>) {
    forall r :: r in rs ==> g.t0 <= r.ts <= g.t1
  }

  /** The values of the readings that fall into bucket b, in order. */
  function Members(g: Grid, rs: seq<Reading>, b: int): seq<Option<real>>
    requires ValidGrid(g)
  {
    if rs == [] then []
    else
      var rest, last := Members(g, rs[..|rs| - 1], b), rs[|rs| - 1];
      if BucketOf(g, last.ts) == b then rest + [last.value] else rest
  }

  /** With MembersOne: the values of exactly the readings that fall into the bucket, in order. */
  lemma {:induction false} MembersConcat(g: Grid, a: seq<Reading>, b: seq<Reading>, n: int)
    requires ValidGrid(g)
    ensures Members(g, a + b, n) == Members(g, a, n) + Members(g, b, n)
  {
    hide BucketOf;
    if b == [] {
      assert a + b == a;
    } else {
      assert (a + b)[..|a + b| - 1] == a + b[..|b| - 1];
      MembersConcat(g, a, b[..|b| - 1], n);
    }
  }

  lemma MembersOne(g: Grid, r: Reading, n: int)
    requires ValidGrid(g)
    ensures Members(g, [r], n) == if BucketOf(g, r.ts) == n then [r.value] else []
  {
    assert [r][..0] == [];
  }

  /** The averages of the non-empty buckets below n. */
  function Averages(g: Grid, rs: seq<Reading>, n: nat): (out: seq<Reading>)
    requires ValidGrid(g)
    ensures |out| <= n
  {
    if n == 0 then []
    else
      var m := Members(g, rs, n - 1);
      Averages(g, rs, n - 1) + if m == [] then [] else [Reading(Truncate(Edge(g, n - 1)), Mean(m))]
  }

  function Downsampled(rows: seq<Row>, buckets: int): seq<Reading> {
    var rs := SortByTs(Dated(rows));
    if rs == [] || buckets < 1 then
      []
    else
      var t0, t1 := rs[0].ts, rs[|rs| - 1].ts;
      if t1 == t0 then
        [Reading(t0, Mean(Values(rs)))]
      else
        SortSorted(Dated(rows));
        Averages(Grid(t0, t1, buckets), rs, buckets)
  }

  /** A bucket with a member gives the mean of its members, stamped with where it begins; an empty one gives nothing. */
  lemma {:induction false} AveragesExactly(g: Grid, rs: seq<Reading>, n: nat, r: Reading)
    requires ValidGrid(g)
    ensures r in Averages(g, rs, n)
       <==> exists b :: 0 <= b < n && Members(g, rs, b) != []
                        && r == Reading(Truncate(Edge(g, b)), Mean(Members(g, rs, b)))
  {
    hide Members, Truncate, Edge, Mean;
    if n > 0 {
      AveragesExactly(g, rs, n - 1, r);
      var m := Members(g, rs, n - 1);
      var last := Reading(Truncate(Edge(g, n - 1)), Mean(m));
      assert r in Averages(g, rs, n) <==> r in Averages(g, rs, n - 1) || (m != [] && r == last);
    }
  }

  /** The series of a single moment is one reading at that moment, and no series gives none. */
  lemma OneMoment(rows: seq<Row>, buckets: int, t: int)
    ensures Dated(rows) == [] || buckets < 1 ==> Downsampled(rows, buckets) == []
    ensures Dated(rows) != [] && buckets >= 1 && (forall r :: r in Dated(rows) ==> r.ts == t) ==>
              |Downsampled(rows, buckets)| == 1 && Downsampled(rows, buckets)[0].ts == t
              && Downsampled(rows, buckets)[0].value == Mean(Values(Dated(rows)))
  {
    var rs := SortByTs(Dated(rows));
    Sorting.SortedBy(Dated(rows), TsOf);
    SortTotal(Dated(rows));
    hide Dated, Averages, Sorting.SortBy;
    forall r | r in rs ensures r in Dated(rows) {
      assert r in multiset(rs);
    }
  }

  // ---- The buckets cut the series into consecutive runs ----

  /** The buckets below n, one after the other. */
  function Joined(g: Grid, rs: seq<Reading>, n: nat): seq<Option<real>>
    requires ValidGrid(g)
  {
    if n == 0 then [] else Joined(g, rs, n - 1) + Members(g, rs, n - 1)
  }

  lemma {:induction false} LaterBucketsEmpty(g: Grid, rs: seq<Reading>, b: int)
    requires ValidGrid(g) && forall r :: r in rs ==> BucketOf(g, r.ts) < b
    ensures Members(g, rs, b) == []
  {
    if rs != [] {
      assert rs[|rs| - 1] in rs;
      LaterBucketsEmpty(g, rs[..|rs| - 1], b);
    }
  }

  lemma {:induction false} JoinedStep(g: Grid, rs: seq<Reading>, n: nat)
    requires ValidGrid(g) && rs != []
    requires forall r :: r in rs ==> BucketOf(g, r.ts) <= BucketOf(g, rs[|rs| - 1].ts)
    ensures Joined(g, rs, n)
         == Joined(g, rs[..|rs| - 1], n)
          + if 0 <= BucketOf(g, rs[|rs| - 1].ts) < n then [rs[|rs| - 1].value] else []
  {
    if n > 0 {
      hide BucketOf;
      JoinedStep(g, rs, n - 1);
      if BucketOf(g, rs[|rs| - 1].ts) < n - 1 {
        LaterBucketsEmpty(g, rs[..|rs| - 1], n - 1);
      }
    }
  }

  /** Read one after the other, the buckets give back the whole sorted series: each row is in exactly one. */
  lemma {:induction false} BucketsPartition(g: Grid, rs: seq<Reading>)
    requires ValidGrid(g) && Sorted(rs) && Within(g, rs)
    ensures Joined(g, rs, g.buckets) == Values(rs)
  {
    if rs == [] {
      JoinedEmpty(g, g.buckets);
    } else {
      var last := rs[|rs| - 1];
      forall r | r in rs ensures BucketOf(g, r.ts) <= BucketOf(g, last.ts) {
        BucketMonotone(g, r.ts, last.ts);
      }
      BucketCovers(g, last.ts);
      BucketsPartition(g, rs[..|rs| - 1]);
      JoinedStep(g, rs, g.buckets);
    }
  }

  lemma {:induction false} JoinedEmpty(g: Grid, n: nat)
    requires ValidGrid(g)
    ensures Joined(g, [], n) == []
  {
    if n > 0 {
      JoinedEmpty(g, n - 1);
    }
  }

  // ---- Conservation ----

  /** How many values each average was taken over. */
  function Counts(g: Grid, rs: seq<Reading>, n: nat): (c: seq<nat>)
    requires ValidGrid(g)
    ensures |c| == |Averages(g, rs, n)|
  {
    if n == 0 then []
    else
      var m := Members(g, rs, n - 1);
      Counts(g, rs, n - 1) + if m == [] then [] else [Count(m)]
  }

  /** The sum of the averages, each weighted with its count. */
  function Weighted(out: seq<Reading>, counts: seq<nat>): real
    requires |out| == |counts|
  {
    if out == [] then 0.0
    else
      Weighted(out[..|out| - 1], counts[..|out| - 1]) + Share(out[|out| - 1].value, counts[|out| - 1])
  }

  lemma WeightedAppend(out: seq<Reading>, counts: seq<nat>, r: Reading, c: nat)
    requires |out| == |counts|
    ensures Weighted(out + [r], counts + [c]) == Weighted(out, counts) + Share(r.value, c)
  {
    hide Share;
    assert (out + [r])[..|out|] == out && (counts + [c])[..|out|] == counts;
  }

  lemma {:induction false} WeightedJoined(g: Grid, rs: seq<Reading>, n: nat)
    requires ValidGrid(g)
    ensures Weighted(Averages(g, rs, n), Counts(g, rs, n)) == Total(Joined(g, rs, n))
  {
    if n > 0 {
      var m, out, counts := Members(g, rs, n - 1), Averages(g, rs, n - 1), Counts(g, rs, n - 1);
      assert Averages(g, rs, n) == out + if m == [] then [] else [Reading(Truncate(Edge(g, n - 1)), Mean(m))];
      assert Counts(g, rs, n) == counts + if m == [] then [] else [Count(m)];
      assert Joined(g, rs, n) == Joined(g, rs, n - 1) + m;
      hide *;
      WeightedJoined(g, rs, n - 1);
      TotalConcat(Joined(g, rs, n - 1), m);
      if m == [] {
        NothingShared();
        assert Averages(g, rs, n) == out && Counts(g, rs, n) == counts;
      } else {
        MeanTimesCount(m);
        WeightedAppend(out, counts, Reading(Truncate(Edge(g, n - 1)), Mean(m)), Count(m));
      }
    } else {
      NothingShared();
    }
  }

  lemma NothingShared()
    ensures Total([]) == 0.0 && Weighted([], []) == 0.0
  {}

  /** The counts behind the downsampled series. */
  function CountsOf(rows: seq<Row>, buckets: int): (c: seq<nat>)
    ensures |c| == |Downsampled(rows, buckets)|
  {
    var rs := SortByTs(Dated(rows));
    if rs == [] || buckets < 1 then
      []
    else
      var t0, t1 := rs[0].ts, rs[|rs| - 1].ts;
      if t1 == t0 then
        [Count(Values(rs))]
      else
        SortSorted(Dated(rows));
        Counts(Grid(t0, t1, buckets), rs, buckets)
  }

  lemma SortedWithin(rs: seq<Reading>, buckets: int)
    requires Sorted(rs) && rs != []
    ensures Within(Grid(rs[0].ts, rs[|rs| - 1].ts, buckets), rs)
  {}

  /** Downsampling conserves the count-weighted sum of the values that are not missing. */
  lemma SumConserved(rows: seq<Row>, buckets: int)
    requires buckets >= 1
    ensures Weighted(Downsampled(rows, buckets), CountsOf(rows, buckets)) == Total(Values(Dated(rows)))
  {
    var rs := SortByTs(Dated(rows));
    SortTotal(Dated(rows));
    SortSorted(Dated(rows));
    if rs != [] {
      var t0, t1 := rs[0].ts, rs[|rs| - 1].ts;
      if t1 == t0 {
        MeanTimesCount(Values(rs));
        hide Mean, Share;
        var out, counts := Downsampled(rows, buckets), CountsOf(rows, buckets);
        assert out[..0] == [] && counts[..0] == [];
      } else {
        var g := Grid(t0, t1, buckets);
        SortedWithin(rs, buckets);
        BucketsPartition(g, rs);
        WeightedJoined(g, rs, buckets);
      }
    }
  }

  // ---- Order ----

  lemma TruncateMonotone(x: real, y: real)
    requires x <= y
    ensures Truncate(x) <= Truncate(y)
  {}

  lemma {:induction false} AveragesOrdered(g: Grid, rs: seq<Reading>, n: nat)
    requires ValidGrid(g)
    ensures Sorted(Averages(g, rs, n))
    ensures forall r :: r in Averages(g, rs, n) ==> r.ts <= Truncate(Edge(g, n))
  {
    if n > 0 {
      hide Edge, Truncate, Members, Mean;
      AveragesOrdered(g, rs, n - 1);
      EdgeMonotone(g, n - 1, n);
      TruncateMonotone(Edge(g, n - 1), Edge(g, n));
    }
  }

  /** At most `buckets` averages, in time order. */
  lemma OutputOrdered(rows: seq<Row>, buckets: int)
    ensures Sorted(Downsampled(rows, buckets))
    ensures |Downsampled(rows, buckets)| <= if buckets < 0 then 0 else buckets
  {
    var rs := SortByTs(Dated(rows));
    if rs != [] && buckets >= 1 {
      SortSorted(Dated(rows));
      if rs[0].ts != rs[|rs| - 1].ts {
        AveragesOrdered(Grid(rs[0].ts, rs[|rs| - 1].ts, buckets), rs, buckets);
      }
    }
  }

  // ---- The loop ----

  /** The table of buckets filled from a series. */
  ghost predicate Filled(acc: map<int, seq<Option<real>>>, g: Grid, rs: seq<Reading>) {
    && ValidGrid(g)
    && (forall b :: b in acc <==> Members(g, rs, b) != [])
    && (forall b :: b in acc ==> acc[b] == Members(g, rs, b))
  }

  method Fill(g: Grid, rs: seq<Reading>) returns (acc: map<int, seq<Option<real>>>)
    requires ValidGrid(g)
    ensures Filled(acc, g, rs)
  {
    acc := map[];
    for k := 0 to |rs|
      invariant Filled(acc, g, rs[..k])
    {
      hide BucketOf;
      var b := BucketOf(g, rs[k].ts);
      assert rs[..k + 1][..k] == rs[..k];
      if b !in acc {
        acc := acc[b := []];
      }
      acc := acc[b := acc[b] + [rs[k].value]];
    }
    assert rs[..|rs|] == rs;
  }

  lemma {:induction false} EmptyStretch(g: Grid, rs: seq<Reading>, n: nat, m: nat)
    requires ValidGrid(g) && n <= m
    requires forall b :: n <= b < m ==> Members(g, rs, b) == []
    ensures Averages(g, rs, m) == Averages(g, rs, n)
  {
    if n < m {
      EmptyStretch(g, rs, n, m - 1);
    }
  }

  lemma Inhabited(s: set<int>)
    requires s != {}
    ensures exists x :: x in s
  {
    assert (forall x :: x !in s) ==> s == {};
  }

  ghost predicate Least(s: set<int>, b: int) {
    b in s && forall c :: c in s ==> b <= c
  }

  lemma {:induction false} Smallest(s: set<int>) returns (b: int)
    requires s != {}
    ensures Least(s, b)
  {
    Inhabited(s);
    var x :| x in s;
    var rest := s - {x};
    b := x;
    if rest != {} {
      var y := Smallest(rest);
      if y < x {
        b := y;
      }
    }
    assert forall c :: c in s ==> c == x || c in rest;
  }

  lemma MembersInRange(g: Grid, rs: seq<Reading>, b: int)
    requires ValidGrid(g) && Within(g, rs) && Members(g, rs, b) != []
    ensures 0 <= b < g.buckets
  {
    var last := rs[|rs| - 1];
    BucketCovers(g, last.ts);
    if BucketOf(g, last.ts) != b {
      MembersInRange(g, rs[..|rs| - 1], b);
    }
  }

  /** The averages in bucket order. */
  method Average(g: Grid, acc: map<int, seq<Option<real>>>, ghost rs: seq<Reading>) returns (out: seq<Reading>)
    requires Filled(acc, g, rs) && Within(g, rs)
    ensures out == Averages(g, rs, g.buckets)
  {
    hide Members, BucketOf, Truncate, Edge, Mean;
    out := [];
    var todo := acc.Keys;
    ghost var n := 0;
    forall b | b in acc ensures 0 <= b < g.buckets {
      MembersInRange(g, rs, b);
    }
    while todo != {}
      invariant 0 <= n <= g.buckets
      invariant forall b :: b in todo <==> b in acc && n <= b
      invariant out == Averages(g, rs, n)
      decreases |todo|
    {
      ghost var least := Smallest(todo);
      var b :| b in todo && forall c :: c in todo ==> b <= c;
      NextBucket(g, acc, rs, n, b);
      out := out + [Reading(Truncate(Edge(g, b)), Mean(acc[b]))];
      todo := todo - {b};
      n := b + 1;
    }
    EmptyStretch(g, rs, n, g.buckets);
  }

  lemma NextBucket(g: Grid, acc: map<int, seq<Option<real>>>, rs: seq<Reading>, n: nat, b: int)
    requires Filled(acc, g, rs) && b in acc && n <= b
    requires forall c :: c in acc && n <= c ==> b <= c
    ensures Averages(g, rs, b + 1) == Averages(g, rs, n) + [Reading(Truncate(Edge(g, b)), Mean(acc[b]))]
  {
    hide Members, Truncate, Edge, Mean;
    EmptyStretch(g, rs, n, b);
  }

  method Downsample(rows: seq<Row>, buckets: int) returns (out: seq<Reading>)
    ensures out == Downsampled(rows, buckets)
  {
    var rs := SortByTs(Dated(rows));
    if rs == [] || buckets < 1 {
      return [];
    }
    var t0, t1 := rs[0].ts, rs[|rs| - 1].ts;
    if t1 == t0 {
      return [Reading(t0, Mean(Values(rs)))];
    }
    SortSorted(Dated(rows));
    SortedWithin(rs, buckets);
    var g := Grid(t0, t1, buckets);
    var acc := Fill(g, rs);
    out := Average(g, acc, rs);
  }
}
