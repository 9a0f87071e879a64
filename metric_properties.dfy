/** What `calculate_stats` promises about its result, proved of the function
    that the method is shown to compute. */
module MetricProperties {
  import opened Wrappers
  import opened Sequences
  import opened Text
  import opened Catalogue
  import opened SampleTable
  import opened GroupResolver
  import opened StatisticsEngine

  /** A metric yields no result exactly when none of the mode's canonical
      brackets occurs among its retained rows. */
  lemma NoResultWithoutBrackets(t: Table, metric: string, groupCol: string, modeKey: string, kit: Numerics)
    ensures MetricStats(t, metric, groupCol, modeKey, kit).None? <==>
      forall g :: g in OrderFor(modeKey) ==> g !in Labels(Observations(t.rows, groupCol, metric))
  {
    var labels := Labels(Observations(t.rows, groupCol, metric));
    var present := Present(OrderFor(modeKey), labels);
    PresentMembers(OrderFor(modeKey), labels);
    if present != [] {
      assert present[0] in present;
    }
  }

  /** The brackets of the mode present among the metric's retained rows. */
  function PresentOf(t: Table, metric: string, groupCol: string, modeKey: string): seq<string>
  {
    Present(OrderFor(modeKey), Labels(Observations(t.rows, groupCol, metric)))
  }

  /** The i-th row of a table is the row of the i-th bracket. */
  lemma {:induction false} TableOfAt(present: seq<string>, data: seq<Obs>, ids: map<string, string>, kit: Numerics)
    requires forall g :: g in present ==> g in ids
    ensures |TableOf(present, data, ids, kit)| == |present|
    ensures forall i :: 0 <= i < |present| ==> TableOf(present, data, ids, kit)[i] == GroupRow(present[i], data, ids, kit)
  {
    if present != [] {
      var init := present[..|present| - 1];
      TableOfAt(init, data, ids, kit);
    }
  }

  /** `table` and `chart_data` hold one entry per present bracket, in the
      same order, identified by the bracket's ordinal; N is the number of
      retained rows of the bracket (at least one), the series holds exactly
      those values, each row is `GroupRow` of its bracket (Media, DS and the
      percentiles computed from that bracket's values), and DS is 0 when N is
      at most 1. */
  lemma TableAndChartShape(t: Table, metric: string, groupCol: string, modeKey: string, kit: Numerics)
    requires MetricStats(t, metric, groupCol, modeKey, kit).Some?
    ensures
      var data := Observations(t.rows, groupCol, metric);
      var present := Present(OrderFor(modeKey), Labels(data));
      var r := MetricStats(t, metric, groupCol, modeKey, kit).value;
      && |r.table| == |present| == |r.chart|
      && forall i :: 0 <= i < |present| ==>
           && r.table[i] == GroupRow(present[i], data, NameToNum(present), kit)
           && r.table[i].fascia == present[i]
           && r.table[i].id == DecimalString(i + 1) == r.chart[i].group
           && r.chart[i].values == ValuesOf(data, present[i])
           && r.table[i].n == |ValuesOf(data, present[i])| >= 1
           && (r.table[i].n <= 1 ==> r.table[i].sd == 0.0)
  {
    var data := Observations(t.rows, groupCol, metric);
    var order := OrderFor(modeKey);
    var present := Present(order, Labels(data));
    var ids := NameToNum(present);
    OrderForDistinct(modeKey);
    PresentDistinct(order, Labels(data));
    PresentMembers(order, Labels(data));
    TableOfAt(present, data, ids, kit);
    forall i | 0 <= i < |present|
      ensures ids[present[i]] == DecimalString(i + 1)
      ensures |ValuesOf(data, present[i])| >= 1
    {
      NameToNumAt(present, i);
      ValuesOfNonEmpty(data, present[i]);
    }
  }

  /** The sum of N over a table. */
  function SumN(table: seq<GroupStats>): nat
  {
    if table == [] then 0 else SumN(table[..|table| - 1]) + table[|table| - 1].n
  }

  /** The number of values labelled with one of `ps`, bracket by bracket. */
  function CountsTotal(ps: seq<string>, data: seq<Obs>): nat
  {
    if ps == [] then 0 else CountsTotal(ps[..|ps| - 1], data) + |ValuesOf(data, ps[|ps| - 1])|
  }

  /** How often `x` occurs in `ps`. */
  function Hits(ps: seq<string>, x: string): nat
  {
    if ps == [] then 0 else Hits(ps[..|ps| - 1], x) + (if ps[|ps| - 1] == x then 1 else 0)
  }

  lemma {:induction false} TableSumN(ps: seq<string>, data: seq<Obs>, ids: map<string, string>, kit: Numerics)
    requires forall g :: g in ps ==> g in ids
    ensures SumN(TableOf(ps, data, ids, kit)) == CountsTotal(ps, data)
  {
    if ps != [] {
      var init := ps[..|ps| - 1];
      TableSumN(init, data, ids, kit);
      var table := TableOf(ps, data, ids, kit);
      assert table[..|table| - 1] == TableOf(init, data, ids, kit);
    }
  }

  lemma {:induction false} HitsAtMostOne(ps: seq<string>, x: string)
    requires NoDuplicates(ps)
    ensures Hits(ps, x) <= 1
    ensures x !in ps ==> Hits(ps, x) == 0
  {
    if ps != [] {
      var init := ps[..|ps| - 1];
      HitsAtMostOne(init, x);
      if ps[|ps| - 1] == x {
        assert x !in init;
      } else if x !in ps {
        assert x !in init;
      }
    }
  }

  /** One more observation adds one to the count of its own bracket only. */
  lemma {:induction false} CountsTotalStep(ps: seq<string>, data: seq<Obs>)
    requires data != []
    ensures CountsTotal(ps, data) == CountsTotal(ps, data[..|data| - 1]) + Hits(ps, data[|data| - 1].bracket)
  {
    if ps != [] {
      CountsTotalStep(ps[..|ps| - 1], data);
    }
  }

  /** Brackets without repeats never count an observation twice. */
  lemma {:induction false} CountsTotalBound(ps: seq<string>, data: seq<Obs>)
    requires NoDuplicates(ps)
    ensures CountsTotal(ps, data) <= |data|
  {
    if data == [] {
      assert CountsTotal(ps, data) == 0 by {
        CountsTotalEmpty(ps, data);
      }
    } else {
      CountsTotalBound(ps, data[..|data| - 1]);
      CountsTotalStep(ps, data);
      HitsAtMostOne(ps, data[|data| - 1].bracket);
    }
  }

  lemma {:induction false} CountsTotalEmpty(ps: seq<string>, data: seq<Obs>)
    requires data == []
    ensures CountsTotal(ps, data) == 0
  {
    if ps != [] {
      CountsTotalEmpty(ps[..|ps| - 1], data);
    }
  }

  /** The N of all present brackets add up to at most the retained rows,
      and so to at most the rows of the table. */
  lemma TotalNBound(t: Table, metric: string, groupCol: string, modeKey: string, kit: Numerics)
    requires MetricStats(t, metric, groupCol, modeKey, kit).Some?
    ensures SumN(MetricStats(t, metric, groupCol, modeKey, kit).value.table)
              <= |Observations(t.rows, groupCol, metric)| <= |t.rows|
  {
    var data := Observations(t.rows, groupCol, metric);
    var order := OrderFor(modeKey);
    var present := Present(order, Labels(data));
    OrderForDistinct(modeKey);
    PresentDistinct(order, Labels(data));
    TableSumN(present, data, NameToNum(present), kit);
    CountsTotalBound(present, data);
  }

  /** The omnibus flag is set exactly when at least two brackets are present,
      the test succeeds and its p-value is below the level; with fewer
      brackets or a failing test the placeholder is reported; and without a
      significant omnibus result there is no post-hoc entry. */
  lemma OmnibusGating(t: Table, metric: string, groupCol: string, modeKey: string, kit: Numerics)
    requires MetricStats(t, metric, groupCol, modeKey, kit).Some?
    ensures
      var data := Observations(t.rows, groupCol, metric);
      var present := Present(OrderFor(modeKey), Labels(data));
      var groups := GroupValues(present, data);
      var r := MetricStats(t, metric, groupCol, modeKey, kit).value;
      && (r.anova.sig <==> |present| >= 2 && kit.oneWay(groups).Some? && kit.oneWay(groups).value.1 < Alpha)
      && ((|present| < 2 || kit.oneWay(groups).None?) ==> r.anova == NotApplicableAnova)
      && (!r.anova.sig ==> r.posthoc == [])
  {
  }

  /** The post-hoc entry `e` reports brackets i < j (by ordinal): their test
      succeeded and its p-value, corrected by the number of all k(k-1)/2
      pairs, is below the level. */
  ghost predicate Reported(present: seq<string>, data: seq<Obs>, kit: Numerics, i: int, j: int, e: PostHoc)
  {
    && 0 <= i < j < |present|
    && var corr := |present| * (|present| - 1) / 2;
       var w := kit.welch(ValuesOf(data, present[i]), ValuesOf(data, present[j]));
       && w.Some?
       && Adjusted(w.value, corr) < Alpha
       && e == PostHoc(DecimalString(i + 1), DecimalString(j + 1), Adjusted(w.value, corr))
  }

  /** An entry produced by the pair of brackets i and j reports that pair. */
  lemma EntryReports(present: seq<string>, data: seq<Obs>, kit: Numerics, i: int, j: int, e: PostHoc)
    requires NoDuplicates(present)
    requires 0 <= i < j < |present|
    requires e in PairEntry((present[i], present[j]), data, NameToNum(present), |Pairs(present)|, kit)
    ensures Reported(present, data, kit, i, j, e)
  {
    var ids := NameToNum(present);
    var corr := |Pairs(present)|;
    NameToNumAt(present, i);
    NameToNumAt(present, j);
    PairsCount(present);
  }

  /** Every entry of the post-hoc pass reports some pair. */
  lemma KeptToReported(present: seq<string>, data: seq<Obs>, kit: Numerics, e: PostHoc)
    requires NoDuplicates(present)
    requires e in Kept(Pairs(present), data, NameToNum(present), |Pairs(present)|, kit)
    ensures exists i, j :: Reported(present, data, kit, i, j, e)
  {
    var ids := NameToNum(present);
    var prs := Pairs(present);
    var corr := |prs|;
    KeptMembers(prs, data, ids, corr, kit);
    var q :| 0 <= q < |prs| && e in PairEntry(prs[q], data, ids, corr, kit);
    assert prs[q] in prs;
    var i, j := PairPositions(present, prs[q]);
    EntryReports(present, data, kit, i, j, e);
  }

  /** The positions of a pair's two brackets. */
  lemma PairPositions(p: seq<string>, pr: (string, string)) returns (i: int, j: int)
    requires pr in Pairs(p)
    ensures 0 <= i < j < |p| && pr == (p[i], p[j])
  {
    PairsMembers(p);
    i, j :| 0 <= i < j < |p| && pr == (p[i], p[j]);
  }

  /** Every reported pair is an entry of the post-hoc pass. */
  lemma ReportedToKept(present: seq<string>, data: seq<Obs>, kit: Numerics, e: PostHoc, i: int, j: int)
    requires NoDuplicates(present)
    requires Reported(present, data, kit, i, j, e)
    ensures e in Kept(Pairs(present), data, NameToNum(present), |Pairs(present)|, kit)
  {
    var ids := NameToNum(present);
    var prs := Pairs(present);
    var corr := |prs|;
    PairsMembers(present);
    assert (present[i], present[j]) in prs;
    var q :| 0 <= q < |prs| && prs[q] == (present[i], present[j]);
    NameToNumAt(present, i);
    NameToNumAt(present, j);
    PairsCount(present);
    assert e in PairEntry(prs[q], data, ids, corr, kit);
    KeptMembers(prs, data, ids, corr, kit);
  }

  /** `e` reports some pair of present brackets. */
  ghost predicate ReportsSomePair(present: seq<string>, data: seq<Obs>, kit: Numerics, e: PostHoc)
  {
    exists i, j :: Reported(present, data, kit, i, j, e)
  }

  /** The entries of the post-hoc pass are exactly the reported pairs. */
  lemma KeptIsReported(present: seq<string>, data: seq<Obs>, kit: Numerics)
    requires NoDuplicates(present)
    ensures forall e :: e in Kept(Pairs(present), data, NameToNum(present), |Pairs(present)|, kit) <==>
      exists i, j :: Reported(present, data, kit, i, j, e)
  {
    forall e | e in Kept(Pairs(present), data, NameToNum(present), |Pairs(present)|, kit)
      ensures exists i, j :: Reported(present, data, kit, i, j, e)
    {
      KeptToReported(present, data, kit, e);
    }
    forall e, i, j | Reported(present, data, kit, i, j, e)
      ensures e in Kept(Pairs(present), data, NameToNum(present), |Pairs(present)|, kit)
    {
      ReportedToKept(present, data, kit, e, i, j);
    }
  }

  /** Each entry of the post-hoc pass has a corrected p-value below the level. */
  lemma KeptBelowLevel(posthoc: seq<PostHoc>, present: seq<string>, data: seq<Obs>, kit: Numerics)
    requires NoDuplicates(present)
    requires posthoc == Kept(Pairs(present), data, NameToNum(present), |Pairs(present)|, kit)
    ensures forall e :: e in posthoc ==> e.pAdj < Alpha
  {
    KeptIsReported(present, data, kit);
    forall e | e in posthoc
      ensures e.pAdj < Alpha
    {
      var i, j :| Reported(present, data, kit, i, j, e);
    }
  }

  /** An entry produced by the q-th pair that carries the ordinals of
      positions i and j has (i, j) as the q-th position pair: the ordinals in
      an entry determine its pair. */
  lemma EntryIndices(present: seq<string>, data: seq<Obs>, kit: Numerics, q: nat, e: PostHoc, i: int, j: int)
    requires NoDuplicates(present)
    requires q < |Pairs(present)| && q < |IndexPairs(0, |present|)|
    requires Pairs(present)[q].0 in NameToNum(present) && Pairs(present)[q].1 in NameToNum(present)
    requires e in PairEntry(Pairs(present)[q], data, NameToNum(present), |Pairs(present)|, kit)
    requires 0 <= i && 0 <= j && e.first == DecimalString(i + 1) && e.second == DecimalString(j + 1)
    ensures i == IndexPairs(0, |present|)[q].0 && j == IndexPairs(0, |present|)[q].1
  {
    var ids := NameToNum(present);
    var pr := Pairs(present)[q];
    PairsOrdered(present);
    var a := IndexPairs(0, |present|)[q].0;
    var b := IndexPairs(0, |present|)[q].1;
    assert pr == (present[a], present[b]);
    NameToNumAt(present, a);
    NameToNumAt(present, b);
    DecimalStringInjective(i + 1, a + 1);
    DecimalStringInjective(j + 1, b + 1);
  }

  /** The post-hoc pass lists its entries in `combinations` order of the
      brackets they report, and so lists no entry twice. */
  lemma KeptReportsInOrder(posthoc: seq<PostHoc>, present: seq<string>, data: seq<Obs>, kit: Numerics)
    requires NoDuplicates(present)
    requires posthoc == Kept(Pairs(present), data, NameToNum(present), |Pairs(present)|, kit)
    ensures forall r1, r2, i1, j1, i2, j2 ::
      0 <= r1 < r2 < |posthoc| && Reported(present, data, kit, i1, j1, posthoc[r1]) && Reported(present, data, kit, i2, j2, posthoc[r2]) ==>
      LexBefore((i1, j1), (i2, j2))
    ensures NoDuplicates(posthoc)
  {
    var prs := Pairs(present);
    var ids := NameToNum(present);
    KeptInPairOrder(prs, data, ids, |prs|, kit);
    PairsOrdered(present);
    IndexPairsSorted(0, |present|);
    var pos := KeptPositions(prs, data, ids, |prs|, kit);
    var ix := IndexPairs(0, |present|);
    forall r1, r2, i1, j1, i2, j2 |
      0 <= r1 < r2 < |posthoc| && Reported(present, data, kit, i1, j1, posthoc[r1]) && Reported(present, data, kit, i2, j2, posthoc[r2])
      ensures LexBefore((i1, j1), (i2, j2))
    {
      EntryIndices(present, data, kit, pos[r1], posthoc[r1], i1, j1);
      EntryIndices(present, data, kit, pos[r2], posthoc[r2], i2, j2);
      assert LexBefore(ix[pos[r1]], ix[pos[r2]]);
    }
    forall r1, r2 | 0 <= r1 < r2 < |posthoc|
      ensures posthoc[r1] != posthoc[r2]
    {
      KeptToReported(present, data, kit, posthoc[r1]);
      var i, j :| Reported(present, data, kit, i, j, posthoc[r1]);
      assert !LexBefore((i, j), (i, j));
      assert !Reported(present, data, kit, i, j, posthoc[r2]);
    }
  }

  /** After a significant omnibus result, the post-hoc list holds exactly the
      reported pairs, each with a corrected p-value below the level. */
  lemma PostHocEntries(t: Table, metric: string, groupCol: string, modeKey: string, kit: Numerics)
    requires MetricStats(t, metric, groupCol, modeKey, kit).Some?
    requires MetricStats(t, metric, groupCol, modeKey, kit).value.anova.sig
    ensures
      var data := Observations(t.rows, groupCol, metric);
      var present := PresentOf(t, metric, groupCol, modeKey);
      var posthoc := MetricStats(t, metric, groupCol, modeKey, kit).value.posthoc;
      && (forall e :: e in posthoc ==> ReportsSomePair(present, data, kit, e))
      && (forall e, i, j :: Reported(present, data, kit, i, j, e) ==> e in posthoc)
      && (forall e :: e in posthoc ==> e.pAdj < Alpha)
      && (forall r1, r2, i1, j1, i2, j2 ::
            0 <= r1 < r2 < |posthoc| && Reported(present, data, kit, i1, j1, posthoc[r1]) &&
            Reported(present, data, kit, i2, j2, posthoc[r2]) ==>
            LexBefore((i1, j1), (i2, j2)))
      && NoDuplicates(posthoc)
  {
    var data := Observations(t.rows, groupCol, metric);
    var present := PresentOf(t, metric, groupCol, modeKey);
    OrderForDistinct(modeKey);
    PresentDistinct(OrderFor(modeKey), Labels(data));
    var posthoc := MetricStats(t, metric, groupCol, modeKey, kit).value.posthoc;
    assert posthoc == Kept(Pairs(present), data, NameToNum(present), |Pairs(present)|, kit);
    KeptIsReported(present, data, kit);
    KeptBelowLevel(posthoc, present, data, kit);
    KeptReportsInOrder(posthoc, present, data, kit);
  }

  /** Given a percentile routine that grows with the rank and a rounding that
      keeps order, each row's percentiles run P5 <= P10 <= ... <= P95. */
  lemma PercentilesOrdered(g: string, data: seq<Obs>, ids: map<string, string>, kit: Numerics)
    requires g in ids
    requires forall v: seq<real>, a: nat, b: nat :: a <= b ==> kit.percentile(v, a) <= kit.percentile(v, b)
    requires forall x: real, y: real :: x <= y ==> kit.round2(x) <= kit.round2(y)
    ensures forall i, j :: 0 <= i <= j < |PercentileRanks| ==>
      GroupRow(g, data, ids, kit).percentiles[i] <= GroupRow(g, data, ids, kit).percentiles[j]
  {
    var vals := ValuesOf(data, g);
    var row := GroupRow(g, data, ids, kit);
    forall i, j | 0 <= i <= j < |PercentileRanks|
      ensures row.percentiles[i] <= row.percentiles[j]
    {
      assert PercentileRanks[i] <= PercentileRanks[j];
      assert kit.percentile(vals, PercentileRanks[i]) <= kit.percentile(vals, PercentileRanks[j]);
    }
  }
}
