/** The per-metric computation: the omnibus test across present brackets,
    the corrected pairwise post-hoc pass, the per-bracket table and the chart
    series. The numerical routines themselves (the one-way ANOVA, Welch's
    t-test, mean, standard deviation, percentiles, rounding) are not modelled;
    they are passed in as a `Numerics` value and treated as arbitrary. */
module StatisticsEngine {
  import opened Wrappers
  import opened Sequences
  import opened Text
  import opened Catalogue
  import opened SampleTable
  import opened GroupResolver

  /** The numerical routines the computation calls. A test yields `None`
      where the library raises. */
  datatype Numerics = Numerics(
    oneWay: seq<seq<real>> -> Option<(real, real)>,   // (F, p) of a one-way ANOVA
    welch: (seq<real>, seq<real>) -> Option<real>,    // p of a two-sample unequal-variance t-test
    mean: seq<real> -> real,
    std: seq<real> -> real,
    percentile: (seq<real>, nat) -> real,             // linear-interpolation percentile at a rank
    round2: real -> real)                             // rounding to two decimals

  /** The significance level of both the omnibus and the post-hoc tests. */
  const Alpha: real := 0.05

  /** The percentile ranks of every table row, in column order P5 .. P95. */
  const PercentileRanks: seq<nat> := [5, 10, 25, 50, 75, 90, 95]

  datatype AnovaText = NotApplicable | Summary(f: real, p: real)
  datatype Anova = Anova(sig: bool, text: AnovaText)

  /** The omnibus result when the test is not run or fails. */
  const NotApplicableAnova: Anova := Anova(false, NotApplicable)

  /** A reported post-hoc comparison: the two bracket ordinals and the
      corrected p-value. */
  datatype PostHoc = PostHoc(first: string, second: string, pAdj: real)

  /** One table row: bracket label, ordinal, N, mean, DS and the seven
      percentiles. */
  datatype GroupStats = GroupStats(fascia: string, id: string, n: nat, mean: real, sd: real, percentiles: seq<real>)

  /** One chart series: the bracket ordinal and its raw values. */
  datatype Series = Series(group: string, values: seq<real>)

  datatype MetricResult = MetricResult(
    name: string, anova: Anova, posthoc: seq<PostHoc>, table: seq<GroupStats>, chart: seq<Series>)

  /** `groups_list`: the values of each present bracket, in bracket order. */
  function GroupValues(present: seq<string>, data: seq<Obs>): seq<seq<real>>
  {
    seq(|present|, i requires 0 <= i < |present| => ValuesOf(data, present[i]))
  }

  /** The omnibus result: the test runs only with at least two groups, and
      a test that raises leaves the placeholder in place. */
  function Omnibus(groups: seq<seq<real>>, kit: Numerics): (a: Anova)
    ensures a.text.NotApplicable? <==> |groups| < 2 || kit.oneWay(groups).None?
    ensures a.text.NotApplicable? ==> !a.sig
    ensures a.text.Summary? ==> kit.oneWay(groups) == Some((a.text.f, a.text.p)) && (a.sig <==> a.text.p < Alpha)
  {
    if |groups| >= 2 then
      match kit.oneWay(groups)
      case None => NotApplicableAnova
      case Some((f, p)) => Anova(p < Alpha, Summary(f, p))
    else NotApplicableAnova
  }

  /** `itertools.combinations(p, 2)`: every pair of elements, the earlier
      one first, in lexicographic order of positions. */
  function Pairs(p: seq<string>): (prs: seq<(string, string)>)
    ensures forall pr :: pr in prs ==> pr.0 in p && pr.1 in p
  {
    if |p| == 0 then []
    else seq(|p| - 1, k requires 0 <= k < |p| - 1 => (p[0], p[k + 1])) + Pairs(p[1..])
  }

  /** There are k(k-1)/2 pairs of k brackets. */
  lemma {:induction false} PairsCount(p: seq<string>)
    ensures |Pairs(p)| == |p| * (|p| - 1) / 2
  {
    if |p| > 0 {
      PairsCount(p[1..]);
      var k := |p|;
      assert (k - 1) * (k - 2) / 2 + (k - 1) == k * (k - 1) / 2 by {
        assert (k - 1) * (k - 2) + 2 * (k - 1) == k * (k - 1);
      }
    }
  }

  /** The pairs are exactly the (p[i], p[j]) with i < j. */
  lemma {:induction false} PairsMembers(p: seq<string>)
    ensures forall pr :: pr in Pairs(p) <==> exists i, j :: 0 <= i < j < |p| && pr == (p[i], p[j])
  {
    if |p| > 0 {
      var tail := p[1..];
      PairsMembers(tail);
      var head := seq(|p| - 1, k requires 0 <= k < |p| - 1 => (p[0], p[k + 1]));
      forall pr | pr in Pairs(p)
        ensures exists i, j :: 0 <= i < j < |p| && pr == (p[i], p[j])
      {
        if pr in head {
          var k :| 0 <= k < |head| && head[k] == pr;
          assert pr == (p[0], p[k + 1]);
        } else {
          assert pr in Pairs(tail);
          var i, j :| 0 <= i < j < |tail| && pr == (tail[i], tail[j]);
          assert pr == (p[i + 1], p[j + 1]);
        }
      }
      forall i, j | 0 <= i < j < |p|
        ensures (p[i], p[j]) in Pairs(p)
      {
        if i == 0 {
          assert head[j - 1] == (p[i], p[j]);
        } else {
          assert (tail[i - 1], tail[j - 1]) in Pairs(tail);
        }
      }
    }
  }

  /** The position pairs (i, j) with lo <= i < j < n, first by i and then
      by j: `itertools.combinations(range(lo, n), 2)`. */
  function IndexPairs(lo: nat, n: nat): (ix: seq<(nat, nat)>)
    ensures forall q :: 0 <= q < |ix| ==> lo <= ix[q].0 < ix[q].1 < n
    decreases n - lo
  {
    if n <= lo then []
    else seq(n - lo - 1, k requires 0 <= k < n - lo - 1 => (lo, lo + k + 1)) + IndexPairs(lo + 1, n)
  }

  /** Position pair `a` comes strictly before `b` in lexicographic order. */
  predicate LexBefore(a: (int, int), b: (int, int))
  {
    a.0 < b.0 || (a.0 == b.0 && a.1 < b.1)
  }

  /** The position pairs are strictly increasing, so none repeats. */
  lemma {:induction false} IndexPairsSorted(lo: nat, n: nat)
    ensures forall q1, q2 :: 0 <= q1 < q2 < |IndexPairs(lo, n)| ==> LexBefore(IndexPairs(lo, n)[q1], IndexPairs(lo, n)[q2])
    decreases n - lo
  {
    if lo < n {
      IndexPairsSorted(lo + 1, n);
      var head := seq(n - lo - 1, k requires 0 <= k < n - lo - 1 => (lo, lo + k + 1));
      var ix := IndexPairs(lo, n);
      assert ix == head + IndexPairs(lo + 1, n);
      forall q1, q2 | 0 <= q1 < q2 < |ix|
        ensures LexBefore(ix[q1], ix[q2])
      {
        if q2 < |head| {
          assert ix[q1] == (lo, lo + q1 + 1) && ix[q2] == (lo, lo + q2 + 1);
        } else if q1 < |head| {
          assert ix[q1].0 == lo && ix[q2] == IndexPairs(lo + 1, n)[q2 - |head|];
        } else {
          assert ix[q1] == IndexPairs(lo + 1, n)[q1 - |head|];
          assert ix[q2] == IndexPairs(lo + 1, n)[q2 - |head|];
        }
      }
    }
  }

  /** The pairs of the brackets from position lo on are the brackets at the
      position pairs of `IndexPairs(lo, |p|)`, in that order. */
  lemma {:induction false} PairsFrom(p: seq<string>, lo: nat)
    requires lo <= |p|
    ensures |Pairs(p[lo..])| == |IndexPairs(lo, |p|)|
    ensures forall q :: 0 <= q < |Pairs(p[lo..])| ==>
      Pairs(p[lo..])[q] == (p[IndexPairs(lo, |p|)[q].0], p[IndexPairs(lo, |p|)[q].1])
    decreases |p| - lo
  {
    if lo < |p| {
      PairsFrom(p, lo + 1);
      var s := p[lo..];
      assert s[1..] == p[lo + 1..];
      var head := seq(|s| - 1, k requires 0 <= k < |s| - 1 => (s[0], s[k + 1]));
      var ihead := seq(|p| - lo - 1, k requires 0 <= k < |p| - lo - 1 => (lo, lo + k + 1));
      assert Pairs(s) == head + Pairs(p[lo + 1..]);
      assert IndexPairs(lo, |p|) == ihead + IndexPairs(lo + 1, |p|);
      forall q | 0 <= q < |Pairs(s)|
        ensures Pairs(s)[q] == (p[IndexPairs(lo, |p|)[q].0], p[IndexPairs(lo, |p|)[q].1])
      {
        if q < |head| {
          assert Pairs(s)[q] == (s[0], s[q + 1]) == (p[lo], p[lo + q + 1]);
        } else {
          assert Pairs(s)[q] == Pairs(p[lo + 1..])[q - |head|];
          assert IndexPairs(lo, |p|)[q] == IndexPairs(lo + 1, |p|)[q - |head|];
        }
      }
    }
  }

  /** `combinations` order: the q-th pair is the brackets at the q-th position
      pair, and the position pairs strictly increase lexicographically. */
  lemma PairsOrdered(p: seq<string>)
    ensures |Pairs(p)| == |IndexPairs(0, |p|)|
    ensures forall q :: 0 <= q < |Pairs(p)| ==> Pairs(p)[q] == (p[IndexPairs(0, |p|)[q].0], p[IndexPairs(0, |p|)[q].1])
    ensures forall q1, q2 :: 0 <= q1 < q2 < |Pairs(p)| ==> LexBefore(IndexPairs(0, |p|)[q1], IndexPairs(0, |p|)[q2])
  {
    assert p[0..] == p;
    PairsFrom(p, 0);
    IndexPairsSorted(0, |p|);
  }

  /** Distinct brackets give distinct pairs: each pair is tested once. */
  lemma PairsDistinct(p: seq<string>)
    requires NoDuplicates(p)
    ensures NoDuplicates(Pairs(p))
  {
    PairsOrdered(p);
    var ix := IndexPairs(0, |p|);
    forall q1, q2 | 0 <= q1 < q2 < |Pairs(p)|
      ensures Pairs(p)[q1] != Pairs(p)[q2]
    {
      assert LexBefore(ix[q1], ix[q2]);
      assert ix[q1] != ix[q2];
      if ix[q1].0 != ix[q2].0 {
        assert p[ix[q1].0] != p[ix[q2].0];
      } else {
        assert p[ix[q1].1] != p[ix[q2].1];
      }
    }
  }

  /** `min(p * corr, 1.0)`: the Bonferroni-corrected p-value, never above 1
      and, for a p-value and at least one comparison, never below p. */
  function Adjusted(p: real, corr: nat): (adj: real)
    ensures adj <= 1.0
    ensures 0.0 <= p <= 1.0 && 1 <= corr ==> p <= adj
  {
    var scaled := p * corr as real;
    assert 0.0 <= p && 1 <= corr ==> p <= scaled by {
      if 0.0 <= p && 1 <= corr {
        assert p * corr as real == p + p * (corr - 1) as real;
      }
    }
    if scaled <= 1.0 then scaled else 1.0
  }

  /** What one pair contributes to the post-hoc list: nothing when the test
      raises or the corrected p-value is not below the level. */
  function PairEntry(pr: (string, string), data: seq<Obs>, ids: map<string, string>, corr: nat, kit: Numerics): (entries: seq<PostHoc>)
    requires pr.0 in ids && pr.1 in ids
    ensures |entries| <= 1
    ensures entries != [] <==>
      kit.welch(ValuesOf(data, pr.0), ValuesOf(data, pr.1)).Some? &&
      Adjusted(kit.welch(ValuesOf(data, pr.0), ValuesOf(data, pr.1)).value, corr) < Alpha
    ensures forall e :: e in entries ==> e.first == ids[pr.0] && e.second == ids[pr.1] && e.pAdj < Alpha
  {
    match kit.welch(ValuesOf(data, pr.0), ValuesOf(data, pr.1))
    case None => []
    case Some(p) =>
      var adj := Adjusted(p, corr);
      if adj < Alpha then [PostHoc(ids[pr.0], ids[pr.1], adj)] else []
  }

  /** The post-hoc entries of a run of pairs, in pair order. */
  function Kept(prs: seq<(string, string)>, data: seq<Obs>, ids: map<string, string>, corr: nat, kit: Numerics): seq<PostHoc>
    requires forall pr :: pr in prs ==> pr.0 in ids && pr.1 in ids
  {
    if prs == [] then []
    else Kept(prs[..|prs| - 1], data, ids, corr, kit) + PairEntry(prs[|prs| - 1], data, ids, corr, kit)
  }

  /** Each pair is judged on its own: the entries of two runs of pairs are
      the entries of the first followed by those of the second. */
  lemma {:induction false} KeptConcat(xs: seq<(string, string)>, ys: seq<(string, string)>,
                                     data: seq<Obs>, ids: map<string, string>, corr: nat, kit: Numerics)
    requires forall pr :: pr in xs + ys ==> pr.0 in ids && pr.1 in ids
    ensures Kept(xs + ys, data, ids, corr, kit) == Kept(xs, data, ids, corr, kit) + Kept(ys, data, ids, corr, kit)
    decreases |ys|
  {
    if ys == [] {
      assert xs + ys == xs;
    } else {
      var yinit := ys[..|ys| - 1];
      assert (xs + ys)[..|xs + ys| - 1] == xs + yinit;
      assert (xs + ys)[|xs + ys| - 1] == ys[|ys| - 1];
      KeptConcat(xs, yinit, data, ids, corr, kit);
    }
  }

  /** A pair whose test raises is skipped, and the other pairs are reported
      as if it were not there. */
  lemma FailingPairSkipped(xs: seq<(string, string)>, pr: (string, string), ys: seq<(string, string)>,
                           data: seq<Obs>, ids: map<string, string>, corr: nat, kit: Numerics)
    requires forall q :: q in xs + [pr] + ys ==> q.0 in ids && q.1 in ids
    requires kit.welch(ValuesOf(data, pr.0), ValuesOf(data, pr.1)).None?
    ensures Kept(xs + [pr] + ys, data, ids, corr, kit) == Kept(xs, data, ids, corr, kit) + Kept(ys, data, ids, corr, kit)
  {
    var front := xs + [pr];
    assert xs + [pr] + ys == front + ys;
    KeptConcat(front, ys, data, ids, corr, kit);
    assert front[..|front| - 1] == xs;
    assert Kept(front, data, ids, corr, kit) == Kept(xs, data, ids, corr, kit);
  }

  /** An entry is kept exactly when some pair of the run produced it. */
  lemma {:induction false} KeptMembers(prs: seq<(string, string)>, data: seq<Obs>, ids: map<string, string>, corr: nat, kit: Numerics)
    requires forall pr :: pr in prs ==> pr.0 in ids && pr.1 in ids
    ensures forall e :: e in Kept(prs, data, ids, corr, kit) <==>
      exists q :: 0 <= q < |prs| && e in PairEntry(prs[q], data, ids, corr, kit)
  {
    if prs != [] {
      var init := prs[..|prs| - 1];
      KeptMembers(init, data, ids, corr, kit);
      forall e | e in Kept(prs, data, ids, corr, kit)
        ensures exists q :: 0 <= q < |prs| && e in PairEntry(prs[q], data, ids, corr, kit)
      {
        if e in Kept(init, data, ids, corr, kit) {
          var q :| 0 <= q < |init| && e in PairEntry(init[q], data, ids, corr, kit);
          assert prs[q] == init[q];
        }
      }
      forall q | 0 <= q < |prs| && (exists e :: e in PairEntry(prs[q], data, ids, corr, kit))
        ensures forall e :: e in PairEntry(prs[q], data, ids, corr, kit) ==> e in Kept(prs, data, ids, corr, kit)
      {
        if q < |init| {
          assert prs[q] == init[q];
        }
      }
    }
  }

  /** The places in `prs` of the pairs that produce an entry. */
  function KeptPositions(prs: seq<(string, string)>, data: seq<Obs>, ids: map<string, string>, corr: nat, kit: Numerics): seq<nat>
    requires forall pr :: pr in prs ==> pr.0 in ids && pr.1 in ids
  {
    if prs == [] then []
    else
      var k := |prs| - 1;
      KeptPositions(prs[..k], data, ids, corr, kit) + (if PairEntry(prs[k], data, ids, corr, kit) != [] then [k] else [])
  }

  /** The r-th entry is the one entry of the pair at the r-th kept place, and
      the kept places strictly increase: entries come in pair order. */
  lemma {:induction false} KeptInPairOrder(prs: seq<(string, string)>, data: seq<Obs>, ids: map<string, string>, corr: nat, kit: Numerics)
    requires forall pr :: pr in prs ==> pr.0 in ids && pr.1 in ids
    ensures |KeptPositions(prs, data, ids, corr, kit)| == |Kept(prs, data, ids, corr, kit)|
    ensures forall r :: 0 <= r < |Kept(prs, data, ids, corr, kit)| ==>
      KeptPositions(prs, data, ids, corr, kit)[r] < |prs| &&
      PairEntry(prs[KeptPositions(prs, data, ids, corr, kit)[r]], data, ids, corr, kit) == [Kept(prs, data, ids, corr, kit)[r]]
    ensures forall r1, r2 :: 0 <= r1 < r2 < |Kept(prs, data, ids, corr, kit)| ==>
      KeptPositions(prs, data, ids, corr, kit)[r1] < KeptPositions(prs, data, ids, corr, kit)[r2]
  {
    if prs != [] {
      var k := |prs| - 1;
      var init := prs[..k];
      KeptInPairOrder(init, data, ids, corr, kit);
      var pos := KeptPositions(init, data, ids, corr, kit);
      forall r | 0 <= r < |pos|
        ensures pos[r] < k && prs[pos[r]] == init[pos[r]]
      {
      }
    }
  }

  /** `posthoc_res`: empty unless the omnibus test was significant; then the
      kept entries of all pairs, corrected by the number of pairs. */
  function PostHocOf(present: seq<string>, data: seq<Obs>, anova: Anova, kit: Numerics): seq<PostHoc>
  {
    if anova.sig then
      var prs := Pairs(present);
      Kept(prs, data, NameToNum(present), |prs|, kit)
    else []
  }

  /** The table row of one present bracket. */
  function GroupRow(g: string, data: seq<Obs>, ids: map<string, string>, kit: Numerics): (row: GroupStats)
    requires g in ids
    ensures row.fascia == g && row.id == ids[g]
    ensures row.n == |ValuesOf(data, g)| && |row.percentiles| == |PercentileRanks|
    ensures row.n <= 1 ==> row.sd == 0.0
    ensures row.mean == kit.round2(kit.mean(ValuesOf(data, g)))
    ensures row.n > 1 ==> row.sd == kit.round2(kit.std(ValuesOf(data, g)))
    ensures forall k :: 0 <= k < |PercentileRanks| ==>
      row.percentiles[k] == kit.round2(kit.percentile(ValuesOf(data, g), PercentileRanks[k]))
  {
    var vals := ValuesOf(data, g);
    GroupStats(
      g, ids[g], |vals|,
      kit.round2(kit.mean(vals)),
      if |vals| > 1 then kit.round2(kit.std(vals)) else 0.0,
      seq(|PercentileRanks|, k requires 0 <= k < |PercentileRanks| => kit.round2(kit.percentile(vals, PercentileRanks[k]))))
  }

  /** `stats_table` over a run of present brackets. */
  function TableOf(present: seq<string>, data: seq<Obs>, ids: map<string, string>, kit: Numerics): seq<GroupStats>
    requires forall g :: g in present ==> g in ids
  {
    if present == [] then []
    else TableOf(present[..|present| - 1], data, ids, kit) + [GroupRow(present[|present| - 1], data, ids, kit)]
  }

  /** `chart_data`: one series per present bracket. */
  function ChartOf(present: seq<string>, data: seq<Obs>): (chart: seq<Series>)
    ensures |chart| == |present|
    ensures forall i :: 0 <= i < |present| ==> chart[i].values == ValuesOf(data, present[i])
  {
    var ids := NameToNum(present);
    seq(|present|, i requires 0 <= i < |present| => Series(ids[present[i]], ValuesOf(data, present[i])))
  }

  /** What `calculate_stats` returns for a metric under a mode: nothing when
      no canonical bracket has data, otherwise the full result. */
  function MetricStats(t: Table, metric: string, groupCol: string, modeKey: string, kit: Numerics): (r: Option<MetricResult>)
    ensures r.Some? ==> r.value.name == metric && 1 <= |r.value.chart| <= |OrderFor(modeKey)|
    ensures r.Some? && !r.value.anova.sig ==> r.value.posthoc == []
  {
    var data := Observations(t.rows, groupCol, metric);
    var present := Present(OrderFor(modeKey), Labels(data));
    if present == [] then None
    else
      var anova := Omnibus(GroupValues(present, data), kit);
      Some(MetricResult(metric, anova, PostHocOf(present, data, anova, kit),
                        TableOf(present, data, NameToNum(present), kit), ChartOf(present, data)))
  }

  /** The post-hoc pass: when the omnibus test was significant, every pair
      of present brackets is tested in turn and the corrected p-values below
      the level are appended. */
  method PostHocPass(present: seq<string>, data: seq<Obs>, anova: Anova, kit: Numerics)
    returns (posthoc: seq<PostHoc>)
    ensures posthoc == PostHocOf(present, data, anova, kit)
  {
    posthoc := [];
    if anova.sig {
      var ids := NameToNum(present);
      var pairs := Pairs(present);
      var corr := |pairs|;
      for q := 0 to |pairs|
        invariant posthoc == Kept(pairs[..q], data, ids, corr, kit)
      {
        var (g1, g2) := pairs[q];
        var test := kit.welch(ValuesOf(data, g1), ValuesOf(data, g2));
        if test.Some? {
          var pAdj := Adjusted(test.value, corr);
          if pAdj < Alpha {
            posthoc := posthoc + [PostHoc(ids[g1], ids[g2], pAdj)];
          }
        }
        assert pairs[..q + 1][..q] == pairs[..q];
      }
      assert pairs[..|pairs|] == pairs;
    }
  }

  /** The table pass: one row per present bracket, appended in order. */
  method StatsTable(present: seq<string>, data: seq<Obs>, ids: map<string, string>, kit: Numerics)
    returns (table: seq<GroupStats>)
    requires forall g :: g in present ==> g in ids
    ensures table == TableOf(present, data, ids, kit)
  {
    table := [];
    for i := 0 to |present|
      invariant table == TableOf(present[..i], data, ids, kit)
    {
      var g := present[i];
      var vals := ValuesOf(data, g);
      var pct := seq(|PercentileRanks|, k requires 0 <= k < |PercentileRanks| => kit.percentile(vals, PercentileRanks[k]));
      var row := GroupStats(
        g, ids[g], |vals|,
        kit.round2(kit.mean(vals)),
        if |vals| > 1 then kit.round2(kit.std(vals)) else 0.0,
        seq(|pct|, k requires 0 <= k < |pct| => kit.round2(pct[k])));
      assert row.percentiles == GroupRow(g, data, ids, kit).percentiles;
      table := table + [row];
      assert present[..i + 1][..i] == present[..i];
    }
    assert present[..|present|] == present;
  }

  /** `calculate_stats(df, metric, group_col, mode_key)`. The source raises
      when either column is missing, so both must exist. */
  method CalculateStats(t: Table, metric: string, groupCol: string, modeKey: string, kit: Numerics)
    returns (r: Option<MetricResult>)
    requires metric in t.columns && groupCol in t.columns
    ensures r == MetricStats(t, metric, groupCol, modeKey, kit)
  {
    var data := Observations(t.rows, groupCol, metric);
    var present := Present(OrderFor(modeKey), Labels(data));
    var ids := NameToNum(present);
    if present == [] {
      return None;
    }
    var groups := GroupValues(present, data);
    var anova := NotApplicableAnova;
    if |groups| >= 2 {
      var outcome := kit.oneWay(groups);
      if outcome.Some? {
        var (f, p) := outcome.value;
        anova := Anova(p < Alpha, Summary(f, p));
      }
    }
    assert anova == Omnibus(groups, kit);
    var posthoc := PostHocPass(present, data, anova, kit);
    var table := StatsTable(present, data, ids, kit);
    var chart := seq(|present|, i requires 0 <= i < |present| => Series(ids[present[i]], ValuesOf(data, present[i])));
    assert chart == ChartOf(present, data);
    r := Some(MetricResult(metric, anova, posthoc, table, chart));
  }
}
