# Normative statistics generator — a Dafny model

This project models the decision and bookkeeping logic of `generate_json.py`.
That program builds age-normed reference statistics for a battery of speech and
language metrics. For each binning mode (`annuale`, `semestrale`) it does three things:

- it resolves which canonical age brackets (`fascia`) hold data for a metric;
- it numbers the present brackets 1..k in canonical order;
- it runs a one-way ANOVA across them and, only when that is significant, a
  Bonferroni-corrected Welch post-hoc pass over all bracket pairs.

It then builds one table row and one chart series per present bracket. Next it
counts males and females per canonical bracket (the `descrittive` roster).
Last, it assembles per-category metric lists, dropping metrics with no column
or no data and leaving out empty categories.

The numerical routines (`f_oneway`, `ttest_ind`, mean, std, `np.percentile`,
`round`) are not modelled. They are the fields of a `Numerics` value passed in
as a parameter, so every result holds for any behaviour of those routines. A
test that raises is a `None`.

Modules, one file each:

- `Wrappers`: the `Option` type.
- `Sequences`: no-duplicates and subsequence predicates.
- `Text`: `str(n)` as `DecimalString`, `str.upper()` as `Upper`.
- `Catalogue`: `ORDER_MAP`, the grouping columns, `VARIABLE_GROUPS` and its
  bare or renamed entries.
- `SampleTable`: the loaded table, `dropna` and row selection.
- `GroupResolver`: `present_groups` and `name_to_num`.
- `StatisticsEngine`: `calculate_stats` as the method `CalculateStats`,
  proved equal to the function `MetricStats`.
- `MetricProperties`: what `calculate_stats` promises, as lemmas about
  `MetricStats`.
- `Roster`: the `descrittive` loop.
- `Assembly`: the mode, category and item loops.

Where a method has a loop, a function defines its result. The method's
`ensures` ties its output to that function, and lemmas prove the source's
promises about the function.

## Model

| member | source | states |
|---|---|---|
| `Catalogue.OrderFor` | generate_json.py:90 | `ORDER_MAP.get(mode_key, [])`: the canonical bracket list of `annuale` or `semestrale`, and `[]` for any other key; its `ensures` states the list is non-empty exactly for the two mode keys; `OrderForDistinct` proves it has no repeats |
| `Catalogue.GroupColumn` | generate_json.py:147 | `'fascia eta 12m'` for `annuale`, otherwise `'fascia eta 6m'`; its `ensures` states the grouping column is never the `sesso` column |
| `Catalogue.OrderForDistinct` | generate_json.py:65-68 | the canonical bracket list of every mode key, including the empty default of `ORDER_MAP.get`, has no repeated label |
| `SampleTable.Observations` | generate_json.py:89 | dropping rows with a missing label or value keeps at most as many observations as there are rows |
| `SampleTable.ValuesOfNonEmpty` | generate_json.py:91-94 | a bracket has at least one value exactly when its label occurs among the retained rows |
| `GroupResolver.Present` | generate_json.py:91 | `present_groups`: the canonical brackets that occur among the retained labels, in canonical order; its `ensures` bounds it by the canonical list; `PresentMembers`, `PresentKeepsOrder`, `PresentDistinct` and `PresentRank` prove what it holds and in which order |
| `GroupResolver.PresentMembers` | generate_json.py:90-91 | a bracket is present iff it is canonical for the mode and occurs in the filtered rows, so a non-canonical label never appears |
| `GroupResolver.PresentKeepsOrder` | generate_json.py:91 | the present brackets are the canonical list with the absent ones left out, at strictly increasing canonical positions |
| `GroupResolver.PresentDistinct` | generate_json.py:91 | present brackets contain no duplicates |
| `GroupResolver.PresentRank` | generate_json.py:91 | a present bracket sits right after the present brackets that precede it canonically |
| `GroupResolver.NameToNum` | generate_json.py:92 | `name_to_num`: maps each present bracket to its 1-based ordinal; its `ensures` states its keys are exactly the present brackets; `NameToNumAt`, `NameToNumInjective` and `OrdinalIsRank` prove the ordinals |
| `GroupResolver.NameToNumAt` | generate_json.py:92 | the i-th present bracket maps to `str(i+1)` |
| `GroupResolver.NameToNumInjective` | generate_json.py:92 | distinct present brackets get distinct ordinals |
| `GroupResolver.OrdinalIsRank` | generate_json.py:90-92 | a bracket's ordinal is 1 + the number of present brackets canonically before it, so it depends only on which brackets are present, not on their sizes |
| `Text.DecimalString` | generate_json.py:92 | `str(n)` for a natural: the decimal numeral without leading zeros; its `ensures` states it is never empty and has two or more digits from 10 on; `DecimalStringInjective` proves distinct numbers give distinct numerals |
| `Text.DecimalStringInjective` | generate_json.py:92 | `str(n)` is injective on naturals, which makes the ordinals injective |
| `StatisticsEngine.Omnibus` | generate_json.py:95-100 | `anova_res`: its `ensures` states the text is `N/A` exactly when fewer than two groups are present or the test raises, `sig` is then false, and otherwise the text carries the test's F and p and `sig` holds iff p < 0.05; `OmnibusGating` lifts this to the metric's result |
| `StatisticsEngine.Pairs` | generate_json.py:103 | `itertools.combinations(present_groups, 2)`; its `ensures` states both members of every pair are present brackets; `PairsCount`, `PairsMembers`, `PairsOrdered` and `PairsDistinct` prove the count, the members, the order and that no pair repeats |
| `StatisticsEngine.PairsCount` | generate_json.py:103-104 | k present brackets give k(k-1)/2 pairs, the Bonferroni factor |
| `StatisticsEngine.PairsMembers` | generate_json.py:103 | the pairs are exactly (p[i], p[j]) with i < j: unordered, the canonically earlier bracket first |
| `StatisticsEngine.IndexPairsSorted` | generate_json.py:103 | the position pairs of `combinations` strictly increase in lexicographic order (i, then j) |
| `StatisticsEngine.PairsOrdered` | generate_json.py:103 | the q-th pair is (p[i], p[j]) for the q-th position pair (i, j), so pairs come in lexicographic order of positions |
| `StatisticsEngine.PairsDistinct` | generate_json.py:103-105 | with distinct brackets no pair occurs twice, so each pair is tested once |
| `StatisticsEngine.Adjusted` | generate_json.py:109 | the corrected p-value is at most 1.0, and for a p-value in [0, 1] with at least one pair it is never below the raw p |
| `StatisticsEngine.PairEntry` | generate_json.py:106-111 | what one pair adds to `posthoc_res`; its `ensures` states it adds at most one entry, adds one exactly when the test succeeds and the corrected p is below 0.05, and that entry names the pair's two ordinals with p < 0.05; `FailingPairSkipped` and `EntryReports` build on it |
| `StatisticsEngine.KeptConcat` | generate_json.py:105-112 | the post-hoc entries of two runs of pairs are those of the first followed by those of the second, in enumeration order |
| `StatisticsEngine.FailingPairSkipped` | generate_json.py:107-112 | a pair whose test raises adds nothing and does not change the entries of the other pairs |
| `StatisticsEngine.KeptInPairOrder` | generate_json.py:105-111 | the r-th post-hoc entry is the one entry of the pair at the r-th kept place, and those places strictly increase: entries are appended in pair order |
| `StatisticsEngine.KeptMembers` | generate_json.py:105-111 | an entry is reported iff some pair in the run produced it |
| `StatisticsEngine.PostHocPass` | generate_json.py:101-112 | the loop computes the post-hoc list: empty unless the omnibus flag is set, otherwise the kept entries of all pairs with the factor fixed at the full pair count |
| `StatisticsEngine.GroupRow` | generate_json.py:114-132 | one `stats_table` row; its `ensures` states `Fascia` is the bracket and `ID` its ordinal, `N` its value count, `Media` the rounded mean of that bracket's values, `DS` 0 when N ≤ 1 and otherwise the rounded standard deviation of those values, and P5..P95 the rounded percentiles of those values at ranks 5, 10, 25, 50, 75, 90, 95; `TableAndChartShape` states this for every row of a metric |
| `StatisticsEngine.ChartOf` | generate_json.py:136 | `chart_data`; its `ensures` states one series per present bracket, holding exactly that bracket's values; `TableAndChartShape` adds that each series is labelled `str(i+1)` |
| `StatisticsEngine.MetricStats` | generate_json.py:87-137 | the value `calculate_stats` returns; its `ensures` states a result keeps the metric's name, has between one and as many series as canonical brackets, and has no post-hoc entries without a significant omnibus test; `NoResultWithoutBrackets`, `OmnibusGating`, `PostHocEntries`, `TableAndChartShape` and `TotalNBound` prove the rest |
| `StatisticsEngine.StatsTable` | generate_json.py:113-132 | the loop appends exactly one row per present bracket, in order |
| `StatisticsEngine.CalculateStats` | generate_json.py:87-137 | the method returns exactly `MetricStats`: `None` when no bracket is present, otherwise the omnibus result, post-hoc list, table and chart |
| `MetricProperties.NoResultWithoutBrackets` | generate_json.py:89-93 | there is no result iff none of the mode's canonical brackets occurs in the filtered rows |
| `MetricProperties.OmnibusGating` | generate_json.py:95-102 | `sig` holds iff at least 2 groups are present, the test succeeds and p < 0.05; with fewer groups or a raising test the result is `{sig: false, text: N/A}`; with `sig` false the post-hoc list is empty |
| `MetricProperties.KeptIsReported` | generate_json.py:103-111 | with pairs in canonical order, an entry is in the post-hoc pass iff for some i < j the test of brackets i, j succeeds, min(p·k(k-1)/2, 1.0) < 0.05, and the entry carries ordinals `str(i+1)`, `str(j+1)` and that corrected p |
| `MetricProperties.KeptBelowLevel` | generate_json.py:109-111 | every entry of the post-hoc pass has a corrected p < 0.05 |
| `MetricProperties.EntryReports` | generate_json.py:105-111 | an entry produced by the pair of brackets i < j is a reported pair: ordinals `str(i+1)`, `str(j+1)`, corrected p below the level with factor k(k-1)/2 |
| `MetricProperties.EntryIndices` | generate_json.py:103-111 | an entry produced by the q-th pair that carries ordinals `str(i+1)`, `str(j+1)` has (i, j) as the q-th position pair |
| `MetricProperties.KeptReportsInOrder` | generate_json.py:103-111 | the post-hoc entries come in lexicographic order of the bracket positions they report, and none repeats |
| `MetricProperties.PostHocEntries` | generate_json.py:101-112 | after a significant omnibus test, the metric's post-hoc list holds exactly the reported pairs, each below the level, without repeats and in lexicographic order of the reported positions (i, j) |
| `MetricProperties.TableAndChartShape` | generate_json.py:113-136 | table and chart have one entry per present bracket in the same order: each row is `GroupRow` of its bracket, so `Media`, `DS` and the percentiles come from that bracket's values; `Fascia` is the bracket, `ID` and `group` are `str(i+1)`, `N` is its row count (≥ 1), the series holds its values, and `DS` is 0 when N ≤ 1 |
| `MetricProperties.TableSumN` | generate_json.py:122 | the N column adds up to the per-bracket value counts |
| `MetricProperties.CountsTotalBound` | generate_json.py:94 | value counts over distinct brackets add up to at most the number of observations |
| `MetricProperties.TotalNBound` | generate_json.py:89-122 | the sum of N over the table is at most the filtered rows, which is at most the table's rows |
| `MetricProperties.PercentilesOrdered` | generate_json.py:117-131 | given a percentile routine that grows with the rank and an order-keeping rounding, P5 ≤ P10 ≤ … ≤ P95 |
| `Text.Upper` | generate_json.py:165 | `str.upper()`, also applied to the sex codes at line 155; its `ensures` states it keeps the length and gives an ASCII capital exactly where the input has an ASCII letter; `UpperIdempotent` and `UpperMatchesLetterCode` prove more |
| `Text.UpperMatchesLetterCode` | generate_json.py:155-156 | under the model's `Upper`, a string upper-cases to a capital ASCII letter c exactly when it is c or its lower case; for the codes `M` and `F` that lines 155-156 compare, this is also what `str.upper()` does |
| `Roster.SexCount` | generate_json.py:155-156 | `(sub['sesso'].str.upper() == code).sum()`; its `ensures` bounds the count by the rows; `SexCountCaseInsensitive` and `SexCountsBounded` prove what it counts |
| `Roster.SexCountCaseInsensitive` | generate_json.py:155-156 | the upper-cased count of a code equals the count of rows whose code is that letter in either case |
| `Roster.SexCountsBounded` | generate_json.py:155-156 | M + F is at most the number of rows of the bracket |
| `Roster.BuildRoster` | generate_json.py:146-157 | the loop computes the roster of the mode |
| `Roster.RosterUpToFits` | generate_json.py:150-157 | each roster entry over the first n brackets is the entry of a bracket occurring in the column, with M + F bounded by its rows and `fascia` ≤ n |
| `Roster.RosterUpToIncreasing` | generate_json.py:150 | roster entries come in strictly increasing canonical position |
| `Roster.RosterUpToComplete` | generate_json.py:150-151 | every canonical bracket occurring in the column has an entry |
| `Roster.RosterEntries` | generate_json.py:146-157 | for a mode, there is one entry per canonical bracket that occurs in the grouping column, in canonical order; `fascia` is the canonical position + 1, not the per-metric ordinal; M + F ≤ the bracket's rows |
| `Assembly.CollectCategory` | generate_json.py:159-166 | the item loop computes the category's result list |
| `Assembly.CollectMode` | generate_json.py:158-168 | the category loop over a catalogue with distinct category names computes the mode's category list |
| `Assembly.Assemble` | generate_json.py:146-168 | the mode loop over a catalogue with distinct category names yields, for `annuale` then `semestrale`, the roster and the category lists |
| `Assembly.ItemResult` | generate_json.py:161-166 | what one catalogue entry adds to `res_list`; its `ensures` states it adds at most one result, adds one exactly when the column exists and the metric has a result, and names it by the upper-cased display name; `ItemResultsSound` and `ItemResultsComplete` lift this to a category |
| `Assembly.ItemResultsLength` | generate_json.py:160-166 | a category holds at most one result per catalogue entry |
| `Assembly.ItemResultsConcat` | generate_json.py:159-166 | the list of two runs of catalogue entries is the first run's list followed by the second's: with `ItemResultsSingle` and `ItemResult`'s contract this fixes `res_list` entry by entry, in catalogue order |
| `Assembly.ItemResultsSingle` | generate_json.py:160-166 | the list of one catalogue entry is exactly what `ItemResult` adds for it |
| `Assembly.ItemResultsSound` | generate_json.py:161-166 | every result in a category comes from an entry whose source column exists and that has data, and is named by that entry's upper-cased display name (a bare entry's display name is its column name); an absent column contributes nothing |
| `Assembly.ItemResultsComplete` | generate_json.py:161-166 | every entry whose column exists and that has data is in its category's list |
| `Assembly.NamesUpperCase` | generate_json.py:165 | every emitted metric name is already upper case |
| `Text.UpperIdempotent` | generate_json.py:165 | upper-casing twice equals upper-casing once |
| `Assembly.CategoriesSound` | generate_json.py:167-168 | no category in the output is empty, and each is a catalogue category with its list |
| `Assembly.CategoriesNamed` | generate_json.py:158-168 | every output category carries the name of a catalogue category |
| `Assembly.CategoriesNamesDistinct` | generate_json.py:158-168 | distinct catalogue category names give distinct output category names, so the output list matches the dictionary `output_data[mode]` keyed by name |
| `Catalogue.VariableGroupsNamesDistinct` | generate_json.py:10-62 | the shipped catalogue has no repeated category name, so it meets the loops' requirement |
| `Assembly.CategoriesComplete` | generate_json.py:167-168 | every catalogue category with a non-empty list appears in the mode's output |

## Left out

- CSV loading (lines 70-85): reading the file, trimming column names, turning a decimal comma into a point, and numeric coercion. This is I/O and pandas parsing. The table is given already typed, with a missing or unparseable cell absent from its row.
- The re-coercion `pd.to_numeric(df[metric])` at line 88: the metric columns are already numeric in the model, so it changes nothing.
- The numerics (lines 98, 108, 117-131): `f_oneway`, `ttest_ind`, mean, std, `np.percentile` and `round(..., 2)` are floating-point routines in scipy/numpy that are not part of this model. They are arbitrary functions in `Numerics`.
- NaN p-values: a test that returns NaN instead of raising is not represented. In the source such an omnibus test gives `sig: false` with the text `F=nan, p=nan`, and such a post-hoc pair is dropped, as a raising one is.
- Text formatting of `F=…, p=…` and of the `<b>i vs j</b> (p=…)` strings: the model keeps their content (F, p, the two ordinals, the corrected p), not the float-to-text rendering.
- `MetricProperties.PercentilesOrdered`: holds only under the stated monotonicity of the percentile routine and the rounding, which the model does not define.
- `info_campione` (lines 142-145): the mean, minimum and maximum age are float aggregates over the table.
- Writing `data.js` and the final message (lines 170-173): output I/O.
- The output is a sequence of per-mode records (roster plus category list) instead of one nested dictionary keyed by `annuale`, `semestrale` and `descrittive`. The source's JSON puts the rosters together under `descrittive`, after `annuale` and `semestrale` (line 141); the model keeps each roster with its mode. The order of the modes, of the roster entries, of the categories and of the metrics within each category is the same as in the source.
- `DS` for N ≤ 1 is the integer `0` in the source's JSON. The model does not distinguish `0` from `0.0`.
- `Text.Upper`: implements `str.upper()` for the ASCII and Latin-1 letters except `ß`, including `ÿ` and `µ`, whose capitals lie outside Latin-1. Other Unicode case mappings are not modelled, including those that change the length, such as `ß` to `SS`, and those that map a non-Latin-1 letter onto an ASCII capital, such as `ı` to `I` and `ſ` to `S`. Neither case affects the codes `M` and `F`.
- `StatisticsEngine.CalculateStats`, `Roster.BuildRoster`, `Assembly.Assemble`: the source raises `KeyError` when a mode's grouping column is missing (lines 89 and 151), or when the `sesso` column is missing once a bracket is found (line 155). The model states these as `requires` clauses. The `KeyError` on a missing `eta mesi` column (line 144) belongs to `info_campione`, which is left out. So does the `ValueError` that `int(df['eta mesi'].min())` raises at line 144 when the column holds no value, for example in a table without rows. That error comes before any roster or category loop, but `Assembly.Assemble` accepts such tables.
- `Roster.SexCountsBounded`: a row whose sex code is missing or is neither M nor F counts in neither column, so the model proves M + F ≤ rows, not equality.
- `Assembly.CollectMode`, `Assembly.Assemble`: require distinct category names, because the source's catalogue is a dictionary; `Catalogue.VariableGroupsNamesDistinct` proves the shipped catalogue meets this.
