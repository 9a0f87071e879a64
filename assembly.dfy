/** The top-level loops: for each binning mode, its roster and, category by
    category, the results of the catalogue's metrics, dropping metrics
    without a column or without data and categories left empty. */
module Assembly {
  import opened Wrappers
  import opened Sequences
  import opened Text
  import opened Catalogue
  import opened SampleTable
  import opened StatisticsEngine
  import opened Roster

  datatype CategoryResults = CategoryResults(category: string, metrics: seq<MetricResult>)

  /** The output of one mode: its roster (under `descrittive`) and its
      non-empty categories in catalogue order. */
  datatype ModeOutput = ModeOutput(mode: string, roster: seq<RosterEntry>, categories: seq<CategoryResults>)

  /** What one catalogue entry adds to its category's list: the metric's
      result, renamed to the upper-cased display name, if its column exists
      and some bracket has data. */
  function ItemResult(t: Table, item: Item, modeKey: string, kit: Numerics): (r: seq<MetricResult>)
    ensures |r| <= 1
    ensures r != [] <==> item.SourceName() in t.columns && MetricStats(t, item.SourceName(), GroupColumn(modeKey), modeKey, kit).Some?
    ensures forall m :: m in r ==> m.name == Upper(item.DisplayName())
  {
    if item.SourceName() in t.columns then
      match MetricStats(t, item.SourceName(), GroupColumn(modeKey), modeKey, kit)
      case None => []
      case Some(res) => [res.(name := Upper(item.DisplayName()))]
    else []
  }

  /** `res_list` after a run of catalogue entries. */
  function ItemResults(t: Table, items: seq<Item>, modeKey: string, kit: Numerics): seq<MetricResult>
  {
    if items == [] then []
    else ItemResults(t, items[..|items| - 1], modeKey, kit) + ItemResult(t, items[|items| - 1], modeKey, kit)
  }

  /** The categories of a mode after a run of catalogue categories. */
  function CategoriesOf(t: Table, cats: seq<Category>, modeKey: string, kit: Numerics): seq<CategoryResults>
  {
    if cats == [] then []
    else
      var c := cats[|cats| - 1];
      var results := ItemResults(t, c.items, modeKey, kit);
      CategoriesOf(t, cats[..|cats| - 1], modeKey, kit) + (if results != [] then [CategoryResults(c.name, results)] else [])
  }

  function ModeOutputOf(t: Table, cats: seq<Category>, modeKey: string, kit: Numerics): ModeOutput
  {
    ModeOutput(modeKey, RosterOf(t, modeKey), CategoriesOf(t, cats, modeKey, kit))
  }

  /** The innermost loop: the results of one category's entries. */
  method CollectCategory(t: Table, items: seq<Item>, modeKey: string, kit: Numerics) returns (resList: seq<MetricResult>)
    requires GroupColumn(modeKey) in t.columns
    ensures resList == ItemResults(t, items, modeKey, kit)
  {
    resList := [];
    for k := 0 to |items|
      invariant resList == ItemResults(t, items[..k], modeKey, kit)
    {
      var item := items[k];
      var csvName, dispName := item.SourceName(), item.DisplayName();
      if csvName in t.columns {
        var res := CalculateStats(t, csvName, GroupColumn(modeKey), modeKey, kit);
        if res.Some? {
          resList := resList + [res.value.(name := Upper(dispName))];
        }
      }
      assert items[..k + 1][..k] == items[..k];
    }
    assert items[..|items|] == items;
  }

  /** The category loop of one mode: a category is added only when its list
      is non-empty. The categories come from a dictionary keyed by name. */
  method CollectMode(t: Table, cats: seq<Category>, modeKey: string, kit: Numerics) returns (categories: seq<CategoryResults>)
    requires GroupColumn(modeKey) in t.columns
    requires NoDuplicates(CategoryNames(cats))
    ensures categories == CategoriesOf(t, cats, modeKey, kit)
  {
    categories := [];
    for c := 0 to |cats|
      invariant categories == CategoriesOf(t, cats[..c], modeKey, kit)
    {
      var resList := CollectCategory(t, cats[c].items, modeKey, kit);
      if resList != [] {
        categories := categories + [CategoryResults(cats[c].name, resList)];
      }
      assert cats[..c + 1][..c] == cats[..c];
    }
    assert cats[..|cats|] == cats;
  }

  /** The module-level loop over both modes. The source raises when a mode's
      grouping column, or the sex column it then needs, is missing. The
      catalogue is a dictionary, so its category names are distinct. */
  method Assemble(t: Table, cats: seq<Category>, kit: Numerics) returns (out: seq<ModeOutput>)
    requires forall m :: m in ModeKeys ==> GroupColumn(m) in t.columns && SexColumnReadable(t, m)
    requires NoDuplicates(CategoryNames(cats))
    ensures out == [ModeOutputOf(t, cats, AnnualKey, kit), ModeOutputOf(t, cats, SemestralKey, kit)]
  {
    out := [];
    for i := 0 to |ModeKeys|
      invariant out == seq(i, j requires 0 <= j < i => ModeOutputOf(t, cats, ModeKeys[j], kit))
    {
      var mode := ModeKeys[i];
      var roster := BuildRoster(t, mode);
      var categories := CollectMode(t, cats, mode, kit);
      out := out + [ModeOutput(mode, roster, categories)];
    }
  }

  /** `r` is the renamed result of the metric of catalogue entry `item`,
      whose column exists. */
  ghost predicate ResultOfItem(t: Table, item: Item, modeKey: string, kit: Numerics, r: MetricResult)
  {
    && item.SourceName() in t.columns
    && MetricStats(t, item.SourceName(), GroupColumn(modeKey), modeKey, kit).Some?
    && r == MetricStats(t, item.SourceName(), GroupColumn(modeKey), modeKey, kit).value.(name := Upper(item.DisplayName()))
  }

  /** Some entry among `items` produced `r`. */
  ghost predicate FromSomeItem(t: Table, items: seq<Item>, modeKey: string, kit: Numerics, r: MetricResult)
  {
    exists k :: 0 <= k < |items| && ResultOfItem(t, items[k], modeKey, kit, r)
  }

  /** A category's list has at most one result per catalogue entry. */
  lemma {:induction false} ItemResultsLength(t: Table, items: seq<Item>, modeKey: string, kit: Numerics)
    ensures |ItemResults(t, items, modeKey, kit)| <= |items|
  {
    if items != [] {
      ItemResultsLength(t, items[..|items| - 1], modeKey, kit);
    }
  }

  /** Each entry is handled on its own: the list of two runs of entries is
      the list of the first followed by that of the second, so results keep
      catalogue order and each entry contributes only at its own place. */
  lemma {:induction false} ItemResultsConcat(t: Table, a: seq<Item>, b: seq<Item>, modeKey: string, kit: Numerics)
    ensures ItemResults(t, a + b, modeKey, kit) == ItemResults(t, a, modeKey, kit) + ItemResults(t, b, modeKey, kit)
    decreases |b|
  {
    if b == [] {
      assert a + b == a;
    } else {
      var binit := b[..|b| - 1];
      assert (a + b)[..|a + b| - 1] == a + binit;
      assert (a + b)[|a + b| - 1] == b[|b| - 1];
      ItemResultsConcat(t, a, binit, modeKey, kit);
    }
  }

  /** The list of a single entry is what that entry adds. */
  lemma ItemResultsSingle(t: Table, item: Item, modeKey: string, kit: Numerics)
    ensures ItemResults(t, [item], modeKey, kit) == ItemResult(t, item, modeKey, kit)
  {
    assert [item][..0] == [];
  }

  /** Every result in a category's list is the renamed result of one of its
      entries whose column exists: an entry whose column is absent adds
      nothing. */
  lemma {:induction false} ItemResultsSound(t: Table, items: seq<Item>, modeKey: string, kit: Numerics)
    ensures forall r :: r in ItemResults(t, items, modeKey, kit) ==> FromSomeItem(t, items, modeKey, kit, r)
  {
    if items != [] {
      var init := items[..|items| - 1];
      var last := items[|items| - 1];
      ItemResultsSound(t, init, modeKey, kit);
      forall r | r in ItemResults(t, items, modeKey, kit)
        ensures FromSomeItem(t, items, modeKey, kit, r)
      {
        if r in ItemResults(t, init, modeKey, kit) {
          var k :| 0 <= k < |init| && ResultOfItem(t, init[k], modeKey, kit, r);
          assert items[k] == init[k];
        } else {
          assert r in ItemResult(t, last, modeKey, kit);
          assert ResultOfItem(t, items[|items| - 1], modeKey, kit, r);
        }
      }
    }
  }

  /** Every entry whose column exists and that has data is in its
      category's list, under its upper-cased display name. */
  lemma {:induction false} ItemResultsComplete(t: Table, items: seq<Item>, modeKey: string, kit: Numerics, k: nat, r: MetricResult)
    requires k < |items| && ResultOfItem(t, items[k], modeKey, kit, r)
    ensures r in ItemResults(t, items, modeKey, kit)
  {
    var init := items[..|items| - 1];
    if k < |init| {
      assert items[k] == init[k];
      ItemResultsComplete(t, init, modeKey, kit, k, r);
    } else {
      assert r in ItemResult(t, items[k], modeKey, kit);
    }
  }

  /** Every name in the output is already upper case. */
  lemma {:induction false} NamesUpperCase(t: Table, items: seq<Item>, modeKey: string, kit: Numerics)
    ensures forall r :: r in ItemResults(t, items, modeKey, kit) ==> Upper(r.name) == r.name
  {
    ItemResultsSound(t, items, modeKey, kit);
    forall r | r in ItemResults(t, items, modeKey, kit)
      ensures Upper(r.name) == r.name
    {
      var k :| 0 <= k < |items| && ResultOfItem(t, items[k], modeKey, kit, r);
      UpperIdempotent(items[k].DisplayName());
    }
  }

  /** Some category of `cats` has `c`'s name and yields `c`'s list. */
  ghost predicate FromSomeCategory(t: Table, cats: seq<Category>, modeKey: string, kit: Numerics, c: CategoryResults)
  {
    exists k :: 0 <= k < |cats| && c == CategoryResults(cats[k].name, ItemResults(t, cats[k].items, modeKey, kit))
  }

  /** A mode's output holds no empty category, and every category in it is
      a catalogue category with its list. */
  lemma {:induction false} CategoriesSound(t: Table, cats: seq<Category>, modeKey: string, kit: Numerics)
    ensures forall c :: c in CategoriesOf(t, cats, modeKey, kit) ==> c.metrics != [] && FromSomeCategory(t, cats, modeKey, kit, c)
  {
    if cats != [] {
      var init := cats[..|cats| - 1];
      var last := cats[|cats| - 1];
      CategoriesSound(t, init, modeKey, kit);
      forall c | c in CategoriesOf(t, cats, modeKey, kit)
        ensures c.metrics != [] && FromSomeCategory(t, cats, modeKey, kit, c)
      {
        if c in CategoriesOf(t, init, modeKey, kit) {
          var k :| 0 <= k < |init| && c == CategoryResults(init[k].name, ItemResults(t, init[k].items, modeKey, kit));
          assert cats[k] == init[k];
        } else {
          assert c == CategoryResults(last.name, ItemResults(t, last.items, modeKey, kit));
          assert cats[|cats| - 1] == last;
        }
      }
    }
  }

  /** Every catalogue category whose list is non-empty appears in the
      mode's output with that list. */
  lemma {:induction false} CategoriesComplete(t: Table, cats: seq<Category>, modeKey: string, kit: Numerics, k: nat)
    requires k < |cats| && ItemResults(t, cats[k].items, modeKey, kit) != []
    ensures CategoryResults(cats[k].name, ItemResults(t, cats[k].items, modeKey, kit)) in CategoriesOf(t, cats, modeKey, kit)
  {
    var init := cats[..|cats| - 1];
    if k < |init| {
      assert cats[k] == init[k];
      CategoriesComplete(t, init, modeKey, kit, k);
    }
  }

  /** The names of a mode's output categories, in order. */
  function OutputNames(categories: seq<CategoryResults>): seq<string>
  {
    seq(|categories|, k requires 0 <= k < |categories| => categories[k].category)
  }

  /** Every output category carries the name of a catalogue category. */
  lemma {:induction false} CategoriesNamed(t: Table, cats: seq<Category>, modeKey: string, kit: Numerics)
    ensures forall c :: c in CategoriesOf(t, cats, modeKey, kit) ==> c.category in CategoryNames(cats)
  {
    if cats != [] {
      var init := cats[..|cats| - 1];
      CategoriesNamed(t, init, modeKey, kit);
      assert CategoryNames(cats) == CategoryNames(init) + [cats[|cats| - 1].name];
    }
  }

  /** Distinct catalogue names give distinct output names: the output list
      stands for the dictionary `output_data[mode]` keyed by category name. */
  lemma {:induction false} CategoriesNamesDistinct(t: Table, cats: seq<Category>, modeKey: string, kit: Numerics)
    requires NoDuplicates(CategoryNames(cats))
    ensures NoDuplicates(OutputNames(CategoriesOf(t, cats, modeKey, kit)))
  {
    if cats != [] {
      var init := cats[..|cats| - 1];
      var last := cats[|cats| - 1];
      assert CategoryNames(cats) == CategoryNames(init) + [last.name];
      assert forall i :: 0 <= i < |init| ==> CategoryNames(init)[i] == CategoryNames(cats)[i];
      CategoriesNamesDistinct(t, init, modeKey, kit);
      CategoriesNamed(t, init, modeKey, kit);
      var prev := CategoriesOf(t, init, modeKey, kit);
      forall i | 0 <= i < |init|
        ensures CategoryNames(init)[i] != last.name
      {
        assert CategoryNames(cats)[i] != CategoryNames(cats)[|cats| - 1];
      }
      var res := ItemResults(t, last.items, modeKey, kit);
      var out := CategoriesOf(t, cats, modeKey, kit);
      assert out == prev + (if res != [] then [CategoryResults(last.name, res)] else []);
      forall i, j | 0 <= i < j < |out|
        ensures OutputNames(out)[i] != OutputNames(out)[j]
      {
        assert out[i] == prev[i] && prev[i] in prev;
        if j < |prev| {
          assert OutputNames(prev)[i] != OutputNames(prev)[j];
        } else {
          assert out[j].category == last.name;
        }
      }
    }
  }
}
