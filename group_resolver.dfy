/** Which canonical brackets a metric has data for, and the 1-based ordinal
    each present bracket is reported under. */
module GroupResolver {
  import opened Sequences
  import opened Text

  /** `[g for g in order if g in labels]`: the canonical brackets that occur
      among `labels`, in canonical order. */
  function Present(order: seq<string>, labels: set<string>): (present: seq<string>)
    ensures |present| <= |order|
  {
    if order == [] then []
    else
      var g := order[|order| - 1];
      Present(order[..|order| - 1], labels) + (if g in labels then [g] else [])
  }

  /** The places in `order` of the brackets `Present` keeps. */
  function PresentPositions(order: seq<string>, labels: set<string>): seq<nat>
  {
    if order == [] then []
    else
      var k := |order| - 1;
      PresentPositions(order[..k], labels) + (if order[k] in labels then [k] else [])
  }

  /** A bracket is present exactly when it is canonical and occurs in the data;
      a label outside the canonical list is never present. */
  lemma {:induction false} PresentMembers(order: seq<string>, labels: set<string>)
    ensures forall g :: g in Present(order, labels) <==> g in order && g in labels
  {
    if order != [] {
      var init := order[..|order| - 1];
      PresentMembers(init, labels);
      assert order == init + [order[|order| - 1]];
    }
  }

  /** The present brackets are the canonical list with the absent brackets
      left out: the canonical order is kept. */
  lemma {:induction false} PresentKeepsOrder(order: seq<string>, labels: set<string>)
    ensures SelectsSubsequence(Present(order, labels), order, PresentPositions(order, labels))
  {
    if order != [] {
      var k := |order| - 1;
      PresentKeepsOrder(order[..k], labels);
      var pos := PresentPositions(order[..k], labels);
      assert forall i :: 0 <= i < |pos| ==> pos[i] < k;
    }
  }

  /** A canonical list without repeats yields present brackets without repeats. */
  lemma {:induction false} PresentDistinct(order: seq<string>, labels: set<string>)
    requires NoDuplicates(order)
    ensures NoDuplicates(Present(order, labels))
  {
    if order != [] {
      var init := order[..|order| - 1];
      PresentDistinct(init, labels);
      PresentMembers(init, labels);
      assert order[|order| - 1] !in init;
    }
  }

  /** Resolving a split canonical list resolves each part. */
  lemma {:induction false} PresentConcat(a: seq<string>, b: seq<string>, labels: set<string>)
    ensures Present(a + b, labels) == Present(a, labels) + Present(b, labels)
    decreases |b|
  {
    if b == [] {
      assert a + b == a;
    } else {
      var binit := b[..|b| - 1];
      assert (a + b)[..|a + b| - 1] == a + binit;
      assert (a + b)[|a + b| - 1] == b[|b| - 1];
      PresentConcat(a, binit, labels);
    }
  }

  /** A present bracket sits, among the present brackets, right after the
      present brackets that precede it canonically. */
  lemma PresentRank(order: seq<string>, labels: set<string>, k: nat)
    requires k < |order| && order[k] in labels
    ensures |Present(order[..k], labels)| < |Present(order, labels)|
    ensures Present(order, labels)[|Present(order[..k], labels)|] == order[k]
  {
    assert order == order[..k] + order[k..];
    PresentConcat(order[..k], order[k..], labels);
    assert order[k..] == [order[k]] + order[k + 1..];
    PresentConcat([order[k]], order[k + 1..], labels);
    assert Present([order[k]], labels) == [order[k]] by {
      assert [order[k]][..0] == [];
    }
  }

  /** `{name: str(i + 1) for i, name in enumerate(present)}`, inserting in
      order so that a later occurrence would overwrite an earlier one. */
  function NameToNum(present: seq<string>): (ids: map<string, string>)
    ensures ids.Keys == set g | g in present
  {
    if present == [] then map[]
    else
      var init := present[..|present| - 1];
      assert present == init + [present[|present| - 1]];
      NameToNum(init)[present[|present| - 1] := DecimalString(|present|)]
  }

  /** The i-th present bracket is reported as the numeral of i + 1. */
  lemma {:induction false} NameToNumAt(present: seq<string>, i: nat)
    requires NoDuplicates(present) && i < |present|
    ensures NameToNum(present)[present[i]] == DecimalString(i + 1)
  {
    if i < |present| - 1 {
      var init := present[..|present| - 1];
      NameToNumAt(init, i);
    }
  }

  /** Distinct present brackets receive distinct ordinals. */
  lemma NameToNumInjective(present: seq<string>)
    requires NoDuplicates(present)
    ensures forall a, b ::
      (a in NameToNum(present) && b in NameToNum(present) && NameToNum(present)[a] == NameToNum(present)[b]) ==> a == b
  {
    var ids := NameToNum(present);
    forall a, b | a in ids && b in ids && ids[a] == ids[b]
      ensures a == b
    {
      var i :| 0 <= i < |present| && present[i] == a;
      var j :| 0 <= j < |present| && present[j] == b;
      NameToNumAt(present, i);
      NameToNumAt(present, j);
      DecimalStringInjective(i + 1, j + 1);
    }
  }

  /** The ordinal of a present bracket is one more than the number of present
      brackets before it in canonical order: it depends on which brackets are
      present, not on how many rows each has. */
  lemma OrdinalIsRank(order: seq<string>, labels: set<string>, k: nat)
    requires NoDuplicates(order) && k < |order| && order[k] in labels
    ensures order[k] in NameToNum(Present(order, labels))
    ensures NameToNum(Present(order, labels))[order[k]] == DecimalString(|Present(order[..k], labels)| + 1)
  {
    PresentRank(order, labels, k);
    PresentDistinct(order, labels);
    NameToNumAt(Present(order, labels), |Present(order[..k], labels)|);
  }
}
