/** The per-mode descriptive roster: for each canonical bracket that occurs in
    the mode's grouping column, its canonical position and the number of male
    and female subjects in it. */
module Roster {
  import opened Text
  import opened Catalogue
  import opened SampleTable

  datatype RosterEntry = RosterEntry(fascia: nat, males: nat, females: nat)

  /** `(sub['sesso'].str.upper() == code).sum()`: the rows whose sex code,
      upper-cased, is `code`; a row without a sex code never matches. */
  function SexCount(rows: seq<Row>, code: string): (n: nat)
    ensures n <= |rows|
  {
    if rows == [] then 0
    else
      var r := rows[|rows| - 1];
      SexCount(rows[..|rows| - 1], code) + (if SexColumn in r.text && Upper(r.text[SexColumn]) == code then 1 else 0)
  }

  /** The rows whose sex code is one of `codes`, compared as written. */
  function SexCountAmong(rows: seq<Row>, codes: set<string>): nat
  {
    if rows == [] then 0
    else
      var r := rows[|rows| - 1];
      SexCountAmong(rows[..|rows| - 1], codes) + (if SexColumn in r.text && r.text[SexColumn] in codes then 1 else 0)
  }

  /** The roster entry of the bracket at canonical position k. */
  function EntryAt(order: seq<string>, k: nat, rows: seq<Row>, col: string): RosterEntry
    requires k < |order|
  {
    var sub := RowsLabelled(rows, col, order[k]);
    RosterEntry(k + 1, SexCount(sub, "M"), SexCount(sub, "F"))
  }

  /** The roster over the first n canonical brackets. */
  function RosterUpTo(order: seq<string>, n: nat, rows: seq<Row>, col: string): seq<RosterEntry>
    requires n <= |order|
  {
    if n == 0 then []
    else
      RosterUpTo(order, n - 1, rows, col) +
      (if order[n - 1] in ColumnLabels(rows, col) then [EntryAt(order, n - 1, rows, col)] else [])
  }

  /** The roster of a mode over all its canonical brackets. */
  function RosterOf(t: Table, modeKey: string): seq<RosterEntry>
  {
    var order := OrderFor(modeKey);
    RosterUpTo(order, |order|, t.rows, GroupColumn(modeKey))
  }

  /** The source reads the sex column only once some canonical bracket is
      found, and raises if it is then missing. */
  predicate SexColumnReadable(t: Table, modeKey: string)
  {
    SexColumn in t.columns ||
    forall g :: g in OrderFor(modeKey) ==> g !in ColumnLabels(t.rows, GroupColumn(modeKey))
  }

  /** The roster loop of one mode. The source raises when the mode's
      grouping column is missing. */
  method BuildRoster(t: Table, modeKey: string) returns (roster: seq<RosterEntry>)
    requires GroupColumn(modeKey) in t.columns
    requires SexColumnReadable(t, modeKey)
    ensures roster == RosterOf(t, modeKey)
  {
    var col := GroupColumn(modeKey);
    var order := OrderFor(modeKey);
    roster := [];
    for i := 0 to |order|
      invariant roster == RosterUpTo(order, i, t.rows, col)
    {
      var g := order[i];
      if g in ColumnLabels(t.rows, col) {
        var sub := RowsLabelled(t.rows, col, g);
        roster := roster + [RosterEntry(i + 1, SexCount(sub, "M"), SexCount(sub, "F"))];
      }
    }
  }

  /** The comparison is case-insensitive: the rows counted under a capital
      letter code are those whose code is that letter in either case. */
  lemma {:induction false} SexCountCaseInsensitive(rows: seq<Row>, c: char)
    requires 'A' <= c <= 'Z'
    ensures SexCount(rows, [c]) == SexCountAmong(rows, {[c], [(c as int + 32) as char]})
  {
    if rows != [] {
      SexCountCaseInsensitive(rows[..|rows| - 1], c);
      var r := rows[|rows| - 1];
      if SexColumn in r.text {
        UpperMatchesLetterCode(r.text[SexColumn], c);
      }
    }
  }

  /** No subject is counted both male and female: M + F is at most the
      number of rows. */
  lemma {:induction false} SexCountsBounded(rows: seq<Row>)
    ensures SexCount(rows, "M") + SexCount(rows, "F") <= |rows|
  {
    if rows != [] {
      SexCountsBounded(rows[..|rows| - 1]);
    }
  }

  /** `e` is the roster entry of a canonical bracket occurring in the column:
      its `fascia` is that bracket's canonical position plus one, and its M
      and F counts add up to at most the bracket's rows. */
  ghost predicate EntryFits(order: seq<string>, rows: seq<Row>, col: string, e: RosterEntry)
  {
    && 1 <= e.fascia <= |order|
    && order[e.fascia - 1] in ColumnLabels(rows, col)
    && e == EntryAt(order, e.fascia - 1, rows, col)
    && e.males + e.females <= |RowsLabelled(rows, col, order[e.fascia - 1])|
  }

  lemma {:induction false} RosterUpToFits(order: seq<string>, n: nat, rows: seq<Row>, col: string)
    requires n <= |order|
    ensures forall e :: e in RosterUpTo(order, n, rows, col) ==> EntryFits(order, rows, col, e) && e.fascia <= n
  {
    if n > 0 {
      RosterUpToFits(order, n - 1, rows, col);
      SexCountsBounded(RowsLabelled(rows, col, order[n - 1]));
    }
  }

  lemma {:induction false} RosterUpToIncreasing(order: seq<string>, n: nat, rows: seq<Row>, col: string)
    requires n <= |order|
    ensures forall i, j :: 0 <= i < j < |RosterUpTo(order, n, rows, col)| ==>
      RosterUpTo(order, n, rows, col)[i].fascia < RosterUpTo(order, n, rows, col)[j].fascia
  {
    if n > 0 {
      RosterUpToIncreasing(order, n - 1, rows, col);
      RosterUpToBelow(order, n - 1, rows, col);
      var prev := RosterUpTo(order, n - 1, rows, col);
      var roster := RosterUpTo(order, n, rows, col);
      if order[n - 1] in ColumnLabels(rows, col) {
        assert roster == prev + [EntryAt(order, n - 1, rows, col)];
        forall i, j | 0 <= i < j < |roster|
          ensures roster[i].fascia < roster[j].fascia
        {
          if j == |prev| {
            assert prev[i] in prev;
          }
        }
      } else {
        assert roster == prev;
      }
    }
  }

  /** The entries over the first n brackets are labelled 1 .. n. */
  lemma {:induction false} RosterUpToBelow(order: seq<string>, n: nat, rows: seq<Row>, col: string)
    requires n <= |order|
    ensures forall e :: e in RosterUpTo(order, n, rows, col) ==> 1 <= e.fascia <= n
  {
    if n > 0 {
      RosterUpToBelow(order, n - 1, rows, col);
    }
  }

  /** Some entry of `roster` is the bracket at canonical position k. */
  ghost predicate ListsPosition(roster: seq<RosterEntry>, k: nat)
  {
    exists i :: 0 <= i < |roster| && roster[i].fascia == k + 1
  }

  lemma {:induction false} RosterUpToComplete(order: seq<string>, n: nat, rows: seq<Row>, col: string)
    requires n <= |order|
    ensures forall k :: 0 <= k < n && order[k] in ColumnLabels(rows, col) ==>
      ListsPosition(RosterUpTo(order, n, rows, col), k)
  {
    if n > 0 {
      RosterUpToComplete(order, n - 1, rows, col);
      var prev := RosterUpTo(order, n - 1, rows, col);
      var roster := RosterUpTo(order, n, rows, col);
      forall k | 0 <= k < n && order[k] in ColumnLabels(rows, col)
        ensures ListsPosition(roster, k)
      {
        if k < n - 1 {
          var i :| 0 <= i < |prev| && prev[i].fascia == k + 1;
          assert roster[i] == prev[i];
        } else {
          assert roster == prev + [EntryAt(order, n - 1, rows, col)];
          assert roster[|prev|].fascia == k + 1;
        }
      }
    }
  }

  /** The roster of a mode: one entry per canonical bracket occurring in
      the grouping column, in canonical order, each labelled by canonical
      position (not by a per-metric ordinal). */
  lemma RosterEntries(t: Table, modeKey: string)
    ensures forall e :: e in RosterOf(t, modeKey) ==> EntryFits(OrderFor(modeKey), t.rows, GroupColumn(modeKey), e)
    ensures forall i, j :: 0 <= i < j < |RosterOf(t, modeKey)| ==> RosterOf(t, modeKey)[i].fascia < RosterOf(t, modeKey)[j].fascia
    ensures forall k :: 0 <= k < |OrderFor(modeKey)| && OrderFor(modeKey)[k] in ColumnLabels(t.rows, GroupColumn(modeKey)) ==>
      ListsPosition(RosterOf(t, modeKey), k)
  {
    var order := OrderFor(modeKey);
    RosterUpToFits(order, |order|, t.rows, GroupColumn(modeKey));
    RosterUpToIncreasing(order, |order|, t.rows, GroupColumn(modeKey));
    RosterUpToComplete(order, |order|, t.rows, GroupColumn(modeKey));
  }
}
