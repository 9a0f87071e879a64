/** The loaded sample: a set of column names and one record per subject.
    A row's text cells (bracket labels, sex code) and numeric cells (metric
    values) are kept apart; a cell that is missing, or that did not parse as
    a number, is simply absent from the row. */
module SampleTable {

  datatype Row = Row(text: map<string, string>, numbers: map<string, real>)

  datatype Table = Table(columns: set<string>, rows: seq<Row>)

  /** One retained observation of a metric: its bracket label and value. */
  datatype Obs = Obs(bracket: string, value: real)

  /** The retained observation of `r`, if it has both a label and a value. */
  function ObsOf(r: Row, groupCol: string, metric: string): seq<Obs>
  {
    if groupCol in r.text && metric in r.numbers then [Obs(r.text[groupCol], r.numbers[metric])] else []
  }

  /** `df[[group_col, metric]].dropna()`: the rows with both a label and a
      value, in row order. */
  function Observations(rows: seq<Row>, groupCol: string, metric: string): (data: seq<Obs>)
    ensures |data| <= |rows|
  {
    if rows == [] then []
    else Observations(rows[..|rows| - 1], groupCol, metric) + ObsOf(rows[|rows| - 1], groupCol, metric)
  }

  /** The labels occurring among the observations. */
  function Labels(data: seq<Obs>): set<string>
  {
    set o | o in data :: o.bracket
  }

  /** `data[data[group_col] == g][metric]`: the values labelled `g`, in order. */
  function ValuesOf(data: seq<Obs>, g: string): (vals: seq<real>)
    ensures |vals| <= |data|
  {
    if data == [] then []
    else ValuesOf(data[..|data| - 1], g) + (if data[|data| - 1].bracket == g then [data[|data| - 1].value] else [])
  }

  /** A label occurs among the observations exactly when it has values. */
  lemma {:induction false} ValuesOfNonEmpty(data: seq<Obs>, g: string)
    ensures ValuesOf(data, g) != [] <==> g in Labels(data)
  {
    if data != [] {
      var init := data[..|data| - 1];
      ValuesOfNonEmpty(init, g);
      assert Labels(data) == Labels(init) + {data[|data| - 1].bracket} by {
        assert data == init + [data[|data| - 1]];
      }
    }
  }

  /** The labels a column holds across all rows (missing cells excluded). */
  function ColumnLabels(rows: seq<Row>, col: string): set<string>
  {
    set r | r in rows && col in r.text :: r.text[col]
  }

  /** `df[df[col] == g]`: the rows whose `col` cell is `g`, in row order. */
  function RowsLabelled(rows: seq<Row>, col: string, g: string): (sub: seq<Row>)
    ensures |sub| <= |rows|
  {
    if rows == [] then []
    else
      var r := rows[|rows| - 1];
      RowsLabelled(rows[..|rows| - 1], col, g) + (if col in r.text && r.text[col] == g then [r] else [])
  }
}
