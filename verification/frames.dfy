/**
 * The abstract table the script manipulates: an ordered column list and a
 * sequence of rows, each row mapping column names to cell values.
 */
module Frames {
  import opened Wrappers
  import opened Seqs

  /** A cell: a number, a string, or the "no value" marker (pandas NaN). */
  datatype Value = Missing | Num(n: int) | Str(s: string)

  type Row = map<string, Value>

  datatype Table = Table(columns: seq<string>, rows: seq<Row>)

  /** The ways a run aborts; each is an exception raised by the script. */
  datatype Error =
    | NotInList(entry: Option<string>)                // list.remove of an absent name
    | ColumnCountMismatch(expected: nat, actual: nat) // the column-count assertion
    | UsecolsMismatch(missing: set<string>)           // read_csv: a requested column is not in the file
    | UndefinedName(column: string)                   // query names an absent column
    | NotComparable(column: string)                   // ordering comparison of a string cell with a number
    | KeyNotFound(labels: set<string>)                // drop of labels that are not columns

  /** The value of column `c` in row `r`; an absent key reads as missing. */
  function Cell(r: Row, c: string): Value
  {
    if c in r then r[c] else Missing
  }

  /** Every row has exactly the table's columns as keys. */
  predicate WellFormed(t: Table)
  {
    forall i :: 0 <= i < |t.rows| ==> t.rows[i].Keys == ToSet(t.columns)
  }

  /** Each row with the keys in `d` removed. */
  function Project(rows: seq<Row>, d: set<string>): (r: seq<Row>)
    ensures |r| == |rows|
    ensures forall i :: 0 <= i < |rows| ==> r[i] == rows[i] - d
  {
    seq(|rows|, i requires 0 <= i < |rows| => rows[i] - d)
  }

  lemma ProjectProject(rows: seq<Row>, a: set<string>, b: set<string>)
    ensures Project(Project(rows, a), b) == Project(rows, a + b)
  {
    assert forall i :: 0 <= i < |rows| ==> rows[i] - a - b == rows[i] - (a + b);
  }

  /**
   * `DataFrame.drop(columns=labels)`: every label must be a column (otherwise
   * KeyError); the labelled columns disappear from the column list and from
   * every row, and nothing else changes.
   */
  function DropColumns(t: Table, labels: set<string>): (r: Result<Table, Error>)
    ensures r.Success? <==> labels <= ToSet(t.columns)
    ensures r.Failure? ==> r.error == KeyNotFound(labels - ToSet(t.columns))
    ensures r.Success? ==> forall c :: c in r.value.columns <==> c in t.columns && c !in labels
    ensures r.Success? ==> |r.value.rows| == |t.rows|
    ensures r.Success? ==> forall i, c :: 0 <= i < |t.rows| && c in t.rows[i] && c !in labels ==>
                                          c in r.value.rows[i] && r.value.rows[i][c] == t.rows[i][c]
    ensures r.Success? ==> forall i :: 0 <= i < |t.rows| ==> labels !! r.value.rows[i].Keys
    ensures r.Success? && WellFormed(t) ==> WellFormed(r.value)
  {
    if !(labels <= ToSet(t.columns)) then Failure(KeyNotFound(labels - ToSet(t.columns)))
    else Success(Table(Without(t.columns, labels), Project(t.rows, labels)))
  }
}
