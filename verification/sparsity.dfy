/**
 * Batch-wide sparsity pruning: a column with fewer than `SparseThreshold`
 * non-missing values in any file of the batch is removed from every file.
 */
module Sparsity {
  import opened Wrappers
  import opened Seqs
  import opened Frames

  /** The minimum number of non-missing values a column needs in every file. */
  const SparseThreshold: nat := 400

  /** `DataFrame.count()` for column `c`: the rows whose cell is not missing. */
  function NonMissingCount(rows: seq<Row>, c: string): (n: nat)
    ensures n <= |rows|
  {
    if |rows| == 0 then 0
    else NonMissingCount(rows[..|rows| - 1], c) + (if Cell(rows[|rows| - 1], c) != Missing then 1 else 0)
  }

  /** A column of `t` whose non-missing count is strictly below the threshold. */
  predicate IsSparse(t: Table, c: string)
  {
    c in t.columns && NonMissingCount(t.rows, c) < SparseThreshold
  }

  /** `counts[counts < 400].index` for one file. */
  function SparseIn(t: Table): (s: set<string>)
  {
    set c | c in t.columns && NonMissingCount(t.rows, c) < SparseThreshold
  }

  /** `sparse_set`: the union over the files, accumulated file by file. */
  function SparseSet(tables: seq<Table>): (s: set<string>)
    ensures forall c :: c in s <==> exists i :: 0 <= i < |tables| && IsSparse(tables[i], c)
  {
    if |tables| == 0 then {}
    else
      var last := |tables| - 1;
      var before := SparseSet(tables[..last]);
      assert forall i :: 0 <= i < last ==> tables[..last][i] == tables[i];
      before + SparseIn(tables[last])
  }

  /** `DataFrame.count()` computed by a scan over the rows. */
  method CountNonMissing(rows: seq<Row>, c: string) returns (n: nat)
    ensures n == NonMissingCount(rows, c)
    ensures n <= |rows|
  {
    n := 0;
    var k := 0;
    while k < |rows|
      invariant 0 <= k <= |rows|
      invariant n == NonMissingCount(rows[..k], c)
    {
      assert rows[..k + 1][..k] == rows[..k];
      if Cell(rows[k], c) != Missing {
        n := n + 1;
      }
      k := k + 1;
    }
    assert rows[..|rows|] == rows;
  }

  /** The loop that builds `sparse_set`, file by file and column by column. */
  method CollectSparseSet(tables: seq<Table>) returns (s: set<string>)
    ensures forall c :: c in s <==> exists i :: 0 <= i < |tables| && IsSparse(tables[i], c)
    ensures s == SparseSet(tables)
  {
    s := {};
    var i := 0;
    while i < |tables|
      invariant 0 <= i <= |tables|
      invariant s == SparseSet(tables[..i])
    {
      var t := tables[i];
      var found: set<string> := {};
      var j := 0;
      while j < |t.columns|
        invariant 0 <= j <= |t.columns|
        invariant found == set c | c in t.columns[..j] && NonMissingCount(t.rows, c) < SparseThreshold
      {
        var n := CountNonMissing(t.rows, t.columns[j]);
        if n < SparseThreshold {
          found := found + {t.columns[j]};
        }
        assert t.columns[..j + 1] == t.columns[..j] + [t.columns[j]];
        j := j + 1;
      }
      assert t.columns[..j] == t.columns;
      assert found == SparseIn(t);
      assert tables[..i + 1][..i] == tables[..i];
      s := s + found;
      i := i + 1;
    }
    assert tables[..i] == tables;
  }

  /** `drop(columns=sparse)` applied to every file; the first failing file aborts. */
  function PruneAll(tables: seq<Table>, sparse: set<string>): (r: Result<seq<Table>, Error>)
    ensures r.Success? <==> forall i :: 0 <= i < |tables| ==> sparse <= ToSet(tables[i].columns)
    ensures r.Success? ==> |r.value| == |tables|
    ensures r.Success? ==> forall i :: 0 <= i < |tables| ==>
              r.value[i] == Table(Without(tables[i].columns, sparse), Project(tables[i].rows, sparse))
  {
    if |tables| == 0 then Success([])
    else
      var first :- DropColumns(tables[0], sparse);
      var rest :- PruneAll(tables[1..], sparse);
      assert forall i :: 1 <= i < |tables| ==> tables[1..][i - 1] == tables[i];
      Success([first] + rest)
  }

  // ---------------------------------------------------------------------------
  // Properties

  /** A column at or above the threshold in every file that has it is not sparse. */
  lemma DenseColumnNotSparse(tables: seq<Table>, c: string)
    requires forall i :: 0 <= i < |tables| && c in tables[i].columns ==>
               NonMissingCount(tables[i].rows, c) >= SparseThreshold
    ensures c !in SparseSet(tables)
  {
  }

  /**
   * After pruning with the batch's sparse set, a file keeps exactly those of its
   * columns that are sparse in no file of the batch.
   */
  lemma PrunedColumns(tables: seq<Table>)
    requires PruneAll(tables, SparseSet(tables)).Success?
    ensures forall i, c :: 0 <= i < |tables| ==>
              (c in PruneAll(tables, SparseSet(tables)).value[i].columns <==>
               c in tables[i].columns && forall j :: 0 <= j < |tables| ==> !IsSparse(tables[j], c))
  {
  }

  /**
   * Files that enter with the same column set succeed and leave with the same
   * column set: the shared set minus the sparse union.
   */
  lemma UniformSchema(tables: seq<Table>, shared: set<string>)
    requires forall i :: 0 <= i < |tables| ==> ToSet(tables[i].columns) == shared
    ensures PruneAll(tables, SparseSet(tables)).Success?
    ensures forall i :: 0 <= i < |tables| ==>
              ToSet(PruneAll(tables, SparseSet(tables)).value[i].columns) == shared - SparseSet(tables)
  {
    var sparse := SparseSet(tables);
    forall i | 0 <= i < |tables| ensures sparse <= ToSet(tables[i].columns) {
      forall c | c in sparse ensures c in ToSet(tables[i].columns) {
        var j :| 0 <= j < |tables| && IsSparse(tables[j], c);
        assert c in ToSet(tables[j].columns);
      }
    }
  }
}
