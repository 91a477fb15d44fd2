/**
 * The whole batch: select columns, derive type hints, read and filter every
 * file, then prune the batch-wide sparse columns from every file and name each
 * result after its source file.
 */
module Pipeline {
  import opened Wrappers
  import opened Seqs
  import opened Frames
  import opened Selection
  import opened TypeHints
  import opened Loader
  import opened Population
  import opened Sparsity
  import opened Naming

  /** A configured source file and the parser's view of its contents. */
  datatype SourceFile = SourceFile(name: string, raw: RawTable)

  /** A pruned table and the name of the cache file it is written to. */
  datatype Output = Output(name: string, table: Table)

  /** `read_scorecard(f)`: load with the selection and hints, then filter the population. */
  function ReadFile(f: SourceFile, selected: seq<string>, hints: map<string, TypeHint>,
                    infer: string -> Value): Result<Table, Error>
  {
    var loaded :- LoadTable(f.raw, selected, hints, infer);
    ReadScorecard(loaded)
  }

  /** All the tables, or the first failure in file order. */
  function CollectTables(results: seq<Result<Table, Error>>): (r: Result<seq<Table>, Error>)
    ensures r.Success? <==> forall i :: 0 <= i < |results| ==> results[i].Success?
    ensures r.Success? ==> |r.value| == |results|
    ensures r.Success? ==> forall i :: 0 <= i < |results| ==> results[i] == Success(r.value[i])
  {
    if |results| == 0 then Success([])
    else
      var first :- results[0];
      var rest :- CollectTables(results[1..]);
      assert forall i :: 1 <= i < |results| ==> results[1..][i - 1] == results[i];
      Success([first] + rest)
  }

  /** The first loop over the files; the first failing file aborts the run. */
  function ReadAll(files: seq<SourceFile>, selected: seq<string>, hints: map<string, TypeHint>,
                   infer: string -> Value): (r: Result<seq<Table>, Error>)
    ensures r.Success? <==> forall i :: 0 <= i < |files| ==> ReadFile(files[i], selected, hints, infer).Success?
    ensures r.Success? ==> |r.value| == |files|
    ensures r.Success? ==>
              forall i :: 0 <= i < |files| ==> ReadFile(files[i], selected, hints, infer) == Success(r.value[i])
  {
    var results := seq(|files|, i requires 0 <= i < |files| => ReadFile(files[i], selected, hints, infer));
    assert forall i :: 0 <= i < |files| ==> results[i] == ReadFile(files[i], selected, hints, infer);
    CollectTables(results)
  }

  /** Each pruned table paired with the cache name of its source file. */
  function Outputs(files: seq<SourceFile>, tables: seq<Table>): (r: seq<Output>)
    requires |files| == |tables|
    ensures |r| == |files|
    ensures forall i :: 0 <= i < |files| ==> r[i] == Output(OutputName(files[i].name), tables[i])
  {
    seq(|files|, i requires 0 <= i < |files| => Output(OutputName(files[i].name), tables[i]))
  }

  /** The script from the dictionary to the tables it pickles. */
  function RunBatch(dict: Dictionary, files: seq<SourceFile>, infer: string -> Value): Result<seq<Output>, Error>
  {
    var selected :- SelectColumns(dict);
    var hints := TypeConversion(dict, selected);
    var tables :- ReadAll(files, selected, hints, infer);
    var pruned :- PruneAll(tables, SparseSet(tables));
    Success(Outputs(files, pruned))
  }

  // ---------------------------------------------------------------------------
  // Properties

  lemma ToSetWithout(s: seq<string>, d: set<string>)
    ensures ToSet(Without(s, d)) == ToSet(s) - d
  {
  }

  /** A file that reads successfully has the selected columns minus the three filter columns. */
  lemma ReadFileShape(f: SourceFile, selected: seq<string>, hints: map<string, TypeHint>, infer: string -> Value)
    ensures ReadFile(f, selected, hints, infer).Success? ==>
              && ToSet(ReadFile(f, selected, hints, infer).value.columns) == ToSet(selected) - FilterDrops
              && WellFormed(ReadFile(f, selected, hints, infer).value)
  {
    if ReadFile(f, selected, hints, infer).Success? {
      var loaded := LoadTable(f.raw, selected, hints, infer).value;
      ReadScorecardResult(loaded);
      ToSetWithout(loaded.columns, FilterDrops);
    }
  }

  lemma PrunedWellFormed(t: Table, sparse: set<string>)
    requires WellFormed(t)
    ensures WellFormed(Table(Without(t.columns, sparse), Project(t.rows, sparse)))
  {
    ToSetWithout(t.columns, sparse);
  }

  /** The selected columns are, as a set, the kept dictionary names. */
  lemma SelectedAreKept(dict: Dictionary)
    ensures SelectColumns(dict).Success? ==> ToSet(SelectColumns(dict).value) == ToSet(KeptNames(dict))
  {
    if SelectColumns(dict).Success? {
      var selected := SelectColumns(dict).value;
      SelectColumnsOutcome(dict);
      forall c ensures c in selected <==> c in KeptNames(dict) {
        assert c in selected <==> c in multiset(selected);
        assert c in KeptNames(dict) <==> c in multiset(KeptNames(dict));
      }
    }
  }

  /**
   * Once the dictionary selection and every file's read succeed, pruning cannot
   * fail, and every output has the same column set: the kept dictionary names,
   * minus the three filter columns, minus the batch's sparse columns. Output
   * `i` is named after source file `i`, and every row has exactly its table's
   * columns.
   */
  lemma BatchOutcome(dict: Dictionary, files: seq<SourceFile>, infer: string -> Value)
    ensures RunBatch(dict, files, infer).Success? <==>
            SelectColumns(dict).Success? &&
            ReadAll(files, SelectColumns(dict).value, TypeConversion(dict, SelectColumns(dict).value), infer).Success?
    ensures RunBatch(dict, files, infer).Success? ==>
              var out := RunBatch(dict, files, infer).value;
              var tables := ReadAll(files, SelectColumns(dict).value,
                                    TypeConversion(dict, SelectColumns(dict).value), infer).value;
              && |out| == |files|
              && (forall i :: 0 <= i < |files| ==> out[i].name == OutputName(files[i].name))
              && (forall i :: 0 <= i < |files| ==>
                    ToSet(out[i].table.columns) == ToSet(KeptNames(dict)) - FilterDrops - SparseSet(tables))
              && (forall i :: 0 <= i < |files| ==> WellFormed(out[i].table))
  {
    var sel := SelectColumns(dict);
    if sel.Success? {
      var selected := sel.value;
      var hints := TypeConversion(dict, selected);
      var read := ReadAll(files, selected, hints, infer);
      if read.Success? {
        var tables := read.value;
        var shared := ToSet(selected) - FilterDrops;
        forall i | 0 <= i < |tables| ensures ToSet(tables[i].columns) == shared && WellFormed(tables[i]) {
          ReadFileShape(files[i], selected, hints, infer);
        }
        UniformSchema(tables, shared);
        var pruned := PruneAll(tables, SparseSet(tables)).value;
        forall i | 0 <= i < |tables| ensures WellFormed(pruned[i]) {
          PrunedWellFormed(tables[i], SparseSet(tables));
        }
        SelectedAreKept(dict);
      }
    }
  }
}
