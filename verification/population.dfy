/**
 * The population filter of `read_scorecard`: four row queries with pandas'
 * missing-value semantics, interleaved with three column drops.
 */
module Population {
  import opened Wrappers
  import opened Seqs
  import opened Frames

  /** A row query over one column, compared with an integer code. */
  datatype Predicate =
    | AtLeastAtMost(column: string, lo: int, hi: int)   // column >= lo and column <= hi
    | NotEqual(column: string, code: int)               // column != code
    | EqualTo(column: string, code: int)                // column == code

  /** `==` on a cell: a missing cell (NaN) or a string never equals a number. */
  predicate EqualsCode(v: Value, code: int)
  {
    v.Num? && v.n == code
  }

  /** The query's truth value for one row; `!=` is the negation of `==`, so NaN != code. */
  predicate Holds(p: Predicate, r: Row)
  {
    match p
    case AtLeastAtMost(c, lo, hi) => Cell(r, c).Num? && lo <= Cell(r, c).n && Cell(r, c).n <= hi
    case NotEqual(c, code) => !EqualsCode(Cell(r, c), code)
    case EqualTo(c, code) => EqualsCode(Cell(r, c), code)
  }

  /** An ordering comparison of a string cell with a number raises TypeError. */
  predicate Comparable(p: Predicate, r: Row)
  {
    !(p.AtLeastAtMost? && Cell(r, p.column).Str?)
  }

  /** The rows for which `p` holds, in their original order. */
  function KeepRows(rows: seq<Row>, p: Predicate): (r: seq<Row>)
    ensures |r| <= |rows|
    ensures forall x :: x in r <==> x in rows && Holds(p, x)
  {
    if |rows| == 0 then []
    else (if Holds(p, rows[0]) then [rows[0]] else []) + KeepRows(rows[1..], p)
  }

  /**
   * `DataFrame.query`: the column must exist, every row must be comparable,
   * and the result keeps the columns and the rows where the query holds.
   */
  function Query(t: Table, p: Predicate): (r: Result<Table, Error>)
    ensures r.Success? <==> p.column in t.columns && forall i :: 0 <= i < |t.rows| ==> Comparable(p, t.rows[i])
    ensures p.column !in t.columns ==> r == Failure(UndefinedName(p.column))
    ensures r.Success? ==> r.value.columns == t.columns
    ensures r.Success? ==> forall x :: x in r.value.rows <==> x in t.rows && Holds(p, x)
    ensures r.Success? && WellFormed(t) ==> WellFormed(r.value)
  {
    if p.column !in t.columns then Failure(UndefinedName(p.column))
    else if exists i :: 0 <= i < |t.rows| && !Comparable(p, t.rows[i]) then Failure(NotComparable(p.column))
    else
      var kept := KeepRows(t.rows, p);
      assert forall i :: 0 <= i < |kept| ==> kept[i] in kept;
      Success(Table(t.columns, kept))
  }

  const FourYear: Predicate := AtLeastAtMost("CCUGPROF", 5, 15)
  const NotForProfit: Predicate := NotEqual("CONTROL", 3)
  const Operating: Predicate := NotEqual("CURROPER", 0)
  const HasCampus: Predicate := EqualTo("DISTANCEONLY", 0)

  /** The columns `read_scorecard` drops once their query has been applied. */
  const FilterDrops: set<string> := {"PREDDEG", "CURROPER", "DISTANCEONLY"}

  /** The columns `read_scorecard` needs: queried or dropped. */
  const RequiredColumns: set<string> := {"CCUGPROF", "PREDDEG", "CONTROL", "CURROPER", "DISTANCEONLY"}

  /** A query followed by the drop of one column, as `read_scorecard` pairs them. */
  function QueryAndDrop(t: Table, p: Predicate, dropped: string): (r: Result<Table, Error>)
    ensures r.Success? <==> p.column in t.columns && dropped in t.columns &&
                            forall i :: 0 <= i < |t.rows| ==> Comparable(p, t.rows[i])
    ensures r.Success? ==> r.value == Table(Without(t.columns, {dropped}), Project(KeepRows(t.rows, p), {dropped}))
    ensures r.Success? && WellFormed(t) ==> WellFormed(r.value)
  {
    var kept :- Query(t, p);
    DropColumns(kept, {dropped})
  }

  /** `read_scorecard` after the CSV has been read. */
  function ReadScorecard(t: Table): Result<Table, Error>
  {
    var fourYear :- QueryAndDrop(t, FourYear, "PREDDEG");
    var fourYear :- Query(fourYear, NotForProfit);
    var fourYear :- QueryAndDrop(fourYear, Operating, "CURROPER");
    QueryAndDrop(fourYear, HasCampus, "DISTANCEONLY")
  }

  // ---------------------------------------------------------------------------
  // Reference definition

  /**
   * The target population, stated on the loaded row: a four-year Carnegie
   * undergraduate profile (codes 5 to 15), not private for-profit, not closed,
   * and not distance-only. A missing cell fails a range or equality test and
   * passes an inequality test.
   */
  predicate Survives(r: Row)
  {
    var profile := Cell(r, "CCUGPROF");
    && profile.Num? && 5 <= profile.n <= 15
    && Cell(r, "CONTROL") != Num(3)
    && Cell(r, "CURROPER") != Num(0)
    && Cell(r, "DISTANCEONLY") == Num(0)
  }

  /** The surviving rows, in their original order. */
  function Survivors(rows: seq<Row>): seq<Row>
  {
    if |rows| == 0 then []
    else (if Survives(rows[0]) then [rows[0]] else []) + Survivors(rows[1..])
  }

  // ---------------------------------------------------------------------------
  // Properties

  lemma ProjectCons(rows: seq<Row>, d: set<string>)
    requires |rows| > 0
    ensures Project(rows, d) == [rows[0] - d] + Project(rows[1..], d)
  {
  }

  /** Dropping a column the query does not read commutes with the query. */
  lemma {:induction false} KeepRowsProject(rows: seq<Row>, d: set<string>, p: Predicate)
    requires p.column !in d
    ensures KeepRows(Project(rows, d), p) == Project(KeepRows(rows, p), d)
  {
    if |rows| > 0 {
      ProjectCons(rows, d);
      assert Project(rows, d)[1..] == Project(rows[1..], d);
      assert Cell(rows[0] - d, p.column) == Cell(rows[0], p.column);
      KeepRowsProject(rows[1..], d, p);
      if Holds(p, rows[0]) {
        ProjectCons(KeepRows(rows, p), d);
        assert KeepRows(rows, p)[1..] == KeepRows(rows[1..], p);
      } else {
        assert KeepRows(rows, p) == KeepRows(rows[1..], p);
      }
    }
  }

  lemma {:induction false} KeepRowsAppend(a: seq<Row>, b: seq<Row>, p: Predicate)
    ensures KeepRows(a + b, p) == KeepRows(a, p) + KeepRows(b, p)
  {
    if |a| == 0 {
      assert a + b == b;
    } else {
      assert (a + b)[1..] == a[1..] + b;
      KeepRowsAppend(a[1..], b, p);
    }
  }

  lemma KeepRowsOne(x: Row, p: Predicate)
    ensures KeepRows([x], p) == if Holds(p, x) then [x] else []
  {
    assert [x][1..] == [];
  }

  /** On a single row the four queries keep it exactly when it survives. */
  lemma OneRowQueries(x: Row)
    ensures KeepRows(KeepRows(KeepRows(KeepRows([x], FourYear), NotForProfit), Operating), HasCampus) ==
            if Survives(x) then [x] else []
  {
    KeepRowsOne(x, FourYear);
    KeepRowsOne(x, NotForProfit);
    KeepRowsOne(x, Operating);
    KeepRowsOne(x, HasCampus);
  }

  /** The four queries in sequence keep exactly the surviving rows. */
  lemma {:induction false} QueriesAreSurvivors(rows: seq<Row>)
    ensures KeepRows(KeepRows(KeepRows(KeepRows(rows, FourYear), NotForProfit), Operating), HasCampus) ==
            Survivors(rows)
  {
    if |rows| > 0 {
      var head := [rows[0]];
      var tail := rows[1..];
      assert rows == head + tail;
      QueriesAreSurvivors(tail);
      KeepRowsAppend(head, tail, FourYear);
      var a1 := KeepRows(head, FourYear);
      var a2 := KeepRows(tail, FourYear);
      KeepRowsAppend(a1, a2, NotForProfit);
      var b1 := KeepRows(a1, NotForProfit);
      var b2 := KeepRows(a2, NotForProfit);
      KeepRowsAppend(b1, b2, Operating);
      var c1 := KeepRows(b1, Operating);
      var c2 := KeepRows(b2, Operating);
      KeepRowsAppend(c1, c2, HasCampus);
      OneRowQueries(rows[0]);
      assert Survivors(rows) == (if Survives(rows[0]) then head else []) + Survivors(tail);
    }
  }

  lemma QueryValue(t: Table, p: Predicate)
    requires Query(t, p).Success?
    ensures Query(t, p).value == Table(t.columns, KeepRows(t.rows, p))
  {
  }

  lemma RequiredColumnsPresent(cols: seq<string>)
    ensures RequiredColumns <= ToSet(cols) <==>
            "CCUGPROF" in cols && "PREDDEG" in cols && "CONTROL" in cols && "CURROPER" in cols && "DISTANCEONLY" in cols
  {
  }

  /**
   * `read_scorecard` succeeds exactly when the five columns it queries or drops
   * are present and no CCUGPROF cell is a string; an input where every row is
   * rejected gives an empty table, not an error.
   */
  lemma ReadScorecardOutcome(t: Table)
    ensures ReadScorecard(t).Success? <==>
            RequiredColumns <= ToSet(t.columns) && forall i :: 0 <= i < |t.rows| ==> !Cell(t.rows[i], "CCUGPROF").Str?
  {
    RequiredColumnsPresent(t.columns);
    var s1 := QueryAndDrop(t, FourYear, "PREDDEG");
    if s1.Success? {
      var t1 := s1.value;
      assert forall c :: c in t1.columns <==> c in t.columns && c != "PREDDEG";
      var s2 := Query(t1, NotForProfit);
      if s2.Success? {
        var t2 := s2.value;
        var s3 := QueryAndDrop(t2, Operating, "CURROPER");
        if s3.Success? {
          var t3 := s3.value;
          assert forall c :: c in t3.columns <==> c in t.columns && c != "PREDDEG" && c != "CURROPER";
        }
      }
    }
  }

  /**
   * On success the columns are the input's minus exactly PREDDEG, CURROPER and
   * DISTANCEONLY, and the rows are the surviving input rows, in order, each with
   * those three cells removed and every other cell unchanged.
   */
  lemma ReadScorecardResult(t: Table)
    ensures ReadScorecard(t).Success? ==>
              && ReadScorecard(t).value.columns == Without(t.columns, FilterDrops)
              && ReadScorecard(t).value.rows == Project(Survivors(t.rows), FilterDrops)
              && (WellFormed(t) ==> WellFormed(ReadScorecard(t).value))
  {
    if ReadScorecard(t).Success? {
      var t1 := QueryAndDrop(t, FourYear, "PREDDEG").value;
      var t2 := Query(t1, NotForProfit).value;
      QueryValue(t1, NotForProfit);
      var t3 := QueryAndDrop(t2, Operating, "CURROPER").value;
      var t4 := QueryAndDrop(t3, HasCampus, "DISTANCEONLY").value;
      assert t4 == ReadScorecard(t).value;
      assert t4.columns == Without(Without(Without(t.columns, {"PREDDEG"}), {"CURROPER"}), {"DISTANCEONLY"});
      DroppedColumns(t.columns);
      assert t4.rows == Project(KeepRows(Project(KeepRows(KeepRows(Project(KeepRows(t.rows, FourYear), {"PREDDEG"}),
                                                                   NotForProfit), Operating), {"CURROPER"}), HasCampus),
                                {"DISTANCEONLY"});
      SurvivingRows(t.rows);
    }
  }

  /** The three single-column drops remove exactly the filter columns. */
  lemma DroppedColumns(cols: seq<string>)
    ensures Without(Without(Without(cols, {"PREDDEG"}), {"CURROPER"}), {"DISTANCEONLY"}) == Without(cols, FilterDrops)
  {
    WithoutWithout(cols, {"PREDDEG"}, {"CURROPER"});
    WithoutWithout(cols, {"PREDDEG"} + {"CURROPER"}, {"DISTANCEONLY"});
    assert {"PREDDEG"} + {"CURROPER"} + {"DISTANCEONLY"} == FilterDrops;
  }

  /** The interleaved queries and drops keep the survivors, less the three dropped cells. */
  lemma SurvivingRows(rows: seq<Row>)
    ensures Project(KeepRows(Project(KeepRows(KeepRows(Project(KeepRows(rows, FourYear), {"PREDDEG"}),
                                                       NotForProfit), Operating), {"CURROPER"}), HasCampus),
                    {"DISTANCEONLY"}) ==
            Project(Survivors(rows), FilterDrops)
  {
    var a := KeepRows(rows, FourYear);
    KeepRowsProject(a, {"PREDDEG"}, NotForProfit);
    var b := KeepRows(a, NotForProfit);
    KeepRowsProject(b, {"PREDDEG"}, Operating);
    var c := KeepRows(b, Operating);
    ProjectProject(c, {"PREDDEG"}, {"CURROPER"});
    KeepRowsProject(c, {"PREDDEG"} + {"CURROPER"}, HasCampus);
    var d := KeepRows(c, HasCampus);
    ProjectProject(d, {"PREDDEG"} + {"CURROPER"}, {"DISTANCEONLY"});
    assert {"PREDDEG"} + {"CURROPER"} + {"DISTANCEONLY"} == FilterDrops;
    QueriesAreSurvivors(rows);
  }

  /** The missing-value rules at work: missing CONTROL or CURROPER passes, missing CCUGPROF or DISTANCEONLY fails. */
  lemma MissingCells(r: Row)
    ensures Cell(r, "CCUGPROF") == Missing ==> !Survives(r)
    ensures Cell(r, "DISTANCEONLY") == Missing ==> !Survives(r)
    ensures Cell(r, "CONTROL") == Missing && Cell(r, "CURROPER") == Missing ==>
            (Survives(r) <==> Cell(r, "CCUGPROF").Num? && 5 <= Cell(r, "CCUGPROF").n <= 15 &&
                              Cell(r, "DISTANCEONLY") == Num(0))
  {
  }
}
