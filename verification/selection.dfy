/**
 * The column selector: start from every named variable of the data dictionary
 * and remove, category by category, each variable whose development category
 * is excluded, exactly as repeated `list.remove` calls would; then require the
 * expected number of columns.
 */
module Selection {
  import opened Wrappers
  import opened Seqs
  import opened Frames

  /** One row of the data dictionary sheet; a blank cell reads as None. */
  datatype Entry = Entry(variableName: Option<string>, devCategory: Option<string>, apiDataType: Option<string>)

  type Dictionary = seq<Entry>

  /** Categories unrelated to the question of large student loans, in removal order. */
  const ExcludedCategories: seq<string> := ["repayment", "academics", "completion", "earnings"]

  /** The size the selected column list must have. */
  const ExpectedColumnCount: nat := 290

  predicate IsExcluded(e: Entry)
  {
    e.devCategory.Some? && e.devCategory.value in ExcludedCategories
  }

  /** The names present in a column of optional names, in order (`dropna`). */
  function Present(ns: seq<Option<string>>): (r: seq<string>)
    ensures forall n :: n in r <==> Some(n) in ns
  {
    if |ns| == 0 then []
    else (if ns[0].Some? then [ns[0].value] else []) + Present(ns[1..])
  }

  /** The dictionary's `variable_name` column. */
  function NameColumn(dict: Dictionary): (r: seq<Option<string>>)
    ensures |r| == |dict|
    ensures forall i :: 0 <= i < |dict| ==> r[i] == dict[i].variableName
  {
    seq(|dict|, i requires 0 <= i < |dict| => dict[i].variableName)
  }

  /** The starting column list: the dictionary's non-missing names, in dictionary order. */
  function VariableNames(dict: Dictionary): (r: seq<string>)
    ensures forall n :: n in r <==> exists i :: 0 <= i < |dict| && dict[i].variableName == Some(n)
  {
    Present(NameColumn(dict))
  }

  /** The `variable_name` cells of the rows whose `dev_category` equals `category`. */
  function CategoryNames(dict: Dictionary, category: string): (r: seq<Option<string>>)
    ensures forall o :: o in r <==>
      exists i :: 0 <= i < |dict| && dict[i].devCategory == Some(category) && dict[i].variableName == o
  {
    if |dict| == 0 then []
    else
      var rest := CategoryNames(dict[1..], category);
      assert forall o :: o in rest <==>
        exists i :: 1 <= i < |dict| && dict[i].devCategory == Some(category) && dict[i].variableName == o
      by {
        forall o | o in rest
          ensures exists i :: 1 <= i < |dict| && dict[i].devCategory == Some(category) && dict[i].variableName == o
        {
          var j :| 0 <= j < |dict[1..]| && dict[1..][j].devCategory == Some(category) && dict[1..][j].variableName == o;
          assert dict[j + 1] == dict[1..][j];
        }
        forall o, i | 1 <= i < |dict| && dict[i].devCategory == Some(category) && dict[i].variableName == o
          ensures o in rest
        {
          assert dict[1..][i - 1] == dict[i];
        }
      }
      (if dict[0].devCategory == Some(category) then [dict[0].variableName] else []) + rest
  }

  /**
   * `list.remove` of each name in turn; a missing name (NaN) or a name no longer
   * in the list raises ValueError.
   */
  function RemoveEach(cols: seq<string>, names: seq<Option<string>>): Result<seq<string>, Error>
    decreases |names|
  {
    if |names| == 0 then Success(cols)
    else match names[0]
      case None => Failure(NotInList(None))
      case Some(n) =>
        if n in cols then RemoveEach(RemoveFirst(cols, n), names[1..])
        else Failure(NotInList(Some(n)))
  }

  /** `drop_columns_by_category`: remove every name listed under `category`. */
  function DropColumnsByCategory(cols: seq<string>, dict: Dictionary, category: string): Result<seq<string>, Error>
  {
    RemoveEach(cols, CategoryNames(dict, category))
  }

  /** The four `drop_columns_by_category` calls, in order. */
  function DropCategories(cols: seq<string>, dict: Dictionary, categories: seq<string>): Result<seq<string>, Error>
    decreases |categories|
  {
    if |categories| == 0 then Success(cols)
    else
      var next :- DropColumnsByCategory(cols, dict, categories[0]);
      DropCategories(next, dict, categories[1..])
  }

  /** The selected columns, or the error that aborts the run. */
  function SelectColumns(dict: Dictionary): Result<seq<string>, Error>
  {
    var cols :- DropCategories(VariableNames(dict), dict, ExcludedCategories);
    if |cols| != ExpectedColumnCount then Failure(ColumnCountMismatch(ExpectedColumnCount, |cols|))
    else Success(cols)
  }

  // ---------------------------------------------------------------------------
  // Reference definitions

  /** The names the selection is meant to keep: named entries of a kept category. */
  function KeptNames(dict: Dictionary): (r: seq<string>)
    ensures forall n :: n in r <==>
      exists i :: 0 <= i < |dict| && dict[i].variableName == Some(n) && !IsExcluded(dict[i])
  {
    if |dict| == 0 then []
    else
      var rest := KeptNames(dict[1..]);
      assert forall n :: n in rest <==>
        exists i :: 1 <= i < |dict| && dict[i].variableName == Some(n) && !IsExcluded(dict[i])
      by {
        forall n | n in rest
          ensures exists i :: 1 <= i < |dict| && dict[i].variableName == Some(n) && !IsExcluded(dict[i])
        {
          var j :| 0 <= j < |dict[1..]| && dict[1..][j].variableName == Some(n) && !IsExcluded(dict[1..][j]);
          assert dict[j + 1] == dict[1..][j];
        }
        forall n, i | 1 <= i < |dict| && dict[i].variableName == Some(n) && !IsExcluded(dict[i])
          ensures n in rest
        {
          assert dict[1..][i - 1] == dict[i];
        }
      }
      (if dict[0].variableName.Some? && !IsExcluded(dict[0]) then [dict[0].variableName.value] else []) + rest
  }

  /** The `variable_name` cells of the entries whose category is in `categories`, in dictionary order. */
  function NamesWithCategoryIn(dict: Dictionary, categories: set<string>): (r: seq<Option<string>>)
    ensures forall o :: o in r <==>
      exists i :: 0 <= i < |dict| && dict[i].devCategory.Some? && dict[i].devCategory.value in categories &&
                  dict[i].variableName == o
  {
    if |dict| == 0 then []
    else
      var rest := NamesWithCategoryIn(dict[1..], categories);
      assert forall o :: o in rest <==>
        exists i :: 1 <= i < |dict| && dict[i].devCategory.Some? && dict[i].devCategory.value in categories &&
                    dict[i].variableName == o
      by {
        forall o | o in rest
          ensures exists i :: 1 <= i < |dict| && dict[i].devCategory.Some? &&
                              dict[i].devCategory.value in categories && dict[i].variableName == o
        {
          var j :| 0 <= j < |dict[1..]| && dict[1..][j].devCategory.Some? &&
                   dict[1..][j].devCategory.value in categories && dict[1..][j].variableName == o;
          assert dict[j + 1] == dict[1..][j];
        }
        forall o, i | 1 <= i < |dict| && dict[i].devCategory.Some? && dict[i].devCategory.value in categories &&
                      dict[i].variableName == o
          ensures o in rest
        {
          assert dict[1..][i - 1] == dict[i];
        }
      }
      (if dict[0].devCategory.Some? && dict[0].devCategory.value in categories then [dict[0].variableName] else [])
      + rest
  }

  /** No two dictionary entries carry the same (non-missing) name. */
  predicate UniqueNames(dict: Dictionary)
  {
    forall i, j :: 0 <= i < j < |dict| && dict[i].variableName.Some? ==> dict[i].variableName != dict[j].variableName
  }

  /** Every excluded entry has a name. */
  predicate ExcludedAreNamed(dict: Dictionary)
  {
    forall i :: 0 <= i < |dict| && IsExcluded(dict[i]) ==> dict[i].variableName.Some?
  }

  // ---------------------------------------------------------------------------
  // Properties of the removals

  lemma PresentCons(ns: seq<Option<string>>)
    requires |ns| > 0
    ensures Present(ns) == (if ns[0].Some? then [ns[0].value] else []) + Present(ns[1..])
  {
  }

  lemma {:induction false} PresentCount(ns: seq<Option<string>>, n: string)
    ensures multiset(Present(ns))[n] == multiset(ns)[Some(n)]
  {
    if |ns| > 0 {
      PresentCount(ns[1..], n);
      var head := if ns[0].Some? then [ns[0].value] else [];
      PresentCons(ns);
      assert multiset(Present(ns)) == multiset(head) + multiset(Present(ns[1..]));
      assert ns == [ns[0]] + ns[1..];
      assert multiset(ns) == multiset{ns[0]} + multiset(ns[1..]);
    }
  }

  lemma PresentMultiset(a: seq<Option<string>>, b: seq<Option<string>>)
    requires multiset(a) == multiset(b)
    ensures multiset(Present(a)) == multiset(Present(b))
  {
    forall n ensures multiset(Present(a))[n] == multiset(Present(b))[n] {
      PresentCount(a, n);
      PresentCount(b, n);
    }
  }

  lemma {:induction false} PresentAppend(a: seq<Option<string>>, b: seq<Option<string>>)
    ensures Present(a + b) == Present(a) + Present(b)
  {
    if |a| > 0 {
      PresentAppend(a[1..], b);
      assert (a + b)[1..] == a[1..] + b;
    } else {
      assert a + b == b;
    }
  }

  lemma MultisetTakeOne(a: multiset<string>, c: multiset<string>, n: string)
    requires n in c
    ensures a <= c - multiset{n} <==> multiset{n} + a <= c
    ensures (c - multiset{n}) - a == c - (multiset{n} + a)
  {
    assert forall x :: (c - multiset{n})[x] == if x == n then c[x] - 1 else c[x];
  }

  /**
   * The removals succeed exactly when every name is present and the list holds
   * at least as many copies of each name as are removed; the survivors are the
   * list minus the removed names, counted with multiplicity.
   */
  lemma {:induction false} RemoveEachSpec(cols: seq<string>, names: seq<Option<string>>)
    ensures RemoveEach(cols, names).Success? <==>
            None !in names && multiset(Present(names)) <= multiset(cols)
    ensures RemoveEach(cols, names).Success? ==>
            multiset(RemoveEach(cols, names).value) == multiset(cols) - multiset(Present(names))
    decreases |names|
  {
    if |names| > 0 {
      assert names == [names[0]] + names[1..];
      var rest := names[1..];
      match names[0]
      case None =>
      case Some(n) =>
        assert Present(names) == [n] + Present(rest);
        if n in cols {
          RemoveEachSpec(RemoveFirst(cols, n), rest);
          RemoveEachHit(cols, names, n);
        } else {
          assert multiset(cols)[n] == 0;
          assert multiset(Present(names))[n] >= 1;
        }
    }
  }

  /** The step of `RemoveEachSpec` where the first name is in the list. */
  lemma RemoveEachHit(cols: seq<string>, names: seq<Option<string>>, n: string)
    requires |names| > 0 && names[0] == Some(n) && n in cols
    requires Present(names) == [n] + Present(names[1..])
    requires RemoveEach(RemoveFirst(cols, n), names[1..]).Success? <==>
             None !in names[1..] && multiset(Present(names[1..])) <= multiset(RemoveFirst(cols, n))
    requires RemoveEach(RemoveFirst(cols, n), names[1..]).Success? ==>
             multiset(RemoveEach(RemoveFirst(cols, n), names[1..]).value) ==
             multiset(RemoveFirst(cols, n)) - multiset(Present(names[1..]))
    ensures RemoveEach(cols, names).Success? <==>
            None !in names && multiset(Present(names)) <= multiset(cols)
    ensures RemoveEach(cols, names).Success? ==>
            multiset(RemoveEach(cols, names).value) == multiset(cols) - multiset(Present(names))
  {
    var rest := names[1..];
    assert names == [names[0]] + rest;
    assert None !in names <==> None !in rest;
    assert multiset(Present(names)) == multiset{n} + multiset(Present(rest));
    assert RemoveEach(cols, names) == RemoveEach(RemoveFirst(cols, n), rest);
    MultisetTakeOne(multiset(Present(rest)), multiset(cols), n);
  }

  /** Removing category lists one after the other is removing their concatenation. */
  lemma {:induction false} RemoveEachAppend(cols: seq<string>, a: seq<Option<string>>, b: seq<Option<string>>)
    ensures RemoveEach(cols, a + b) ==
            (match RemoveEach(cols, a) case Success(c) => RemoveEach(c, b) case Failure(e) => Failure(e))
    decreases |a|
  {
    if |a| > 0 {
      assert (a + b)[0] == a[0];
      assert (a + b)[1..] == a[1..] + b;
      if a[0].Some? && a[0].value in cols {
        RemoveEachAppend(RemoveFirst(cols, a[0].value), a[1..], b);
      }
    } else {
      assert a + b == b;
    }
  }

  /** The names of all categories in `categories`, category by category. */
  function NamesInCategories(dict: Dictionary, categories: seq<string>): seq<Option<string>>
  {
    if |categories| == 0 then [] else CategoryNames(dict, categories[0]) + NamesInCategories(dict, categories[1..])
  }

  lemma {:induction false} DropCategoriesIsRemoveEach(cols: seq<string>, dict: Dictionary, categories: seq<string>)
    ensures DropCategories(cols, dict, categories) == RemoveEach(cols, NamesInCategories(dict, categories))
    decreases |categories|
  {
    if |categories| > 0 {
      RemoveEachAppend(cols, CategoryNames(dict, categories[0]), NamesInCategories(dict, categories[1..]));
      var first := DropColumnsByCategory(cols, dict, categories[0]);
      if first.Success? {
        DropCategoriesIsRemoveEach(first.value, dict, categories[1..]);
      }
    }
  }

  // ---------------------------------------------------------------------------
  // From category lists to the dictionary

  lemma MultisetJoinStep(hA: seq<Option<string>>, a: seq<Option<string>>, hB: seq<Option<string>>,
                         b: seq<Option<string>>, hC: seq<Option<string>>, c: seq<Option<string>>)
    requires multiset(a) + multiset(b) == multiset(c)
    requires multiset(hA) + multiset(hB) == multiset(hC)
    ensures multiset(hA + a) + multiset(hB + b) == multiset(hC + c)
  {
  }

  lemma {:induction false} CategoryNamesJoin(dict: Dictionary, category: string, others: set<string>)
    requires category !in others
    ensures multiset(CategoryNames(dict, category)) + multiset(NamesWithCategoryIn(dict, others)) ==
            multiset(NamesWithCategoryIn(dict, others + {category}))
  {
    if |dict| > 0 {
      CategoryNamesJoin(dict[1..], category, others);
      var e := dict[0];
      var inCategory := e.devCategory == Some(category);
      var inOthers := e.devCategory.Some? && e.devCategory.value in others;
      var head := [e.variableName];
      var hA: seq<Option<string>> := if inCategory then head else [];
      var hB: seq<Option<string>> := if inOthers then head else [];
      var hC: seq<Option<string>> := if inCategory || inOthers then head else [];
      assert CategoryNames(dict, category) == hA + CategoryNames(dict[1..], category);
      assert NamesWithCategoryIn(dict, others) == hB + NamesWithCategoryIn(dict[1..], others);
      assert NamesWithCategoryIn(dict, others + {category}) == hC + NamesWithCategoryIn(dict[1..], others + {category});
      assert !(inCategory && inOthers);
      assert multiset(hA) + multiset(hB) == multiset(hC);
      MultisetJoinStep(hA, CategoryNames(dict[1..], category), hB, NamesWithCategoryIn(dict[1..], others),
                       hC, NamesWithCategoryIn(dict[1..], others + {category}));
    }
  }

  lemma {:induction false} NamesWithNoCategory(dict: Dictionary)
    ensures NamesWithCategoryIn(dict, {}) == []
  {
    if |dict| > 0 {
      NamesWithNoCategory(dict[1..]);
    }
  }

  lemma {:induction false} NamesInCategoriesMultiset(dict: Dictionary, categories: seq<string>)
    requires NoDups(categories)
    ensures multiset(NamesInCategories(dict, categories)) == multiset(NamesWithCategoryIn(dict, ToSet(categories)))
    decreases |categories|
  {
    if |categories| == 0 {
      assert ToSet(categories) == {};
      NamesWithNoCategory(dict);
    } else {
      var rest := categories[1..];
      assert NoDups(rest) by {
        forall i, j | 0 <= i < j < |rest| ensures rest[i] != rest[j] {
          assert rest[i] == categories[i + 1] && rest[j] == categories[j + 1];
        }
      }
      assert categories[0] !in ToSet(rest) by {
        forall j | 0 <= j < |rest| ensures rest[j] != categories[0] {
          assert rest[j] == categories[j + 1];
        }
      }
      assert ToSet(categories) == ToSet(rest) + {categories[0]} by {
        assert categories == [categories[0]] + rest;
      }
      NamesInCategoriesMultiset(dict, rest);
      CategoryNamesJoin(dict, categories[0], ToSet(rest));
    }
  }

  lemma VariableNamesCons(dict: Dictionary)
    requires |dict| > 0
    ensures VariableNames(dict) ==
            (if dict[0].variableName.Some? then [dict[0].variableName.value] else []) + VariableNames(dict[1..])
  {
    assert NameColumn(dict) == [dict[0].variableName] + NameColumn(dict[1..]);
    assert NameColumn(dict)[1..] == NameColumn(dict[1..]);
  }

  /** An entry is excluded exactly when its category is in the excluded set. */
  lemma ExcludedInSet(e: Entry, excluded: set<string>)
    requires excluded == ToSet(ExcludedCategories)
    ensures IsExcluded(e) <==> e.devCategory.Some? && e.devCategory.value in excluded
  {
  }

  /** Every named entry is either excluded or kept, counted with multiplicity. */
  lemma {:induction false} NamesSplit(dict: Dictionary, excluded: set<string>)
    requires excluded == ToSet(ExcludedCategories)
    ensures multiset(VariableNames(dict)) ==
            multiset(Present(NamesWithCategoryIn(dict, excluded))) + multiset(KeptNames(dict))
  {
    if |dict| > 0 {
      NamesSplit(dict[1..], excluded);
      VariableNamesCons(dict);
      ExcludedInSet(dict[0], excluded);
      var head: seq<Option<string>> := if IsExcluded(dict[0]) then [dict[0].variableName] else [];
      assert NamesWithCategoryIn(dict, excluded) == head + NamesWithCategoryIn(dict[1..], excluded);
      PresentAppend(head, NamesWithCategoryIn(dict[1..], excluded));
    }
  }

  lemma ExcludedCategoriesDistinct()
    ensures NoDups(ExcludedCategories)
  {
  }

  /**
   * The excluded names the script removes are, with multiplicity, the names of
   * the entries whose category is excluded.
   */
  lemma ExcludedNamesMultiset(dict: Dictionary)
    ensures multiset(NamesInCategories(dict, ExcludedCategories)) ==
            multiset(NamesWithCategoryIn(dict, ToSet(ExcludedCategories)))
  {
    ExcludedCategoriesDistinct();
    NamesInCategoriesMultiset(dict, ExcludedCategories);
  }

  lemma ExcludedAreNamedIff(dict: Dictionary)
    ensures ExcludedAreNamed(dict) <==> None !in NamesWithCategoryIn(dict, ToSet(ExcludedCategories))
  {
    var r := NamesWithCategoryIn(dict, ToSet(ExcludedCategories));
    if !ExcludedAreNamed(dict) {
      var i :| 0 <= i < |dict| && IsExcluded(dict[i]) && dict[i].variableName.None?;
      assert dict[i].devCategory.value in ToSet(ExcludedCategories);
    }
  }

  /**
   * The four category removals succeed exactly when every entry of an excluded
   * category has a name (removing a missing name raises); the surviving list
   * is then a permutation of the named entries of the kept categories.
   */
  lemma SelectionOutcome(dict: Dictionary)
    ensures DropCategories(VariableNames(dict), dict, ExcludedCategories).Success? <==> ExcludedAreNamed(dict)
    ensures DropCategories(VariableNames(dict), dict, ExcludedCategories).Success? ==>
            multiset(DropCategories(VariableNames(dict), dict, ExcludedCategories).value) == multiset(KeptNames(dict))
  {
    var cols := VariableNames(dict);
    var names := NamesInCategories(dict, ExcludedCategories);
    var byCategory := NamesWithCategoryIn(dict, ToSet(ExcludedCategories));
    DropCategoriesIsRemoveEach(cols, dict, ExcludedCategories);
    RemoveEachSpec(cols, names);
    ExcludedNamesMultiset(dict);
    assert None in names <==> None in byCategory by {
      assert None in names <==> None in multiset(names);
      assert None in byCategory <==> None in multiset(byCategory);
    }
    PresentMultiset(names, byCategory);
    NamesSplit(dict, ToSet(ExcludedCategories));
    ExcludedAreNamedIff(dict);
  }

  lemma UniqueNamesTail(dict: Dictionary)
    requires |dict| > 0 && UniqueNames(dict)
    ensures UniqueNames(dict[1..])
    ensures forall i :: 0 <= i < |dict[1..]| ==> dict[1..][i] == dict[i + 1]
  {
    forall i, j | 0 <= i < j < |dict[1..]| && dict[1..][i].variableName.Some?
      ensures dict[1..][i].variableName != dict[1..][j].variableName
    {
      assert dict[1..][i] == dict[i + 1] && dict[1..][j] == dict[j + 1];
    }
  }

  lemma {:induction false} UniqueNamesNoDups(dict: Dictionary)
    requires UniqueNames(dict)
    ensures NoDups(VariableNames(dict))
  {
    if |dict| > 0 {
      UniqueNamesTail(dict);
      UniqueNamesNoDups(dict[1..]);
      VariableNamesCons(dict);
      var rest := VariableNames(dict[1..]);
      if dict[0].variableName.Some? {
        var n := dict[0].variableName.value;
        assert n !in rest;
        ConsNoDups(n, rest);
      }
    }
  }

  lemma ConsNoDups(x: string, s: seq<string>)
    requires x !in s && NoDups(s)
    ensures NoDups([x] + s)
  {
    var t := [x] + s;
    forall i, j | 0 <= i < j < |t| ensures t[i] != t[j] {
      assert t[j] == s[j - 1];
      if i > 0 {
        assert t[i] == s[i - 1];
      }
    }
  }

  /** One removal step: the first name is present and the rest still fit in what remains. */
  lemma RemoveEachStep(cols: seq<string>, names: seq<Option<string>>)
    requires |names| > 0 && None !in names && multiset(Present(names)) <= multiset(cols)
    ensures names[0].value in cols
    ensures None !in names[1..]
    ensures multiset(Present(names[1..])) <= multiset(RemoveFirst(cols, names[0].value))
    ensures RemoveEach(cols, names) == RemoveEach(RemoveFirst(cols, names[0].value), names[1..])
    ensures ToSet(Present(names)) == {names[0].value} + ToSet(Present(names[1..]))
  {
    assert names[0] in names;
    var n := names[0].value;
    var rest := names[1..];
    assert names == [names[0]] + rest;
    PresentCons(names);
    assert Present(names) == [n] + Present(rest);
    assert multiset(Present(names)) == multiset{n} + multiset(Present(rest));
    assert multiset(cols)[n] >= 1;
    MultisetTakeOne(multiset(Present(rest)), multiset(cols), n);
    ToSetCons(n, Present(rest));
  }

  lemma ToSetCons(n: string, s: seq<string>)
    ensures ToSet([n] + s) == {n} + ToSet(s)
  {
  }

  /** With distinct names, each removal deletes the one occurrence of its name. */
  lemma {:induction false} RemoveEachDistinct(cols: seq<string>, names: seq<Option<string>>)
    requires NoDups(cols)
    requires None !in names && multiset(Present(names)) <= multiset(cols)
    ensures RemoveEach(cols, names) == Success(Without(cols, ToSet(Present(names))))
    decreases |names|
  {
    if |names| == 0 {
      WithoutEmpty(cols);
      assert ToSet(Present(names)) == {};
    } else {
      RemoveEachStep(cols, names);
      var n := names[0].value;
      RemoveFirstNoDups(cols, n);
      WithoutKeepsNoDups(cols, {n});
      RemoveEachDistinct(RemoveFirst(cols, n), names[1..]);
      WithoutWithout(cols, {n}, ToSet(Present(names[1..])));
    }
  }

  /** Without duplicates, dropping the excluded names leaves exactly the kept names, in order. */
  lemma {:induction false} WithoutExcludedIsKept(dict: Dictionary, excluded: set<string>)
    requires UniqueNames(dict)
    requires forall i :: 0 <= i < |dict| && dict[i].variableName.Some? ==>
               (dict[i].variableName.value in excluded <==> IsExcluded(dict[i]))
    ensures Without(VariableNames(dict), excluded) == KeptNames(dict)
  {
    if |dict| > 0 {
      VariableNamesCons(dict);
      UniqueNamesTail(dict);
      WithoutExcludedIsKept(dict[1..], excluded);
      var rest := VariableNames(dict[1..]);
      var kept := KeptNames(dict[1..]);
      if dict[0].variableName.Some? {
        var n := dict[0].variableName.value;
        assert VariableNames(dict) == [n] + rest;
        assert ([n] + rest)[0] == n && ([n] + rest)[1..] == rest;
        assert n in excluded <==> IsExcluded(dict[0]);
        if IsExcluded(dict[0]) {
          assert KeptNames(dict) == kept;
        } else {
          assert KeptNames(dict) == [n] + kept;
        }
      } else {
        assert VariableNames(dict) == rest;
        assert KeptNames(dict) == kept;
      }
    }
  }

  /**
   * When the dictionary names are distinct and every excluded entry is named,
   * the removals leave exactly the kept names, in dictionary order.
   */
  lemma SelectionExact(dict: Dictionary)
    requires UniqueNames(dict) && ExcludedAreNamed(dict)
    ensures DropCategories(VariableNames(dict), dict, ExcludedCategories) == Success(KeptNames(dict))
  {
    var cols := VariableNames(dict);
    var names := NamesInCategories(dict, ExcludedCategories);
    var byCategory := NamesWithCategoryIn(dict, ToSet(ExcludedCategories));
    DropCategoriesIsRemoveEach(cols, dict, ExcludedCategories);
    SelectionOutcome(dict);
    RemoveEachSpec(cols, names);
    UniqueNamesNoDups(dict);
    RemoveEachDistinct(cols, names);
    ExcludedNamesMultiset(dict);
    var excluded := ToSet(Present(names));
    forall i | 0 <= i < |dict| && dict[i].variableName.Some?
      ensures dict[i].variableName.value in excluded <==> IsExcluded(dict[i])
    {
      var n := dict[i].variableName.value;
      assert Some(n) in names <==> Some(n) in byCategory by {
        assert Some(n) in names <==> Some(n) in multiset(names);
        assert Some(n) in byCategory <==> Some(n) in multiset(byCategory);
      }
      if Some(n) in byCategory {
        var j :| 0 <= j < |dict| && dict[j].devCategory.Some? &&
                 dict[j].devCategory.value in ToSet(ExcludedCategories) && dict[j].variableName == Some(n);
        assert j == i;
      }
    }
    WithoutExcludedIsKept(dict, excluded);
  }

  /**
   * The script goes on only when every excluded entry is named and exactly
   * `ExpectedColumnCount` names are kept; otherwise it aborts with the
   * matching error.
   */
  lemma SelectColumnsOutcome(dict: Dictionary)
    ensures SelectColumns(dict).Success? <==> ExcludedAreNamed(dict) && |KeptNames(dict)| == ExpectedColumnCount
    ensures ExcludedAreNamed(dict) && |KeptNames(dict)| != ExpectedColumnCount ==>
            SelectColumns(dict) == Failure(ColumnCountMismatch(ExpectedColumnCount, |KeptNames(dict)|))
    ensures SelectColumns(dict).Success? ==> multiset(SelectColumns(dict).value) == multiset(KeptNames(dict))
    ensures SelectColumns(dict).Success? && UniqueNames(dict) ==> SelectColumns(dict).value == KeptNames(dict)
  {
    SelectionOutcome(dict);
    var r := DropCategories(VariableNames(dict), dict, ExcludedCategories);
    if r.Success? {
      assert |r.value| == |multiset(r.value)| == |multiset(KeptNames(dict))| == |KeptNames(dict)|;
      if UniqueNames(dict) {
        SelectionExact(dict);
      }
    }
  }
}
