# College Scorecard load-and-filter step, modelled in Dafny

The script reads the College Scorecard data dictionary and one or more yearly
Scorecard CSV extracts. It keeps only the columns and institutions needed for a
student-loan model and caches the result. The Dafny project models that chain as
pure functions over an abstract table, in which a table is a column list plus a
sequence of rows, each row mapping a column name to a `Value`: a number, a
string, or `Missing`. The stages are:

- **Column selection** (`Selection`). Start from the dictionary's non-missing
  variable names, in dictionary order. Remove every name listed under the
  `repayment`, `academics`, `completion` and `earnings` categories, one
  `list.remove` at a time. Removing a name that is no longer in the list, or a
  missing name, is an error. Exactly 290 names must remain.
- **Type hints** (`TypeHints`). Every selected column whose declared API type is
  `string` or `autocomplete` is read as text.
- **Loading** (`Loader`). Only the selected columns are kept, in file order, and
  the run fails if the file lacks one of them. A `PrivacySuppressed` cell
  becomes `Missing`, and a text-hinted column keeps its text verbatim.
- **Population filter** (`Population`). `read_scorecard` applies four queries:
  `5 <= CCUGPROF <= 15`, `CONTROL != 3`, `CURROPER != 0` and
  `DISTANCEONLY == 0`. It also drops `PREDDEG`, `CURROPER` and `DISTANCEONLY`.
  Missing cells follow pandas' NaN rules: `==`, `<=` and `>=` are false and
  `!=` is true. An ordering comparison against a string cell raises an error.
- **Sparsity pruning** (`Sparsity`). A column whose non-missing count is below
  400 in any file of the batch is dropped from every file.
- **Output names** (`Naming`). Each file's output name comes from Python's
  `str.replace`: `.csv` becomes `.pck` and `PP` becomes `subset`. The header
  normalisation of the dictionary sheet is modelled here too.
- **Batch** (`Pipeline`). These stages run in the script's order, and the
  output files have a uniform schema.

Every exception the modelled steps can raise becomes a `Failure` value of the
`Error` datatype in `Frames`. Examples are `list.remove` of an absent name, the
column-count assertion, a `usecols` mismatch, an undefined query name, a string
compared with a number, and `drop` of an absent label.

Some behaviour worth stating plainly:
- A category that matches no column is a silent no-op.
- Removal follows `list.remove`: the first occurrence goes, and a name already
  gone raises.
- A column count other than 290 aborts the run.
- The population predicates are the script's four fixed queries.

## Model

| member | source | states |
|---|---|---|
| Selection.VariableNames | src/scorecard_load_filter.py:27 | the starting list holds exactly the names some dictionary entry carries; missing names are skipped |
| Selection.CategoryNames | src/scorecard_load_filter.py:38 | the names removed for a category are exactly the name cells, including missing ones, of the entries in that category |
| Selection.RemoveEachSpec | src/scorecard_load_filter.py:37-40 | successive `list.remove` calls succeed iff no name is missing and the list holds enough copies of each name; the survivors are the list minus the removed names, counted with multiplicity |
| Selection.DropCategoriesIsRemoveEach | src/scorecard_load_filter.py:42-45 | the four per-category drops equal one removal of all their names in category order, and the first failure aborts |
| Selection.SelectionOutcome | src/scorecard_load_filter.py:27-45 | the selection succeeds iff every entry of an excluded category has a name; the result is then a permutation of the named entries of kept categories |
| Selection.SelectionExact | src/scorecard_load_filter.py:27-45 | with distinct dictionary names, the selection is exactly the kept entries' names in dictionary order; no other name is removed |
| Selection.SelectColumnsOutcome | src/scorecard_load_filter.py:27-47 | the run proceeds iff every excluded entry is named and exactly 290 names are kept; otherwise it fails with the count mismatch |
| Seqs.RemoveFirst | src/scorecard_load_filter.py:40 | `list.remove` shortens the list by one and removes exactly one copy of the name |
| Seqs.RemoveFirstIsFirst | src/scorecard_load_filter.py:40 | the copy `list.remove` deletes is the first one, and every other element keeps its order |
| TypeHints.StringColumns | src/scorecard_load_filter.py:53-55 | the text columns are exactly the selected names that some dictionary entry declares `string` or `autocomplete` |
| TypeHints.TypeConversion | src/scorecard_load_filter.py:53-59 | the hint map's keys are exactly the selected string-declared columns, and every value is the text hint |
| Loader.ParseField | src/scorecard_load_filter.py:63-66 | a blank or sentinel cell is missing; a text-hinted cell keeps its text and is never numeric; any other cell takes the inferred value |
| Loader.LoadTable | src/scorecard_load_filter.py:63-67 | loading fails iff a selected column is absent from the file; otherwise it yields exactly the selected columns, one row per record, and every row holds exactly those columns |
| Loader.SentinelIsMissing | src/scorecard_load_filter.py:64 | a `PrivacySuppressed` cell is loaded as missing and never survives as the literal string |
| Population.Query | src/scorecard_load_filter.py:82 | a query fails on an absent column or on a string cell in an ordering test; otherwise it keeps the columns and exactly the rows where the predicate holds |
| Population.QueryAndDrop | src/scorecard_load_filter.py:82-83 | a query followed by a one-column drop succeeds iff both columns exist and every row is comparable; it keeps the rows where the query holds, each without the dropped cell |
| Frames.DropColumns | src/scorecard_load_filter.py:83 | dropping succeeds iff every label is a column; the labels disappear from the column list and every row, and all other cells stay unchanged |
| Population.KeepRowsProject | src/scorecard_load_filter.py:83-90 | dropping a column the next query does not read commutes with that query |
| Population.QueriesAreSurvivors | src/scorecard_load_filter.py:82-99 | the four queries in sequence keep exactly the rows that satisfy the population definition, in order |
| Population.ReadScorecardOutcome | src/scorecard_load_filter.py:82-100 | `read_scorecard` succeeds iff the five columns it uses exist and no CCUGPROF cell is text; an all-rejected input yields an empty table, not an error |
| Population.ReadScorecardResult | src/scorecard_load_filter.py:82-101 | the output columns are the input's minus exactly PREDDEG, CURROPER and DISTANCEONLY; the rows are the surviving rows in order with those cells removed and the rest unchanged |
| Population.SurvivingRows | src/scorecard_load_filter.py:82-100 | the interleaved queries and drops yield the surviving rows with exactly the three filter cells removed |
| Population.MissingCells | src/scorecard_load_filter.py:82-99 | missing CCUGPROF or DISTANCEONLY rejects a row; missing CONTROL and CURROPER let it through |
| Sparsity.CountNonMissing | src/scorecard_load_filter.py:117 | the row scan computes the column's non-missing count, which is at most the number of rows |
| Sparsity.SparseSet | src/scorecard_load_filter.py:115-119 | the sparse set holds exactly the columns with a non-missing count strictly below 400 in at least one file |
| Sparsity.CollectSparseSet | src/scorecard_load_filter.py:115-119 | the file-by-file, column-by-column loop builds exactly that union |
| Sparsity.PruneAll | src/scorecard_load_filter.py:123-124 | pruning succeeds iff every file has every sparse column; each file loses exactly the sparse columns and keeps every other cell |
| Sparsity.DenseColumnNotSparse | src/scorecard_load_filter.py:118 | a column with count at least 400 (exactly 400 included) in every file that has it is not sparse |
| Sparsity.PrunedColumns | src/scorecard_load_filter.py:115-124 | after pruning, a file keeps exactly those of its columns that are sparse in no file of the batch |
| Sparsity.UniformSchema | src/scorecard_load_filter.py:115-124 | files that enter with equal column sets are pruned without error and leave with equal column sets |
| Naming.ReplaceAbsent | src/scorecard_load_filter.py:125 | `str.replace` leaves a string without an occurrence of the pattern unchanged |
| Naming.ReplaceLeftmost | src/scorecard_load_filter.py:125 | `str.replace` copies the text before the leftmost occurrence, replaces it, and resumes after it, so occurrences never overlap |
| Naming.ReplaceOnce | src/scorecard_load_filter.py:125 | a string with a single occurrence, whose first character appears nowhere before it, has just that occurrence replaced |
| Naming.OutputNameOfExtract | src/scorecard_load_filter.py:125 | any extract named `<stem>PP.csv`, whose stem has no `.` or `P`, is cached as `<stem>subset.pck` |
| Naming.OutputNameExample | src/scorecard_load_filter.py:13 | `MERGED2016_17_PP.csv` is cached as `MERGED2016_17_subset.pck` |
| Naming.NormalizedIsClean | src/scorecard_load_filter.py:22 | a normalised header has no space, no dash and no upper-case letter |
| Naming.NormalizeIdempotent | src/scorecard_load_filter.py:22 | normalising a normalised header changes nothing |
| Pipeline.ReadAll | src/scorecard_load_filter.py:108-110 | reading the batch succeeds iff every file reads, and the i-th table is the i-th file's result |
| Pipeline.ReadFileShape | src/scorecard_load_filter.py:62-101 | a successfully read file has the selected columns minus the three filter columns, and every row holds exactly its table's columns |
| Pipeline.BatchOutcome | src/scorecard_load_filter.py:108-126 | once selection and every read succeed, pruning cannot fail; every output has the same column set and is named after its source file |

## Left out

- Reading the Excel dictionary and the CSV files. The dictionary is a sequence of `Entry` values, and each CSV is a `RawTable` of tokenised fields. `Blank` stands for every field pandas' default NA list already reads as missing.
- Numeric type inference. `LoadTable` takes the parser's inference as a function parameter `infer`, applied cell by cell. pandas infers one type per column, and that machinery is library code.
- Floating point. Numbers are integers: the filters compare only integer codes.
- `np.object` itself. It is the abstract hint `AsString`.
- Header normalisation lower-cases ASCII letters only. pandas' `str.lower` is Unicode-aware.
- pandas' renaming of duplicate header names (`X.1`). With duplicate names in a header, the model keeps both occurrences under one key.
- Duplicate entries in the file list. The script keys its tables by file name in a dict; the model keeps a sequence.
- Pickle persistence and all path handling, including the `FILEDIR` prefix. These are I/O.
- Exceptions outside the modelled steps: a missing file or a parser error from `read_excel`/`read_csv`, a pickle write error, and the `AttributeError` `np.object` raises on recent NumPy. These come from I/O or library code.
- `ReplaceAll` with an empty pattern follows Python's insert-between-characters rule, but no lemma covers that case. The script only replaces non-empty constants.
