/**
 * The table reader: only the selected columns are read, the suppression
 * sentinel becomes a missing value, and hinted columns stay text.
 */
module Loader {
  import opened Wrappers
  import opened Seqs
  import opened Frames
  import opened TypeHints

  /** The token the source data uses for suppressed values. */
  const MissingMarker: string := "PrivacySuppressed"

  /**
   * A tokenised cell: `Blank` for a field the parser already reads as NA (an
   * empty field or one of its default NA tokens), `Text` otherwise.
   */
  datatype Field = Blank | Text(text: string)

  /** The source file after tokenising: its header and one record per data line. */
  datatype RawTable = RawTable(header: seq<string>, records: seq<map<string, Field>>)

  /** A short record reads as blank in its missing fields. */
  function RawField(record: map<string, Field>, c: string): Field
  {
    if c in record then record[c] else Blank
  }

  /** The inferred type never invents text that was not in the field. */
  ghost predicate KeepsText(infer: string -> Value)
  {
    forall s :: infer(s).Str? ==> infer(s).s == s
  }

  /**
   * One cell: a blank field or the sentinel is missing; otherwise a text-hinted
   * column keeps the text verbatim and any other column gets the inferred value.
   */
  function ParseField(f: Field, hint: TypeHint, infer: string -> Value): (v: Value)
    ensures f.Blank? || f.text == MissingMarker ==> v == Missing
    ensures f.Text? && f.text != MissingMarker && hint == AsString ==> v == Str(f.text)
    ensures f.Text? && f.text != MissingMarker && hint == Inferred ==> v == infer(f.text)
    ensures hint == AsString ==> !v.Num?
  {
    match f
    case Blank => Missing
    case Text(s) =>
      if s == MissingMarker then Missing
      else if hint == AsString then Str(s)
      else infer(s)
  }

  /** The requested columns the file does not have. */
  function Absent(raw: RawTable, selected: seq<string>): (r: set<string>)
    ensures forall c :: c in r <==> c in selected && c !in raw.header
  {
    set c | c in selected && c !in raw.header
  }

  /**
   * `read_csv(usecols=selected, na_values=MissingMarker, dtype=hints)`: fails
   * when a requested column is absent; otherwise keeps the requested columns in
   * file order and parses every cell.
   */
  function LoadTable(raw: RawTable, selected: seq<string>, hints: map<string, TypeHint>,
                     infer: string -> Value): (r: Result<Table, Error>)
    ensures r.Success? <==> forall c :: c in selected ==> c in raw.header
    ensures r.Failure? ==> r.error == UsecolsMismatch(Absent(raw, selected))
    ensures r.Success? ==> ToSet(r.value.columns) == ToSet(selected)
    ensures r.Success? ==> forall c :: c in r.value.columns ==> c in selected && c in raw.header
    ensures r.Success? ==> |r.value.rows| == |raw.records| && WellFormed(r.value)
    ensures r.Success? ==> forall i, c :: 0 <= i < |raw.records| && c in r.value.columns ==>
              r.value.rows[i][c] == ParseField(RawField(raw.records[i], c), HintFor(hints, c), infer)
  {
    if Absent(raw, selected) != {} then Failure(UsecolsMismatch(Absent(raw, selected)))
    else
      var cols := Within(raw.header, ToSet(selected));
      var keys := ToSet(cols);
      Success(Table(cols, seq(|raw.records|, i requires 0 <= i < |raw.records| =>
        map c | c in keys :: ParseField(RawField(raw.records[i], c), HintFor(hints, c), infer))))
  }

  /** A suppressed cell is loaded as missing, never as the literal sentinel. */
  lemma SentinelIsMissing(raw: RawTable, selected: seq<string>, hints: map<string, TypeHint>,
                          infer: string -> Value)
    requires KeepsText(infer)
    requires LoadTable(raw, selected, hints, infer).Success?
    ensures forall i, c ::
              (0 <= i < |raw.records| && c in LoadTable(raw, selected, hints, infer).value.columns &&
               RawField(raw.records[i], c) == Text(MissingMarker)) ==>
              LoadTable(raw, selected, hints, infer).value.rows[i][c] == Missing
    ensures forall i, c :: 0 <= i < |raw.records| && c in LoadTable(raw, selected, hints, infer).value.columns ==>
              LoadTable(raw, selected, hints, infer).value.rows[i][c] != Str(MissingMarker)
  {
    var t := LoadTable(raw, selected, hints, infer).value;
    forall i, c | 0 <= i < |raw.records| && c in t.columns
      ensures t.rows[i][c] != Str(MissingMarker)
    {
      var f := RawField(raw.records[i], c);
      if f.Text? && f.text != MissingMarker && HintFor(hints, c) == Inferred {
        assert t.rows[i][c] == infer(f.text);
      }
    }
  }
}
