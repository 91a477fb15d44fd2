/**
 * The parse-time type hints: every selected column the dictionary declares as
 * a string (or autocomplete) field is read as text, never as a number.
 */
module TypeHints {
  import opened Wrappers
  import opened Selection

  /** `np.object` (read the column as text) or pandas' default inference. */
  datatype TypeHint = AsString | Inferred

  predicate DeclaredString(e: Entry)
  {
    e.apiDataType == Some("string") || e.apiDataType == Some("autocomplete")
  }

  /** Some dictionary entry named `c` declares a string-like API type. */
  predicate IsStringColumn(dict: Dictionary, c: string)
  {
    exists i :: 0 <= i < |dict| && dict[i].variableName == Some(c) && DeclaredString(dict[i])
  }

  /** `these_are_strings`: the selected, string-declared names, in dictionary order. */
  function StringColumns(dict: Dictionary, selected: seq<string>): (r: seq<string>)
    ensures forall c :: c in r <==> c in selected && IsStringColumn(dict, c)
  {
    if |dict| == 0 then []
    else
      var rest := StringColumns(dict[1..], selected);
      assert forall c :: IsStringColumn(dict[1..], c) ==> IsStringColumn(dict, c) by {
        forall c | IsStringColumn(dict[1..], c) ensures IsStringColumn(dict, c) {
          var j :| 0 <= j < |dict[1..]| && dict[1..][j].variableName == Some(c) && DeclaredString(dict[1..][j]);
          assert dict[j + 1] == dict[1..][j];
        }
      }
      assert forall c :: IsStringColumn(dict, c) && dict[0].variableName != Some(c) ==> IsStringColumn(dict[1..], c) by {
        forall c | IsStringColumn(dict, c) && dict[0].variableName != Some(c) ensures IsStringColumn(dict[1..], c) {
          var j :| 0 <= j < |dict| && dict[j].variableName == Some(c) && DeclaredString(dict[j]);
          assert dict[1..][j - 1] == dict[j];
        }
      }
      var e := dict[0];
      (if e.variableName.Some? && e.variableName.value in selected && DeclaredString(e)
       then [e.variableName.value] else []) + rest
  }

  /** `type_conversion`: each string-declared selected column mapped to the text hint. */
  function TypeConversion(dict: Dictionary, selected: seq<string>): (m: map<string, TypeHint>)
    ensures forall c :: c in m <==> c in selected && IsStringColumn(dict, c)
    ensures forall c :: c in m ==> m[c] == AsString
  {
    map c | c in StringColumns(dict, selected) :: AsString
  }

  /** The hint the reader applies to column `c`; unlisted columns use default inference. */
  function HintFor(hints: map<string, TypeHint>, c: string): TypeHint
  {
    if c in hints then hints[c] else Inferred
  }
}
