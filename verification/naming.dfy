/**
 * String rewriting: Python's `str.replace`, the output-name transform, and the
 * normalisation of the dictionary sheet's header names.
 */
module Naming {

  /** `pattern` occurs in `s` starting at index `i`. */
  predicate OccursAt(s: string, pattern: string, i: nat)
  {
    i + |pattern| <= |s| && s[i..i + |pattern|] == pattern
  }

  /**
   * Python's `s.replace(pattern, replacement)`: scanning left to right, each
   * occurrence is replaced and the scan resumes after it, so occurrences never
   * overlap; an empty pattern inserts the replacement around every character.
   */
  function ReplaceAll(s: string, pattern: string, replacement: string): string
    decreases |s|
  {
    if |pattern| == 0 then
      if |s| == 0 then replacement else replacement + [s[0]] + ReplaceAll(s[1..], pattern, replacement)
    else if |s| == 0 then []
    else if OccursAt(s, pattern, 0) then replacement + ReplaceAll(s[|pattern|..], pattern, replacement)
    else [s[0]] + ReplaceAll(s[1..], pattern, replacement)
  }

  lemma OccursAtTail(s: string, pattern: string, i: nat)
    requires |s| > 0
    ensures OccursAt(s[1..], pattern, i) <==> OccursAt(s, pattern, i + 1)
  {
    if i + 1 + |pattern| <= |s| {
      assert s[1..][i..i + |pattern|] == s[i + 1..i + 1 + |pattern|];
    }
  }

  /** Without an occurrence of the pattern the string is unchanged. */
  lemma {:induction false} ReplaceAbsent(s: string, pattern: string, replacement: string)
    requires |pattern| > 0
    requires forall i: nat :: !OccursAt(s, pattern, i)
    ensures ReplaceAll(s, pattern, replacement) == s
    decreases |s|
  {
    if |s| > 0 {
      assert !OccursAt(s, pattern, 0);
      forall i: nat ensures !OccursAt(s[1..], pattern, i) {
        OccursAtTail(s, pattern, i);
      }
      ReplaceAbsent(s[1..], pattern, replacement);
      assert s == [s[0]] + s[1..];
    }
  }

  lemma ReplaceSkip(s: string, pattern: string, replacement: string)
    requires |pattern| > 0 && |s| > 0 && !OccursAt(s, pattern, 0)
    ensures ReplaceAll(s, pattern, replacement) == [s[0]] + ReplaceAll(s[1..], pattern, replacement)
  {
  }

  lemma ReplaceHit(s: string, pattern: string, replacement: string)
    requires |pattern| > 0 && OccursAt(s, pattern, 0)
    ensures ReplaceAll(s, pattern, replacement) == replacement + ReplaceAll(s[|pattern|..], pattern, replacement)
  {
  }

  lemma ShiftOccurrences(s: string, pattern: string, i: nat)
    requires 0 < i && OccursAt(s, pattern, i)
    requires forall j: nat :: j < i ==> !OccursAt(s, pattern, j)
    ensures OccursAt(s[1..], pattern, i - 1)
    ensures forall j: nat :: j < i - 1 ==> !OccursAt(s[1..], pattern, j)
  {
    OccursAtTail(s, pattern, i - 1);
    forall j: nat | j < i - 1 ensures !OccursAt(s[1..], pattern, j) {
      OccursAtTail(s, pattern, j);
    }
  }

  lemma PrefixShift(s: string, i: nat, replacement: string, whole: string, tail: string, rest: string)
    requires 0 < i <= |s|
    requires whole == [s[0]] + tail
    requires tail == s[1..][..i - 1] + replacement + rest
    ensures whole == s[..i] + replacement + rest
  {
    assert s[..i] == [s[0]] + s[1..][..i - 1];
  }

  /** An occurrence at the very start is replaced with nothing copied before it. */
  lemma LeftmostFirst(s: string, pattern: string, replacement: string)
    requires |pattern| > 0 && OccursAt(s, pattern, 0)
    ensures ReplaceAll(s, pattern, replacement) ==
            s[..0] + replacement + ReplaceAll(s[0 + |pattern|..], pattern, replacement)
  {
    ReplaceHit(s, pattern, replacement);
    assert s[..0] + replacement == replacement;
  }

  /** One step of the scan past a position that does not start an occurrence. */
  lemma LeftmostStep(s: string, pattern: string, replacement: string, i: nat, rest: string)
    requires |pattern| > 0 && 0 < i && OccursAt(s, pattern, i) && !OccursAt(s, pattern, 0)
    requires rest == ReplaceAll(s[i + |pattern|..], pattern, replacement)
    requires ReplaceAll(s[1..], pattern, replacement) ==
             s[1..][..i - 1] + replacement + ReplaceAll(s[1..][i - 1 + |pattern|..], pattern, replacement)
    ensures ReplaceAll(s, pattern, replacement) == s[..i] + replacement + rest
  {
    assert s[1..][i - 1 + |pattern|..] == s[i + |pattern|..];
    var tail := ReplaceAll(s[1..], pattern, replacement);
    assert tail == s[1..][..i - 1] + replacement + rest;
    ReplaceSkip(s, pattern, replacement);
    PrefixShift(s, i, replacement, ReplaceAll(s, pattern, replacement), tail, rest);
  }

  /**
   * The leftmost occurrence is replaced and the scan resumes after it: the
   * prefix before it is copied unchanged.
   */
  lemma {:induction false} ReplaceLeftmost(s: string, pattern: string, replacement: string, i: nat)
    requires |pattern| > 0
    requires OccursAt(s, pattern, i)
    requires forall j: nat :: j < i ==> !OccursAt(s, pattern, j)
    ensures ReplaceAll(s, pattern, replacement) ==
            s[..i] + replacement + ReplaceAll(s[i + |pattern|..], pattern, replacement)
    decreases i, 1
  {
    if i == 0 {
      LeftmostFirst(s, pattern, replacement);
    } else {
      LeftmostLater(s, pattern, replacement, i);
    }
  }

  /** The inductive step of `ReplaceLeftmost`: the first character is copied. */
  lemma {:induction false} LeftmostLater(s: string, pattern: string, replacement: string, i: nat)
    requires |pattern| > 0 && 0 < i
    requires OccursAt(s, pattern, i)
    requires forall j: nat :: j < i ==> !OccursAt(s, pattern, j)
    ensures ReplaceAll(s, pattern, replacement) ==
            s[..i] + replacement + ReplaceAll(s[i + |pattern|..], pattern, replacement)
    decreases i, 0
  {
    assert !OccursAt(s, pattern, 0);
    ShiftOccurrences(s, pattern, i);
    ReplaceLeftmost(s[1..], pattern, replacement, i - 1);
    LeftmostStep(s, pattern, replacement, i, ReplaceAll(s[i + |pattern|..], pattern, replacement));
  }

  /** A character absent from the string and the replacement is absent from the result. */
  lemma {:induction false} ReplaceKeepsAbsent(s: string, pattern: string, replacement: string, x: char)
    requires x !in s && x !in replacement
    ensures x !in ReplaceAll(s, pattern, replacement)
    decreases |s|
  {
    if |pattern| == 0 {
      if |s| > 0 {
        ReplaceKeepsAbsent(s[1..], pattern, replacement, x);
      }
    } else if |s| > 0 {
      if OccursAt(s, pattern, 0) {
        ReplaceKeepsAbsent(s[|pattern|..], pattern, replacement, x);
      } else {
        ReplaceKeepsAbsent(s[1..], pattern, replacement, x);
      }
    }
  }

  /** Replacing a one-character pattern by text without that character removes it everywhere. */
  lemma {:induction false} ReplaceCharRemoves(s: string, x: char, replacement: string)
    requires x !in replacement
    ensures x !in ReplaceAll(s, [x], replacement)
    decreases |s|
  {
    if |s| > 0 {
      ReplaceCharRemoves(s[1..], x, replacement);
    }
  }

  /** The name of the cached output file of source file `f`. */
  function OutputName(f: string): string
  {
    ReplaceAll(ReplaceAll(f, ".csv", ".pck"), "PP", "subset")
  }

  /** No occurrence can start before the first position holding the pattern's first character. */
  lemma NoOccurrenceBefore(s: string, pattern: string, i: nat)
    requires |pattern| > 0 && i <= |s|
    requires forall j :: 0 <= j < i ==> s[j] != pattern[0]
    ensures forall j: nat :: j < i ==> !OccursAt(s, pattern, j)
  {
    forall j: nat | j < i ensures !OccursAt(s, pattern, j) {
      if j + |pattern| <= |s| {
        assert s[j..j + |pattern|][0] == s[j];
      }
    }
  }

  /** A string without the pattern's first character holds no occurrence of it. */
  lemma NoOccurrence(s: string, pattern: string)
    requires |pattern| > 0 && pattern[0] !in s
    ensures forall j: nat :: !OccursAt(s, pattern, j)
  {
    NoOccurrenceBefore(s, pattern, |s|);
  }

  /**
   * A single occurrence whose first character appears nowhere before it is
   * the only one replaced.
   */
  lemma ReplaceOnce(before: string, pattern: string, after: string, replacement: string)
    requires |pattern| > 0 && pattern[0] !in before
    requires forall j: nat :: !OccursAt(after, pattern, j)
    ensures ReplaceAll(before + pattern + after, pattern, replacement) == before + replacement + after
  {
    var s := before + pattern + after;
    NoOccurrenceBefore(s, pattern, |before|);
    assert s[|before|..|before| + |pattern|] == pattern;
    ReplaceLeftmost(s, pattern, replacement, |before|);
    assert s[..|before|] == before;
    assert s[|before| + |pattern|..] == after;
    ReplaceAbsent(after, pattern, replacement);
  }

  lemma CsvToPck(named: string)
    requires '.' !in named
    ensures ReplaceAll(named + ".csv", ".csv", ".pck") == named + ".pck"
  {
    NoOccurrence([], ".csv");
    ReplaceOnce(named, ".csv", [], ".pck");
    assert named + ".csv" + [] == named + ".csv";
    assert named + ".pck" + [] == named + ".pck";
  }

  lemma PPToSubset(stem: string)
    requires 'P' !in stem
    ensures ReplaceAll(stem + "PP.pck", "PP", "subset") == stem + "subset.pck"
  {
    NoOccurrence(".pck", "PP");
    ReplaceOnce(stem, "PP", ".pck", "subset");
    assert stem + "PP" + ".pck" == stem + "PP.pck";
    assert stem + "subset" + ".pck" == stem + "subset.pck";
  }

  /**
   * A yearly extract named `<stem>PP.csv` is cached as `<stem>subset.pck`,
   * provided the stem holds no `.` and no `P` that could start another match.
   */
  lemma OutputNameOfExtract(stem: string)
    requires '.' !in stem && 'P' !in stem
    ensures OutputName(stem + "PP.csv") == stem + "subset.pck"
  {
    var named := stem + "PP";
    assert '.' !in named;
    assert named + ".csv" == stem + "PP.csv";
    CsvToPck(named);
    assert named + ".pck" == stem + "PP.pck";
    PPToSubset(stem);
  }

  /**
   * The configured source file maps to its cache file. The stem is passed as a
   * parameter because a literal argument makes the verifier unfold `ReplaceAll`
   * character by character.
   */
  lemma OutputNameExample(stem: string)
    requires stem == "MERGED2016_17_"
    ensures OutputName(stem + "PP.csv") == "MERGED2016_17_subset.pck"
  {
    OutputNameOfExtract(stem);
  }

  // ---------------------------------------------------------------------------
  // Header normalisation of the dictionary sheet

  predicate IsUpper(ch: char)
  {
    'A' <= ch <= 'Z'
  }

  /** `str.lower` on ASCII letters. */
  function Lower(s: string): (r: string)
    ensures |r| == |s|
    ensures forall k :: 0 <= k < |s| ==> r[k] == if IsUpper(s[k]) then (s[k] - 'A' + 'a') as char else s[k]
  {
    seq(|s|, k requires 0 <= k < |s| => if IsUpper(s[k]) then (s[k] - 'A' + 'a') as char else s[k])
  }

  /** A header name with spaces and dashes turned into underscores, then lower-cased. */
  function NormalizeHeader(h: string): string
  {
    Lower(ReplaceAll(ReplaceAll(h, " ", "_"), "-", "_"))
  }

  /** A normalised name holds no space, no dash and no upper-case letter. */
  lemma NormalizedIsClean(h: string)
    ensures ' ' !in NormalizeHeader(h) && '-' !in NormalizeHeader(h)
    ensures forall k :: 0 <= k < |NormalizeHeader(h)| ==> !IsUpper(NormalizeHeader(h)[k])
  {
    var a := ReplaceAll(h, " ", "_");
    ReplaceCharRemoves(h, ' ', "_");
    var b := ReplaceAll(a, "-", "_");
    ReplaceCharRemoves(a, '-', "_");
    ReplaceKeepsAbsent(a, "-", "_", ' ');
    var n := Lower(b);
    forall k | 0 <= k < |n| ensures n[k] != ' ' && n[k] != '-' {
      assert b[k] in b;
    }
  }

  /** Normalising a normalised name changes nothing. */
  lemma NormalizeIdempotent(h: string)
    ensures NormalizeHeader(NormalizeHeader(h)) == NormalizeHeader(h)
  {
    var n := NormalizeHeader(h);
    NormalizedIsClean(h);
    forall i: nat ensures !OccursAt(n, " ", i) {
      if i + 1 <= |n| {
        assert n[i..i + 1] == [n[i]];
        assert n[i] in n;
      }
    }
    ReplaceAbsent(n, " ", "_");
    forall i: nat ensures !OccursAt(n, "-", i) {
      if i + 1 <= |n| {
        assert n[i..i + 1] == [n[i]];
        assert n[i] in n;
      }
    }
    ReplaceAbsent(n, "-", "_");
    assert Lower(n) == n;
  }
}
