/** Order-preserving filters over lists of column names. */
module Seqs {

  function ToSet(s: seq<string>): set<string>
  {
    set x | x in s
  }

  /** No element occurs twice. */
  predicate NoDups(s: seq<string>)
  {
    forall i, j :: 0 <= i < j < |s| ==> s[i] != s[j]
  }

  /** `s` with every occurrence of an element of `drop` removed, order kept. */
  function Without(s: seq<string>, drop: set<string>): (r: seq<string>)
    ensures forall x :: x in r <==> x in s && x !in drop
    ensures |r| <= |s|
  {
    if |s| == 0 then []
    else if s[0] in drop then Without(s[1..], drop)
    else [s[0]] + Without(s[1..], drop)
  }

  /** `s` restricted to the elements of `keep`, order kept. */
  function Within(s: seq<string>, keep: set<string>): (r: seq<string>)
    ensures forall x :: x in r <==> x in s && x in keep
    ensures |r| <= |s|
  {
    if |s| == 0 then []
    else if s[0] in keep then [s[0]] + Within(s[1..], keep)
    else Within(s[1..], keep)
  }

  /** Removing two sets one after the other removes their union. */
  lemma {:induction false} WithoutWithout(s: seq<string>, a: set<string>, b: set<string>)
    ensures Without(Without(s, a), b) == Without(s, a + b)
  {
    if |s| > 0 {
      WithoutWithout(s[1..], a, b);
      if s[0] !in a {
        assert Without(s, a) == [s[0]] + Without(s[1..], a);
        assert ([s[0]] + Without(s[1..], a))[1..] == Without(s[1..], a);
      }
    }
  }

  /** Only the part of `drop` that occurs in `s` matters. */
  lemma {:induction false} WithoutOnlyPresent(s: seq<string>, a: set<string>, b: set<string>)
    requires forall x :: x in s ==> (x in a <==> x in b)
    ensures Without(s, a) == Without(s, b)
  {
    if |s| > 0 {
      WithoutOnlyPresent(s[1..], a, b);
    }
  }

  lemma WithoutKeepsNoDups(s: seq<string>, d: set<string>)
    requires NoDups(s)
    ensures NoDups(Without(s, d))
  {
    if |s| > 0 {
      assert NoDups(s[1..]);
      WithoutKeepsNoDups(s[1..], d);
      if s[0] !in d {
        var r := Without(s[1..], d);
        assert s[0] !in r;
        assert forall j :: 0 < j < |[s[0]] + r| ==> ([s[0]] + r)[j] == r[j - 1];
      }
    }
  }

  /** The first occurrence of `x` removed (Python's `list.remove`). */
  function RemoveFirst(s: seq<string>, x: string): (r: seq<string>)
    requires x in s
    ensures |r| == |s| - 1
    ensures multiset(r) == multiset(s) - multiset{x}
  {
    assert s == [s[0]] + s[1..];
    if s[0] == x then s[1..] else [s[0]] + RemoveFirst(s[1..], x)
  }

  /**
   * The occurrence removed is the first one, and every other element keeps its
   * place in order.
   */
  lemma {:induction false} RemoveFirstIsFirst(s: seq<string>, x: string, i: nat)
    requires i < |s| && s[i] == x && x !in s[..i]
    ensures RemoveFirst(s, x) == s[..i] + s[i + 1..]
    decreases i
  {
    if i > 0 {
      assert s[0] == s[..i][0];
      assert s[..i] == [s[0]] + s[1..][..i - 1];
      assert x !in s[1..][..i - 1];
      RemoveFirstIsFirst(s[1..], x, i - 1);
      assert s[i + 1..] == s[1..][i..];
    }
  }

  /** Without duplicates, removing the first occurrence removes every occurrence. */
  lemma {:induction false} RemoveFirstNoDups(s: seq<string>, x: string)
    requires x in s && NoDups(s)
    ensures RemoveFirst(s, x) == Without(s, {x})
  {
    assert NoDups(s[1..]);
    if s[0] == x {
      assert x !in s[1..];
      WithoutOnlyPresent(s[1..], {x}, {});
      WithoutEmpty(s[1..]);
    } else {
      RemoveFirstNoDups(s[1..], x);
    }
  }

  lemma {:induction false} WithoutEmpty(s: seq<string>)
    ensures Without(s, {}) == s
  {
    if |s| > 0 {
      WithoutEmpty(s[1..]);
      assert s == [s[0]] + s[1..];
    }
  }
}
