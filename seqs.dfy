/** Array built-ins used by the keyword engine: `indexOf`, de-duplication through
    a `Set` (which keeps first-insertion order) and `filter(k => k !== x)`. */
module Seqs {

  /** No element occurs twice. */
  predicate Distinct<T(==,!new)>(s: seq<T>) {
    forall i, j :: 0 <= i < j < |s| ==> s[i] != s[j]
  }

  /** `s.indexOf(x)`: the first position of `x`, or -1 when `x` does not occur. */
  function IndexOf<T(==,!new)>(s: seq<T>, x: T): (r: int)
    ensures -1 <= r < |s|
    ensures r == -1 <==> x !in s
    ensures 0 <= r ==> s[r] == x && x !in s[..r]
    decreases |s|
  {
    if s == [] then -1
    else if s[0] == x then 0
    else
      var k := IndexOf(s[1..], x);
      if k == -1 then -1
      else
        assert s[..k + 1] == [s[0]] + s[1..][..k];
        k + 1
  }

  /** The position of a first occurrence does not depend on what follows it. */
  lemma IndexOfPrefix<T(!new)>(s: seq<T>, n: nat, x: T)
    requires n <= |s| && x in s[..n]
    ensures IndexOf(s[..n], x) == IndexOf(s, x)
  {
    var k := IndexOf(s[..n], x);
    assert s[..n][..k] == s[..k];
  }

  /** The elements of `r` follow the order in which they first occur in `s`. */
  predicate InFirstOccurrenceOrder<T(==,!new)>(r: seq<T>, s: seq<T>) {
    forall i, j :: 0 <= i < j < |r| ==> IndexOf(s, r[i]) < IndexOf(s, r[j])
  }

  /** Listing elements in the order of their first occurrence never lists one twice. */
  lemma OrderedIsDistinct<T(!new)>(r: seq<T>, s: seq<T>)
    requires InFirstOccurrenceOrder(r, s)
    ensures Distinct(r)
  {
  }

  /** `Array.from(new Set(s))`: adding the elements of `s` one by one to a set and
      listing the set in insertion order. */
  function Dedup<T(==,!new)>(s: seq<T>): (r: seq<T>)
    decreases |s|
  {
    if s == [] then []
    else
      var d := Dedup(s[..|s| - 1]);
      if s[|s| - 1] in d then d else d + [s[|s| - 1]]
  }

  /** A set built from `s` holds exactly the elements of `s`, each once, listed in
      the order of their first occurrence in `s`. */
  lemma {:induction false} DedupSpec<T(!new)>(s: seq<T>)
    ensures forall x :: x in Dedup(s) <==> x in s
    ensures Distinct(Dedup(s))
    ensures InFirstOccurrenceOrder(Dedup(s), s)
    decreases |s|
  {
    if s != [] {
      var p := s[..|s| - 1];
      var x := s[|s| - 1];
      DedupSpec(p);
      var d := Dedup(p);
      assert s == p + [x];
      forall y | y in d ensures IndexOf(s, y) == IndexOf(p, y) && IndexOf(p, y) < |p| {
        assert y in p;
        assert s[..|p|] == p;
        IndexOfPrefix(s, |p|, y);
      }
      if x !in d {
        assert x !in p;
        assert IndexOf(s, x) == |p| by {
          assert s[..|p|] == p;
        }
      }
    }
  }

  /** `s.filter(k => k !== x)`. */
  function Without<T(==,!new)>(s: seq<T>, x: T): (r: seq<T>)
    decreases |s|
  {
    if s == [] then []
    else (if s[0] != x then [s[0]] else []) + Without(s[1..], x)
  }

  /** `r` is obtained from `s` by deleting some elements, keeping the rest in order. */
  predicate IsSubsequence<T(==,!new)>(r: seq<T>, s: seq<T>)
    decreases |s|
  {
    r == [] || (s != [] && ((r[0] == s[0] && IsSubsequence(r[1..], s[1..])) || IsSubsequence(r, s[1..])))
  }

  /** Filtering out `x` removes every copy of `x`, keeps every copy of every other
      element, keeps the survivors in their relative order and never makes the
      sequence longer. */
  lemma {:induction false} WithoutSpec<T(!new)>(s: seq<T>, x: T)
    ensures forall y :: y in Without(s, x) <==> y in s && y != x
    ensures IsSubsequence(Without(s, x), s)
    ensures |Without(s, x)| <= |s|
    ensures x !in s ==> Without(s, x) == s
    decreases |s|
  {
    if s != [] {
      WithoutSpec(s[1..], x);
      var w := Without(s[1..], x);
      if s[0] != x {
        assert Without(s, x) == [s[0]] + w;
        assert ([s[0]] + w)[1..] == w;
        if x !in s {
          assert s == [s[0]] + s[1..];
        }
      } else {
        assert Without(s, x) == w;
        if w != [] {
          assert IsSubsequence(w, s[1..]);
        }
      }
      forall y ensures y in s <==> y == s[0] || y in s[1..] {
        assert s == [s[0]] + s[1..];
      }
    }
  }

  /** The filter keeps every copy of every element other than `x` and no copy of `x`. */
  lemma {:induction false} WithoutCount<T(!new)>(s: seq<T>, x: T)
    ensures multiset(Without(s, x)) == multiset(s)[x := 0]
    decreases |s|
  {
    if s != [] {
      WithoutCount(s[1..], x);
      assert s == [s[0]] + s[1..];
      assert multiset(s) == multiset{s[0]} + multiset(s[1..]);
      assert Without(s, x) == (if s[0] != x then [s[0]] else []) + Without(s[1..], x);
    }
  }

  /** The filter works element by element, so it distributes over concatenation. */
  lemma {:induction false} WithoutConcat<T(!new)>(a: seq<T>, b: seq<T>, x: T)
    ensures Without(a + b, x) == Without(a, x) + Without(b, x)
    decreases |a|
  {
    if a == [] {
      assert a + b == b;
    } else {
      assert (a + b)[0] == a[0] && (a + b)[1..] == a[1..] + b;
      WithoutConcat(a[1..], b, x);
    }
  }
}
