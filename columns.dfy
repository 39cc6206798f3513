/**
 * Ordered lists of column names: `Stream.distinct()` (which keeps the first
 * occurrence of every name, in encounter order), the names a new header adds
 * to a list, and `List.indexOf`.
 */
module Columns {

  predicate NoDup(s: seq<string>)
  {
    forall i, j :: 0 <= i < j < |s| ==> s[i] != s[j]
  }

  /** `s.stream().distinct()`: the first occurrence of every element, in order. */
  function Distinct(s: seq<string>): (r: seq<string>)
    ensures NoDup(r)
    ensures forall x :: x in r <==> x in s
  {
    if s == [] then []
    else
      var d := Distinct(s[..|s| - 1]);
      var x := s[|s| - 1];
      if x in d then d else d + [x]
  }

  /** The elements of `xs` that `known` lacks, each at its first occurrence in
      `xs`: index i is kept exactly when xs[i] is neither in `known` nor in
      xs[..i]. */
  function NewNames(known: seq<string>, xs: seq<string>): (r: seq<string>)
    ensures forall x :: x in r <==> x in xs && x !in known
  {
    if xs == [] then []
    else
      var n := NewNames(known, xs[..|xs| - 1]);
      var x := xs[|xs| - 1];
      if x in known || x in xs[..|xs| - 1] then n else n + [x]
  }

  lemma {:induction false} DistinctOfNoDup(s: seq<string>)
    requires NoDup(s)
    ensures Distinct(s) == s
  {
    if s != [] {
      var init := s[..|s| - 1];
      DistinctOfNoDup(init);
      assert s[|s| - 1] !in init;
      assert init + [s[|s| - 1]] == s;
    }
  }

  /** A list without duplicates followed by more names: `distinct` keeps the
      list as it is and appends the names it lacks, in first-occurrence order. */
  lemma {:induction false} DistinctAppend(a: seq<string>, b: seq<string>)
    requires NoDup(a)
    ensures Distinct(a + b) == a + NewNames(a, b)
  {
    if b == [] {
      assert a + b == a;
      DistinctOfNoDup(a);
    } else {
      var init, x := b[..|b| - 1], b[|b| - 1];
      DistinctAppend(a, init);
      assert (a + b)[..|a + b| - 1] == a + init;
      assert (a + b)[|a + b| - 1] == x;
      assert x in a + init <==> x in a || x in init;
    }
  }

  /** Running `distinct` on a prefix first changes nothing: successive headers
      accumulate to the distinct names of all of them in first-seen order. */
  lemma {:induction false} DistinctOfDistinct(a: seq<string>, b: seq<string>)
    ensures Distinct(Distinct(a) + b) == Distinct(a + b)
  {
    if b == [] {
      assert Distinct(a) + b == Distinct(a);
      assert a + b == a;
      DistinctOfNoDup(Distinct(a));
    } else {
      var init, x := b[..|b| - 1], b[|b| - 1];
      DistinctOfDistinct(a, init);
      assert (Distinct(a) + b)[..|Distinct(a) + b| - 1] == Distinct(a) + init;
      assert (a + b)[..|a + b| - 1] == a + init;
      assert (Distinct(a) + b)[|Distinct(a) + b| - 1] == x == (a + b)[|a + b| - 1];
    }
  }

  lemma {:induction false} NewNamesOfKnown(known: seq<string>, xs: seq<string>)
    requires forall x :: x in xs ==> x in known
    ensures NewNames(known, xs) == []
  {
    if xs != [] {
      NewNamesOfKnown(known, xs[..|xs| - 1]);
    }
  }

  /** Absorbing the same header a second time leaves the list unchanged. */
  lemma AbsorbTwice(a: seq<string>, b: seq<string>)
    ensures Distinct(Distinct(a + b) + b) == Distinct(a + b)
  {
    var u := Distinct(a + b);
    DistinctAppend(u, b);
    NewNamesOfKnown(u, b);
  }

  /** `List.indexOf`: the first position of `x`, or -1. */
  function IndexOf(s: seq<string>, x: string): (i: int)
    ensures -1 <= i < |s|
    ensures i == -1 <==> x !in s
    ensures 0 <= i ==> s[i] == x && x !in s[..i]
  {
    if s == [] then -1
    else if s[0] == x then 0
    else
      var j := IndexOf(s[1..], x);
      if j == -1 then -1 else j + 1
  }
}
