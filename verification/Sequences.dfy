/**
 Sequences without repetition, as elements are taken out and put in.
 */
module Sequences {

  /** Names a pair of positions, so that facts about pairs are used only where one is meant. */
  predicate Before(i: int, j: int) {
    0 <= i < j
  }

  ghost predicate Distinct<T>(s: seq<T>) {
    forall i, j {:trigger Before(i, j)} :: Before(i, j) && j < |s| ==> s[i] != s[j]
  }

  lemma DifferentPlaces<T>(s: seq<T>, i: nat, j: nat)
    requires Distinct(s) && i < |s| && j < |s| && i != j
    ensures s[i] != s[j]
  {
    assert Before(i, j) || Before(j, i);
  }

  lemma SamePlace<T>(s: seq<T>, i: nat, j: nat)
    requires Distinct(s) && i < |s| && j < |s| && s[i] == s[j]
    ensures i == j
  {
    if i != j { DifferentPlaces(s, i, j); }
  }

  function Without<T>(s: seq<T>, i: nat): seq<T>
    requires i < |s|
  {
    s[..i] + s[i + 1..]
  }

  function With<T>(s: seq<T>, j: nat, x: T): seq<T>
    requires j <= |s|
  {
    s[..j] + [x] + s[j..]
  }

  /** Where the element at `k` was before one was taken out at `i`, and before one was put in at `j`. */
  function OldPlace(i: nat, k: nat): nat {
    if k < i then k else k + 1
  }

  function Place(j: nat, k: nat): int {
    if k < j then k else k - 1
  }

  lemma WithoutKeeps<T>(s: seq<T>, i: nat)
    requires Distinct(s) && i < |s|
    ensures Distinct(Without(s, i)) && s[i] !in Without(s, i)
    ensures forall x :: x in Without(s, i) <==> x in s && x != s[i]
  {
    var s' := Without(s, i);
    forall k, l {:trigger Before(k, l)} | Before(k, l) && l < |s'| ensures s'[k] != s'[l] {
      assert Before(OldPlace(i, k), OldPlace(i, l));
    }
    forall k | 0 <= k < |s'| ensures s'[k] in s && s'[k] != s[i] {
      if k < i { assert Before(k, i); } else { assert Before(i, k + 1); }
      assert s'[k] == s[OldPlace(i, k)];
    }
    forall x | x in s && x != s[i] ensures x in s' {
      var k :| 0 <= k < |s| && s[k] == x;
      assert s'[Place(i, k)] == x;
    }
  }

  lemma WithKeeps<T>(s: seq<T>, j: nat, x: T)
    requires Distinct(s) && j <= |s| && x !in s
    ensures Distinct(With(s, j, x)) && forall y :: y in With(s, j, x) <==> y in s || y == x
  {
    var s' := With(s, j, x);
    forall k, l {:trigger Before(k, l)} | Before(k, l) && l < |s'| ensures s'[k] != s'[l] {
      assert Before(Place(j, k), Place(j, l)) || k == j || l == j;
    }
    assert s'[j] == x;
    forall y | y in s ensures y in s' {
      var k :| 0 <= k < |s| && s[k] == y;
      assert s'[OldPlace(j, k)] == y;
    }
  }

  lemma WithoutIsPart<T>(s: seq<T>, i: nat)
    requires i < |s|
    ensures forall x :: x in Without(s, i) ==> x in s
  {
    forall x | x in Without(s, i) ensures x in s {
      var j :| 0 <= j < |Without(s, i)| && Without(s, i)[j] == x;
      assert s[OldPlace(i, j)] == x;
    }
  }

  function IndexOf<T(==)>(s: seq<T>, x: T): (i: nat)
    requires x in s
    ensures i < |s| && s[i] == x
  {
    if s[0] == x then 0 else 1 + IndexOf(s[1..], x)
  }
}
