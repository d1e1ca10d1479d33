/**
 What the allocators expect of SortArray: the same addresses, in ascending order.
 */
module Sorting {

  ghost predicate Ascending(s: seq<nat>) {
    forall i, j :: 0 <= i < j < |s| ==> s[i] <= s[j]
  }

  ghost predicate Increasing(s: seq<nat>) {
    forall i, j :: 0 <= i < j < |s| ==> s[i] < s[j]
  }

  ghost predicate NoDup(s: seq<nat>) {
    forall i, j :: 0 <= i < j < |s| ==> s[i] != s[j]
  }

  function Insert(x: nat, s: seq<nat>): (r: seq<nat>)
    requires Ascending(s)
    ensures Ascending(r) && multiset(r) == multiset(s) + multiset{x}
  {
    if s == [] then [x]
    else if x <= s[0] then
      PrependMultiset(x, s);
      [x] + s
    else
      var t := Insert(x, s[1..]);
      PrependMultiset(s[0], s[1..]);
      PrependMultiset(s[0], t);
      assert s == [s[0]] + s[1..];
      InsertedAbove(s, x, t);
      [s[0]] + t
  }

  lemma PrependMultiset(x: nat, s: seq<nat>)
    ensures multiset([x] + s) == multiset(s) + multiset{x}
  {
  }

  lemma InsertedAbove(s: seq<nat>, x: nat, t: seq<nat>)
    requires s != [] && Ascending(s) && s[0] <= x && multiset(t) == multiset(s[1..]) + multiset{x} && Ascending(t)
    ensures Ascending([s[0]] + t)
  {
    forall j | 0 <= j < |t| ensures s[0] <= t[j] {
      assert t[j] in multiset(t);
      if t[j] != x {
        assert t[j] in s[1..];
      }
    }
  }

  function Sort(s: seq<nat>): (r: seq<nat>)
    ensures Ascending(r) && multiset(r) == multiset(s)
  {
    if s == [] then []
    else
      assert s == [s[0]] + s[1..];
      PrependMultiset(s[0], s[1..]);
      Insert(s[0], Sort(s[1..]))
  }

  /** The permutations of a list without repetition have none. */
  lemma NoDupIff(s: seq<nat>)
    ensures NoDup(s) <==> forall x :: x in multiset(s) ==> multiset(s)[x] == 1
  {
    if NoDup(s) {
      forall x | x in multiset(s) ensures multiset(s)[x] == 1 {
        var i :| 0 <= i < |s| && s[i] == x;
        OnceAt(s, i);
      }
    } else {
      var i, j :| 0 <= i < j < |s| && s[i] == s[j];
      assert s == s[..j] + s[j..];
      assert s[i] in multiset(s[..j]) by { assert s[..j][i] == s[i]; }
      assert s[j] in multiset(s[j..]) by { assert s[j..][0] == s[j]; }
      assert multiset(s)[s[i]] >= 2;
    }
  }

  lemma OnceAt(s: seq<nat>, i: nat)
    requires NoDup(s) && i < |s|
    ensures multiset(s)[s[i]] == 1
  {
    assert s == s[..i] + [s[i]] + s[i + 1..];
    assert s[i] !in s[..i];
    assert s[i] !in s[i + 1..];
  }

  /** r is s in ascending order. */
  ghost predicate Sorts(s: seq<nat>, r: seq<nat>) {
    Ascending(r) && multiset(r) == multiset(s)
  }

  method SortArray(s: seq<nat>) returns (r: seq<nat>)
    ensures Sorts(s, r)
  {
    r := Sort(s);
  }

  /** Without repetitions the order is strict. */
  lemma SortsDistinct(s: seq<nat>, r: seq<nat>)
    requires NoDup(s) && Sorts(s, r)
    ensures Increasing(r) && NoDup(r) && |r| == |s|
    ensures forall x :: x in r <==> x in s
  {
    NoDupIff(s);
    NoDupIff(r);
    assert |multiset(s)| == |s| && |multiset(r)| == |r|;
    forall x ensures x in r <==> x in s {
      assert x in s <==> x in multiset(s);
      assert x in r <==> x in multiset(r);
    }
  }
}
