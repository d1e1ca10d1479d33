/**
 Bit vectors of the sanitizer runtime (sanitizer_bitvector.h).  A word of k bits is the
 set of the positions of its ones.  TwoLevelBitVector keeps n words of first-level bits
 and n * k second-level words; a second-level word whose first-level bit is zero is
 stale and means nothing.
 */
module BitVectors {
  import opened Common

  // ------------------------------------------------------------- words

  lemma {:induction false} FindLeast(s: set<nat>) returns (least: nat)
    requires s != {}
    ensures least in s && forall y :: y in s ==> least <= y
    decreases |s|
  {
    var x :| x in s;
    var rest := s - {x};
    if rest == {} {
      least := x;
      assert s == {x};
    } else {
      var m := FindLeast(rest);
      least := if m < x then m else x;
      assert forall y :: y in s ==> y == x || y in rest;
    }
  }

  lemma LeastExists(s: set<nat>)
    requires s != {}
    ensures exists x :: x in s && forall y :: y in s ==> x <= y
  {
    var least := FindLeast(s);
  }

  /** LeastSignificantSetBitIndex */
  function Least(s: set<nat>): (x: nat)
    requires s != {}
    ensures x in s && forall y :: y in s ==> x <= y
  {
    LeastExists(s);
    var x :| x in s && forall y :: y in s ==> x <= y;
    x
  }

  // ------------------------------------------------------------- one row

  /** Bit i2 of second-level word i1 is one and not stale. */
  ghost predicate RowHas(a1: set<nat>, a2: seq<set<nat>>, i1: nat, i2: nat) {
    i1 in a1 && i1 < |a2| && i2 in a2[i1]
  }

  /** A first-level one promises a non-empty second-level word. */
  ghost predicate RowOk(k: nat, a1: set<nat>, a2: seq<set<nat>>) {
    && |a2| == k
    && (forall i1 :: i1 in a1 ==> i1 < k && a2[i1] != {})
    && (forall i1: nat, i2: nat :: i1 < k && i2 in a2[i1] ==> i2 < k)
  }

  method SetBitInRow(k: nat, a1: set<nat>, a2: seq<set<nat>>, i1: nat, i2: nat)
    returns (r1: set<nat>, r2: seq<set<nat>>, changed: bool)
    requires RowOk(k, a1, a2) && i1 < k && i2 < k
    ensures RowOk(k, r1, r2)
    ensures changed <==> !RowHas(a1, a2, i1, i2)
    ensures forall j1: nat, j2: nat ::
      RowHas(r1, r2, j1, j2) <==> RowHas(a1, a2, j1, j2) || (j1 == i1 && j2 == i2)
  {
    r1, r2 := a1, a2;
    if i1 !in r1 {
      r1 := r1 + {i1};
      r2 := r2[i1 := {}];
    }
    changed := i2 !in r2[i1];
    r2 := r2[i1 := r2[i1] + {i2}];
  }

  method ClearBitInRow(k: nat, a1: set<nat>, a2: seq<set<nat>>, i1: nat, i2: nat)
    returns (r1: set<nat>, r2: seq<set<nat>>, changed: bool)
    requires RowOk(k, a1, a2) && i1 < k && i2 < k
    ensures RowOk(k, r1, r2)
    ensures changed <==> RowHas(a1, a2, i1, i2)
    ensures forall j1: nat, j2: nat ::
      RowHas(r1, r2, j1, j2) <==> RowHas(a1, a2, j1, j2) && !(j1 == i1 && j2 == i2)
  {
    r1, r2, changed := a1, a2, false;
    if i1 in r1 {
      changed := i2 in r2[i1];
      r2 := r2[i1 := r2[i1] - {i2}];
      if r2[i1] == {} {
        r1 := r1 - {i1};
      }
    }
  }

  /** Takes the lowest bit out of a row that has one. */
  method TakeFirstInRow(k: nat, a1: set<nat>, a2: seq<set<nat>>)
    returns (r1: set<nat>, r2: seq<set<nat>>, i1: nat, i2: nat)
    requires RowOk(k, a1, a2) && a1 != {}
    ensures i1 == Least(a1) < k && a2[i1] != {} && i2 == Least(a2[i1]) < k
    ensures RowOk(k, r1, r2)
    ensures forall j1: nat, j2: nat ::
      RowHas(r1, r2, j1, j2) <==> RowHas(a1, a2, j1, j2) && !(j1 == i1 && j2 == i2)
  {
    i1 := Least(a1);
    i2 := Least(a2[i1]);
    r1 := a1 - {i1};
    r2 := a2[i1 := a2[i1] - {i2}];
    if r2[i1] != {} {
      r1 := r1 + {i1};
    }
  }

  ghost predicate RowWithin(a1: set<nat>, a2: seq<set<nat>>, b1: set<nat>, b2: seq<set<nat>>) {
    forall i1: nat, i2: nat :: RowHas(a1, a2, i1, i2) ==> RowHas(b1, b2, i1, i2)
  }

  /** Some bit of row b is missing in row a. */
  ghost predicate RowMisses(a1: set<nat>, a2: seq<set<nat>>, b1: set<nat>, b2: seq<set<nat>>) {
    exists i1: nat, i2: nat :: RowHas(b1, b2, i1, i2) && !RowHas(a1, a2, i1, i2)
  }

  lemma MissesChain(a1: set<nat>, a2: seq<set<nat>>, q1: set<nat>, q2: seq<set<nat>>, b1: set<nat>, b2: seq<set<nat>>)
    requires RowWithin(a1, a2, q1, q2) && RowWithin(q1, q2, b1, b2)
    ensures RowMisses(a1, a2, b1, b2) <==> RowMisses(a1, a2, q1, q2) || RowMisses(q1, q2, b1, b2)
  {
    if i1: nat, i2: nat :| RowHas(b1, b2, i1, i2) && !RowHas(a1, a2, i1, i2) {
      assert RowHas(q1, q2, i1, i2) || !RowHas(q1, q2, i1, i2);
    }
    if i1: nat, i2: nat :| RowHas(q1, q2, i1, i2) && !RowHas(a1, a2, i1, i2) {
      assert RowHas(b1, b2, i1, i2);
    }
    if i1: nat, i2: nat :| RowHas(b1, b2, i1, i2) && !RowHas(q1, q2, i1, i2) {
      assert !RowHas(a1, a2, i1, i2);
    }
  }

  /** Replacing one live word by a subset or superset of it. */
  lemma WordMisses(k: nat, a1: set<nat>, a2: seq<set<nat>>, b1: set<nat>, b2: seq<set<nat>>, i1: nat, small: set<nat>, big: set<nat>)
    requires small <= big
    requires forall j2: nat :: RowHas(a1, a2, i1, j2) <==> j2 in small
    requires forall j2: nat :: RowHas(b1, b2, i1, j2) <==> j2 in big
    requires forall j1: nat, j2: nat :: j1 != i1 ==> (RowHas(a1, a2, j1, j2) <==> RowHas(b1, b2, j1, j2))
    ensures RowWithin(a1, a2, b1, b2)
    ensures RowMisses(a1, a2, b1, b2) <==> small != big
  {
    if small != big {
      var j2 :| j2 in big && j2 !in small;
      assert RowHas(b1, b2, i1, j2) && !RowHas(a1, a2, i1, j2);
    }
  }

  method UnionRow(k: nat, a1: set<nat>, a2: seq<set<nat>>, b1: set<nat>, b2: seq<set<nat>>)
    returns (r1: set<nat>, r2: seq<set<nat>>, changed: bool)
    requires RowOk(k, a1, a2) && RowOk(k, b1, b2)
    ensures RowOk(k, r1, r2)
    ensures forall i1: nat, i2: nat ::
      RowHas(r1, r2, i1, i2) <==> RowHas(a1, a2, i1, i2) || RowHas(b1, b2, i1, i2)
    ensures changed <==> RowMisses(a1, a2, r1, r2)
  {
    r1, r2, changed := a1, a2, false;
    var t := b1;
    while t != {}
      invariant t <= b1 && RowOk(k, r1, r2)
      invariant forall i1: nat, i2: nat ::
        RowHas(r1, r2, i1, i2) <==> RowHas(a1, a2, i1, i2) || (i1 !in t && RowHas(b1, b2, i1, i2))
      invariant changed <==> RowMisses(a1, a2, r1, r2)
      decreases t
    {
      var i1 := Least(t);
      ghost var q1, q2 := r1, r2;
      t := t - {i1};
      if i1 !in r1 {
        r1 := r1 + {i1};
        r2 := r2[i1 := {}];
      }
      var word := r2[i1] + b2[i1];
      if word != r2[i1] {
        changed := true;
      }
      ghost var small := r2[i1];
      r2 := r2[i1 := word];
      WordMisses(k, q1, q2, r1, r2, i1, small, word);
      MissesChain(a1, a2, q1, q2, r1, r2);
    }
  }

  method IntersectRow(k: nat, a1: set<nat>, a2: seq<set<nat>>, b1: set<nat>, b2: seq<set<nat>>)
    returns (r1: set<nat>, r2: seq<set<nat>>, changed: bool)
    requires RowOk(k, a1, a2) && RowOk(k, b1, b2)
    ensures RowOk(k, r1, r2)
    ensures forall i1: nat, i2: nat ::
      RowHas(r1, r2, i1, i2) <==> RowHas(a1, a2, i1, i2) && RowHas(b1, b2, i1, i2)
    ensures changed <==> RowMisses(r1, r2, a1, a2)
  {
    r1, r2 := a1 * b1, a2;
    changed := r1 != a1;
    if changed {
      var i1 :| i1 in a1 && i1 !in b1;
      var i2 :| i2 in a2[i1];
      assert RowHas(a1, a2, i1, i2) && !RowHas(r1, r2, i1, i2);
    }
    var t := r1;
    while t != {}
      invariant t <= r1 <= a1 * b1 && RowOk(k, r1, r2)
      invariant forall i1: nat, i2: nat :: RowHas(r1, r2, i1, i2) <==>
        RowHas(a1, a2, i1, i2) && i1 in b1 && (i1 in t || RowHas(b1, b2, i1, i2))
      invariant changed <==> RowMisses(r1, r2, a1, a2)
      decreases t
    {
      var i1 := Least(t);
      ghost var q1, q2 := r1, r2;
      t := t - {i1};
      var word := r2[i1] * b2[i1];
      if word != r2[i1] {
        changed := true;
      }
      r2 := r2[i1 := word];
      if word == {} {
        r1 := r1 - {i1};
      }
      WordMisses(k, r1, r2, q1, q2, i1, word, q2[i1]);
      MissesChain(r1, r2, q1, q2, a1, a2);
    }
  }

  method DifferenceRow(k: nat, a1: set<nat>, a2: seq<set<nat>>, b1: set<nat>, b2: seq<set<nat>>)
    returns (r1: set<nat>, r2: seq<set<nat>>, changed: bool)
    requires RowOk(k, a1, a2) && RowOk(k, b1, b2)
    ensures RowOk(k, r1, r2)
    ensures forall i1: nat, i2: nat ::
      RowHas(r1, r2, i1, i2) <==> RowHas(a1, a2, i1, i2) && !RowHas(b1, b2, i1, i2)
    ensures changed <==> RowMisses(r1, r2, a1, a2)
  {
    r1, r2, changed := a1, a2, false;
    var t := a1 * b1;
    while t != {}
      invariant t <= r1 * b1 && r1 <= a1 && RowOk(k, r1, r2)
      invariant forall i1: nat, i2: nat :: RowHas(r1, r2, i1, i2) <==>
        RowHas(a1, a2, i1, i2) && (i1 in t || !RowHas(b1, b2, i1, i2))
      invariant changed <==> RowMisses(r1, r2, a1, a2)
      decreases t
    {
      var i1 := Least(t);
      ghost var q1, q2 := r1, r2;
      t := t - {i1};
      var word := r2[i1] - b2[i1];
      if word != r2[i1] {
        changed := true;
      }
      r2 := r2[i1 := word];
      if word == {} {
        r1 := r1 - {i1};
      }
      WordMisses(k, r1, r2, q1, q2, i1, word, q2[i1]);
      MissesChain(r1, r2, q1, q2, a1, a2);
    }
  }

  method RowsMeet(k: nat, a1: set<nat>, a2: seq<set<nat>>, b1: set<nat>, b2: seq<set<nat>>) returns (meet: bool)
    requires RowOk(k, a1, a2) && RowOk(k, b1, b2)
    ensures meet <==> exists i1: nat, i2: nat :: RowHas(a1, a2, i1, i2) && RowHas(b1, b2, i1, i2)
  {
    var t := a1 * b1;
    while t != {}
      invariant t <= a1 * b1
      invariant forall i1: nat, i2: nat :: RowHas(a1, a2, i1, i2) && RowHas(b1, b2, i1, i2) ==> i1 in t
      decreases t
    {
      var i1 := Least(t);
      t := t - {i1};
      assert forall i2: nat :: i2 in a2[i1] && i2 in b2[i1] ==> i2 in a2[i1] * b2[i1];
      if a2[i1] * b2[i1] != {} {
        var i2 :| i2 in a2[i1] * b2[i1];
        assert RowHas(a1, a2, i1, i2) && RowHas(b1, b2, i1, i2);
        return true;
      }
    }
    meet := false;
  }

  // ------------------------------------------------------------- index arithmetic

  lemma DivUnique(x: nat, d: nat, q: nat, r: nat)
    requires d > 0 && x == q * d + r && r < d
    ensures x / d == q && x % d == r
  {
    var q', r' := x / d, x % d;
    assert x == q' * d + r';
    if q' < q {
      MulMono(q' + 1, q, d);
    } else if q < q' {
      MulMono(q + 1, q', d);
    }
  }

  function Idx0(k: nat, idx: nat): nat
    requires k > 0
  {
    assert k * k > 0;
    idx / (k * k)
  }

  function Idx1(k: nat, idx: nat): nat
    requires k > 0
  {
    (idx / k) % k
  }

  function Idx2(k: nat, idx: nat): nat
    requires k > 0
  {
    idx % k
  }

  function Join(k: nat, i0: nat, i1: nat, i2: nat): nat {
    i0 * k * k + i1 * k + i2
  }

  lemma SplitOfJoin(k: nat, i0: nat, i1: nat, i2: nat)
    requires k > 0 && i1 < k && i2 < k
    ensures Idx0(k, Join(k, i0, i1, i2)) == i0
    ensures Idx1(k, Join(k, i0, i1, i2)) == i1
    ensures Idx2(k, Join(k, i0, i1, i2)) == i2
  {
    var idx := Join(k, i0, i1, i2);
    assert i0 * k * k == (i0 * k) * k;
    assert idx == (i0 * k + i1) * k + i2;
    DivUnique(idx, k, i0 * k + i1, i2);
    DivUnique(i0 * k + i1, k, i0, i1);
    assert i0 * k * k == i0 * (k * k);
    LowPart(k, i1, i2);
    DivUnique(idx, k * k, i0, i1 * k + i2);
  }

  lemma LowPart(k: nat, i1: nat, i2: nat)
    requires i1 < k && i2 < k
    ensures i1 * k + i2 < k * k
  {
    MulMono(i1 + 1, k, k);
    assert (i1 + 1) * k == i1 * k + k;
  }

  lemma DivMod(x: nat, d: nat)
    requires d > 0
    ensures x == (x / d) * d + x % d && x % d < d
  {
  }

  lemma TwoDigits(k: nat, i0: nat, i1: nat, i2: nat)
    ensures Join(k, i0, i1, i2) == (i0 * k + i1) * k + i2
  {
  }

  lemma JoinOfSplit(k: nat, idx: nat)
    requires k > 0
    ensures Idx1(k, idx) < k && Idx2(k, idx) < k
    ensures Join(k, Idx0(k, idx), Idx1(k, idx), Idx2(k, idx)) == idx
  {
    var q := idx / k;
    DivMod(idx, k);
    DivMod(q, k);
    TwoDigits(k, q / k, q % k, idx % k);
    SplitOfJoin(k, q / k, q % k, idx % k);
  }

  lemma JoinBound(n: nat, k: nat, i0: nat, i1: nat, i2: nat)
    requires i1 < k && i2 < k
    ensures i0 < n <==> Join(k, i0, i1, i2) < n * k * k
  {
    LowPart(k, i1, i2);
    assert i0 * k * k == i0 * (k * k) && n * k * k == n * (k * k);
    if i0 < n {
      MulMono(i0 + 1, n, k * k);
      assert (i0 + 1) * (k * k) == i0 * (k * k) + k * k;
    } else {
      MulMono(n, i0, k * k);
    }
  }

  /** The order of indices is the lexicographic order of their parts. */
  lemma JoinOrder(k: nat, i0: nat, i1: nat, i2: nat, j0: nat, j1: nat, j2: nat)
    requires i1 < k && i2 < k && j1 < k && j2 < k
    requires i0 < j0 || (i0 == j0 && (i1 < j1 || (i1 == j1 && i2 <= j2)))
    ensures Join(k, i0, i1, i2) <= Join(k, j0, j1, j2)
  {
    LowPart(k, i1, i2);
    assert i0 * k * k == i0 * (k * k) && j0 * k * k == j0 * (k * k);
    if i0 < j0 {
      MulMono(i0 + 1, j0, k * k);
      assert (i0 + 1) * (k * k) == i0 * (k * k) + k * k;
    } else if i1 < j1 {
      MulMono(i1 + 1, j1, k);
      assert (i1 + 1) * k == i1 * k + k;
    }
  }
}
