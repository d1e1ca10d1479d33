/** TwoLevelBitVector (sanitizer_bitvector.h) refines a set of indices. */
module TwoLevelBitVectors {
  import opened BitVectors

  /** Index idx is in the vector. */
  ghost predicate Holds(k: nat, l1: seq<set<nat>>, l2: seq<seq<set<nat>>>, idx: nat)
    requires k > 0 && |l1| == |l2|
  {
    var i0 := Idx0(k, idx);
    i0 < |l1| && RowHas(l1[i0], l2[i0], Idx1(k, idx), Idx2(k, idx))
  }

  ghost predicate VecOk(n: nat, k: nat, l1: seq<set<nat>>, l2: seq<seq<set<nat>>>) {
    && k > 0 && |l1| == n && |l2| == n
    && forall i0: nat {:trigger l1[i0]} {:trigger l2[i0]} :: i0 < n ==> RowOk(k, l1[i0], l2[i0])
  }

  ghost function Members(n: nat, k: nat, l1: seq<set<nat>>, l2: seq<seq<set<nat>>>): (s: set<nat>)
    requires k > 0 && |l1| == n && |l2| == n
    ensures forall idx: nat :: idx in s <==> idx < n * k * k && Holds(k, l1, l2, idx)
  {
    set idx: nat | idx < n * k * k && Holds(k, l1, l2, idx)
  }

  /** Members and the bits of the rows are the same thing. */
  lemma MemberOfBit(n: nat, k: nat, l1: seq<set<nat>>, l2: seq<seq<set<nat>>>, i0: nat, i1: nat, i2: nat)
    requires VecOk(n, k, l1, l2) && i0 < n && i1 < k && i2 < k
    ensures Join(k, i0, i1, i2) in Members(n, k, l1, l2) <==> RowHas(l1[i0], l2[i0], i1, i2)
  {
    SplitOfJoin(k, i0, i1, i2);
    JoinBound(n, k, i0, i1, i2);
  }

  lemma BitOfMember(n: nat, k: nat, l1: seq<set<nat>>, l2: seq<seq<set<nat>>>, idx: nat)
    requires VecOk(n, k, l1, l2)
    ensures Idx1(k, idx) < k && Idx2(k, idx) < k
    ensures idx < n * k * k <==> Idx0(k, idx) < n
    ensures idx in Members(n, k, l1, l2) <==> Holds(k, l1, l2, idx)
  {
    JoinOfSplit(k, idx);
    JoinBound(n, k, Idx0(k, idx), Idx1(k, idx), Idx2(k, idx));
  }

  /** Two vectors whose rows relate bit by bit relate index by index; a bit that only one
      of them has shows in the sets. */
  lemma RowMissIsSetMiss(n: nat, k: nat, l1: seq<set<nat>>, l2: seq<seq<set<nat>>>, m1: seq<set<nat>>, m2: seq<seq<set<nat>>>)
    requires VecOk(n, k, l1, l2) && VecOk(n, k, m1, m2)
    ensures (exists i0: nat {:trigger l1[i0]} :: i0 < n && RowMisses(l1[i0], l2[i0], m1[i0], m2[i0]))
       <==> !(Members(n, k, m1, m2) <= Members(n, k, l1, l2))
  {
    if i0: nat :| i0 < n && RowMisses(l1[i0], l2[i0], m1[i0], m2[i0]) {
      var i1: nat, i2: nat :| RowHas(m1[i0], m2[i0], i1, i2) && !RowHas(l1[i0], l2[i0], i1, i2);
      MemberOfBit(n, k, l1, l2, i0, i1, i2);
      MemberOfBit(n, k, m1, m2, i0, i1, i2);
    }
    if !(Members(n, k, m1, m2) <= Members(n, k, l1, l2)) {
      var idx :| idx in Members(n, k, m1, m2) && idx !in Members(n, k, l1, l2);
      BitOfMember(n, k, l1, l2, idx);
      BitOfMember(n, k, m1, m2, idx);
      var i0 := Idx0(k, idx);
      assert RowMisses(l1[i0], l2[i0], m1[i0], m2[i0]);
    }
  }

  /** An indexed operation finishes, fails the CHECK on its index, or goes beyond the rows. */
  datatype Access<T> = Done(value: T) | Refused | Beyond

  /** The CHECK lets an index equal to the size through. */
  function Checked(idx: nat, size: nat, bit: bool): Access<bool> {
    if idx < size then Done(bit) else if idx == size then Beyond else Refused
  }

  class TwoLevelBitVector {
    const n: nat
    const k: nat
    var l1: seq<set<nat>>
    var l2: seq<seq<set<nat>>>

    ghost predicate Valid()
      reads this
    {
      VecOk(n, k, l1, l2)
    }

    ghost function Elems(): set<nat>
      requires Valid()
      reads this
    {
      Members(n, k, l1, l2)
    }

    /** Storage is not initialised beyond the first level: any second-level words will do. */
    constructor (n: nat, k: nat, stale: seq<seq<set<nat>>>)
      requires k > 0 && |stale| == n
      requires forall i0: nat :: i0 < n ==> RowOk(k, {}, stale[i0])
      ensures Valid() && Elems() == {} && this.n == n && this.k == k
    {
      this.n, this.k := n, k;
      l1 := seq(n, _ => {});
      l2 := stale;
    }

    method Clear()
      requires Valid()
      modifies this
      ensures Valid() && Elems() == {} && l2 == old(l2)
    {
      var i: nat := 0;
      while i < n
        invariant i <= n && |l1| == n && l2 == old(l2)
        invariant forall j: nat :: j < n ==> l1[j] == if j < i then {} else old(l1)[j]
      {
        l1 := l1[i := {}];
        i := i + 1;
      }
    }

    method Empty() returns (empty: bool)
      requires Valid()
      ensures empty <==> Elems() == {}
    {
      var i: nat := 0;
      while i < n
        invariant i <= n && forall j: nat :: j < i ==> l1[j] == {}
      {
        if l1[i] != {} {
          var i1 :| i1 in l1[i];
          var i2 :| i2 in l2[i][i1];
          MemberOfBit(n, k, l1, l2, i, i1, i2);
          assert RowHas(l1[i], l2[i], i1, i2);
          return false;
        }
        i := i + 1;
      }
      empty := true;
    }

    /** Puts a row in place. */
    method SetRow(i0: nat, r1: set<nat>, r2: seq<set<nat>>)
      requires Valid() && i0 < n && RowOk(k, r1, r2)
      modifies this
      ensures Valid() && l1 == old(l1)[i0 := r1] && l2 == old(l2)[i0 := r2]
    {
      l1 := l1[i0 := r1];
      l2 := l2[i0 := r2];
    }

    /** What check() and the row lookup make of an index. */
    method Locate(idx: nat) returns (at: Access<nat>)
      requires Valid()
      ensures at == if idx < n * k * k then Done(Idx0(k, idx)) else if idx == n * k * k then Beyond else Refused
      ensures at.Done? ==> at.value < n && Idx1(k, idx) < k && Idx2(k, idx) < k
    {
      if idx > n * k * k {
        return Refused;
      }
      BitOfMember(n, k, l1, l2, idx);
      at := if Idx0(k, idx) < n then Done(Idx0(k, idx)) else Beyond;
    }

    method SetBit(idx: nat) returns (changed: Access<bool>)
      requires Valid()
      modifies this
      ensures Valid() && Elems() == if changed.Done? then old(Elems()) + {idx} else old(Elems())
      ensures changed == Checked(idx, n * k * k, idx !in old(Elems()))
    {
      var at := Locate(idx);
      if !at.Done? {
        return if at.Beyond? then Beyond else Refused;
      }
      var i0, i1, i2 := at.value, Idx1(k, idx), Idx2(k, idx);
      BitOfMember(n, k, l1, l2, idx);
      var r1, r2, c := SetBitInRow(k, l1[i0], l2[i0], i1, i2);
      changed := Done(c);
      SetRow(i0, r1, r2);
      forall j: nat
        ensures j in Elems() <==> j in old(Elems()) + {idx}
      {
        BitOfMember(n, k, l1, l2, j);
        BitOfMember(n, k, old(l1), old(l2), j);
        JoinOfSplit(k, j);
        JoinOfSplit(k, idx);
      }
    }

    method ClearBit(idx: nat) returns (changed: Access<bool>)
      requires Valid()
      modifies this
      ensures Valid() && Elems() == old(Elems()) - {idx}
      ensures changed == Checked(idx, n * k * k, idx in old(Elems()))
    {
      var at := Locate(idx);
      if !at.Done? {
        return if at.Beyond? then Beyond else Refused;
      }
      var i0, i1, i2 := at.value, Idx1(k, idx), Idx2(k, idx);
      BitOfMember(n, k, l1, l2, idx);
      var r1, r2, c := ClearBitInRow(k, l1[i0], l2[i0], i1, i2);
      changed := Done(c);
      SetRow(i0, r1, r2);
      forall j: nat
        ensures j in Elems() <==> j in old(Elems()) - {idx}
      {
        BitOfMember(n, k, l1, l2, j);
        BitOfMember(n, k, old(l1), old(l2), j);
        JoinOfSplit(k, j);
        JoinOfSplit(k, idx);
      }
    }

    method GetBit(idx: nat) returns (bit: Access<bool>)
      requires Valid()
      ensures bit == Checked(idx, n * k * k, idx in Elems())
    {
      var at := Locate(idx);
      if !at.Done? {
        return if at.Beyond? then Beyond else Refused;
      }
      var i0, i1, i2 := at.value, Idx1(k, idx), Idx2(k, idx);
      BitOfMember(n, k, l1, l2, idx);
      bit := Done(i1 in l1[i0] && i2 in l2[i0][i1]);
    }

    /** Removes and returns the smallest index. */
    method GetAndClearFirstOne() returns (res: nat)
      requires Valid() && Elems() != {}
      modifies this
      ensures Valid() && res == Least(old(Elems())) && Elems() == old(Elems()) - {res}
    {
      var i0: nat := 0;
      while i0 < n && l1[i0] == {}
        invariant i0 <= n && forall j: nat :: j < i0 ==> l1[j] == {}
        invariant l1 == old(l1) && l2 == old(l2)
      {
        i0 := i0 + 1;
      }
      SomeRow(n, k, l1, l2);
      FirstOne(n, k, l1, l2, i0);
      var r1, r2, i1, i2 := TakeFirstInRow(k, l1[i0], l2[i0]);
      RemoveOne(n, k, l1, l2, i0, r1, r2, i1, i2);
      SetRow(i0, r1, r2);
      res := Join(k, i0, i1, i2);
    }

    method SetUnion(v: TwoLevelBitVector) returns (changed: bool)
      requires Valid() && v.Valid() && v.n == n && v.k == k
      modifies this
      ensures Valid() && Elems() == old(Elems()) + old(v.Elems())
      ensures changed <==> Elems() != old(Elems())
    {
      changed := false;
      var i0: nat := 0;
      ghost var m1, m2, v1, v2 := l1, l2, v.l1, v.l2;
      while i0 < n
        invariant i0 <= n && Valid() && v.Valid()
        invariant forall j: nat {:trigger v.l1[j]} :: i0 <= j < n ==> v.l1[j] == v1[j] && v.l2[j] == v2[j]
        invariant forall j: nat {:trigger l1[j]} :: j < i0 ==> RowsUnion(m1[j], m2[j], v1[j], v2[j], l1[j], l2[j])
        invariant forall j: nat {:trigger l1[j]} :: i0 <= j < n ==> l1[j] == m1[j] && l2[j] == m2[j]
        invariant changed <==> exists j: nat {:trigger m1[j]} :: j < i0 && RowMisses(m1[j], m2[j], l1[j], l2[j])
      {
        var r1, r2, c := UnionRow(k, l1[i0], l2[i0], v.l1[i0], v.l2[i0]);
        SetRow(i0, r1, r2);
        if c {
          changed := true;
          assert RowMisses(m1[i0], m2[i0], l1[i0], l2[i0]);
        }
        i0 := i0 + 1;
      }
      UnionMembers(n, k, m1, m2, v1, v2, l1, l2);
      RowMissIsSetMiss(n, k, m1, m2, l1, l2);
    }

    method SetIntersection(v: TwoLevelBitVector) returns (changed: bool)
      requires Valid() && v.Valid() && v.n == n && v.k == k
      modifies this
      ensures Valid() && Elems() == old(Elems()) * old(v.Elems())
      ensures changed <==> Elems() != old(Elems())
    {
      changed := false;
      var i0: nat := 0;
      ghost var m1, m2, v1, v2 := l1, l2, v.l1, v.l2;
      while i0 < n
        invariant i0 <= n && Valid() && v.Valid()
        invariant forall j: nat {:trigger v.l1[j]} :: i0 <= j < n ==> v.l1[j] == v1[j] && v.l2[j] == v2[j]
        invariant forall j: nat {:trigger l1[j]} :: j < i0 ==> RowsMeetIn(m1[j], m2[j], v1[j], v2[j], l1[j], l2[j])
        invariant forall j: nat {:trigger l1[j]} :: i0 <= j < n ==> l1[j] == m1[j] && l2[j] == m2[j]
        invariant changed <==> exists j: nat {:trigger l1[j]} :: j < i0 && RowMisses(l1[j], l2[j], m1[j], m2[j])
      {
        ghost var was := l1;
        var r1, r2, c := IntersectRow(k, l1[i0], l2[i0], v.l1[i0], v.l2[i0]);
        SetRow(i0, r1, r2);
        assert forall j: nat :: j < i0 ==> l1[j] == was[j];
        if c {
          changed := true;
          assert RowMisses(l1[i0], l2[i0], m1[i0], m2[i0]);
        }
        i0 := i0 + 1;
      }
      IntersectionMembers(n, k, m1, m2, v1, v2, l1, l2);
      RowMissIsSetMiss(n, k, l1, l2, m1, m2);
    }

    method SetDifference(v: TwoLevelBitVector) returns (changed: bool)
      requires Valid() && v.Valid() && v.n == n && v.k == k
      modifies this
      ensures Valid() && Elems() == old(Elems()) - old(v.Elems())
      ensures changed <==> Elems() != old(Elems())
    {
      changed := false;
      var i0: nat := 0;
      ghost var m1, m2, v1, v2 := l1, l2, v.l1, v.l2;
      while i0 < n
        invariant i0 <= n && Valid() && v.Valid()
        invariant forall j: nat {:trigger v.l1[j]} :: i0 <= j < n ==> v.l1[j] == v1[j] && v.l2[j] == v2[j]
        invariant forall j: nat {:trigger l1[j]} :: j < i0 ==> RowsDiffer(m1[j], m2[j], v1[j], v2[j], l1[j], l2[j])
        invariant forall j: nat {:trigger l1[j]} :: i0 <= j < n ==> l1[j] == m1[j] && l2[j] == m2[j]
        invariant changed <==> exists j: nat {:trigger l1[j]} :: j < i0 && RowMisses(l1[j], l2[j], m1[j], m2[j])
      {
        ghost var was := l1;
        var r1, r2, c := DifferenceRow(k, l1[i0], l2[i0], v.l1[i0], v.l2[i0]);
        SetRow(i0, r1, r2);
        assert forall j: nat :: j < i0 ==> l1[j] == was[j];
        if c {
          changed := true;
          assert RowMisses(l1[i0], l2[i0], m1[i0], m2[i0]);
        }
        i0 := i0 + 1;
      }
      DifferenceMembers(n, k, m1, m2, v1, v2, l1, l2);
      RowMissIsSetMiss(n, k, l1, l2, m1, m2);
    }

    /** Copying a vector onto itself clears it. */
    method CopyFrom(v: TwoLevelBitVector)
      requires Valid() && v.Valid() && v.n == n && v.k == k
      modifies this
      ensures Valid() && Elems() == if v == this then {} else old(v.Elems())
    {
      Clear();
      var _ := SetUnion(v);
    }

    method IntersectsWith(v: TwoLevelBitVector) returns (meet: bool)
      requires Valid() && v.Valid() && v.n == n && v.k == k
      ensures meet <==> Elems() * v.Elems() != {}
    {
      var i0: nat := 0;
      while i0 < n
        invariant i0 <= n
        invariant forall j: nat, i1: nat, i2: nat ::
          j < i0 && RowHas(l1[j], l2[j], i1, i2) ==> !RowHas(v.l1[j], v.l2[j], i1, i2)
      {
        var c := RowsMeet(k, l1[i0], l2[i0], v.l1[i0], v.l2[i0]);
        if c {
          ghost var i1: nat, i2: nat :| RowHas(l1[i0], l2[i0], i1, i2) && RowHas(v.l1[i0], v.l2[i0], i1, i2);
          MemberOfBit(n, k, l1, l2, i0, i1, i2);
          MemberOfBit(n, k, v.l1, v.l2, i0, i1, i2);
          assert Join(k, i0, i1, i2) in Elems() * v.Elems();
          return true;
        }
        i0 := i0 + 1;
      }
      forall idx: nat | idx in Elems()
        ensures idx !in v.Elems()
      {
        BitOfMember(n, k, l1, l2, idx);
        BitOfMember(n, k, v.l1, v.l2, idx);
      }
      meet := false;
    }
  }

  // ------------------------------------------------------------- iterator

  /** Bit (i0, i1, i2) has not been returned yet: it is in the word being read, in a word of
      the current row still to be read, or in a later row. */
  ghost predicate Ahead(l1: seq<set<nat>>, l2: seq<seq<set<nat>>>, c0: nat, c1: nat, it1: set<nat>, it2: set<nat>,
                        i0: nat, i1: nat, i2: nat)
    requires |l1| == |l2|
  {
    if it1 == {} && it2 == {} then
      c0 <= i0 < |l1| && RowHas(l1[i0], l2[i0], i1, i2)
    else
      || (i0 == c0 && i1 == c1 && i2 in it2)
      || (i0 == c0 && i0 < |l1| && i1 in it1 && RowHas(l1[i0], l2[i0], i1, i2))
      || (c0 < i0 < |l1| && RowHas(l1[i0], l2[i0], i1, i2))
  }

  /** Runs an iterator to its end: every index once, in ascending order. */
  method Iterate(bv: TwoLevelBitVector) returns (r: seq<nat>)
    requires bv.Valid()
    ensures forall a: nat, b: nat :: a < b < |r| ==> r[a] < r[b]
    ensures forall idx: nat :: idx in r <==> idx in bv.Elems()
  {
    r := [];
    var it := new Iterator(bv);
    ghost var all := bv.Elems();
    var more := it.HasNext();
    while more
      invariant fresh(it) && it.Valid() && (more <==> it.Remaining() != {})
      invariant Progress(all, it.Remaining(), r)
      decreases it.Remaining()
    {
      ghost var left, r0 := it.Remaining(), r;
      var idx := it.Next();
      r := r + [idx];
      ProgressStep(all, left, r0, idx);
      more := it.HasNext();
    }
  }

  /** r lists in ascending order what has been taken off the front of `all`. */
  ghost predicate Progress(all: set<nat>, left: set<nat>, r: seq<nat>) {
    && (forall a: nat, b: nat :: a < b < |r| ==> r[a] < r[b])
    && left <= all
    && (forall a: nat :: a < |r| ==> r[a] in all - left)
    && (forall idx: nat :: idx in all - left ==> idx in r)
    && (forall a: nat, idx: nat :: a < |r| && idx in left ==> r[a] < idx)
  }

  lemma ProgressStep(all: set<nat>, left: set<nat>, r: seq<nat>, idx: nat)
    requires Progress(all, left, r) && left != {} && idx == Least(left)
    ensures Progress(all, left - {idx}, r + [idx])
  {
    forall j: nat | j in all - (left - {idx})
      ensures j in r + [idx]
    {
      assert j == idx || j in r;
    }
  }

  class Iterator {
    const n: nat
    const k: nat
    const l1: seq<set<nat>>
    const l2: seq<seq<set<nat>>>
    var i0: nat
    var i1: nat
    var it1: set<nat>
    var it2: set<nat>

    ghost predicate Valid()
      reads this
    {
      && VecOk(n, k, l1, l2) && i0 <= n
      && (it1 != {} || it2 != {} ==> i0 < n && it1 <= l1[i0])
      && (it2 != {} ==> i1 in l1[i0] && it2 <= l2[i0][i1] && forall x :: x in it1 ==> i1 < x)
    }

    ghost predicate Left(idx: nat)
      requires Valid()
      reads this
    {
      Ahead(l1, l2, i0, i1, it1, it2, Idx0(k, idx), Idx1(k, idx), Idx2(k, idx))
    }

    /** The indices still to come. */
    ghost function Remaining(): (s: set<nat>)
      requires Valid()
      reads this
      ensures forall idx: nat :: idx in s <==> idx < n * k * k && Left(idx)
    {
      set idx: nat | idx < n * k * k && Left(idx)
    }

    constructor (bv: TwoLevelBitVector)
      requires bv.Valid()
      ensures Valid() && Remaining() == bv.Elems()
    {
      n, k, l1, l2 := bv.n, bv.k, bv.l1, bv.l2;
      i0, i1, it1, it2 := 0, 0, {}, {};
      new;
      assert forall idx: nat :: idx in Remaining() <==> idx in Members(n, k, l1, l2);
    }

    method HasNext() returns (more: bool)
      requires Valid()
      ensures more <==> Remaining() != {}
    {
      if it1 != {} {
        var x :| x in it1;
        var y :| y in l2[i0][x];
        StillLeft(i0, x, y);
        return true;
      }
      var i := i0;
      while i < n
        invariant i0 <= i <= n && forall j: nat :: i0 <= j < i ==> l1[j] == {}
      {
        if l1[i] != {} {
          if it2 != {} && i == i0 {
            var y :| y in it2;
            StillLeft(i0, i1, y);
          } else {
            var x :| x in l1[i];
            var y :| y in l2[i][x];
            StillLeft(i, x, y);
          }
          return true;
        }
        i := i + 1;
      }
      more := false;
    }

    lemma StillLeft(j0: nat, j1: nat, j2: nat)
      requires Valid() && j0 < n && j1 < k && j2 < k && Ahead(l1, l2, i0, i1, it1, it2, j0, j1, j2)
      ensures Join(k, j0, j1, j2) in Remaining()
    {
      SplitOfJoin(k, j0, j1, j2);
      JoinBound(n, k, j0, j1, j2);
    }

    /** First part of `next`: move on to the next non-empty row when the last one is read. */
    method Refill()
      requires Valid() && Remaining() != {}
      modifies this
      ensures Valid() && Remaining() == old(Remaining()) && (it1 != {} || it2 != {})
    {
      if it1 == {} && it2 == {} {
        ghost var some :| some in Remaining();
        while i0 < n && l1[i0] == {}
          invariant it1 == {} && it2 == {} && i0 <= n && old(i0) <= i0
          invariant forall j: nat :: old(i0) <= j < i0 ==> l1[j] == {}
        {
          i0 := i0 + 1;
        }
        assert i0 < n by {
          assert RowHas(l1[Idx0(k, some)], l2[Idx0(k, some)], Idx1(k, some), Idx2(k, some));
        }
        it1 := l1[i0];
      }
    }

    /** Second part of `next`: start on the next word when the last one is read. */
    method Reload()
      requires Valid() && (it1 != {} || it2 != {})
      modifies this
      ensures Valid() && Remaining() == old(Remaining()) && it2 != {}
    {
      if it2 == {} {
        i1 := Least(it1);
        it1 := it1 - {i1};
        it2 := l2[i0][i1];
      }
    }

    method Next() returns (res: nat)
      requires Valid() && Remaining() != {}
      modifies this
      ensures Valid() && res == Least(old(Remaining())) && Remaining() == old(Remaining()) - {res}
    {
      Refill();
      Reload();
      FirstAhead();
      res := Take();
    }

    /** Last part of `next`: take the lowest bit of the current word. */
    method Take() returns (res: nat)
      requires Valid() && it2 != {}
      modifies this
      ensures Valid() && res == old(Join(k, i0, i1, Least(it2))) && Remaining() == old(Remaining()) - {res}
    {
      var i2 := Least(it2);
      res := Join(k, i0, i1, i2);
      SplitOfJoin(k, i0, i1, i2);
      it2 := it2 - {i2};
      if it1 == {} && it2 == {} {
        i0 := i0 + 1;
      }
      forall idx: nat
        ensures idx in Remaining() <==> idx in old(Remaining()) - {res}
      {
        JoinOfSplit(k, idx);
        AheadTake(l1, l2, old(i0), i1, it1, old(it2), i2, i0, it2, Idx0(k, idx), Idx1(k, idx), Idx2(k, idx));
      }
    }

    lemma FirstAhead()
      requires Valid() && it2 != {} && Remaining() != {}
      ensures Join(k, i0, i1, Least(it2)) == Least(Remaining())
    {
      var i2 := Least(it2);
      StillLeft(i0, i1, i2);
      forall j: nat | j in Remaining()
        ensures Join(k, i0, i1, i2) <= j
      {
        JoinOfSplit(k, j);
        JoinOrder(k, i0, i1, i2, Idx0(k, j), Idx1(k, j), Idx2(k, j));
      }
    }
  }

  lemma AheadTake(l1: seq<set<nat>>, l2: seq<seq<set<nat>>>, c0: nat, c1: nat, it1: set<nat>, it2: set<nat>, i2: nat,
                  c0': nat, it2': set<nat>, j0: nat, j1: nat, j2: nat)
    requires |l1| == |l2| && i2 in it2 && it2' == it2 - {i2} && forall x :: x in it1 ==> c1 < x
    requires c0' == if it1 == {} && it2' == {} then c0 + 1 else c0
    ensures Ahead(l1, l2, c0', c1, it1, it2', j0, j1, j2) <==>
      Ahead(l1, l2, c0, c1, it1, it2, j0, j1, j2) && !(j0 == c0 && j1 == c1 && j2 == i2)
  {
    assert forall x :: x in it2 ==> x == i2 || x in it2';
  }

  // ------------------------------------------------------------- lemmas about rows and sets

  lemma SomeRow(n: nat, k: nat, l1: seq<set<nat>>, l2: seq<seq<set<nat>>>)
    requires VecOk(n, k, l1, l2) && Members(n, k, l1, l2) != {}
    ensures exists i0: nat :: i0 < n && l1[i0] != {}
  {
    var idx :| idx in Members(n, k, l1, l2);
    BitOfMember(n, k, l1, l2, idx);
    assert l1[Idx0(k, idx)] != {};
  }

  lemma FirstOne(n: nat, k: nat, l1: seq<set<nat>>, l2: seq<seq<set<nat>>>, i0: nat)
    requires VecOk(n, k, l1, l2) && i0 < n && l1[i0] != {}
    requires forall j: nat :: j < i0 ==> l1[j] == {}
    ensures Members(n, k, l1, l2) != {} && Least(l1[i0]) < k && l2[i0][Least(l1[i0])] != {}
    ensures Join(k, i0, Least(l1[i0]), Least(l2[i0][Least(l1[i0])])) == Least(Members(n, k, l1, l2))
  {
    var i1 := Least(l1[i0]);
    var i2 := Least(l2[i0][i1]);
    var res := Join(k, i0, i1, i2);
    assert RowHas(l1[i0], l2[i0], i1, i2);
    MemberOfBit(n, k, l1, l2, i0, i1, i2);
    forall j: nat | j in Members(n, k, l1, l2)
      ensures res <= j
    {
      BitOfMember(n, k, l1, l2, j);
      JoinOfSplit(k, j);
      JoinOrder(k, i0, i1, i2, Idx0(k, j), Idx1(k, j), Idx2(k, j));
    }
  }

  lemma RemoveOne(n: nat, k: nat, l1: seq<set<nat>>, l2: seq<seq<set<nat>>>, i0: nat, r1: set<nat>, r2: seq<set<nat>>,
                  i1: nat, i2: nat)
    requires VecOk(n, k, l1, l2) && i0 < n && i1 < k && i2 < k && RowOk(k, r1, r2)
    requires forall j1: nat, j2: nat ::
      RowHas(r1, r2, j1, j2) <==> RowHas(l1[i0], l2[i0], j1, j2) && !(j1 == i1 && j2 == i2)
    ensures Members(n, k, l1[i0 := r1], l2[i0 := r2]) == Members(n, k, l1, l2) - {Join(k, i0, i1, i2)}
  {
    var m1, m2 := l1[i0 := r1], l2[i0 := r2];
    SplitOfJoin(k, i0, i1, i2);
    forall j: nat
      ensures j in Members(n, k, m1, m2) <==> j in Members(n, k, l1, l2) - {Join(k, i0, i1, i2)}
    {
      BitOfMember(n, k, l1, l2, j);
      BitOfMember(n, k, m1, m2, j);
      JoinOfSplit(k, j);
    }
  }

  ghost predicate RowsUnion(a1: set<nat>, a2: seq<set<nat>>, b1: set<nat>, b2: seq<set<nat>>, r1: set<nat>, r2: seq<set<nat>>) {
    forall i1: nat, i2: nat :: RowHas(r1, r2, i1, i2) <==> RowHas(a1, a2, i1, i2) || RowHas(b1, b2, i1, i2)
  }

  ghost predicate RowsMeetIn(a1: set<nat>, a2: seq<set<nat>>, b1: set<nat>, b2: seq<set<nat>>, r1: set<nat>, r2: seq<set<nat>>) {
    forall i1: nat, i2: nat :: RowHas(r1, r2, i1, i2) <==> RowHas(a1, a2, i1, i2) && RowHas(b1, b2, i1, i2)
  }

  ghost predicate RowsDiffer(a1: set<nat>, a2: seq<set<nat>>, b1: set<nat>, b2: seq<set<nat>>, r1: set<nat>, r2: seq<set<nat>>) {
    forall i1: nat, i2: nat :: RowHas(r1, r2, i1, i2) <==> RowHas(a1, a2, i1, i2) && !RowHas(b1, b2, i1, i2)
  }

  lemma UnionMembers(n: nat, k: nat, a1: seq<set<nat>>, a2: seq<seq<set<nat>>>, b1: seq<set<nat>>, b2: seq<seq<set<nat>>>,
                     r1: seq<set<nat>>, r2: seq<seq<set<nat>>>)
    requires VecOk(n, k, a1, a2) && VecOk(n, k, b1, b2) && VecOk(n, k, r1, r2)
    requires forall j: nat {:trigger r1[j]} :: j < n ==> RowsUnion(a1[j], a2[j], b1[j], b2[j], r1[j], r2[j])
    ensures Members(n, k, r1, r2) == Members(n, k, a1, a2) + Members(n, k, b1, b2)
  {
    forall idx: nat
      ensures idx in Members(n, k, r1, r2) <==> idx in Members(n, k, a1, a2) + Members(n, k, b1, b2)
    {
      BitOfMember(n, k, r1, r2, idx);
      assert Idx0(k, idx) < n ==> RowsUnion(a1[Idx0(k, idx)], a2[Idx0(k, idx)], b1[Idx0(k, idx)], b2[Idx0(k, idx)], r1[Idx0(k, idx)], r2[Idx0(k, idx)]);
    }
  }

  lemma IntersectionMembers(n: nat, k: nat, a1: seq<set<nat>>, a2: seq<seq<set<nat>>>, b1: seq<set<nat>>, b2: seq<seq<set<nat>>>,
                            r1: seq<set<nat>>, r2: seq<seq<set<nat>>>)
    requires VecOk(n, k, a1, a2) && VecOk(n, k, b1, b2) && VecOk(n, k, r1, r2)
    requires forall j: nat {:trigger r1[j]} :: j < n ==> RowsMeetIn(a1[j], a2[j], b1[j], b2[j], r1[j], r2[j])
    ensures Members(n, k, r1, r2) == Members(n, k, a1, a2) * Members(n, k, b1, b2)
  {
    forall idx: nat
      ensures idx in Members(n, k, r1, r2) <==> idx in Members(n, k, a1, a2) * Members(n, k, b1, b2)
    {
      BitOfMember(n, k, r1, r2, idx);
      assert Idx0(k, idx) < n ==> RowsMeetIn(a1[Idx0(k, idx)], a2[Idx0(k, idx)], b1[Idx0(k, idx)], b2[Idx0(k, idx)], r1[Idx0(k, idx)], r2[Idx0(k, idx)]);
    }
  }

  lemma DifferenceMembers(n: nat, k: nat, a1: seq<set<nat>>, a2: seq<seq<set<nat>>>, b1: seq<set<nat>>, b2: seq<seq<set<nat>>>,
                          r1: seq<set<nat>>, r2: seq<seq<set<nat>>>)
    requires VecOk(n, k, a1, a2) && VecOk(n, k, b1, b2) && VecOk(n, k, r1, r2)
    requires forall j: nat {:trigger r1[j]} :: j < n ==> RowsDiffer(a1[j], a2[j], b1[j], b2[j], r1[j], r2[j])
    ensures Members(n, k, r1, r2) == Members(n, k, a1, a2) - Members(n, k, b1, b2)
  {
    forall idx: nat
      ensures idx in Members(n, k, r1, r2) <==> idx in Members(n, k, a1, a2) - Members(n, k, b1, b2)
    {
      BitOfMember(n, k, r1, r2, idx);
      assert Idx0(k, idx) < n ==> RowsDiffer(a1[Idx0(k, idx)], a2[Idx0(k, idx)], b1[Idx0(k, idx)], b2[Idx0(k, idx)], r1[Idx0(k, idx)], r2[Idx0(k, idx)]);
    }
  }
}
