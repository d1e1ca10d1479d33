/**
 The work queue of the block differ (tools/llvm-diff-parmesan/DifferenceEngine.cpp): a
 binary heap in a vector, and the loop that unifies blocks through it.
 */
module BlockQueue {
  import opened Common

  // ------------------------------------------------------------- orders

  /** A strict weak order: what a comparator must be for a heap to be a heap. */
  ghost predicate WeakOrder<T(!new)>(less: (T, T) -> bool) {
    && (forall a, b, c :: less(a, b) && less(b, c) ==> less(a, c))
    && (forall a, b, c :: !less(a, b) && !less(b, c) ==> !less(a, c))
    && (forall a :: !less(a, a))
  }

  function Parent(k: nat): nat
    requires k > 0
  {
    (k + 1) / 2 - 1
  }

  ghost predicate Ordered<T>(s: seq<T>, less: (T, T) -> bool, k: nat)
    requires k < |s|
  {
    k > 0 ==> !less(s[k], s[Parent(k)])
  }

  ghost predicate Heap<T>(s: seq<T>, less: (T, T) -> bool) {
    forall k: nat :: k < |s| ==> Ordered(s, less, k)
  }

  /** The children of `at` do not precede what is above `at`. */
  ghost predicate GrandOrdered<T>(s: seq<T>, less: (T, T) -> bool, at: nat, k: nat)
    requires at < |s| && k < |s|
  {
    k > 0 && Parent(k) == at && at > 0 ==> !less(s[k], s[Parent(at)])
  }

  /** A heap except that the element at `at` may precede its parent. */
  ghost predicate RisingAt<T>(s: seq<T>, less: (T, T) -> bool, at: nat) {
    && at < |s|
    && (forall k: nat :: k < |s| && k != at ==> Ordered(s, less, k))
    && (forall k: nat :: k < |s| ==> GrandOrdered(s, less, at, k))
  }

  /** A heap except that children of `at` may precede it. */
  ghost predicate SinkingAt<T>(s: seq<T>, less: (T, T) -> bool, at: nat) {
    && at < |s|
    && (forall k: nat :: 0 < k < |s| && Parent(k) != at ==> Ordered(s, less, k))
    && (forall k: nat :: k < |s| ==> GrandOrdered(s, less, at, k))
  }

  lemma RiseStep<T(!new)>(s: seq<T>, less: (T, T) -> bool, at: nat)
    requires WeakOrder(less) && RisingAt(s, less, at) && at > 0 && less(s[at], s[Parent(at)])
    ensures RisingAt(Swapped(s, at, Parent(at)), less, Parent(at))
  {
    var p := Parent(at);
    var r := Swapped(s, at, p);
    forall k: nat | k < |r|
      ensures k != p ==> Ordered(r, less, k)
      ensures GrandOrdered(r, less, p, k)
    {
      assert k != at ==> Ordered(s, less, k);
      assert GrandOrdered(s, less, at, k);
      assert p != at ==> Ordered(s, less, p);
    }
  }

  lemma RiseEnds<T>(s: seq<T>, less: (T, T) -> bool, at: nat)
    requires RisingAt(s, less, at) && (at == 0 || !less(s[at], s[Parent(at)]))
    ensures Heap(s, less)
  {
    forall k: nat | k < |s|
      ensures Ordered(s, less, k)
    {
      assert k != at ==> Ordered(s, less, k);
    }
  }

  /** Swapping with the child that precedes its sibling moves the violation down. */
  lemma SinkStep<T(!new)>(s: seq<T>, less: (T, T) -> bool, at: nat, c: nat)
    requires WeakOrder(less) && SinkingAt(s, less, at) && 0 < c < |s| && Parent(c) == at && less(s[c], s[at])
    requires forall k: nat :: 0 < k < |s| && Parent(k) == at ==> !less(s[k], s[c])
    ensures SinkingAt(Swapped(s, at, c), less, c)
  {
    var r := Swapped(s, at, c);
    forall k: nat | k < |r|
      ensures k > 0 && Parent(k) != c ==> Ordered(r, less, k)
      ensures GrandOrdered(r, less, c, k)
    {
      assert k > 0 && Parent(k) != at ==> Ordered(s, less, k);
      assert GrandOrdered(s, less, at, k) && GrandOrdered(s, less, at, c);
    }
  }

  lemma SinkEnds<T>(s: seq<T>, less: (T, T) -> bool, at: nat)
    requires SinkingAt(s, less, at)
    requires forall k: nat :: 0 < k < |s| && Parent(k) == at ==> !less(s[k], s[at])
    ensures Heap(s, less)
  {
    forall k: nat | k < |s|
      ensures Ordered(s, less, k)
    {
      assert k > 0 && Parent(k) != at ==> Ordered(s, less, k);
    }
  }

  /** Nothing in a heap precedes its root. */
  lemma {:induction false} RootIsMin<T(!new)>(s: seq<T>, less: (T, T) -> bool, k: nat)
    requires WeakOrder(less) && Heap(s, less) && k < |s|
    ensures !less(s[k], s[0])
  {
    if k > 0 {
      assert Ordered(s, less, k);
      RootIsMin(s, less, Parent(k));
    }
  }

  /** Nothing in s precedes v. */
  ghost predicate LeastOf<T>(s: seq<T>, v: T, less: (T, T) -> bool) {
    forall k: nat {:trigger s[k]} :: k < |s| ==> !less(s[k], v)
  }

  lemma RootIsLeast<T(!new)>(s: seq<T>, less: (T, T) -> bool)
    requires s != []
    ensures WeakOrder(less) && Heap(s, less) ==> LeastOf(s, s[0], less)
  {
    if WeakOrder(less) && Heap(s, less) {
      forall k: nat | k < |s|
        ensures !less(s[k], s[0])
      {
        RootIsMin(s, less, k);
      }
    }
  }

  // ------------------------------------------------------------- the queue

  /** A new last element would not precede its parent. */
  ghost predicate StaysLast<T>(s: seq<T>, v: T, less: (T, T) -> bool) {
    s != [] ==> !less(v, s[Parent(|s|)])
  }

  class PriorityQueue<T(==, !new)> {
    var storage: seq<T>

    constructor ()
      ensures storage == []
    {
      storage := [];
    }

    /** Conserves the elements under any comparator, the heap under a fixed weak order. */
    method Insert(v: T, precedes: (T, T) -> bool)
      modifies this
      ensures multiset(storage) == multiset(old(storage)) + multiset{v}
      ensures WeakOrder(precedes) && Heap(old(storage), precedes) ==> Heap(storage, precedes)
      ensures StaysLast(old(storage), v, precedes) ==> storage == old(storage) + [v]
    {
      ghost var sound := WeakOrder(precedes) && Heap(storage, precedes);
      var index: nat := |storage|;
      storage := storage + [v];
      if index == 0 {
        return;
      }
      if sound {
        PushRises(old(storage), v, precedes);
      }
      while true
        invariant 0 < index < |storage|
        invariant multiset(storage) == multiset(old(storage)) + multiset{v}
        invariant sound ==> RisingAt(storage, precedes, index)
        invariant StaysLast(old(storage), v, precedes) ==> storage == old(storage) + [v] && index == |old(storage)|
        decreases index
      {
        var target := (index + 1) / 2 - 1;
        if !precedes(storage[index], storage[target]) {
          if sound {
            RiseEnds(storage, precedes, index);
          }
          return;
        }
        if sound {
          RiseStep(storage, precedes, index);
        }
        storage := Swapped(storage, index, target);
        if target == 0 {
          if sound {
            RiseEnds(storage, precedes, target);
          }
          return;
        }
        index := target;
      }
    }

    /** Removes the root.  `podLike` only decides whether the last slot is copied or swapped in. */
    method RemoveMin(precedes: (T, T) -> bool, podLike: bool) returns (tmp: T)
      requires storage != []
      modifies this
      ensures tmp == old(storage)[0]
      ensures multiset(storage) + multiset{tmp} == multiset(old(storage)) && |storage| == |old(storage)| - 1
      ensures WeakOrder(precedes) && Heap(old(storage), precedes) ==>
        Heap(storage, precedes) && LeastOf(old(storage), tmp, precedes)
    {
      tmp := storage[0];
      RootIsLeast(storage, precedes);
      var newSize := |storage| - 1;
      if newSize != 0 {
        storage := if podLike then storage[0 := storage[newSize]] else Swapped(storage, 0, newSize);
        MovedLast(old(storage), storage, precedes);
        SinkRoot(newSize, precedes);
      } else {
        assert old(storage) == [tmp] && storage[..newSize] == [];
      }
      storage := storage[..newSize];
    }

    /** The child to swap slot `index` with, if any, and whether the bubbling ends there. */
    method PickChild(n: nat, index: nat, precedes: (T, T) -> bool) returns (c: nat, done: bool)
      requires index < n <= |storage|
      ensures c < n && (c == index ==> done)
      ensures c != index ==> c > 0 && Parent(c) == index && precedes(storage[c], storage[index])
      ensures WeakOrder(precedes) ==>
        forall k: nat :: 0 < k < n && Parent(k) == index ==> !precedes(storage[k], storage[c])
      ensures done && c != index ==> 2 * c + 1 >= n
    {
      Children(index, n);
      var r := (index + 1) * 2;
      var l := r - 1;
      if r >= n {
        if l < n && precedes(storage[l], storage[index]) {
          return l, true;
        }
        return index, true;
      }
      var toTest := if precedes(storage[l], storage[r]) then l else r;
      if !precedes(storage[toTest], storage[index]) {
        return index, true;
      }
      return toTest, false;
    }

    /** Sinks the root of the first n slots. */
    method SinkRoot(n: nat, precedes: (T, T) -> bool)
      requires 0 < n <= |storage|
      modifies this
      ensures |storage| == |old(storage)| && multiset(storage[..n]) == multiset(old(storage)[..n])
      ensures WeakOrder(precedes) && SinkingAt(old(storage)[..n], precedes, 0) ==> Heap(storage[..n], precedes)
    {
      ghost var sound := WeakOrder(precedes) && SinkingAt(storage[..n], precedes, 0);
      var index: nat := 0;
      while true
        invariant index < n <= |storage| == |old(storage)|
        invariant multiset(storage[..n]) == multiset(old(storage)[..n])
        invariant sound ==> SinkingAt(storage[..n], precedes, index)
        decreases n - index
      {
        var c, done := PickChild(n, index, precedes);
        if c == index {
          if sound {
            SinkEnds(storage[..n], precedes, index);
          }
          return;
        }
        SwapPrefix(storage, index, c, n);
        if sound {
          SinkStep(storage[..n], precedes, index, c);
        }
        storage := Swapped(storage, index, c);
        if done {
          if sound {
            Children(c, n);
            SinkEnds(storage[..n], precedes, c);
          }
          return;
        }
        index := c;
      }
    }
  }

  lemma Children(index: nat, n: nat)
    ensures forall k: nat :: 0 < k < n && Parent(k) == index ==> k == 2 * index + 1 || k == 2 * index + 2
  {
  }

  lemma PushRises<T>(s: seq<T>, v: T, less: (T, T) -> bool)
    requires Heap(s, less) && s != []
    ensures RisingAt(s + [v], less, |s|)
  {
    forall k: nat | k < |s| + 1
      ensures k != |s| ==> Ordered(s + [v], less, k)
      ensures GrandOrdered(s + [v], less, |s|, k)
    {
      assert k < |s| ==> Ordered(s, less, k);
    }
  }

  lemma SwapPrefix<T>(s: seq<T>, i: nat, j: nat, n: nat)
    requires i < n <= |s| && j < n
    ensures Swapped(s, i, j)[..n] == Swapped(s[..n], i, j)
  {
  }

  lemma MovedLast<T>(s: seq<T>, s': seq<T>, less: (T, T) -> bool)
    requires |s| > 1 && |s'| == |s| && s'[0] == s[|s| - 1]
    requires forall k: nat :: 0 < k < |s| - 1 ==> s'[k] == s[k]
    ensures multiset(s'[..|s| - 1]) + multiset{s[0]} == multiset(s)
    ensures Heap(s, less) ==> SinkingAt(s'[..|s| - 1], less, 0)
  {
    var n := |s| - 1;
    assert s == [s[0]] + s[1..n] + [s[n]];
    assert s'[..n] == [s[n]] + s[1..n];
    if Heap(s, less) {
      forall k: nat | k < n
        ensures k > 0 && Parent(k) != 0 ==> Ordered(s'[..n], less, k)
        ensures GrandOrdered(s'[..n], less, 0, k)
      {
        assert Ordered(s, less, k);
      }
    }
  }

  // ------------------------------------------------------------- unifying blocks

  /** A left block and the right block it is taken to correspond to. */
  type BlockPair = (nat, nat)

  /** The unified pairs. */
  ghost function Pairs(m: map<nat, nat>): (s: set<BlockPair>)
    ensures forall p: BlockPair :: p in s <==> p.0 in m && m[p.0] == p.1
  {
    set l | l in m :: (l, m[l])
  }

  function UnprocPredCount(blocks: map<nat, nat>, preds: seq<nat>): nat {
    if preds == [] then 0
    else UnprocPredCount(blocks, preds[1..]) + if preds[0] in blocks then 0 else 1
  }

  /** The positions at which a predecessor that is not unified yet is listed. */
  ghost function Unprocessed(blocks: map<nat, nat>, preds: seq<nat>, n: nat): (s: set<nat>)
    requires n <= |preds|
    ensures forall i: nat :: i in s <==> n <= i < |preds| && preds[i] !in blocks
  {
    set i: nat | n <= i < |preds| && preds[i] !in blocks
  }

  /** A predecessor counts once for each edge it has to the block. */
  lemma {:induction false} CountIsUnprocessed(blocks: map<nat, nat>, preds: seq<nat>, n: nat)
    requires n <= |preds|
    ensures UnprocPredCount(blocks, preds[n..]) == |Unprocessed(blocks, preds, n)|
    decreases |preds| - n
  {
    if n < |preds| {
      CountIsUnprocessed(blocks, preds, n + 1);
      assert preds[n..][1..] == preds[n + 1..];
      var rest := Unprocessed(blocks, preds, n + 1);
      assert Unprocessed(blocks, preds, n) == if preds[n] in blocks then rest else rest + {n};
    } else {
      assert Unprocessed(blocks, preds, n) == {};
    }
  }

  /** QueueSorter: fewer unprocessed predecessors first. */
  function Sorter(blocks: map<nat, nat>, preds: nat -> seq<nat>): (BlockPair, BlockPair) -> bool {
    (p: BlockPair, q: BlockPair) => UnprocPredCount(blocks, preds(p.0)) < UnprocPredCount(blocks, preds(q.0))
  }

  /** It is a weak order, so a heap under it has a pair with the fewest at its root. */
  lemma SorterMeans(blocks: map<nat, nat>, preds: nat -> seq<nat>)
    ensures WeakOrder(Sorter(blocks, preds))
    ensures forall p: BlockPair, q: BlockPair ::
      Sorter(blocks, preds)(p, q) <==> |Unprocessed(blocks, preds(p.0), 0)| < |Unprocessed(blocks, preds(q.0), 0)|
  {
    forall p: BlockPair, q: BlockPair
      ensures Sorter(blocks, preds)(p, q) <==> |Unprocessed(blocks, preds(p.0), 0)| < |Unprocessed(blocks, preds(q.0), 0)|
    {
      CountIsUnprocessed(blocks, preds(p.0), 0);
      CountIsUnprocessed(blocks, preds(q.0), 0);
      assert preds(p.0)[0..] == preds(p.0) && preds(q.0)[0..] == preds(q.0);
    }
  }

  // ------------------------------------------------------------- what a list of pairs unifies

  /** p is the first pair of the list for its left block. */
  ghost predicate Lists(ps: seq<BlockPair>, p: BlockPair) {
    exists k: nat :: k < |ps| && ps[k] == p && FirstAt(ps, k)
  }

  ghost predicate FirstAt(ps: seq<BlockPair>, k: nat)
    requires k < |ps|
  {
    forall j: nat :: j < k ==> ps[j].0 != ps[k].0
  }

  /** The map after trying to unify the listed pairs in order: a taken left block keeps its
      partner, any other gets the first one listed. */
  ghost predicate FirstWins(m: map<nat, nat>, ps: seq<BlockPair>, m': map<nat, nat>) {
    forall p: BlockPair {:trigger p in Pairs(m')} ::
      p in Pairs(m') <==> p in Pairs(m) || (p.0 !in m && Lists(ps, p))
  }

  lemma OneMoreWins(m: map<nat, nat>, ps: seq<BlockPair>, n: nat, m': map<nat, nat>, m'': map<nat, nat>)
    requires n < |ps| && FirstWins(m, ps[..n], m') && m'.Keys == m.Keys + Lefts(ps[..n])
    requires m'' == if ps[n].0 in m' then m' else m'[ps[n].0 := ps[n].1]
    ensures FirstWins(m, ps[..n + 1], m'') && m''.Keys == m.Keys + Lefts(ps[..n + 1])
  {
    var init, all := ps[..n], ps[..n + 1];
    assert all == init + [ps[n]];
    assert Lefts(all) == Lefts(init) + {ps[n].0};
    forall p: BlockPair ensures p in Pairs(m'') <==> p in Pairs(m) || (p.0 !in m && Lists(all, p)) {
      ListsMore(init, ps[n], p);
      assert p in Pairs(m') <==> p in Pairs(m) || (p.0 !in m && Lists(init, p));
    }
  }

  ghost function Lefts(ps: seq<BlockPair>): (s: set<nat>)
    ensures forall k: nat :: k < |ps| ==> ps[k].0 in s
    ensures forall l :: l in s ==> exists k: nat :: k < |ps| && ps[k].0 == l
  {
    set k: nat | k < |ps| :: ps[k].0
  }

  lemma ListsMore(ps: seq<BlockPair>, q: BlockPair, p: BlockPair)
    ensures Lists(ps + [q], p) <==> Lists(ps, p) || (p == q && q.0 !in Lefts(ps))
  {
    var all := ps + [q];
    if Lists(ps, p) {
      var k: nat :| k < |ps| && ps[k] == p && FirstAt(ps, k);
      assert all[k] == p && FirstAt(all, k);
    }
    if p == q && q.0 !in Lefts(ps) {
      assert all[|ps|] == p && FirstAt(all, |ps|);
    }
    if Lists(all, p) {
      var k: nat :| k < |all| && all[k] == p && FirstAt(all, k);
      if k < |ps| {
        forall j: nat | j < k ensures ps[j].0 != ps[k].0 {
          assert all[j].0 != all[k].0;
        }
        assert ps[k] == p && FirstAt(ps, k);
      } else {
        forall j: nat | j < |ps| ensures ps[j].0 != q.0 {
          assert all[j].0 != all[k].0;
        }
      }
    }
  }

  /** One round of the loop: the pair taken, and the map it was compared under. */
  datatype RoundAt = RoundAt(pair: BlockPair, blocks: map<nat, nat>)

  type Comparison = (BlockPair, map<nat, nat>) -> seq<BlockPair>

  /** One of the first n rounds listed p first for its left block, which was free. */
  ghost predicate FoundBy(rounds: seq<RoundAt>, n: nat, unifies: Comparison, p: BlockPair)
    requires n <= |rounds|
  {
    exists i: nat :: i < n && p.0 !in rounds[i].blocks && Lists(unifies(rounds[i].pair, rounds[i].blocks), p)
  }

  /** Every unified pair was there at first or was found by a round. */
  ghost predicate Justified(m0: map<nat, nat>, rounds: seq<RoundAt>, n: nat, unifies: Comparison, m: map<nat, nat>)
    requires n <= |rounds|
  {
    forall p: BlockPair {:trigger p in Pairs(m)} :: p in Pairs(m) ==> p in Pairs(m0) || FoundBy(rounds, n, unifies, p)
  }

  /** Everything the rounds listed is unified, or logged as a conflict. */
  ghost predicate Answered(rounds: seq<RoundAt>, unifies: Comparison, m: map<nat, nat>, logged: seq<BlockPair>) {
    forall i: nat {:trigger rounds[i]} :: i < |rounds| ==>
      Settled(unifies(rounds[i].pair, rounds[i].blocks), m, logged)
  }

  ghost predicate Settled(ps: seq<BlockPair>, m: map<nat, nat>, logged: seq<BlockPair>) {
    forall k: nat {:trigger ps[k]} :: k < |ps| ==> ps[k].0 in m && (m[ps[k].0] == ps[k].1 || ps[k] in logged)
  }

  /** Nothing is logged without such a conflict. */
  ghost predicate LogsOnly(before: seq<BlockPair>, m: map<nat, nat>, logged: seq<BlockPair>) {
    && before <= logged
    && forall k: nat {:trigger logged[k]} :: |before| <= k < |logged| ==>
         logged[k].0 in m && m[logged[k].0] != logged[k].1
  }

  ghost predicate Extends(m: map<nat, nat>, m': map<nat, nat>) {
    forall l :: l in m ==> l in m' && m'[l] == m[l]
  }

  lemma JustifiedMore(m0: map<nat, nat>, rounds: seq<RoundAt>, unifies: Comparison, m: map<nat, nat>, pair: BlockPair, m': map<nat, nat>)
    requires Justified(m0, rounds, |rounds|, unifies, m) && FirstWins(m, unifies(pair, m), m')
    ensures Justified(m0, rounds + [RoundAt(pair, m)], |rounds| + 1, unifies, m')
  {
    var more := rounds + [RoundAt(pair, m)];
    forall p: BlockPair | p in Pairs(m') ensures p in Pairs(m0) || FoundBy(more, |more|, unifies, p) {
      if p in Pairs(m) {
        FoundStays(rounds, more, |rounds|, unifies, p);
        if FoundBy(more, |rounds|, unifies, p) {
          assert FoundBy(more, |more|, unifies, p);
        }
      } else {
        assert more[|rounds|] == RoundAt(pair, m);
      }
    }
  }

  lemma FoundStays(rounds: seq<RoundAt>, more: seq<RoundAt>, n: nat, unifies: Comparison, p: BlockPair)
    requires n <= |rounds| && rounds <= more
    ensures FoundBy(rounds, n, unifies, p) <==> FoundBy(more, n, unifies, p)
  {
  }

  lemma AnsweredMore(rounds: seq<RoundAt>, unifies: Comparison, m: map<nat, nat>, logged: seq<BlockPair>,
                     pair: BlockPair, m': map<nat, nat>, logged': seq<BlockPair>)
    requires Answered(rounds, unifies, m, logged) && Extends(m, m') && logged <= logged'
    requires Settled(unifies(pair, m), m', logged')
    ensures Answered(rounds + [RoundAt(pair, m)], unifies, m', logged')
  {
    var more := rounds + [RoundAt(pair, m)];
    forall i: nat | i < |more| ensures Settled(unifies(more[i].pair, more[i].blocks), m', logged') {
      if i < |rounds| {
        assert more[i] == rounds[i];
        var ps := unifies(rounds[i].pair, rounds[i].blocks);
        assert Settled(ps, m, logged);
        forall k: nat | k < |ps| ensures ps[k].0 in m' && (m'[ps[k].0] == ps[k].1 || ps[k] in logged') {
          assert ps[k].0 in m;
        }
      }
    }
  }

  lemma LogsMore(before: seq<BlockPair>, m: map<nat, nat>, logged: seq<BlockPair>, m': map<nat, nat>, logged': seq<BlockPair>)
    requires LogsOnly(before, m, logged) && LogsOnly(logged, m', logged') && Extends(m, m')
    ensures LogsOnly(before, m', logged')
  {
    forall k: nat | |before| <= k < |logged'| ensures logged'[k].0 in m' && m'[logged'[k].0] != logged'[k].1 {
      if k < |logged| {
        assert logged'[k] == logged[k];
      }
    }
  }

  /** What holds after a number of rounds: each pair they took was there at first or was found by
      an earlier round, so was every unified pair, and all they listed is unified or logged. */
  ghost predicate Processed(m0: map<nat, nat>, logged0: seq<BlockPair>, processed: seq<BlockPair>, rounds: seq<RoundAt>,
                            unifies: Comparison, m: map<nat, nat>, logged: seq<BlockPair>) {
    && InTurn(m0, processed, rounds, unifies)
    && Justified(m0, rounds, |rounds|, unifies, m)
    && Answered(rounds, unifies, m, logged) && LogsOnly(logged0, m, logged)
  }

  /** Each pair taken was there at first or was found by an earlier round. */
  ghost predicate InTurn(m0: map<nat, nat>, processed: seq<BlockPair>, rounds: seq<RoundAt>, unifies: Comparison) {
    && |rounds| == |processed|
    && forall i: nat {:trigger processed[i]} :: i < |processed| ==>
         rounds[i].pair == processed[i] && (processed[i] in Pairs(m0) || FoundBy(rounds, i, unifies, processed[i]))
  }

  lemma ProcessedMore(m0: map<nat, nat>, logged0: seq<BlockPair>, processed: seq<BlockPair>, rounds: seq<RoundAt>,
                      unifies: Comparison, m: map<nat, nat>, logged: seq<BlockPair>,
                      pair: BlockPair, m': map<nat, nat>, logged': seq<BlockPair>)
    requires Processed(m0, logged0, processed, rounds, unifies, m, logged) && pair in Pairs(m)
    requires Extends(m, m') && FirstWins(m, unifies(pair, m), m')
    requires Settled(unifies(pair, m), m', logged') && LogsOnly(logged, m', logged')
    ensures Processed(m0, logged0, processed + [pair], rounds + [RoundAt(pair, m)], unifies, m', logged')
  {
    JustifiedMore(m0, rounds, unifies, m, pair, m');
    AnsweredMore(rounds, unifies, m, logged, pair, m', logged');
    LogsMore(logged0, m, logged, m', logged');
    FoundSoFar(m0, rounds, unifies, m, pair, processed);
  }

  class Engine {
    const preds: nat -> seq<nat>
    var blocks: map<nat, nat>
    var conflicts: seq<BlockPair>
    const queue: PriorityQueue<BlockPair>

    constructor (preds: nat -> seq<nat>)
      ensures this.preds == preds
      ensures blocks == map[] && queue.storage == [] && conflicts == [] && fresh(queue)
    {
      this.preds := preds;
      blocks, conflicts := map[], [];
      queue := new PriorityQueue<BlockPair>();
    }

    /** Unifies l with r unless l is taken already; true if that is a problem. */
    method TryUnify(l: nat, r: nat) returns (problem: bool)
      modifies this, queue
      ensures problem <==> l in old(blocks) && old(blocks)[l] != r
      ensures conflicts == old(conflicts) + if problem then [(l, r)] else []
      ensures l in old(blocks) ==> blocks == old(blocks) && queue.storage == old(queue.storage)
      ensures l !in old(blocks) ==>
        blocks == old(blocks)[l := r] && multiset(queue.storage) == multiset(old(queue.storage)) + multiset{(l, r)}
      ensures l !in old(blocks) && StaysLast(old(queue.storage), (l, r), Sorter(blocks, preds)) ==>
        queue.storage == old(queue.storage) + [(l, r)]
    {
      if l in blocks {
        if blocks[l] == r {
          return false;
        }
        conflicts := conflicts + [(l, r)];
        return true;
      }
      blocks := blocks[l := r];
      queue.Insert((l, r), Sorter(blocks, preds));
      problem := false;
    }

    /** Processes pairs until none is left.  `unifies` lists the pairs that diffing a pair
        tries to unify; all left blocks are among `lefts`.  Every unified pair is processed
        exactly once, no left block is ever unified a second time, and every pair is there
        because an earlier round listed it first; what a round listed is unified or logged. */
    method ProcessQueue(unifies: Comparison, ghost lefts: set<nat>)
      returns (processed: seq<BlockPair>, ghost rounds: seq<RoundAt>)
      requires forall p, m, k: nat :: k < |unifies(p, m)| ==> unifies(p, m)[k].0 in lefts
      requires multiset(queue.storage) == multiset(Pairs(blocks)) && blocks.Keys <= lefts
      modifies this, queue
      ensures queue.storage == []
      ensures multiset(processed) == multiset(Pairs(blocks)) && Extends(old(blocks), blocks)
      ensures Processed(old(blocks), old(conflicts), processed, rounds, unifies, blocks, conflicts)
    {
      processed, rounds := [], [];
      while queue.storage != []
        invariant multiset(processed) + multiset(queue.storage) == multiset(Pairs(blocks))
        invariant blocks.Keys <= lefts && Extends(old(blocks), blocks)
        invariant Processed(old(blocks), old(conflicts), processed, rounds, unifies, blocks, conflicts)
        decreases |lefts - blocks.Keys|, |queue.storage|
      {
        ghost var before, logged := blocks, conflicts;
        var pair := ProcessOne(unifies, lefts, multiset(processed));
        ProcessedMore(old(blocks), old(conflicts), processed, rounds, unifies, before, logged, pair, blocks, conflicts);
        processed, rounds := processed + [pair], rounds + [RoundAt(pair, before)];
      }
    }

    /** One round: a pair leaves the queue, and what its comparison unifies enters it. While the
        queue is a heap under the current map, no waiting pair has fewer unprocessed predecessors. */
    method ProcessOne(unifies: Comparison, ghost lefts: set<nat>, ghost done: multiset<BlockPair>)
      returns (pair: BlockPair)
      requires forall p, m, k: nat :: k < |unifies(p, m)| ==> unifies(p, m)[k].0 in lefts
      requires queue.storage != [] && blocks.Keys <= lefts
      requires done + multiset(queue.storage) == multiset(Pairs(blocks))
      modifies this, queue
      ensures pair in Pairs(old(blocks)) && pair == old(queue.storage)[0]
      ensures Heap(old(queue.storage), Sorter(old(blocks), preds)) ==> forall k: nat :: k < |old(queue.storage)| ==>
        |Unprocessed(old(blocks), preds(pair.0), 0)| <= |Unprocessed(old(blocks), preds(old(queue.storage)[k].0), 0)|
      ensures blocks.Keys <= lefts && done + multiset{pair} + multiset(queue.storage) == multiset(Pairs(blocks))
      ensures Extends(old(blocks), blocks) && FirstWins(old(blocks), unifies(pair, old(blocks)), blocks)
      ensures Settled(unifies(pair, old(blocks)), blocks, conflicts) && LogsOnly(old(conflicts), blocks, conflicts)
      ensures |lefts - blocks.Keys| < old(|lefts - blocks.Keys|)
           || (|lefts - blocks.Keys| == old(|lefts - blocks.Keys|) && |queue.storage| < old(|queue.storage|))
    {
      SorterMeans(blocks, preds);
      pair := queue.RemoveMin(Sorter(blocks, preds), true);
      ghost var rest, before := multiset(queue.storage), blocks;
      Taken(done, rest, pair, before);
      UnifyAll(unifies(pair, blocks), lefts);
      AllTried(unifies(pair, before), before, rest, old(conflicts), blocks, multiset(queue.storage), conflicts);
      Round(done, rest, pair, multiset(queue.storage), multiset(Pairs(before)), multiset(Pairs(blocks)));
      if blocks.Keys != before.Keys {
        FewerLeft(lefts, before.Keys, blocks.Keys);
      }
    }

    /** The pairs a comparison lists, one after another: for a free left block the first one wins,
        and every other partner is logged. */
    method UnifyAll(pairs: seq<BlockPair>, ghost lefts: set<nat>)
      requires forall k: nat :: k < |pairs| ==> pairs[k].0 in lefts
      requires blocks.Keys <= lefts
      modifies this, queue
      ensures Unified(pairs, |pairs|, old(blocks), multiset(old(queue.storage)), old(conflicts),
                      blocks, multiset(queue.storage), conflicts)
      ensures blocks.Keys <= lefts && (blocks.Keys == old(blocks).Keys ==> |queue.storage| == |old(queue.storage)|)
    {
      var i := 0;
      ghost var m0, q0, logged0 := blocks, multiset(queue.storage), conflicts;
      NothingTried(pairs, m0, q0, logged0);
      while i < |pairs|
        invariant 0 <= i <= |pairs| && m0.Keys <= blocks.Keys <= lefts
        invariant Unified(pairs, i, m0, q0, logged0, blocks, multiset(queue.storage), conflicts)
        invariant blocks.Keys == m0.Keys ==> queue.storage == old(queue.storage)
      {
        UnifyOne(pairs, i, lefts, m0, q0, logged0);
        i := i + 1;
      }
    }

    method UnifyOne(pairs: seq<BlockPair>, i: nat, ghost lefts: set<nat>,
                    ghost m0: map<nat, nat>, ghost q0: multiset<BlockPair>, ghost logged0: seq<BlockPair>)
      requires i < |pairs| && Unified(pairs, i, m0, q0, logged0, blocks, multiset(queue.storage), conflicts)
      requires m0.Keys <= blocks.Keys <= lefts && pairs[i].0 in lefts
      modifies this, queue
      ensures Unified(pairs, i + 1, m0, q0, logged0, blocks, multiset(queue.storage), conflicts)
      ensures m0.Keys <= blocks.Keys <= lefts
      ensures blocks.Keys == m0.Keys ==> blocks.Keys == old(blocks).Keys && queue.storage == old(queue.storage)
    {
      ghost var m, q, logged := blocks, multiset(queue.storage), conflicts;
      var _ := TryUnify(pairs[i].0, pairs[i].1);
      UnifiedStep(pairs, i, m0, q0, logged0, m, q, logged, blocks, multiset(queue.storage), conflicts);
    }
  }

  /** The map, the queue and the log after trying the first n pairs. */
  ghost predicate Unified(ps: seq<BlockPair>, n: nat, m0: map<nat, nat>, q0: multiset<BlockPair>, logged0: seq<BlockPair>,
                          m: map<nat, nat>, q: multiset<BlockPair>, logged: seq<BlockPair>) {
    && n <= |ps| && m.Keys == m0.Keys + Lefts(ps[..n])
    && FirstWins(m0, ps[..n], m) && Extends(m0, m)
    && Settled(ps[..n], m, logged) && LogsOnly(logged0, m, logged)
    && q + multiset(Pairs(m0)) == q0 + multiset(Pairs(m))
  }

  lemma NothingTried(ps: seq<BlockPair>, m: map<nat, nat>, q: multiset<BlockPair>, logged: seq<BlockPair>)
    ensures Unified(ps, 0, m, q, logged, m, q, logged)
  {
    assert Lefts(ps[..0]) == {};
  }

  lemma AllTried(ps: seq<BlockPair>, m0: map<nat, nat>, q0: multiset<BlockPair>, logged0: seq<BlockPair>,
                 m: map<nat, nat>, q: multiset<BlockPair>, logged: seq<BlockPair>)
    requires Unified(ps, |ps|, m0, q0, logged0, m, q, logged)
    ensures FirstWins(m0, ps, m) && Extends(m0, m) && m0.Keys <= m.Keys
    ensures Settled(ps, m, logged) && LogsOnly(logged0, m, logged)
    ensures q + multiset(Pairs(m0)) == q0 + multiset(Pairs(m))
  {
    assert ps[..|ps|] == ps;
  }

  lemma UnifiedStep(ps: seq<BlockPair>, n: nat, m0: map<nat, nat>, q0: multiset<BlockPair>, logged0: seq<BlockPair>,
                    m: map<nat, nat>, q: multiset<BlockPair>, logged: seq<BlockPair>,
                    m': map<nat, nat>, q': multiset<BlockPair>, logged': seq<BlockPair>)
    requires n < |ps| && Unified(ps, n, m0, q0, logged0, m, q, logged)
    requires ps[n].0 in m ==> m' == m && q' == q && logged' == logged + if m[ps[n].0] == ps[n].1 then [] else [ps[n]]
    requires ps[n].0 !in m ==> m' == m[ps[n].0 := ps[n].1] && q' == q + multiset{ps[n]} && logged' == logged
    ensures Unified(ps, n + 1, m0, q0, logged0, m', q', logged')
  {
    OneMoreWins(m0, ps, n, m, m');
    OneMoreSettled(ps, n, m, logged, m', logged');
    LogsMore(logged0, m, logged, m', logged');
    if ps[n].0 !in m {
      assert ps[n] == (ps[n].0, ps[n].1);
      PairsPush(m, ps[n].0, ps[n].1);
      AddBoth(q, multiset(Pairs(m0)), q0, multiset(Pairs(m)), ps[n]);
    }
  }

  lemma OneMoreSettled(ps: seq<BlockPair>, n: nat, m: map<nat, nat>, logged: seq<BlockPair>, m': map<nat, nat>, logged': seq<BlockPair>)
    requires n < |ps| && Settled(ps[..n], m, logged) && Extends(m, m') && logged <= logged'
    requires ps[n].0 in m' && (m'[ps[n].0] == ps[n].1 || ps[n] in logged')
    ensures Settled(ps[..n + 1], m', logged')
  {
    var init, all := ps[..n], ps[..n + 1];
    forall k: nat | k < |all| ensures all[k].0 in m' && (m'[all[k].0] == all[k].1 || all[k] in logged') {
      if k < n {
        assert all[k] == init[k] && init[k].0 in m;
      }
    }
  }

  lemma Taken(done: multiset<BlockPair>, rest: multiset<BlockPair>, pair: BlockPair, m: map<nat, nat>)
    requires done + (rest + multiset{pair}) == multiset(Pairs(m))
    ensures pair in Pairs(m)
  {
    assert pair in done + (rest + multiset{pair});
    assert pair in multiset(Pairs(m));
  }

  lemma FoundSoFar(m0: map<nat, nat>, rounds: seq<RoundAt>, unifies: Comparison, m: map<nat, nat>, pair: BlockPair, processed: seq<BlockPair>)
    requires Justified(m0, rounds, |rounds|, unifies, m) && pair in Pairs(m) && InTurn(m0, processed, rounds, unifies)
    ensures InTurn(m0, processed + [pair], rounds + [RoundAt(pair, m)], unifies)
  {
    var more, all := rounds + [RoundAt(pair, m)], processed + [pair];
    forall i: nat | i < |all|
      ensures more[i].pair == all[i] && (all[i] in Pairs(m0) || FoundBy(more, i, unifies, all[i]))
    {
      FoundStays(rounds, more, i, unifies, all[i]);
      assert i < |processed| ==> all[i] == processed[i] && more[i] == rounds[i];
    }
  }

  lemma PairsPush(m: map<nat, nat>, l: nat, r: nat)
    requires l !in m
    ensures multiset(Pairs(m[l := r])) == multiset(Pairs(m)) + multiset{(l, r)}
  {
    assert Pairs(m[l := r]) == Pairs(m) + {(l, r)};
  }

  lemma AddBoth(q: multiset<BlockPair>, b0: multiset<BlockPair>, q0: multiset<BlockPair>, b: multiset<BlockPair>, x: BlockPair)
    requires q + b0 == q0 + b
    ensures (q + multiset{x}) + b0 == q0 + (b + multiset{x})
  {
    forall p: BlockPair
      ensures ((q + multiset{x}) + b0)[p] == (q0 + (b + multiset{x}))[p]
    {
      assert (q + b0)[p] == (q0 + b)[p];
    }
  }

  /** Bookkeeping of one round: a pair leaves the queue, new ones enter it and the map. */
  lemma Round(done: multiset<BlockPair>, rest: multiset<BlockPair>, pair: BlockPair, queue': multiset<BlockPair>,
              blocks: multiset<BlockPair>, blocks': multiset<BlockPair>)
    requires done + (rest + multiset{pair}) == blocks
    requires queue' + blocks == rest + blocks'
    ensures done + multiset{pair} + queue' == blocks'
  {
    forall p: BlockPair
      ensures (done + multiset{pair} + queue')[p] == blocks'[p]
    {
      assert (done + (rest + multiset{pair}))[p] == blocks[p];
      assert (queue' + blocks)[p] == (rest + blocks')[p];
    }
  }

  lemma FewerLeft(lefts: set<nat>, keys: set<nat>, keys': set<nat>)
    requires keys <= keys' <= lefts && keys != keys'
    ensures |lefts - keys'| < |lefts - keys|
  {
    var l :| l in keys' && l !in keys;
    assert lefts - keys' <= (lefts - keys) - {l};
    SubsetSize(lefts - keys', (lefts - keys) - {l});
  }

  function StalePreds(b: nat): seq<nat> {
    if b == 1 then [9] else if b == 2 then [3, 3] else [9, 9, 9]
  }

  /** With 3 unified block 2 overtakes block 1; block 3 does not. */
  lemma StaleOrder()
    ensures !Sorter(map[1 := 1, 2 := 2], StalePreds)((2, 2), (1, 1))
    ensures var less := Sorter(map[1 := 1, 2 := 2, 3 := 3], StalePreds);
      !less((3, 3), (1, 1)) && less((2, 2), (1, 1))
  {
    var p := StalePreds;
    assert p(1) == [9] && p(2) == [3, 3] && p(3) == [9, 9, 9];
    Counts(map[1 := 1, 2 := 2], 3, 9);
    Counts(map[1 := 1, 2 := 2, 3 := 3], 3, 9);
  }

  lemma Counts(m: map<nat, nat>, x: nat, y: nat)
    requires y !in m
    ensures UnprocPredCount(m, [y]) == 1 && UnprocPredCount(m, [y, y, y]) == 3
    ensures UnprocPredCount(m, [x, x]) == if x in m then 0 else 2
  {
    assert [y][1..] == [] && [y, y][1..] == [y] && [y, y, y][1..] == [y, y];
    assert [x][1..] == [] && [x, x][1..] == [x];
  }

  lemma OutOfOrder(s: seq<BlockPair>, less: (BlockPair, BlockPair) -> bool)
    requires |s| > 1 && less(s[1], s[0])
    ensures !Heap(s, less)
  {
    assert !Ordered(s, less, 1);
  }

  /** The map may grow while pairs wait, so a heap need not stay one: block 1 waits with one
      unprocessed predecessor, block 2 with two of them, both block 3; once 3 is unified,
      2 has none left, and the next round would still take 1. */
  method QueueGoesStale() returns (e: Engine)
    ensures fresh(e) && e.queue.storage == [(1, 1), (2, 2), (3, 3)]
    ensures !Heap(e.queue.storage, Sorter(e.blocks, e.preds)) && Sorter(e.blocks, e.preds)((2, 2), (1, 1))
  {
    e := new Engine(StalePreds);
    StaleOrder();
    var _ := e.TryUnify(1, 1);
    var _ := e.TryUnify(2, 2);
    assert e.blocks == map[1 := 1, 2 := 2];
    var _ := e.TryUnify(3, 3);
    assert e.blocks == map[1 := 1, 2 := 2, 3 := 3];
    OutOfOrder(e.queue.storage, Sorter(e.blocks, e.preds));
  }
}
