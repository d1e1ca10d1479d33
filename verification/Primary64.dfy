/**
 SizeClassAllocator64 (sanitizer_allocator_primary64.h) with its per-thread caches
 (sanitizer_allocator_local_cache.h), for one size class: its region, its free array of compact
 pointers, and the cache entry of every thread.
 */
module Primary64 {
  import opened Addresses
  import opened Common
  import opened Sorting
  import opened Chunks

  const MAP_UNIT: nat := 65536
  const GRANULARITY: nat := 4096

  // ------------------------------------------------------------- compact pointers

  /** A 4-byte offset in units of 16 bytes; the cast truncates. */
  function PointerToCompactPtr(base: nat, ptr: nat): (c: nat)
    requires base <= ptr
    ensures c < 0x1_0000_0000
  {
    ((ptr - base) / 16) % 0x1_0000_0000
  }

  function CompactPtrToPointer(base: nat, c: nat): nat {
    base + 16 * c
  }

  /** Inside a region of at most 2^36 bytes exactly the 16-byte aligned offsets survive. */
  lemma CompactRoundTrip(base: nat, ptr: nat)
    requires base <= ptr < base + 0x10_0000_0000
    ensures CompactPtrToPointer(base, PointerToCompactPtr(base, ptr)) == ptr <==> (ptr - base) % 16 == 0
  {
  }

  lemma PointerRoundTrip(base: nat, c: nat)
    requires c < 0x1_0000_0000
    ensures PointerToCompactPtr(base, CompactPtrToPointer(base, c)) == c
  {
  }

  // ------------------------------------------------------------- random shuffle

  /** The ANSI C linear congruential generator on 32-bit words. */
  function NextState(state: nat): nat {
    (state * 1103515245 + 12345) % 0x1_0000_0000
  }

  function Rand(state: nat): nat { NextState(state) / 0x1_0000 }

  function RandN(state: nat, n: nat): nat { if n == 0 then 0 else Rand(state) % n }

  /** A generator by its next state and the index it draws below n. */
  datatype Generator = Generator(next: nat -> nat, draw: (nat, nat) -> nat)

  function Ansi(): Generator { Generator(NextState, RandN) }

  /** The shuffle by recursion: a random element goes last, the others are shuffled before it. */
  ghost function Shuffle(gen: Generator, a: seq<nat>, state: nat): (r: seq<nat>)
    ensures |r| == |a|
    decreases |a|
  {
    if |a| <= 1 || gen.draw(state, |a|) >= |a| then a
    else
      var last, j := |a| - 1, gen.draw(state, |a|);
      Shuffle(gen, Swapped(a, last, j)[..last], gen.next(state)) + [a[j]]
  }

  ghost function Draws(gen: Generator, state: nat, n: nat): nat
    decreases n
  {
    if n == 0 then state else Draws(gen, gen.next(state), n - 1)
  }

  lemma {:induction false} ShufflePermutes(gen: Generator, a: seq<nat>, state: nat)
    ensures multiset(Shuffle(gen, a, state)) == multiset(a)
    decreases |a|
  {
    if |a| > 1 && gen.draw(state, |a|) < |a| {
      var last, j := |a| - 1, gen.draw(state, |a|);
      var c := Swapped(a, last, j);
      ShufflePermutes(gen, c[..last], gen.next(state));
      assert c == c[..last] + [a[j]];
    }
  }

  /** Where the shuffle from the back has come to: the part up to i is still to be shuffled. */
  ghost predicate Shuffling(gen: Generator, a: seq<nat>, state: nat, b: seq<nat>, state': nat, i: nat) {
    && i < |b| == |a| && Draws(gen, state, |a| - 1) == Draws(gen, state', i)
    && Shuffle(gen, a, state) == Shuffle(gen, b[..i + 1], state') + b[i + 1..]
  }

  lemma ShuffleStep(gen: Generator, a: seq<nat>, state: nat, b: seq<nat>, state': nat, i: nat, j: nat)
    requires Shuffling(gen, a, state, b, state', i) && i > 0 && j == gen.draw(state', i + 1) <= i
    ensures Shuffling(gen, a, state, Swapped(b, i, j), gen.next(state'), i - 1)
  {
    var c, p := Swapped(b, i, j), b[..i + 1];
    assert Swapped(p, i, j)[..i] == c[..i];
    assert c[i..] == [b[j]] + b[i + 1..];
    assert Shuffle(gen, p, state') == Shuffle(gen, c[..i], gen.next(state')) + [b[j]];
  }

  lemma ShuffleEnds(gen: Generator, a: seq<nat>, state: nat, b: seq<nat>, state': nat)
    requires Shuffling(gen, a, state, b, state', 0)
    ensures b == Shuffle(gen, a, state) && state' == Draws(gen, state, |a| - 1)
  {
    assert b == b[..1] + b[1..];
  }

  ghost predicate DrawsBelow(gen: Generator) {
    forall s: nat, n: nat :: n > 0 ==> gen.draw(s, n) < n
  }

  /** In place and from the back, it is that shuffle, with one draw per element but one. */
  method ShuffleInPlace(gen: Generator, a: seq<nat>, state: nat) returns (b: seq<nat>, state': nat)
    requires DrawsBelow(gen)
    ensures b == Shuffle(gen, a, state)
    ensures state' == Draws(gen, state, if |a| <= 1 then 0 else |a| - 1)
  {
    b, state' := a, state;
    if |a| <= 1 {
      return;
    }
    var i: nat := |a| - 1;
    assert b[..i + 1] == a && b[i + 1..] == [];
    while i > 0
      invariant Shuffling(gen, a, state, b, state', i)
    {
      var j := gen.draw(state', i + 1);
      ShuffleStep(gen, a, state, b, state', i, j);
      state' := gen.next(state');
      b := Swapped(b, i, j);
      i := i - 1;
    }
    ShuffleEnds(gen, a, state, b, state');
  }

  method RandomShuffle(a: seq<nat>, state: nat) returns (b: seq<nat>, state': nat)
    ensures |b| == |a| && multiset(b) == multiset(a) && b == Shuffle(Ansi(), a, state)
    ensures state' == Draws(Ansi(), state, if |a| <= 1 then 0 else |a| - 1)
  {
    ShufflePermutes(Ansi(), a, state);
    b, state' := ShuffleInPlace(Ansi(), a, state);
  }

  // ------------------------------------------------------------- mappings

  /** The least size that covers need and is reached from mapped in steps of 64 KB. */
  ghost function Grown(mapped: nat, need: nat): (r: nat)
    ensures mapped <= r && need <= r && (need > mapped ==> r < need + MAP_UNIT)
    decreases if need > mapped then need - mapped else 0
  {
    if need <= mapped then mapped else Grown(mapped + MAP_UNIT, need)
  }

  /** It is n whole steps up, and one step less would not do. */
  lemma {:induction false} GrownIsLeast(mapped: nat, need: nat) returns (n: nat)
    ensures Grown(mapped, need) == mapped + Times(n, MAP_UNIT)
    ensures n > 0 ==> mapped + Times(n - 1, MAP_UNIT) < need
    decreases if need > mapped then need - mapped else 0
  {
    if need <= mapped {
      n := 0;
    } else {
      n := GrownIsLeast(mapped + MAP_UNIT, need);
      TimesAdd(1, n, MAP_UNIT);
      assert Times(1, MAP_UNIT) == Times(0, MAP_UNIT) + MAP_UNIT;
      if n > 0 {
        TimesAdd(1, n - 1, MAP_UNIT);
      }
      n := n + 1;
    }
  }

  method GrowMapping(mapped: nat, need: nat) returns (r: nat)
    ensures r == Grown(mapped, need)
  {
    r := mapped;
    if need > mapped {
      var mapSize: nat := MAP_UNIT;
      while need > mapped + mapSize
        invariant Grown(mapped + mapSize, need) == Grown(mapped, need)
        decreases need - mapped - mapSize
      {
        mapSize := mapSize + MAP_UNIT;
      }
      r := mapped + mapSize;
    }
  }

  // ------------------------------------------------------------- carving new chunks

  /** Chunks k .. k+n-1, highest first, as PopulateFreeArray writes them. */
  ghost predicate Carved(cut: seq<nat>, k: nat, n: nat, size: nat) {
    |cut| == n
    && forall j :: 0 <= j < n ==> cut[j] == PointerToCompactPtr(0, Times(k + n - 1 - j, size))
  }

  method Carve(ghost k: nat, begIdx: nat, n: nat, size: nat) returns (cut: seq<nat>)
    requires begIdx == Times(k, size)
    ensures Carved(cut, k, n, size)
  {
    cut := [];
    var i: nat := 0;
    var chunk := begIdx;
    while i < n
      invariant i <= n && Carved(cut, k, i, size)
      invariant chunk == Times(k + i, size)
    {
      cut := [PointerToCompactPtr(0, chunk)] + cut;
      chunk := chunk + size;
      i := i + 1;
    }
  }

  lemma CompactChunk(i: nat, u: nat, size: nat)
    requires size == 16 * u && Times(i, size) < 0x10_0000_0000
    ensures PointerToCompactPtr(0, Times(i, size)) == Times(i, u)
  {
    TimesScale(i, u);
    Sixteenth(Times(i, size), Times(i, u));
  }

  lemma Sixteenth(x: nat, y: nat)
    requires x == 16 * y && x < 0x10_0000_0000
    ensures PointerToCompactPtr(0, x) == y
  {
  }

  /** The carved chunks are the ones missing from the larger universe. */
  ghost predicate Extends(cut: seq<nat>, k: nat, n: nat, u: nat) {
    forall c: nat :: ExtendsAt(c, cut, k, n, u)
  }

  ghost predicate ExtendsAt(c: nat, cut: seq<nat>, k: nat, n: nat, u: nat) {
    multiset(cut)[c] + All(k, u)[c] == All(k + n, u)[c]
  }

  lemma {:induction false} CarvedAll(cut: seq<nat>, k: nat, n: nat, u: nat, size: nat)
    requires size == 16 * u && u > 0 && Carved(cut, k, n, size) && Times(k + n, size) <= 0x10_0000_0000
    ensures multiset(cut) + All(k, u) == All(k + n, u)
    decreases n
  {
    if n > 0 {
      var rest := cut[1..];
      var top := Times(k + n - 1, u);
      CarvedRest(cut, k, n, size);
      CarvedAll(rest, k, n - 1, u, size);
      CompactChunk(k + n - 1, u, size);
      assert cut == [top] + rest;
      PrependMultiset(top, rest);
      OneMoreChunk(multiset(rest), top, All(k, u), All(k + n - 1, u));
    }
  }

  lemma OneMoreChunk(rest: multiset<nat>, top: nat, before: multiset<nat>, after: multiset<nat>)
    requires rest + before == after
    ensures rest + multiset{top} + before == after + multiset{top}
  {
  }

  lemma CarvedRest(cut: seq<nat>, k: nat, n: nat, size: nat)
    requires n > 0 && Carved(cut, k, n, size)
    ensures Carved(cut[1..], k, n - 1, size)
    ensures Times(k + n - 1, size) + size == Times(k + n, size)
  {
    forall j | 0 <= j < n - 1
      ensures cut[1..][j] == PointerToCompactPtr(0, Times(k + (n - 1) - 1 - j, size))
    {
      assert cut[1..][j] == cut[j + 1];
    }
  }

  /** cut lists the next n chunks, highest first, or shuffled. */
  ghost predicate IsCut(cut: seq<nat>, k: nat, n: nat, size: nat, shuffle: bool, state: nat) {
    exists carved: seq<nat> :: Carved(carved, k, n, size) && cut == if shuffle then Shuffle(Ansi(), carved, state) else carved
  }

  /** The new part of the free array, shuffled or not. */
  method NewFreeChunks(ghost k: nat, begIdx: nat, n: nat, size: nat, ghost u: nat, shuffle: bool, state: nat)
      returns (cut: seq<nat>, state': nat)
    requires begIdx == Times(k, size) && size == 16 * u && u > 0
    ensures |cut| == n
    ensures Times(k + n, size) <= 0x10_0000_0000 ==> Extends(cut, k, n, u)
    ensures IsCut(cut, k, n, size, shuffle, state)
    ensures state' == if shuffle && n > 1 then Draws(Ansi(), state, n - 1) else state
  {
    var carved := Carve(k, begIdx, n, size);
    cut, state' := MaybeShuffle(carved, shuffle, state);
    assert IsCut(cut, k, n, size, shuffle, state);
    if Times(k + n, size) <= 0x10_0000_0000 {
      CutExtends(carved, cut, k, n, u, size);
    }
  }

  method MaybeShuffle(carved: seq<nat>, shuffle: bool, state: nat) returns (cut: seq<nat>, state': nat)
    ensures |cut| == |carved| && multiset(cut) == multiset(carved)
    ensures cut == if shuffle then Shuffle(Ansi(), carved, state) else carved
    ensures state' == if shuffle && |carved| > 1 then Draws(Ansi(), state, |carved| - 1) else state
  {
    cut, state' := carved, state;
    if shuffle {
      cut, state' := RandomShuffle(carved, state);
    }
  }

  lemma CutExtends(carved: seq<nat>, cut: seq<nat>, k: nat, n: nat, u: nat, size: nat)
    requires size == 16 * u && u > 0 && Carved(carved, k, n, size) && Times(k + n, size) <= 0x10_0000_0000
    requires multiset(cut) == multiset(carved)
    ensures Extends(cut, k, n, u)
  {
    CarvedAll(carved, k, n, u, size);
    forall c: nat ensures ExtendsAt(c, cut, k, n, u) {
      assert (multiset(carved) + All(k, u))[c] == multiset(carved)[c] + All(k, u)[c];
    }
  }

  // ------------------------------------------------------------- conservation

  /** Every chunk carved so far is in exactly one place: the free array, one slot of one thread's
      cache, on its way between the two, or in the user's hands. */
  ghost predicate Conserved(free: seq<nat>, cs: seq<PerClass>, moving: seq<nat>, user: multiset<nat>, k: nat, u: nat) {
    forall c: nat :: Balanced(c, free, cs, moving, user, k, u)
  }

  ghost predicate Balanced(c: nat, free: seq<nat>, cs: seq<PerClass>, moving: seq<nat>, user: multiset<nat>, k: nat, u: nat) {
    multiset(free)[c] + Held(cs)[c] + multiset(moving)[c] + user[c] == All(k, u)[c]
  }

  /** The same, as an equation between multisets. */
  lemma ConservedIff(free: seq<nat>, cs: seq<PerClass>, moving: seq<nat>, user: multiset<nat>, k: nat, u: nat)
    ensures Conserved(free, cs, moving, user, k, u) <==> multiset(free) + Held(cs) + multiset(moving) + user == All(k, u)
  {
    var all := multiset(free) + Held(cs) + multiset(moving) + user;
    if Conserved(free, cs, moving, user, k, u) {
      forall c: nat ensures all[c] == All(k, u)[c] {
        assert Balanced(c, free, cs, moving, user, k, u);
      }
    } else {
      var c: nat :| !Balanced(c, free, cs, moving, user, k, u);
      assert all[c] != All(k, u)[c];
    }
  }

  /** The chunks outside the free array. */
  lemma OutsideCount(free: seq<nat>, cs: seq<PerClass>, user: multiset<nat>, k: nat, u: nat)
    requires Conserved(free, cs, [], user, k, u)
    ensures |Held(cs)| + |user| == k - |free|
  {
    ConservedIff(free, cs, [], user, k, u);
    AllCount(k, u);
    assert |multiset(free) + Held(cs) + multiset([]) + user| == |free| + |Held(cs)| + |user|;
  }

  lemma MoveIn(free: seq<nat>, more: seq<nat>, cs: seq<PerClass>, user: multiset<nat>, k: nat, n: nat, u: nat)
    requires Conserved(free, cs, [], user, k, u) && Extends(more, k, n, u)
    ensures Conserved(free + more, cs, [], user, k + n, u)
  {
    var m := k + n;
    forall c: nat ensures Balanced(c, free + more, cs, [], user, m, u) {
      assert Balanced(c, free, cs, [], user, k, u);
      assert multiset(free + more)[c] == multiset(free)[c] + multiset(more)[c];
      assert ExtendsAt(c, more, k, n, u);
    }
  }

  lemma SplitCount(s: seq<nat>, b: nat, c: nat)
    requires b <= |s|
    ensures multiset(s)[c] == multiset(s[..b])[c] + multiset(s[b..])[c]
  {
    assert s == s[..b] + s[b..];
  }

  lemma HeldCount(cs: seq<PerClass>, t: nat, d: PerClass, c: nat)
    requires t < |cs|
    ensures Held(cs[t := d])[c] + multiset(cs[t].chunks)[c] == Held(cs)[c] + multiset(d.chunks)[c]
  {
    HeldUpdate(cs, t, d);
    assert (Held(cs[t := d]) + multiset(cs[t].chunks))[c] == (Held(cs) + multiset(d.chunks))[c];
  }

  lemma FreeToMoving(free: seq<nat>, b: nat, cs: seq<PerClass>, user: multiset<nat>, k: nat, u: nat)
    requires Conserved(free, cs, [], user, k, u) && b <= |free|
    ensures Conserved(free[..b], cs, free[b..], user, k, u)
  {
    forall c: nat ensures Balanced(c, free[..b], cs, free[b..], user, k, u) {
      assert Balanced(c, free, cs, [], user, k, u);
      SplitCount(free, b, c);
    }
  }

  lemma MovingToFree(free: seq<nat>, cs: seq<PerClass>, moving: seq<nat>, user: multiset<nat>, k: nat, u: nat)
    requires Conserved(free, cs, moving, user, k, u)
    ensures Conserved(free + moving, cs, [], user, k, u)
  {
    forall c: nat ensures Balanced(c, free + moving, cs, [], user, k, u) {
      assert Balanced(c, free, cs, moving, user, k, u);
      assert multiset(free + moving)[c] == multiset(free)[c] + multiset(moving)[c];
    }
  }

  lemma CacheToMoving(free: seq<nat>, cs: seq<PerClass>, t: nat, b: nat, m: nat, user: multiset<nat>, k: nat, u: nat)
    requires Conserved(free, cs, [], user, k, u) && t < |cs| && b <= |cs[t].chunks|
    ensures Conserved(free, cs[t := PerClass(m, cs[t].chunks[..b])], cs[t].chunks[b..], user, k, u)
  {
    var d := PerClass(m, cs[t].chunks[..b]);
    var ds, out := cs[t := d], cs[t].chunks[b..];
    forall c: nat ensures Balanced(c, free, ds, out, user, k, u) {
      assert Balanced(c, free, cs, [], user, k, u);
      HeldCount(cs, t, d, c);
      SplitCount(cs[t].chunks, b, c);
    }
  }

  lemma MovingToCache(free: seq<nat>, cs: seq<PerClass>, t: nat, m: nat, moving: seq<nat>, user: multiset<nat>, k: nat, u: nat)
    requires Conserved(free, cs, moving, user, k, u) && t < |cs|
    ensures Conserved(free, cs[t := PerClass(m, cs[t].chunks + moving)], [], user, k, u)
  {
    var d := PerClass(m, cs[t].chunks + moving);
    var ds := cs[t := d];
    forall c: nat ensures Balanced(c, free, ds, [], user, k, u) {
      assert Balanced(c, free, cs, moving, user, k, u);
      HeldCount(cs, t, d, c);
      assert multiset(d.chunks)[c] == multiset(cs[t].chunks)[c] + multiset(moving)[c];
    }
  }

  lemma MovingToUser(free: seq<nat>, cs: seq<PerClass>, x: nat, user: multiset<nat>, k: nat, u: nat)
    requires Conserved(free, cs, [x], user, k, u)
    ensures Conserved(free, cs, [], user + multiset{x}, k, u)
  {
    forall c: nat ensures Balanced(c, free, cs, [], user + multiset{x}, k, u) {
      assert Balanced(c, free, cs, [x], user, k, u);
      assert multiset([x]) == multiset{x};
    }
  }

  lemma UserToMoving(free: seq<nat>, cs: seq<PerClass>, x: nat, user: multiset<nat>, k: nat, u: nat)
    requires Conserved(free, cs, [], user, k, u) && x in user
    ensures Conserved(free, cs, [x], user - multiset{x}, k, u)
  {
    forall c: nat ensures Balanced(c, free, cs, [x], user - multiset{x}, k, u) {
      assert Balanced(c, free, cs, [], user, k, u);
      assert multiset([x]) == multiset{x};
      assert (user - multiset{x})[c] == user[c] - multiset{x}[c];
    }
  }

  lemma SameHeld(free: seq<nat>, cs: seq<PerClass>, t: nat, m: nat, user: multiset<nat>, k: nat, u: nat)
    requires Conserved(free, cs, [], user, k, u) && t < |cs|
    ensures Conserved(free, cs[t := PerClass(m, cs[t].chunks)], [], user, k, u)
  {
    MovingToCache(free, cs, t, m, [], user, k, u);
    assert cs[t].chunks + [] == cs[t].chunks;
  }

  /** A chunk with the user is nowhere else and only once there. */
  lemma OnlyOnce(free: seq<nat>, cs: seq<PerClass>, moving: seq<nat>, user: multiset<nat>, x: nat, k: nat, u: nat)
    requires u > 0 && Conserved(free, cs, moving, user, k, u) && x in user
    ensures x in All(k, u) && user[x] == 1 && x !in free && x !in Held(cs) && x !in moving
  {
    assert Balanced(x, free, cs, moving, user, k, u);
    AllOnce(k, u, x);
    assert x in free ==> x in multiset(free);
    assert x in moving ==> x in multiset(moving);
  }

  // ------------------------------------------------------------- runs of free chunks

  datatype Range = Range(lo: nat, hi: nat)

  /** r is made of the whole granules between two addresses. */
  ghost predicate Inwards(begPtr: nat, endPtr: nat, r: Range) {
    && IsAligned(r.lo, GRANULARITY) && begPtr <= r.lo < begPtr + GRANULARITY
    && IsAligned(r.hi, GRANULARITY) && r.hi <= endPtr < r.hi + GRANULARITY
  }

  method RoundInwards(begPtr: nat, endPtr: nat) returns (r: Range)
    ensures Inwards(begPtr, endPtr, r)
  {
    r := Range(CeilTo(begPtr, GRANULARITY), RoundDownTo(endPtr, GRANULARITY));
  }

  lemma AlignedClose(x: nat, y: nat, g: nat)
    requires g > 0 && IsAligned(x, g) && IsAligned(y, g) && x < y + g
    ensures x <= y
  {
    if y < x {
      AlignedGap(y, x, g);
    }
  }

  lemma InwardsUnique(begPtr: nat, endPtr: nat, r: Range, q: Range)
    requires Inwards(begPtr, endPtr, r) && Inwards(begPtr, endPtr, q)
    ensures r == q
  {
    AlignedClose(r.lo, q.lo, GRANULARITY);
    AlignedClose(q.lo, r.lo, GRANULARITY);
    AlignedClose(r.hi, q.hi, GRANULARITY);
    AlignedClose(q.hi, r.hi, GRANULARITY);
  }

  /** Rounding a range of at least one granule inwards does not invert it. */
  lemma NotInverted(begPtr: nat, endPtr: nat, r: Range)
    requires Inwards(begPtr, endPtr, r) && begPtr + GRANULARITY <= endPtr
    ensures r.lo <= r.hi
  {
    AlignedClose(r.lo, r.hi, GRANULARITY);
  }

  ghost predicate Rounded(base: nat, size: nat, first: nat, last: nat, r: Range) {
    Inwards(CompactPtrToPointer(base, first), CompactPtrToPointer(base, last) + size, r)
  }

  /** fs[s..e] is a run of adjacent chunks that does not continue to the left. */
  ghost predicate RunFrom(fs: seq<nat>, u: nat, s: nat, e: nat) {
    && s <= e < |fs|
    && (s > 0 ==> fs[s] != fs[s - 1] + u)
    && forall j :: s < j <= e ==> fs[j] == fs[j - 1] + u
  }

  /** A maximal run of at least one granule that is not the last one. */
  ghost predicate LongRun(fs: seq<nat>, u: nat, size: nat, s: nat, e: nat) {
    && RunFrom(fs, u, s, e) && e + 1 < |fs| && fs[e + 1] != fs[e] + u
    && 16 * fs[s] + GRANULARITY <= 16 * fs[e] + size
  }

  /** r comes from a long run that ends before position limit. */
  ghost predicate FromRun(fs: seq<nat>, u: nat, size: nat, base: nat, limit: nat, r: Range) {
    exists s: nat, e: nat :: LongRun(fs, u, size, s, e) && e < limit && Rounded(base, size, fs[s], fs[e], r)
  }

  lemma RunStartUnique(fs: seq<nat>, u: nat, s: nat, t: nat, e: nat)
    requires RunFrom(fs, u, s, e) && RunFrom(fs, u, t, e)
    ensures s == t
  {
    assert forall j :: (s < j <= e || t < j <= e) ==> fs[j] == fs[j - 1] + u;
  }

  lemma AddRun(fs: seq<nat>, u: nat, size: nat, base: nat, st: nat, i: nat, q: Range)
    requires 0 < i && LongRun(fs, u, size, st, i - 1)
    ensures FromRun(fs, u, size, base, i, q) <==>
      FromRun(fs, u, size, base, i - 1, q) || Rounded(base, size, fs[st], fs[i - 1], q)
  {
    if FromRun(fs, u, size, base, i, q) {
      var s: nat, e: nat :| LongRun(fs, u, size, s, e) && e < i && Rounded(base, size, fs[s], fs[e], q);
      if e == i - 1 {
        RunStartUnique(fs, u, s, st, e);
      }
    }
  }

  lemma NoRunEnds(fs: seq<nat>, u: nat, size: nat, base: nat, st: nat, i: nat, q: Range)
    requires 0 < i && RunFrom(fs, u, st, i - 1) && !LongRun(fs, u, size, st, i - 1)
    ensures FromRun(fs, u, size, base, i, q) <==> FromRun(fs, u, size, base, i - 1, q)
  {
    if FromRun(fs, u, size, base, i, q) {
      var s: nat, e: nat :| LongRun(fs, u, size, s, e) && e < i && Rounded(base, size, fs[s], fs[e], q);
      if e == i - 1 {
        RunStartUnique(fs, u, s, st, e);
      }
    }
  }

  /** The byte at offset b of the region lies in a chunk of fs. */
  ghost predicate InFree(fs: seq<nat>, size: nat, b: nat) {
    exists j :: 0 <= j < |fs| && 16 * fs[j] <= b < 16 * fs[j] + size
  }

  lemma {:induction false} RunCovers(fs: seq<nat>, u: nat, size: nat, s: nat, e: nat, b: nat)
    requires size == 16 * u && RunFrom(fs, u, s, e) && 16 * fs[s] <= b < 16 * fs[e] + size
    ensures InFree(fs, size, b)
    decreases e
  {
    if b < 16 * fs[e] {
      assert s < e;
      RunCovers(fs, u, size, s, e - 1, b);
    }
  }

  /** A range that ReleaseToOS may hand back: whole granules, in order, inside free chunks. */
  ghost predicate SafeRange(fs: seq<nat>, size: nat, base: nat, r: Range) {
    && IsAligned(r.lo, GRANULARITY) && IsAligned(r.hi, GRANULARITY) && base <= r.lo < r.hi
    && forall b: nat :: base + b < r.hi && r.lo <= base + b ==> InFree(fs, size, b)
  }

  lemma RunIsSafe(fs: seq<nat>, u: nat, size: nat, base: nat, limit: nat, r: Range)
    requires size == 16 * u && FromRun(fs, u, size, base, limit, r)
    ensures r.lo <= r.hi
    ensures r.lo < r.hi ==> SafeRange(fs, size, base, r)
  {
    var s: nat, e: nat :| LongRun(fs, u, size, s, e) && e < limit && Rounded(base, size, fs[s], fs[e], r);
    var lo, hi := CompactPtrToPointer(base, fs[s]), CompactPtrToPointer(base, fs[e]) + size;
    NotInverted(lo, hi, r);
    forall b: nat | base + b < r.hi && r.lo <= base + b ensures InFree(fs, size, b) {
      RunCovers(fs, u, size, s, e, b);
    }
  }

  lemma SortedConserved(free: seq<nat>, fs: seq<nat>, cs: seq<PerClass>, user: multiset<nat>, k: nat, u: nat)
    requires Conserved(free, cs, [], user, k, u) && multiset(fs) == multiset(free)
    ensures Conserved(fs, cs, [], user, k, u)
  {
    forall c: nat ensures Balanced(c, fs, cs, [], user, k, u) {
      assert Balanced(c, free, cs, [], user, k, u);
    }
  }

  ghost predicate IsChunk(c: nat, k: nat, u: nat) {
    c in All(k, u)
  }

  ghost predicate AllChunks(fs: seq<nat>, k: nat, u: nat) {
    forall c {:trigger IsChunk(c, k, u)} :: c in fs ==> IsChunk(c, k, u)
  }

  lemma StillChunks(free: seq<nat>, sorted: seq<nat>, k: nat, u: nat)
    requires AllChunks(free, k, u) && forall c :: c in sorted <==> c in free
    ensures AllChunks(sorted, k, u)
  {
    forall c | c in sorted ensures IsChunk(c, k, u) {
      assert c in free;
    }
  }

  /** No chunk is twice in the free array. */
  lemma FreeDistinct(free: seq<nat>, cs: seq<PerClass>, user: multiset<nat>, k: nat, u: nat)
    requires u > 0 && Conserved(free, cs, [], user, k, u)
    ensures NoDup(free) && AllChunks(free, k, u)
  {
    ConservedIff(free, cs, [], user, k, u);
    assert multiset(free) + (Held(cs) + multiset([]) + user) == All(k, u);
    PartNoDup(free, Held(cs) + multiset([]) + user, k, u);
  }

  /** The element-wise copies between the free array and a caller's array. */
  method Copy(src: seq<nat>, from: nat, n: nat) returns (r: seq<nat>)
    requires from + n == |src|
    ensures r == src[from..]
  {
    r := [];
    var i: nat := 0;
    while i < n
      invariant i <= n && r == src[from..from + i]
    {
      r := r + [src[from + i]];
      i := i + 1;
    }
  }

  lemma {:induction false} TimesAtLeast(d: nat, size: nat)
    requires d > 0
    ensures Times(d, size) >= size && (size > 0 ==> Times(d, size) >= d)
  {
    if d > 1 {
      TimesAtLeast(d - 1, size);
    } else {
      assert Times(0, size) == 0;
    }
  }

  /** Words that add up to a multiple of 2^64 are negatives of each other. */
  lemma {:induction false} WrapNegative(x: nat, y: nat, k: nat)
    requires x + y == Times(k, W())
    ensures Wrap(x) == if Wrap(y) == 0 then 0 else W() - Wrap(y)
    decreases k
  {
    if x >= W() {
      WrapNegative(x - W(), y, k - 1);
    } else if y >= W() {
      WrapNegative(x, y - W(), k - 1);
    } else if k > 1 {
      assert false;
    } else if k == 1 {
      assert Times(k, W()) == Times(k - 1, W()) + W() && Times(0, W()) == 0;
    }
  }

  /** w - d chunks end d chunks below a multiple of w bytes. */
  lemma TimesBack(w: nat, d: nat, size: nat)
    requires d <= w && size > 0
    ensures Times(w - d, size) + Times(d, size) == Times(size - 1, w) + w
  {
    TimesIsMul(w - d, size);
    TimesIsMul(d, size);
    TimesIsMul(size - 1, w);
    assert (w - d) * size + d * size == w * size == (size - 1) * w + w;
  }

  lemma {:induction false} TimesIsMul(n: nat, size: nat)
    ensures Times(n, size) == n * size
  {
    if n > 0 {
      TimesIsMul(n - 1, size);
    }
  }

  // ------------------------------------------------------------- the allocator

  datatype Outcome = Chunk(p: nat) | Died

  /** EnsureFreeArraySpace passes its CHECK. */
  ghost predicate FreeSpaceOk(mapped: nat, n: nat, freeArraySize: nat) {
    4 * n <= mapped || 4 * n <= freeArraySize
  }

  class SizeClassAllocator64 {
    const regionBeg: nat
    const regionSize: nat
    const freeArraySize: nat
    const size: nat
    const metadataSize: nat
    const hint: nat                   // MaxCachedHint of the class
    const shuffle: bool               // kRandomShuffleChunks
    const constantSpace: bool         // kUsingConstantSpaceBeg

    var free: seq<nat>
    var mappedFreeArray: nat
    var allocatedUser: nat
    var allocatedMeta: nat
    var mappedUser: nat
    var mappedMeta: nat
    var randState: nat
    var nAllocated: nat
    var nFreed: nat
    var nFreedAtLastRelease: nat
    var numReleases: nat
    var caches: seq<PerClass>

    ghost const unit: nat             // the chunk size in compact pointer units
    ghost var nChunks: nat
    ghost var moving: seq<nat>        // chunks between the free array and a cache or the user
    ghost var user: multiset<nat>

    ghost predicate ParamsOk() {
      && size == 16 * unit && unit > 0 && hint > 0
      && freeArraySize <= regionSize <= 0x10_0000_0000
    }

    ghost predicate CacheOk(c: PerClass) {
      |c.chunks| <= c.maxCount && (c.maxCount == 0 || c.maxCount == 2 * hint)
    }

    ghost predicate Valid()
      reads this`free, this`caches, this`moving, this`user, this`nChunks, this`nAllocated, this`nFreed
      reads this`allocatedUser, this`mappedUser, this`allocatedMeta, this`mappedMeta, this`mappedFreeArray
    {
      && ParamsOk()
      && Conserved(free, caches, moving, user, nChunks, unit)
      && CountOk()
      && (forall t :: 0 <= t < |caches| ==> CacheOk(caches[t]))
      && SpaceOk()
    }

    /** The statistics count the chunks outside the free array. */
    ghost predicate CountOk()
      reads this`nAllocated, this`free, this`nFreed, this`nChunks
    {
      nAllocated + |free| == nFreed + nChunks
    }

    ghost predicate SpaceOk()
      reads this`free, this`nChunks, this`allocatedUser, this`mappedUser, this`allocatedMeta, this`mappedMeta, this`mappedFreeArray
    {
      && allocatedUser == Times(nChunks, size) <= mappedUser
      && allocatedMeta <= mappedMeta
      && mappedUser + mappedMeta <= regionSize - freeArraySize
      && 4 * |free| <= mappedFreeArray
    }

    constructor (regionBeg: nat, regionSize: nat, freeArraySize: nat, size: nat, metadataSize: nat, hint: nat,
                 shuffle: bool, constantSpace: bool, threads: nat)
      requires size % 16 == 0 && size > 0 && hint > 0 && freeArraySize <= regionSize <= 0x10_0000_0000
      ensures Valid() && nChunks == 0 && moving == [] && user == multiset{} && |caches| == threads
      ensures free == [] && forall t :: 0 <= t < threads ==> caches[t] == PerClass(0, [])
      ensures mappedFreeArray == allocatedUser == allocatedMeta == mappedUser == mappedMeta == randState == 0
      ensures nAllocated == nFreed == nFreedAtLastRelease == numReleases == 0
      ensures this.regionBeg == regionBeg && this.regionSize == regionSize && this.freeArraySize == freeArraySize && this.size == size
      ensures this.metadataSize == metadataSize && this.hint == hint && this.shuffle == shuffle && this.constantSpace == constantSpace
    {
      this.regionBeg, this.regionSize, this.freeArraySize := regionBeg, regionSize, freeArraySize;
      this.size, this.metadataSize, this.hint := size, metadataSize, hint;
      unit := size / 16;
      this.shuffle, this.constantSpace := shuffle, constantSpace;
      free, mappedFreeArray, allocatedUser, allocatedMeta, mappedUser, mappedMeta := [], 0, 0, 0, 0, 0;
      randState, nAllocated, nFreed, nFreedAtLastRelease, numReleases := 0, 0, 0, 0, 0;
      caches := seq(threads, i => PerClass(0, []));
      nChunks, moving, user := 0, [], multiset{};
      new;
      HeldEmpty(caches);
      assert forall c: nat :: Balanced(c, free, caches, moving, user, nChunks, unit);
    }

    // ---------------------------------------------------------- central free array

    method EnsureFreeArraySpace(n: nat) returns (ok: bool)
      modifies this`mappedFreeArray
      ensures ok <==> FreeSpaceOk(old(mappedFreeArray), n, freeArraySize)
      ensures ok ==> 4 * n <= mappedFreeArray && old(mappedFreeArray) <= mappedFreeArray
      ensures 4 * n <= old(mappedFreeArray) || !ok ==> mappedFreeArray == old(mappedFreeArray)
      ensures ok && 4 * n > old(mappedFreeArray) ==> IsAligned(mappedFreeArray, MAP_UNIT) && mappedFreeArray < 4 * n + MAP_UNIT
    {
      var needed := 4 * n;
      if mappedFreeArray < needed {
        if needed > freeArraySize {
          return false;
        }
        mappedFreeArray := CeilTo(needed, MAP_UNIT);
      }
      return true;
    }

    /** How many chunks PopulateFreeArray adds. */
    ghost function NewChunks(requested: nat): nat
      requires size > 0 && allocatedUser <= mappedUser
      reads this`allocatedUser, this`mappedUser
    {
      Fit(Grown(mappedUser, allocatedUser + Times(requested, size)) - allocatedUser, size)
    }

    /** The region and its free array have room. */
    ghost predicate CanPopulate(requested: nat)
      requires size > 0 && allocatedUser <= mappedUser
      reads this`allocatedUser, this`mappedUser, this`mappedFreeArray, this`free, this`mappedMeta, this`allocatedMeta
    {
      RoomAfter(NewChunks(requested), Grown(mappedUser, allocatedUser + Times(requested, size)))
    }

    /** There is room for n more chunks once the user memory has grown to mu bytes. */
    ghost predicate RoomAfter(n: nat, mu: nat)
      reads this`mappedFreeArray, this`free, this`mappedMeta, this`allocatedMeta
    {
      && FreeSpaceOk(mappedFreeArray, |free| + n, freeArraySize)
      && mu + Grown(mappedMeta, allocatedMeta + Times(n, metadataSize)) <= regionSize - freeArraySize
    }

    /** What the shuffle of PopulateFreeArray starts from: the first mapping of a region whose place
        is not fixed seeds it with its address. */
    ghost function Seed(requested: nat): nat
      reads this`allocatedUser, this`mappedUser, this`randState
    {
      if allocatedUser + Times(requested, size) > mappedUser && !constantSpace && mappedUser == 0
      then (regionBeg / 4096) % 0x1_0000_0000 else randState
    }

    /** The user memory of PopulateFreeArray; total is the number of chunks it makes room for. */
    method MapUser(requested: nat) returns (total: nat)
      requires size > 0 && allocatedUser <= mappedUser
      modifies this`mappedUser, this`randState
      ensures mappedUser == Grown(old(mappedUser), allocatedUser + Times(requested, size))
      ensures total == old(NewChunks(requested)) >= requested
      ensures allocatedUser + Times(total, size) <= mappedUser
      ensures randState == old(Seed(requested))
    {
      var endIdx := allocatedUser + Times(requested, size);
      if endIdx > mappedUser {
        if !constantSpace && mappedUser == 0 {
          randState := (regionBeg / 4096) % 0x1_0000_0000;
        }
        mappedUser := GrowMapping(mappedUser, endIdx);
      }
      total := Fit(mappedUser - allocatedUser, size);
      FitAtLeast(requested, mappedUser - allocatedUser, size);
    }

    method PopulateFreeArray(requested: nat) returns (ok: bool)
      requires Valid() && moving == []
      modifies this`free, this`mappedFreeArray, this`allocatedUser, this`allocatedMeta, this`mappedUser, this`mappedMeta,
        this`randState, this`nChunks
      ensures ok <==> old(CanPopulate(requested))
      ensures ok ==> Valid() && nChunks == old(nChunks + NewChunks(requested))
      ensures ok ==> |free| == old(|free| + NewChunks(requested)) >= old(|free|) + requested
      ensures ok ==> FreshFree(old(free), free, old(nChunks), old(NewChunks(requested)), old(Seed(requested)))
    {
      var total := MapUser(requested);
      ok := EnsureFreeArraySpace(|free| + total);
      if ok {
        ok := FillFreeArray(total);
      }
    }

    /** The free array has n more chunks at its end, the next ones of the region; unless they are
        shuffled the highest comes first, so that the lowest is handed out first. */
    ghost predicate FreshFree(before: seq<nat>, after: seq<nat>, k: nat, n: nat, seed: nat) {
      && before <= after && |after| == |before| + n
      && Extends(after[|before|..], k, n, unit)
      && IsCut(after[|before|..], k, n, size, shuffle, seed)
    }

    lemma FreshIs(before: seq<nat>, cut: seq<nat>, k: nat, n: nat, seed: nat)
      requires |cut| == n && Extends(cut, k, n, unit) && IsCut(cut, k, n, size, shuffle, seed)
      ensures FreshFree(before, before + cut, k, n, seed)
    {
      assert (before + cut)[|before|..] == cut;
    }

    /** PopulateFreeArray once the memory and the free-array space of total more chunks is mapped. */
    method FillFreeArray(total: nat) returns (ok: bool)
      requires ParamsOk() && Conserved(free, caches, moving, user, nChunks, unit) && moving == []
      requires nAllocated + |free| == nFreed + nChunks
      requires allocatedUser == Times(nChunks, size) && allocatedUser + Times(total, size) <= mappedUser
      requires 4 * (|free| + total) <= mappedFreeArray
      modifies this`free, this`allocatedUser, this`allocatedMeta, this`mappedMeta, this`randState, this`nChunks
      ensures ok <==> mappedUser + Grown(old(mappedMeta), old(allocatedMeta) + Times(total, metadataSize)) <= regionSize - freeArraySize
      ensures ok ==> SpaceOk() && Conserved(free, caches, moving, user, nChunks, unit)
      ensures ok ==> nAllocated + |free| == nFreed + nChunks && nChunks == old(nChunks) + total
      ensures ok ==> |free| == old(|free|) + total
      ensures ok ==> FreshFree(old(free), free, old(nChunks), total, old(randState))
      ensures ok ==> randState == if shuffle && total > 1 then Draws(Ansi(), old(randState), total - 1) else old(randState)
    {
      var cut, state := NewFreeChunks(nChunks, allocatedUser, total, size, unit, shuffle, randState);
      ok := MapMeta(total);
      if ok {
        Publish(cut, total, state, randState);
      }
    }

    /** The metadata of the new chunks, and the test for an exhausted region. */
    method MapMeta(total: nat) returns (ok: bool)
      modifies this`allocatedMeta, this`mappedMeta
      ensures ok <==> mappedUser + Grown(old(mappedMeta), old(allocatedMeta) + Times(total, metadataSize)) <= regionSize - freeArraySize
      ensures allocatedMeta <= mappedMeta
      ensures ok ==> mappedUser + mappedMeta <= regionSize - freeArraySize
    {
      allocatedMeta := allocatedMeta + Times(total, metadataSize);
      mappedMeta := GrowMapping(mappedMeta, allocatedMeta);
      ok := mappedUser + mappedMeta <= regionSize - freeArraySize;
    }

    /** The new chunks join the free array. */
    method Publish(cut: seq<nat>, total: nat, state: nat, ghost seed: nat)
      requires ParamsOk() && Conserved(free, caches, moving, user, nChunks, unit) && moving == []
      requires nAllocated + |free| == nFreed + nChunks && |cut| == total
      requires allocatedUser == Times(nChunks, size) && allocatedUser + Times(total, size) <= mappedUser <= regionSize
      requires Times(nChunks + total, size) <= 0x10_0000_0000 ==> Extends(cut, nChunks, total, unit)
      requires IsCut(cut, nChunks, total, size, shuffle, seed)
      modifies this`free, this`allocatedUser, this`randState, this`nChunks
      ensures free == old(free) + cut && nChunks == old(nChunks) + total
      ensures FreshFree(old(free), free, old(nChunks), total, seed) && randState == state
      ensures allocatedUser == Times(nChunks, size) <= mappedUser
      ensures Conserved(free, caches, moving, user, nChunks, unit)
      ensures nAllocated + |free| == nFreed + nChunks
    {
      TimesAdd(nChunks, total, size);
      MoveIn(free, cut, caches, user, nChunks, total, unit);
      FreshIs(free, cut, nChunks, total, seed);
      free := free + cut;
      allocatedUser := allocatedUser + Times(total, size);
      randState := state;
      nChunks := nChunks + total;
    }

    /** chunks are the last ones of the free array, after it was filled up if it had too few. */
    ghost predicate TakenFrom(before: seq<nat>, after: seq<nat>, chunks: seq<nat>, k: nat, more: nat, seed: nat) {
      if |chunks| <= |before| then after + chunks == before else FreshFree(before, after + chunks, k, more, seed)
    }

    /** How many chunks are added to the free array before n can be taken from it. */
    ghost function Lacking(n: nat): nat
      requires size > 0 && allocatedUser <= mappedUser
      reads this`free, this`allocatedUser, this`mappedUser
    {
      if |free| < n then NewChunks(n - |free|) else 0
    }

    ghost function SeedFor(n: nat): nat
      reads this`free, this`allocatedUser, this`mappedUser, this`randState
    {
      if |free| < n then Seed(n - |free|) else randState
    }

    method GetFromAllocator(n: nat) returns (ok: bool, chunks: seq<nat>)
      requires Valid() && moving == []
      modifies this`free, this`mappedFreeArray, this`allocatedUser, this`allocatedMeta, this`mappedUser, this`mappedMeta,
        this`randState, this`nChunks, this`nAllocated, this`moving
      ensures ok <==> old(|free| >= n || CanPopulate(n - |free|))
      ensures ok ==> Valid() && |chunks| == n && moving == chunks
      ensures ok ==> nAllocated == old(nAllocated) + n
      ensures ok ==> TakenFrom(old(free), free, chunks, old(nChunks), old(Lacking(n)), old(SeedFor(n)))
      ensures ok && n <= old(|free|) ==> nChunks == old(nChunks)
    {
      chunks := [];
      ok := true;
      if |free| < n {
        ok := PopulateFreeArray(n - |free|);
        if !ok {
          return;
        }
      }
      chunks := TakeTail(n);
    }

    /** The last n chunks of the free array. */
    method TakeTail(n: nat) returns (chunks: seq<nat>)
      requires Valid() && moving == [] && n <= |free|
      modifies this`free, this`nAllocated, this`moving
      ensures Valid() && |chunks| == n && moving == chunks
      ensures free + chunks == old(free) && nAllocated == old(nAllocated) + n
    {
      var baseIdx := |free| - n;
      chunks := Copy(free, baseIdx, n);
      assert free[..baseIdx] + chunks == free;
      FreeToMoving(free, baseIdx, caches, user, nChunks, unit);
      free, moving := free[..baseIdx], chunks;
      nAllocated := nAllocated + n;
    }

    method ReturnToAllocator(chunks: seq<nat>) returns (ok: bool)
      requires Valid() && moving == chunks
      modifies this`free, this`mappedFreeArray, this`nFreed, this`moving
      ensures ok <==> FreeSpaceOk(old(mappedFreeArray), old(|free|) + |chunks|, freeArraySize)
      ensures ok ==> Valid() && free == old(free) + chunks && moving == []
      ensures ok ==> nFreed == old(nFreed) + |chunks|
    {
      ok := EnsureFreeArraySpace(|free| + |chunks|);
      if !ok {
        return;
      }
      AppendFree(chunks);
    }

    method AppendFree(chunks: seq<nat>)
      requires Conserved(free, caches, moving, user, nChunks, unit) && moving == chunks && CountOk()
      modifies this`free, this`nFreed, this`moving
      ensures Conserved(free, caches, moving, user, nChunks, unit) && moving == [] && CountOk()
      ensures free == old(free) + chunks && nFreed == old(nFreed) + |chunks|
    {
      var copied := Copy(chunks, 0, |chunks|);
      assert copied == chunks;
      MovingToFree(free, caches, chunks, user, nChunks, unit);
      free, moving := free + copied, [];
      nFreed := nFreed + |chunks|;
    }

    // ---------------------------------------------------------- thread caches

    method InitCache(t: nat)
      requires Valid() && moving == [] && t < |caches|
      modifies this`caches
      ensures Valid() && caches == old(caches)[t := PerClass(2 * hint, old(caches[t].chunks))]
    {
      if caches[t].maxCount != 0 {
        return;
      }
      SameHeld(free, caches, t, 2 * hint, user, nChunks, unit);
      caches := caches[t := PerClass(2 * hint, caches[t].chunks)];
    }

    /** Takes hint chunks from the region into an empty cache. */
    method Refill(t: nat) returns (ok: bool, ghost got: seq<nat>)
      requires Valid() && moving == [] && t < |caches| && caches[t].chunks == []
      modifies this
      ensures ok <==> old(|free| >= hint || CanPopulate(hint - |free|))
      ensures ok ==> Valid() && user == old(user) && moving == [] && |got| == hint
      ensures ok ==> caches == old(caches)[t := PerClass(2 * hint, got)]
      ensures ok ==> nAllocated == old(nAllocated) + hint && nFreed == old(nFreed)
      ensures ok ==> TakenFrom(old(free), free, got, old(nChunks), old(Lacking(hint)), old(SeedFor(hint)))
    {
      InitCache(t);
      ok, got := RefillReady(t);
    }

    /** The same, once the cache knows its capacity. */
    method RefillReady(t: nat) returns (ok: bool, ghost got: seq<nat>)
      requires Valid() && moving == [] && t < |caches| && caches[t] == PerClass(2 * hint, [])
      modifies this
      ensures ok <==> old(|free| >= hint || CanPopulate(hint - |free|))
      ensures ok ==> Valid() && user == old(user) && moving == [] && |got| == hint
      ensures ok ==> caches == old(caches)[t := PerClass(2 * hint, got)]
      ensures ok ==> nAllocated == old(nAllocated) + hint && nFreed == old(nFreed)
      ensures ok ==> TakenFrom(old(free), free, got, old(nChunks), old(Lacking(hint)), old(SeedFor(hint)))
    {
      var chunks: seq<nat>;
      ok, chunks := GetFromAllocator(hint);
      got := chunks;
      if ok {
        assert [] + chunks == chunks;
        PutInCache(t, chunks);
      }
    }

    method PutInCache(t: nat, chunks: seq<nat>)
      requires Valid() && moving == chunks && t < |caches| && |caches[t].chunks| + |chunks| <= caches[t].maxCount
      modifies this`caches, this`moving
      ensures Valid() && moving == []
      ensures caches == old(caches)[t := PerClass(old(caches[t].maxCount), old(caches[t].chunks) + chunks)]
    {
      MovingToCache(free, caches, t, caches[t].maxCount, chunks, user, nChunks, unit);
      caches := caches[t := PerClass(caches[t].maxCount, caches[t].chunks + chunks)];
      moving := [];
    }

    /** Takes the last chunks out of a cache. */
    method TakeFromCache(t: nat, count: nat) returns (chunks: seq<nat>)
      requires Valid() && moving == [] && t < |caches| && count <= |caches[t].chunks|
      modifies this`caches, this`moving
      ensures Valid() && moving == chunks == old(caches[t].chunks)[old(|caches[t].chunks|) - count..]
      ensures caches == old(caches)[t := PerClass(old(caches[t].maxCount), old(caches[t].chunks)[..old(|caches[t].chunks|) - count])]
    {
      var b := |caches[t].chunks| - count;
      chunks := caches[t].chunks[b..];
      CacheToMoving(free, caches, t, b, caches[t].maxCount, user, nChunks, unit);
      caches := caches[t := PerClass(caches[t].maxCount, caches[t].chunks[..b])];
      moving := chunks;
    }

    method Drain(t: nat, count: nat) returns (ok: bool)
      requires Valid() && moving == [] && t < |caches| && count <= |caches[t].chunks|
      modifies this`caches, this`moving, this`free, this`mappedFreeArray, this`nFreed
      ensures ok <==> FreeSpaceOk(old(mappedFreeArray), old(|free|) + count, freeArraySize)
      ensures ok ==> Valid() && moving == []
      ensures ok ==> free == old(free) + old(caches[t].chunks)[old(|caches[t].chunks|) - count..]
      ensures ok ==> caches == old(caches)[t := PerClass(2 * hint, old(caches[t].chunks)[..old(|caches[t].chunks|) - count])]
      ensures ok ==> nFreed == old(nFreed) + count
    {
      InitCache(t);
      var chunks := TakeFromCache(t, count);
      ok := ReturnToAllocator(chunks);
    }

    /** p is a chunk the user holds. */
    ghost predicate Live(p: nat)
      reads this
    {
      regionBeg <= p && (p - regionBeg) % 16 == 0 && (p - regionBeg) / 16 in user
    }

    /** Hands out a chunk that nobody else holds. */
    method Allocate(t: nat) returns (r: Outcome)
      requires Valid() && moving == [] && t < |caches|
      modifies this
      ensures r.Died? <==> old(caches[t].chunks == [] && |free| < hint && !CanPopulate(hint - |free|))
      ensures r.Chunk? ==> Valid() && moving == [] && Live(r.p) && !old(Live(r.p))
      ensures r.Chunk? ==> user == old(user) + multiset{(r.p - regionBeg) / 16}
      ensures r.Chunk? ==> r.p + size <= regionBeg + allocatedUser
      ensures r.Chunk? && old(caches[t].chunks) != [] ==>
        var cached := old(caches[t].chunks);
        && r.p == CompactPtrToPointer(regionBeg, cached[|cached| - 1]) && free == old(free)
        && caches == old(caches)[t := PerClass(old(caches[t].maxCount), cached[..|cached| - 1])]
      ensures r.Chunk? && old(caches[t].chunks) == [] ==>
        && t < |caches| && caches == old(caches)[t := PerClass(2 * hint, caches[t].chunks)]
        && TakenFrom(old(free), free, caches[t].chunks + [(r.p - regionBeg) / 16], old(nChunks), old(Lacking(hint)), old(SeedFor(hint)))
    {
      if |caches[t].chunks| == 0 {
        var ok, _ := Refill(t);
        if !ok {
          return Died;
        }
      }
      assert |caches[t].chunks| > 0;
      ghost var cached := caches[t].chunks;
      var p := Pop(t);
      assert cached == cached[..|cached| - 1] + [(p - regionBeg) / 16];
      r := Chunk(p);
    }

    /** The last chunk of a cache goes to the user. */
    method Pop(t: nat) returns (p: nat)
      requires Valid() && moving == [] && t < |caches| && caches[t].chunks != []
      modifies this`caches, this`moving, this`user
      ensures Valid() && moving == [] && Live(p) && !old(Live(p)) && p + size <= regionBeg + allocatedUser
      ensures user == old(user) + multiset{(p - regionBeg) / 16}
      ensures var cached := old(caches[t].chunks);
        && p == CompactPtrToPointer(regionBeg, cached[|cached| - 1]) && (p - regionBeg) / 16 == cached[|cached| - 1]
        && caches == old(caches)[t := PerClass(old(caches[t].maxCount), cached[..|cached| - 1])]
    {
      var got := TakeFromCache(t, 1);
      var chunk := got[0];
      assert got == [chunk];
      HandOut(chunk);
      p := CompactPtrToPointer(regionBeg, chunk);
    }

    ghost method HandOut(chunk: nat)
      requires Valid() && moving == [chunk]
      modifies this`moving, this`user
      ensures Valid() && moving == [] && user == old(user) + multiset{chunk} && chunk !in old(user)
      ensures 16 * chunk + size <= allocatedUser
    {
      MovingToUser(free, caches, chunk, user, nChunks, unit);
      moving, user := [], user + multiset{chunk};
      OnlyOnce(free, caches, moving, user, chunk, nChunks, unit);
      AllBelow(nChunks, unit, chunk);
      TimesScale(nChunks, unit);
    }

    ghost method TakeBack(chunk: nat)
      requires Valid() && moving == [] && chunk in user
      modifies this`moving, this`user
      ensures Valid() && moving == [chunk] && user == old(user) - multiset{chunk} && chunk !in user
    {
      OnlyOnce(free, caches, moving, user, chunk, nChunks, unit);
      UserToMoving(free, caches, chunk, user, nChunks, unit);
      moving, user := [chunk], user - multiset{chunk};
    }

    /** Takes back a live chunk. */
    method Deallocate(t: nat, p: nat) returns (ok: bool)
      requires Valid() && moving == [] && t < |caches| && Live(p)
      modifies this
      ensures !ok <==> old(|caches[t].chunks|) == 2 * hint && !FreeSpaceOk(old(mappedFreeArray), old(|free|) + hint, freeArraySize)
      ensures ok ==> Valid() && moving == [] && !Live(p)
      ensures ok ==> user == old(user) - multiset{(p - regionBeg) / 16}
      ensures ok ==>
        var cached, chunk := old(caches[t].chunks), (p - regionBeg) / 16;
        if |cached| < 2 * hint then free == old(free) && caches == old(caches)[t := PerClass(2 * hint, cached + [chunk])]
        else free == old(free) + cached[hint..] && caches == old(caches)[t := PerClass(2 * hint, cached[..hint] + [chunk])]
    {
      InitCache(t);
      assert caches[t].maxCount != 0;
      if |caches[t].chunks| == caches[t].maxCount {
        ok := Drain(t, caches[t].maxCount / 2);
        if !ok {
          return;
        }
      }
      Deposit(t, p);
      return true;
    }

    /** A live chunk goes to the end of a cache that has room. */
    method Deposit(t: nat, p: nat)
      requires Valid() && moving == [] && t < |caches| && Live(p) && |caches[t].chunks| < caches[t].maxCount
      modifies this`caches, this`moving, this`user
      ensures Valid() && moving == [] && !Live(p) && user == old(user) - multiset{(p - regionBeg) / 16}
      ensures caches == old(caches)[t := PerClass(old(caches[t].maxCount), old(caches[t].chunks) + [(p - regionBeg) / 16])]
    {
      LiveIsCompact(p);
      var chunk := PointerToCompactPtr(regionBeg, p);
      TakeBack(chunk);
      PutInCache(t, [chunk]);
    }

    /** The compact form of a live pointer names the chunk it is. */
    lemma LiveIsCompact(p: nat)
      requires Valid() && moving == [] && Live(p)
      ensures PointerToCompactPtr(regionBeg, p) == (p - regionBeg) / 16
    {
      var c := (p - regionBeg) / 16;
      OnlyOnce(free, caches, moving, user, c, nChunks, unit);
      AllBelow(nChunks, unit, c);
      TimesScale(nChunks, unit);
      PointerRoundTrip(regionBeg, c);
    }

    /** Destroy: everything a thread cached goes back. */
    method DrainAll(t: nat) returns (ok: bool)
      requires Valid() && moving == [] && t < |caches|
      modifies this`caches, this`moving, this`free, this`mappedFreeArray, this`nFreed
      ensures ok <==> old(caches[t].chunks) == [] || FreeSpaceOk(old(mappedFreeArray), old(|free| + |caches[t].chunks|), freeArraySize)
      ensures ok ==> Valid() && moving == [] && t < |caches| && caches[t].chunks == []
      ensures ok ==> free == old(free) + old(caches[t].chunks)
      ensures ok ==> |caches| == old(|caches|) && forall k: nat :: k < |caches| && k != t ==> caches[k] == old(caches[k])
    {
      ok := true;
      while |caches[t].chunks| > 0
        invariant ok && Valid() && moving == [] && t < |caches|
        invariant caches[t].chunks == [] ==> free == old(free) + old(caches[t].chunks)
        invariant caches[t].chunks == [] ==>
          old(caches[t].chunks) == [] || FreeSpaceOk(old(mappedFreeArray), old(|free| + |caches[t].chunks|), freeArraySize)
        invariant |caches| == old(|caches|) && forall k: nat :: k < |caches| && k != t ==> caches[k] == old(caches[k])
        invariant caches[t].chunks != [] ==>
          free == old(free) && caches == old(caches) && mappedFreeArray == old(mappedFreeArray)
        decreases |caches[t].chunks|
      {
        ok := Drain(t, |caches[t].chunks|);
        if !ok {
          return;
        }
      }
    }

    // ---------------------------------------------------------- ReleaseToOS

    /** Rounds a run of free chunks inwards to whole granules; a pair of equal ends means nothing. */
    method MaybeReleaseChunkRange(first: nat, last: nat) returns (r: Range)
      requires 16 * first + GRANULARITY <= 16 * last + size
      ensures Rounded(regionBeg, size, first, last, r)
    {
      var begPtr := CompactPtrToPointer(regionBeg, first);
      var endPtr := CompactPtrToPointer(regionBeg, last) + size;
      assert endPtr - begPtr >= GRANULARITY;
      r := RoundInwards(begPtr, endPtr);
    }

    /** ranges holds what the long runs before limit round to, and nothing else. */
    ghost predicate Exactly(ranges: seq<Range>, fs: seq<nat>, limit: nat) {
      forall r :: r in ranges <==> r.lo < r.hi && FromRun(fs, unit, size, regionBeg, limit, r)
    }

    /** The ranges lie one after another, the last one below the address of chunk c. */
    ghost predicate InOrder(ranges: seq<Range>, c: nat) {
      && (forall j, k :: 0 <= j < k < |ranges| ==> ranges[j].hi <= ranges[k].lo)
      && (forall j :: 0 <= j < |ranges| ==> ranges[j].lo < ranges[j].hi <= CompactPtrToPointer(regionBeg, c))
    }

    lemma OrderMore(ranges: seq<Range>, r: Range, b: nat, e: nat, c: nat)
      requires InOrder(ranges, b) && r.lo <= r.hi && b <= e && 16 * e + size <= 16 * c && size > 0
      requires Rounded(regionBeg, size, b, e, r)
      ensures InOrder(if r.lo == r.hi then ranges else ranges + [r], c)
    {
    }

    /** How many long runs end before position limit. */
    ghost function LongRuns(fs: seq<nat>, limit: nat): nat {
      if limit == 0 then 0
      else LongRuns(fs, limit - 1) + if LongRunEnds(fs, limit - 1) then 1 else 0
    }

    ghost predicate LongRunEnds(fs: seq<nat>, e: nat) {
      exists s: nat :: LongRun(fs, unit, size, s, e)
    }

    lemma ReleaseOne(fs: seq<nat>, st: nat, i: nat, ranges: seq<Range>, r: Range)
      requires ParamsOk() && 0 < i && LongRun(fs, unit, size, st, i - 1) && Exactly(ranges, fs, i - 1)
      requires Rounded(regionBeg, size, fs[st], fs[i - 1], r)
      ensures r.lo <= r.hi && Exactly(if r.lo == r.hi then ranges else ranges + [r], fs, i)
    {
      var more := if r.lo == r.hi then ranges else ranges + [r];
      var b, e := CompactPtrToPointer(regionBeg, fs[st]), CompactPtrToPointer(regionBeg, fs[i - 1]) + size;
      NotInverted(b, e, r);
      forall q ensures q in more <==> q.lo < q.hi && FromRun(fs, unit, size, regionBeg, i, q) {
        AddRun(fs, unit, size, regionBeg, st, i, q);
        if Rounded(regionBeg, size, fs[st], fs[i - 1], q) {
          InwardsUnique(b, e, r, q);
        }
      }
    }

    lemma KeepRanges(fs: seq<nat>, st: nat, i: nat, ranges: seq<Range>)
      requires 0 < i && RunFrom(fs, unit, st, i - 1) && !LongRun(fs, unit, size, st, i - 1) && Exactly(ranges, fs, i - 1)
      ensures Exactly(ranges, fs, i)
    {
      forall q ensures q in ranges <==> q.lo < q.hi && FromRun(fs, unit, size, regionBeg, i, q) {
        NoRunEnds(fs, unit, size, regionBeg, st, i, q);
      }
    }

    /** A run has ended before position i: it is handed back if it is long enough, unless it rounds
        to nothing. */
    method EndRun(fs: seq<nat>, ghost st: nat, ghost i: nat, ranges: seq<Range>, beg: nat, prev: nat)
        returns (more: seq<Range>, released: nat)
      requires ParamsOk() && 0 < i < |fs| && RunFrom(fs, unit, st, i - 1) && fs[i] != fs[i - 1] + unit
      requires Exactly(ranges, fs, i - 1) && beg == fs[st] <= prev == fs[i - 1]
      requires InOrder(ranges, beg) && prev + unit <= fs[i]
      ensures Exactly(more, fs, i) && |more| <= |ranges| + released && InOrder(more, fs[i])
      ensures released == if LongRunEnds(fs, i - 1) then 1 else 0
    {
      if prev + size / 16 - beg >= GRANULARITY / 16 {
        var r := MaybeReleaseChunkRange(beg, prev);
        assert LongRun(fs, unit, size, st, i - 1);
        ReleaseOne(fs, st, i, ranges, r);
        OrderMore(ranges, r, beg, prev, fs[i]);
        return if r.lo == r.hi then ranges else ranges + [r], 1;
      } else {
        KeepRanges(fs, st, i, ranges);
        NoLongRun(fs, st, i - 1);
        return ranges, 0;
      }
    }

    lemma NoLongRun(fs: seq<nat>, st: nat, e: nat)
      requires RunFrom(fs, unit, st, e) && !LongRun(fs, unit, size, st, e)
      ensures !LongRunEnds(fs, e)
    {
      forall s: nat ensures !LongRun(fs, unit, size, s, e) {
        if RunFrom(fs, unit, s, e) {
          RunStartUnique(fs, unit, s, st, e);
        }
      }
    }

    /** The ranges of exactly the long runs but the last, in order, and how many such runs there are. */
    ghost predicate Scanned(ranges: seq<Range>, releases: nat, fs: seq<nat>) {
      && fs != [] && Exactly(ranges, fs, |fs| - 1) && InOrder(ranges, fs[|fs| - 1])
      && releases == LongRuns(fs, |fs| - 1)
    }

    /** The scan over the sorted free array. It hands back exactly the long maximal runs, except
        that the last run is never handed back. */
    method ReleaseRuns(fs: seq<nat>) returns (ranges: seq<Range>, releases: nat)
      requires ParamsOk() && fs != [] && Increasing(fs)
      requires AllChunks(fs, nChunks, unit)
      ensures Scanned(ranges, releases, fs)
      ensures releases >= |ranges|
    {
      ranges, releases := [], 0;
      var beg, prev := fs[0], fs[0];
      ghost var st: nat := 0;
      var i: nat := 1;
      while i < |fs|
        invariant 1 <= i <= |fs| && st < i && beg == fs[st] <= prev == fs[i - 1]
        invariant RunFrom(fs, unit, st, i - 1)
        invariant Exactly(ranges, fs, i - 1)
        invariant releases >= |ranges| && releases == LongRuns(fs, i - 1) && InOrder(ranges, beg)
      {
        var more, n, beg' := ScanStep(fs, st, i, ranges, beg);
        ranges, releases, beg := more, releases + n, beg';
        if fs[i] != fs[i - 1] + unit {
          st := i;
        }
        prev := fs[i];
        i := i + 1;
      }
    }

    /** One iteration: does the i-th chunk continue the run? */
    method ScanStep(fs: seq<nat>, ghost st: nat, i: nat, ranges: seq<Range>, beg: nat)
        returns (more: seq<Range>, released: nat, beg': nat)
      requires ParamsOk() && Increasing(fs) && AllChunks(fs, nChunks, unit)
      requires 0 < i < |fs| && RunFrom(fs, unit, st, i - 1) && Exactly(ranges, fs, i - 1) && beg == fs[st]
      requires InOrder(ranges, beg)
      ensures Exactly(more, fs, i) && |more| <= |ranges| + released && InOrder(more, beg')
      ensures released == if LongRunEnds(fs, i - 1) then 1 else 0
      ensures beg' == if fs[i] != fs[i - 1] + unit then fs[i] else beg
    {
      var chunk, prev := fs[i], fs[i - 1];
      assert chunk > prev;
      assert IsChunk(prev, nChunks, unit) && IsChunk(chunk, nChunks, unit);
      AllGap(nChunks, unit, prev, chunk);
      if chunk - prev != size / 16 {
        assert chunk - prev > size / 16;
        more, released := EndRun(fs, st, i, ranges, beg, prev);
        beg' := chunk;
      } else {
        KeepRanges(fs, st, i, ranges);
        NoLongRun(fs, st, i - 1);
        more, released, beg' := ranges, 0, beg;
      }
    }

    /** The early exits, on 64-bit words: the second difference wraps below zero. */
    predicate NothingToRelease()
      reads this
    {
      Times(|free|, size) < GRANULARITY || Wrap(Times(Wrap(nFreedAtLastRelease + (W() - Wrap(nFreed))), size)) < GRANULARITY
    }

    /** The second exit subtracts the wrong way round: it is taken exactly if the bytes freed since
        the last release are a multiple of 2^64 or less than a granule below one. */
    lemma NothingNewIff()
      requires nFreedAtLastRelease <= nFreed < W() && size > 0
      ensures var freed := Wrap(Times(nFreed - nFreedAtLastRelease, size));
        NothingToRelease() <==> Times(|free|, size) < GRANULARITY || freed == 0 || freed > W() - GRANULARITY
    {
      var d := nFreed - nFreedAtLastRelease;
      if d > 0 {
        assert Wrap(nFreedAtLastRelease + (W() - Wrap(nFreed))) == W() - d;
        TimesBack(W(), d, size);
        assert Times(size, W()) == Times(size - 1, W()) + W();
        WrapNegative(Times(W() - d, size), Times(d, size), size);
      } else {
        assert Wrap(nFreedAtLastRelease + (W() - Wrap(nFreed))) == 0;
      }
    }

    /** It is meant for less than a granule freed, but for any amount that fits into a word, less a
        granule, it is taken exactly if nothing was freed. */
    lemma NothingNewMeans()
      requires nFreedAtLastRelease <= nFreed < W() && size > 0
      requires Times(nFreed - nFreedAtLastRelease, size) + GRANULARITY <= W()
      ensures NothingToRelease() <==> Times(|free|, size) < GRANULARITY || nFreed == nFreedAtLastRelease
    {
      NothingNewIff();
      if nFreed > nFreedAtLastRelease {
        TimesAtLeast(nFreed - nFreedAtLastRelease, size);
      }
    }

    /** Every range handed back is made of whole granules inside chunks that are free now, and the
        free array keeps its chunks. */
    method ReleaseToOS() returns (ranges: seq<Range>)
      requires Valid() && moving == []
      modifies this`free, this`nFreedAtLastRelease, this`numReleases
      ensures Valid() && multiset(free) == old(multiset(free))
      ensures old(NothingToRelease()) ==> ranges == [] && unchanged(this)
      ensures !old(NothingToRelease()) ==> Released(ranges, old(free), old(numReleases), old(nFreedAtLastRelease))
      ensures AllSafe(ranges, free)
    {
      if NothingToRelease() {
        return [];
      }
      assert |free| > 0;
      ranges := ReleaseSorted();
      ReleasedAreSafe(ranges, free);
    }

    /** The free array is sorted, the ranges are exactly those of its long runs, in order, and the
        counters say how many long runs there were. */
    ghost predicate Released(ranges: seq<Range>, free0: seq<nat>, releases0: nat, freed0: nat)
      reads this
    {
      && |free| > 0 && Sorts(free0, free) && releases0 <= numReleases
      && Scanned(ranges, numReleases - releases0, free)
      && nFreedAtLastRelease == if numReleases > releases0 then nFreed else freed0
    }

    method ReleaseSorted() returns (ranges: seq<Range>)
      requires Valid() && moving == [] && |free| > 0
      modifies this`free, this`nFreedAtLastRelease, this`numReleases
      ensures Valid() && Released(ranges, old(free), old(numReleases), old(nFreedAtLastRelease))
    {
      SortFree();
      var releases;
      ranges, releases := ReleaseRuns(free);
      CountReleases(releases);
    }

    method CountReleases(releases: nat)
      modifies this`nFreedAtLastRelease, this`numReleases
      ensures numReleases == old(numReleases) + releases
      ensures nFreedAtLastRelease == if releases > 0 then nFreed else old(nFreedAtLastRelease)
    {
      if releases > 0 {
        nFreedAtLastRelease := nFreed;
      }
      numReleases := numReleases + releases;
    }

    method SortFree()
      requires Valid() && moving == []
      modifies this`free
      ensures Valid() && Sorts(old(free), free) && |free| == old(|free|) && Increasing(free)
      ensures AllChunks(free, nChunks, unit)
    {
      FreeDistinct(free, caches, user, nChunks, unit);
      var sorted := SortArray(free);
      SortsDistinct(free, sorted);
      SortedConserved(free, sorted, caches, user, nChunks, unit);
      StillChunks(free, sorted, nChunks, unit);
      free := sorted;
    }

    ghost predicate AllSafe(ranges: seq<Range>, fs: seq<nat>) {
      forall r :: r in ranges ==> SafeRange(fs, size, regionBeg, r)
    }

    lemma ReleasedAreSafe(ranges: seq<Range>, fs: seq<nat>)
      requires ParamsOk() && fs != [] && Exactly(ranges, fs, |fs| - 1)
      ensures AllSafe(ranges, fs)
    {
      forall r | r in ranges ensures SafeRange(fs, size, regionBeg, r) {
        RunIsSafe(fs, unit, size, regionBeg, |fs| - 1, r);
      }
    }

    /** One uninterrupted run of free chunks, however long, is never handed back. */
    lemma LastRunStays(ranges: seq<Range>, fs: seq<nat>)
      requires fs != [] && Exactly(ranges, fs, |fs| - 1)
      requires forall j :: 0 < j < |fs| ==> fs[j] == fs[j - 1] + unit
      ensures forall r :: r !in ranges
    {
      forall s: nat, e: nat ensures !LongRun(fs, unit, size, s, e) {
        assert forall j :: 0 < j < |fs| ==> fs[j] == fs[j - 1] + unit;
        assert e + 1 < |fs| ==> e + 1 - 1 == e;
      }
    }
  }
}
