/**
 LargeMmapAllocator (sanitizer_allocator_secondary.h): one mapping per block, a header one page
 below the user pointer, and an array of header addresses that is searched either linearly or,
 after a lazy sort, by bisection.
 */
module LargeMmap {
  import opened Addresses
  import opened Sorting

  /** The header fields that never change after Allocate; chunk_idx is kept apart. */
  datatype Header = Header(mapBeg: nat, mapSize: nat, size: nat)

  datatype Outcome = Block(p: nat) | Null | Died

  const MAX_NUM_CHUNKS: nat := 262144

  ghost function MapEnd(d: Header): nat { d.mapBeg + d.mapSize }

  ghost predicate Apart(d: Header, e: Header) {
    MapEnd(d) <= e.mapBeg || MapEnd(e) <= d.mapBeg
  }

  ghost predicate HeaderOk(page: nat, h: nat, d: Header)
    requires page > 0
  {
    && 0 < d.mapBeg <= h && IsAligned(h, page)
    && h + page + d.size <= MapEnd(d) < W()
    && CeilTo(d.size, page) + page <= d.mapSize
  }

  ghost predicate Layout(page: nat, hs: map<nat, Header>) {
    && page > 0
    && (forall h {:trigger HeaderOk(page, h, hs[h])} :: h in hs ==> HeaderOk(page, h, hs[h]))
    && (forall g, h {:trigger Apart(hs[g], hs[h])} :: g in hs && h in hs && g != h ==> Apart(hs[g], hs[h]))
  }

  /** chunk_idx leads back to position i. */
  ghost predicate IndexAt(chunks: seq<nat>, idx: map<nat, nat>, i: nat) {
    i < |chunks| && chunks[i] in idx && idx[chunks[i]] == i
  }

  ghost predicate Listed(chunks: seq<nat>, hs: map<nat, Header>, h: nat) {
    h in hs <==> h in chunks
  }

  /** The chunk array lists the live headers, and chunk_idx is its inverse. */
  ghost predicate Indexed(chunks: seq<nat>, hs: map<nat, Header>, idx: map<nat, nat>) {
    && (forall i: nat {:trigger IndexAt(chunks, idx, i)} :: i < |chunks| ==> IndexAt(chunks, idx, i))
    && (forall h: nat {:trigger Listed(chunks, hs, h)} :: Listed(chunks, hs, h))
  }

  lemma IndexedNoDup(chunks: seq<nat>, hs: map<nat, Header>, idx: map<nat, nat>)
    requires Indexed(chunks, hs, idx)
    ensures NoDup(chunks)
  {
    forall i, j | 0 <= i < j < |chunks| ensures chunks[i] != chunks[j] {
      assert IndexAt(chunks, idx, i) && IndexAt(chunks, idx, j);
    }
  }

  lemma ChunkIsLive(chunks: seq<nat>, hs: map<nat, Header>, idx: map<nat, nat>, i: nat)
    requires Indexed(chunks, hs, idx) && i < |chunks|
    ensures chunks[i] in hs && chunks[i] in idx && idx[chunks[i]] == i
  {
    assert IndexAt(chunks, idx, i) && Listed(chunks, hs, chunks[i]);
  }

  lemma AllLive(chunks: seq<nat>, hs: map<nat, Header>, idx: map<nat, nat>)
    requires Indexed(chunks, hs, idx)
    ensures forall h :: h in chunks ==> h in hs
  {
    forall h | h in chunks ensures h in hs {
      assert Listed(chunks, hs, h);
    }
  }

  lemma NoneLive(page: nat, chunks: seq<nat>, hs: map<nat, Header>, idx: map<nat, nat>, p: nat)
    requires Indexed(chunks, hs, idx) && chunks == []
    ensures BlockOf(page, hs, p, 0)
  {
    forall h: nat ensures h !in hs {
      assert Listed(chunks, hs, h);
    }
  }

  lemma LiveAt(chunks: seq<nat>, hs: map<nat, Header>, idx: map<nat, nat>, h: nat) returns (i: nat)
    requires Indexed(chunks, hs, idx) && h in hs
    ensures i < |chunks| && chunks[i] == h && h in idx && idx[h] == i
  {
    assert Listed(chunks, hs, h);
    i :| i < |chunks| && chunks[i] == h;
    assert IndexAt(chunks, idx, i);
  }

  // ------------------------------------------------------------- lookups

  /** p lies between the header and the end of the mapping. */
  ghost predicate Holds(hs: map<nat, Header>, h: nat, p: nat) {
    h in hs && h <= p < MapEnd(hs[h])
  }

  /** What a lookup of p must answer. */
  ghost predicate BlockOf(page: nat, hs: map<nat, Header>, p: nat, r: nat) {
    if r == 0 then forall h :: h in hs ==> !Holds(hs, h, p)
    else r > page && Holds(hs, r - page, p)
  }

  lemma HolderUnique(page: nat, hs: map<nat, Header>, g: nat, h: nat, p: nat)
    requires Layout(page, hs) && Holds(hs, g, p) && Holds(hs, h, p)
    ensures g == h
  {
    assert HeaderOk(page, g, hs[g]) && HeaderOk(page, h, hs[h]);
    assert g != h ==> Apart(hs[g], hs[h]);
  }

  /** The answer is determined, so the linear and the fast lookup always agree. */
  lemma LookupUnique(page: nat, hs: map<nat, Header>, p: nat, r: nat, s: nat)
    requires Layout(page, hs) && BlockOf(page, hs, p, r) && BlockOf(page, hs, p, s)
    ensures r == s
  {
    if r != 0 && s != 0 {
      HolderUnique(page, hs, r - page, s - page, p);
    }
  }

  /** The nearest header at or below p is the only one that can hold p. */
  lemma NearestHolds(page: nat, hs: map<nat, Header>, h: nat, p: nat)
    requires Layout(page, hs) && h in hs && h <= p
    requires forall g :: g in hs && g <= p ==> g <= h
    ensures BlockOf(page, hs, p, if MapEnd(hs[h]) <= p then 0 else h + page)
    ensures hs[h].mapBeg <= h < MapEnd(hs[h])
  {
    assert HeaderOk(page, h, hs[h]);
    forall g | g in hs && Holds(hs, g, p) ensures g == h {
      assert HeaderOk(page, g, hs[g]);
      assert g != h ==> Apart(hs[g], hs[h]);
    }
  }

  // ------------------------------------------------------------- sums of mappings

  ghost function Bytes(hs: map<nat, Header>, h: nat): nat {
    if h in hs then hs[h].mapSize else 0
  }

  ghost function Total(hs: map<nat, Header>, chunks: seq<nat>): nat {
    if chunks == [] then 0 else Bytes(hs, chunks[0]) + Total(hs, chunks[1..])
  }

  lemma {:induction false} TotalSplit(hs: map<nat, Header>, a: seq<nat>, b: seq<nat>)
    ensures Total(hs, a + b) == Total(hs, a) + Total(hs, b)
  {
    if a == [] {
      assert a + b == b;
    } else {
      assert (a + b)[1..] == a[1..] + b;
      TotalSplit(hs, a[1..], b);
    }
  }

  lemma DropOne(a: seq<nat>, front: seq<nat>, x: nat, back: seq<nat>)
    requires a != [] && a[0] == x && multiset(a) == multiset(front + [x] + back)
    ensures multiset(a[1..]) == multiset(front + back)
  {
    assert a == [x] + a[1..];
    assert multiset(a) - multiset{x} == multiset(a[1..]);
    assert multiset(front + [x] + back) - multiset{x} == multiset(front) + multiset(back);
  }

  lemma {:induction false} TotalPerm(hs: map<nat, Header>, a: seq<nat>, b: seq<nat>)
    requires multiset(a) == multiset(b)
    ensures Total(hs, a) == Total(hs, b)
    decreases |a|
  {
    if a != [] {
      var x := a[0];
      assert x in multiset(b);
      var k :| 0 <= k < |b| && b[k] == x;
      var front, back := b[..k], b[k + 1..];
      assert b == front + [x] + back;
      DropOne(a, front, x, back);
      TotalPerm(hs, a[1..], front + back);
      TotalMiddle(hs, front, x, back);
    } else {
      assert |multiset(b)| == |b|;
    }
  }

  lemma TotalMiddle(hs: map<nat, Header>, front: seq<nat>, x: nat, back: seq<nat>)
    ensures Total(hs, front + [x] + back) == Bytes(hs, x) + Total(hs, front + back)
  {
    assert front + [x] + back == front + ([x] + back);
    TotalSplit(hs, front, [x] + back);
    TotalSplit(hs, front, back);
    assert ([x] + back)[1..] == back;
  }

  lemma {:induction false} TotalSame(hs: map<nat, Header>, gs: map<nat, Header>, a: seq<nat>)
    requires forall h :: h in a ==> h in hs && h in gs && hs[h] == gs[h]
    ensures Total(hs, a) == Total(gs, a)
  {
    if a != [] {
      TotalSame(hs, gs, a[1..]);
    }
  }

  lemma {:induction false} TotalBelowEnd(page: nat, hs: map<nat, Header>, a: seq<nat>)
    requires Layout(page, hs) && a != [] && Increasing(a) && forall h :: h in a ==> h in hs
    ensures hs[a[0]].mapBeg + Total(hs, a) <= MapEnd(hs[a[|a| - 1]])
  {
    if |a| > 1 {
      var t := a[1..];
      assert t[0] == a[1] && t[|t| - 1] == a[|a| - 1];
      TotalBelowEnd(page, hs, t);
      assert HeaderOk(page, a[0], hs[a[0]]) && HeaderOk(page, a[1], hs[a[1]]);
      assert Apart(hs[a[0]], hs[a[1]]);
    } else {
      assert a[1..] == [];
    }
  }

  /** Live mappings are disjoint, so their sizes never add up to 2^64. */
  lemma TotalFits(page: nat, hs: map<nat, Header>, a: seq<nat>)
    requires Layout(page, hs) && NoDup(a) && forall h :: h in a ==> h in hs
    ensures Total(hs, a) < W()
  {
    var s := Sort(a);
    SortsDistinct(a, s);
    TotalPerm(hs, a, s);
    if s != [] {
      TotalBelowEnd(page, hs, s);
      assert HeaderOk(page, s[|s| - 1], hs[s[|s| - 1]]);
    }
  }

  // ------------------------------------------------------------- sizes

  /** The mapping a request really needs. */
  ghost function TrueMapSize(page: nat, size: nat, alignment: nat): nat
    requires page > 0
  {
    CeilTo(size, page) + page + if alignment > page then alignment else 0
  }

  function RoundUpMapSize(page: nat, size: nat): nat
    requires page > 0
  {
    Wrap(RoundUpTo(size, page) + page)
  }

  ghost predicate PageOk(page: nat) {
    IsPowerOfTwo(page) && page > 0 && 4 * page <= W()
  }

  lemma RoundUpMapSizeExact(page: nat, size: nat)
    requires PageOk(page) && size < W()
    ensures CeilTo(size, page) + page < W() ==> RoundUpMapSize(page, size) == CeilTo(size, page) + page
  {
    RoundUpExact(size, page);
  }

  function MapSize(page: nat, size: nat, alignment: nat): nat
    requires page > 0
  {
    if alignment > page then Wrap(RoundUpMapSize(page, size) + alignment) else RoundUpMapSize(page, size)
  }

  /** The source's IsPowerOfTwo; x - 1 does not matter where x is 0. */
  predicate PassesPowerCheck(x: nat) {
    And(x, if x == 0 then 0 else x - 1) == 0
  }

  /** Zero passes it too. */
  lemma PowerCheckMeans(x: nat)
    ensures PassesPowerCheck(x) <==> x == 0 || IsPowerOfTwo(x)
  {
    if x > 0 {
      PowerTest(x);
    }
  }

  /** The test "map_size < size" is exact: it fires when and only when the mapping would need
      2^64 bytes or more, whichever addition wrapped. */
  lemma OverflowExact(page: nat, size: nat, alignment: nat)
    requires PageOk(page) && size < W() && (alignment == 0 || IsPowerOfTwo(alignment)) && alignment < W()
    ensures MapSize(page, size, alignment) < size <==> TrueMapSize(page, size, alignment) >= W()
    ensures TrueMapSize(page, size, alignment) < W() ==> MapSize(page, size, alignment) == TrueMapSize(page, size, alignment)
  {
    var extra := if alignment > page then alignment else 0;
    if alignment > 0 {
      BelowWord(alignment);
    }
    MapSizeIs(page, size, alignment, extra);
  }

  lemma MapSizeIs(page: nat, size: nat, alignment: nat, extra: nat)
    requires PageOk(page) && size < W() && 2 * alignment <= W()
    requires extra == if alignment > page then alignment else 0
    ensures var ceil := CeilTo(size, page);
      MapSize(page, size, alignment) == (
        if ceil >= W() then page + extra
        else if ceil + page + extra < W() then ceil + page + extra
        else ceil + page + extra - W())
  {
    RoundUpExact(size, page);
    var ceil := CeilTo(size, page);
    if ceil < W() {
      WrapSum(ceil, page);
      WrapSum(RoundUpMapSize(page, size), extra);
    }
  }

  lemma WrapSum(x: nat, y: nat)
    requires x < W() && y < W()
    ensures Wrap(x + y) == if x + y < W() then x + y else x + y - W()
  {
    if x + y >= W() {
      WrapOnce(x + y);
    }
  }

  /** The user pointer inside a fresh mapping. */
  function UserPointer(page: nat, mapBeg: nat, alignment: nat): nat
    requires alignment > 0
  {
    var res := mapBeg + page;
    if LowBits(res, alignment) != 0 then res + (alignment - LowBits(res, alignment)) else res
  }

  lemma UserPointerFits(page: nat, size: nat, mapBeg: nat, alignment: nat)
    requires PageOk(page) && IsPowerOfTwo(alignment) && alignment > 0 && IsAligned(mapBeg, page)
    ensures var res := UserPointer(page, mapBeg, alignment);
      && IsAligned(res, alignment) && IsAligned(res, page) && IsAligned(res - page, page)
      && mapBeg + page <= res && res + size <= mapBeg + TrueMapSize(page, size, alignment)
  {
    var start := mapBeg + page;
    assert LowBits(page - page, page) == 0;
    AlignedSum(mapBeg, page, page);
    var res := UserPointer(page, mapBeg, alignment);
    if alignment <= page {
      PowersDivide(alignment, page);
      AlignedTrans(start, page, alignment);
      assert res == start;
    } else {
      PowersDivide(page, alignment);
      AlignUp(start, alignment);
      assert IsAligned(res, alignment);
      AlignedTrans(res, alignment, page);
    }
    AlignedDiff(res, page, page);
  }

  /** So every CHECK on the new block holds. */
  lemma NewHeaderOk(page: nat, size: nat, mapBeg: nat, alignment: nat)
    requires PageOk(page) && IsPowerOfTwo(alignment) && alignment > 0 && IsAligned(mapBeg, page)
    requires 0 < mapBeg && mapBeg + TrueMapSize(page, size, alignment) < W()
    ensures var res, need := UserPointer(page, mapBeg, alignment), TrueMapSize(page, size, alignment);
      && IsAligned(res, alignment) && IsAligned(res, page)
      && mapBeg + page <= res && res + size <= mapBeg + need
      && HeaderOk(page, res - page, Header(mapBeg, need, size))
  {
    UserPointerFits(page, size, mapBeg, alignment);
  }

  /** The size to map, and whether the request overflows. */
  method NeededSize(page: nat, size: nat, alignment: nat) returns (mapSize: nat, overflow: bool)
    requires PageOk(page) && size < W() && (alignment == 0 || IsPowerOfTwo(alignment)) && alignment < W()
    ensures overflow <==> TrueMapSize(page, size, alignment) >= W()
    ensures !overflow ==> mapSize == TrueMapSize(page, size, alignment)
  {
    OverflowExact(page, size, alignment);
    mapSize := MapSize(page, size, alignment);
    overflow := mapSize < size;
  }

  method AlignPointer(page: nat, size: nat, mapBeg: nat, alignment: nat) returns (res: nat)
    requires PageOk(page) && IsPowerOfTwo(alignment) && alignment > 0 && IsAligned(mapBeg, page)
    requires 0 < mapBeg && mapBeg + TrueMapSize(page, size, alignment) < W()
    ensures IsAligned(res, alignment) && IsAligned(res, page)
    ensures mapBeg + page <= res && res + size <= mapBeg + TrueMapSize(page, size, alignment)
    ensures HeaderOk(page, res - page, Header(mapBeg, TrueMapSize(page, size, alignment), size))
  {
    NewHeaderOk(page, size, mapBeg, alignment);
    res := UserPointer(page, mapBeg, alignment);
  }

  // ------------------------------------------------------------- the chunk array

  lemma IndexedPush(chunks: seq<nat>, hs: map<nat, Header>, idx: map<nat, nat>, h: nat, d: Header)
    requires Indexed(chunks, hs, idx) && h !in hs
    ensures Indexed(chunks + [h], hs[h := d], idx[h := |chunks|])
  {
    var more, hs', idx' := chunks + [h], hs[h := d], idx[h := |chunks|];
    forall i: nat | i < |more| ensures IndexAt(more, idx', i) {
      if i < |chunks| {
        ChunkIsLive(chunks, hs, idx, i);
      }
    }
    forall g: nat ensures Listed(more, hs', g) {
      assert Listed(chunks, hs, g);
    }
  }

  /** The index stored in the header of h is in range and leads back to h: both CHECKs of Deallocate. */
  ghost predicate IndexFound(chunks: seq<nat>, idx: map<nat, nat>, h: nat) {
    h in idx && idx[h] < |chunks| && chunks[idx[h]] == h
  }

  lemma IndexOfLive(chunks: seq<nat>, hs: map<nat, Header>, idx: map<nat, nat>, h: nat)
    requires Indexed(chunks, hs, idx) && h in hs
    ensures IndexFound(chunks, idx, h)
  {
    var i := LiveAt(chunks, hs, idx, h);
  }

  /** The last chunk takes the place of the removed one. */
  function SwapRemove(chunks: seq<nat>, i: nat): seq<nat>
    requires i < |chunks|
  {
    chunks[i := chunks[|chunks| - 1]][..|chunks| - 1]
  }

  lemma SwapRemoveElements(chunks: seq<nat>, i: nat)
    requires i < |chunks|
    ensures multiset(SwapRemove(chunks, i)) + multiset{chunks[i]} == multiset(chunks)
  {
    var n := |chunks| - 1;
    var moved := chunks[i := chunks[n]];
    assert moved == moved[..n] + [chunks[n]];
    assert multiset(moved) == multiset(chunks) - multiset{chunks[i]} + multiset{chunks[n]};
  }

  lemma IndexedRemove(chunks: seq<nat>, hs: map<nat, Header>, idx: map<nat, nat>, i: nat)
    requires Indexed(chunks, hs, idx) && i < |chunks|
    ensures var last := chunks[|chunks| - 1];
      Indexed(SwapRemove(chunks, i), hs - {chunks[i]}, idx[last := i] - {chunks[i]})
  {
    var h, rest, last := chunks[i], SwapRemove(chunks, i), chunks[|chunks| - 1];
    var idx' := idx[last := i] - {h};
    ChunkIsLive(chunks, hs, idx, i);
    forall k: nat | k < |rest| ensures IndexAt(rest, idx', k) {
      ChunkIsLive(chunks, hs, idx, k);
      ChunkIsLive(chunks, hs, idx, |chunks| - 1);
    }
    var hs' := hs - {h};
    forall g: nat ensures Listed(rest, hs', g) {
      assert Listed(chunks, hs, g);
      SwapRemoveMember(chunks, hs, idx, i, g);
    }
  }

  lemma SwapRemoveMember(chunks: seq<nat>, hs: map<nat, Header>, idx: map<nat, nat>, i: nat, g: nat)
    requires Indexed(chunks, hs, idx) && i < |chunks|
    ensures g in SwapRemove(chunks, i) <==> g in chunks && g != chunks[i]
  {
    var h, rest, last := chunks[i], SwapRemove(chunks, i), |chunks| - 1;
    IndexedNoDup(chunks, hs, idx);
    if g in rest {
      var k :| 0 <= k < |rest| && rest[k] == g;
      assert g == if k == i then chunks[last] else chunks[k];
    }
    if g in chunks && g != h {
      var k :| 0 <= k < |chunks| && chunks[k] == g;
      assert rest[if k == last then i else k] == g;
    }
  }

  lemma TotalRemove(hs: map<nat, Header>, chunks: seq<nat>, i: nat)
    requires i < |chunks| && NoDup(chunks) && forall h :: h in chunks ==> h in hs
    ensures Total(hs, chunks) == hs[chunks[i]].mapSize + Total(hs - {chunks[i]}, SwapRemove(chunks, i))
  {
    var h, rest := chunks[i], SwapRemove(chunks, i);
    forall g | g in rest ensures g in chunks && g != h {
      var k :| 0 <= k < |rest| && rest[k] == g;
      assert g == if k == i then chunks[|chunks| - 1] else chunks[k];
    }
    SwapRemoveElements(chunks, i);
    PrependMultiset(h, rest);
    TotalPerm(hs, chunks, [h] + rest);
    assert ([h] + rest)[1..] == rest;
    TotalSame(hs, hs - {h}, rest);
  }

  lemma TotalPush(hs: map<nat, Header>, chunks: seq<nat>, h: nat, d: Header)
    requires h !in chunks && forall g :: g in chunks ==> g in hs
    ensures Total(hs[h := d], chunks + [h]) == Total(hs, chunks) + d.mapSize
  {
    var gs := hs[h := d];
    TotalSame(hs, gs, chunks);
    TotalSplit(gs, chunks, [h]);
    assert Total(gs, [h]) == d.mapSize + Total(gs, [h][1..]);
  }

  lemma LayoutPush(page: nat, hs: map<nat, Header>, h: nat, d: Header)
    requires Layout(page, hs) && h !in hs && HeaderOk(page, h, d)
    requires forall g :: g in hs ==> Apart(hs[g], d)
    ensures Layout(page, hs[h := d])
  {
    var gs := hs[h := d];
    forall a, b | a in gs && b in gs && a != b ensures Apart(gs[a], gs[b]) {
      if a == h {
        assert Apart(hs[b], d);
      } else if b == h {
        assert Apart(hs[a], d);
      }
    }
  }

  /** A header inside a fresh mapping is a new header. */
  lemma FreshHeader(page: nat, hs: map<nat, Header>, h: nat, d: Header)
    requires Layout(page, hs) && HeaderOk(page, h, d)
    requires forall g :: g in hs ==> Apart(hs[g], d)
    ensures h !in hs
  {
    assert forall g :: g in hs ==> HeaderOk(page, g, hs[g]) && Apart(hs[g], d);
  }

  /** What holds of the chunk array, the headers and the byte count together. */
  ghost predicate Sound(page: nat, chunks: seq<nat>, hs: map<nat, Header>, idx: map<nat, nat>, bytes: nat) {
    && Layout(page, hs)
    && Indexed(chunks, hs, idx)
    && bytes == Total(hs, chunks) < W()
  }

  lemma SoundPush(page: nat, chunks: seq<nat>, hs: map<nat, Header>, idx: map<nat, nat>, bytes: nat, h: nat, d: Header)
    requires Sound(page, chunks, hs, idx, bytes) && HeaderOk(page, h, d)
    requires forall g :: g in hs ==> Apart(hs[g], d)
    ensures h !in hs
    ensures Sound(page, chunks + [h], hs[h := d], idx[h := |chunks|], bytes + d.mapSize)
  {
    FreshHeader(page, hs, h, d);
    LayoutPush(page, hs, h, d);
    AllLive(chunks, hs, idx);
    IndexedPush(chunks, hs, idx, h, d);
    TotalPush(hs, chunks, h, d);
    IndexedNoDup(chunks + [h], hs[h := d], idx[h := |chunks|]);
    AllLive(chunks + [h], hs[h := d], idx[h := |chunks|]);
    TotalFits(page, hs[h := d], chunks + [h]);
  }

  lemma SoundRemove(page: nat, chunks: seq<nat>, hs: map<nat, Header>, idx: map<nat, nat>, bytes: nat, i: nat)
    requires Sound(page, chunks, hs, idx, bytes) && i < |chunks|
    ensures chunks[i] in hs && hs[chunks[i]].mapSize <= bytes
    ensures var h, last := chunks[i], chunks[|chunks| - 1];
      Sound(page, SwapRemove(chunks, i), hs - {h}, idx[last := i] - {h}, bytes - hs[h].mapSize)
  {
    var h := chunks[i];
    AllLive(chunks, hs, idx);
    IndexedNoDup(chunks, hs, idx);
    IndexedRemove(chunks, hs, idx, i);
    TotalRemove(hs, chunks, i);
    assert forall g :: g in hs - {h} ==> HeaderOk(page, g, hs[g]);
  }

  lemma SoundSort(page: nat, chunks: seq<nat>, hs: map<nat, Header>, idx: map<nat, nat>, bytes: nat,
                  sorted: seq<nat>, idx': map<nat, nat>)
    requires Sound(page, chunks, hs, idx, bytes) && Sorts(chunks, sorted)
    requires forall k: nat {:trigger IndexAt(sorted, idx', k)} :: k < |sorted| ==> IndexAt(sorted, idx', k)
    ensures Sound(page, sorted, hs, idx', bytes)
    ensures Increasing(sorted) && |sorted| == |chunks|
  {
    IndexedNoDup(chunks, hs, idx);
    SortsDistinct(chunks, sorted);
    TotalPerm(hs, chunks, sorted);
    forall h: nat ensures Listed(sorted, hs, h) {
      assert Listed(chunks, hs, h);
    }
  }

  /** The cached bounds, and the order the bisection relies on. */
  ghost predicate Bounded(chunks: seq<nat>, hs: map<nat, Header>, min: nat, max: nat) {
    Increasing(chunks)
    && (chunks != [] ==>
      var last := chunks[|chunks| - 1];
      min == chunks[0] && max == last + Bytes(hs, last))
  }

  /** No block holds a pointer outside the bounds. */
  lemma OutsideBounds(page: nat, chunks: seq<nat>, hs: map<nat, Header>, idx: map<nat, nat>, min: nat, max: nat, p: nat)
    requires Layout(page, hs) && Indexed(chunks, hs, idx) && Bounded(chunks, hs, min, max)
    requires chunks != [] && (p < min || p >= max)
    ensures BlockOf(page, hs, p, 0)
  {
    var last := chunks[|chunks| - 1];
    ChunkIsLive(chunks, hs, idx, |chunks| - 1);
    assert HeaderOk(page, last, hs[last]);
    forall h | h in hs ensures !Holds(hs, h, p) {
      var k := LiveAt(chunks, hs, idx, h);
      assert HeaderOk(page, h, hs[h]);
      assert h != last ==> Apart(hs[h], hs[last]);
    }
  }

  method Renumber(sorted: seq<nat>, idx: map<nat, nat>) returns (r: map<nat, nat>)
    requires NoDup(sorted)
    ensures forall k: nat {:trigger IndexAt(sorted, r, k)} :: k < |sorted| ==> IndexAt(sorted, r, k)
  {
    r := idx;
    var i: nat := 0;
    while i < |sorted|
      invariant i <= |sorted|
      invariant forall k :: 0 <= k < i ==> sorted[k] in r && r[sorted[k]] == k
    {
      r := r[sorted[i] := i];
      i := i + 1;
    }
  }

  /** The sorted array, its index and its bounds. */
  method SortIndex(page: nat, chunks: seq<nat>, hs: map<nat, Header>, idx: map<nat, nat>, ghost bytes: nat)
      returns (sorted: seq<nat>, idx': map<nat, nat>, min: nat, max: nat)
    requires Sound(page, chunks, hs, idx, bytes) && chunks != []
    ensures Sorts(chunks, sorted) && |sorted| == |chunks|
    ensures Sound(page, sorted, hs, idx', bytes) && Bounded(sorted, hs, min, max)
  {
    sorted := SortArray(chunks);
    IndexedNoDup(chunks, hs, idx);
    SortsDistinct(chunks, sorted);
    idx' := Renumber(sorted, idx);
    SoundSort(page, chunks, hs, idx, bytes, sorted, idx');
    var last: nat := sorted[|sorted| - 1];
    ChunkIsLive(sorted, hs, idx', |sorted| - 1);
    min, max := sorted[0], last + hs[last].mapSize;
  }

  // ------------------------------------------------------------- the allocator

  class LargeMmapAllocator {
    const pageSize: nat
    const mayReturnNull: bool
    var chunks: seq<nat>
    var headers: map<nat, Header>
    var chunkIdx: map<nat, nat>
    var minMmap: nat
    var maxMmap: nat
    var chunksSorted: bool
    var nAllocs: nat
    var nFrees: nat
    var currentlyAllocated: nat
    var maxAllocated: nat

    ghost predicate Valid()
      reads this
    {
      && PageOk(pageSize)
      && Sound(pageSize, chunks, headers, chunkIdx, currentlyAllocated)
      && currentlyAllocated <= maxAllocated < W()
      && nAllocs == nFrees + |chunks|
      && |chunks| <= MAX_NUM_CHUNKS
      && (chunksSorted ==> Bounded(chunks, headers, minMmap, maxMmap))
    }

    constructor (pageSize: nat, mayReturnNull: bool)
      requires PageOk(pageSize)
      ensures Valid() && chunks == [] && headers == map[]
      ensures this.pageSize == pageSize && this.mayReturnNull == mayReturnNull
      ensures minMmap == maxMmap == nAllocs == nFrees == currentlyAllocated == maxAllocated == 0 && !chunksSorted && chunkIdx == map[]
    {
      this.pageSize := pageSize;
      this.mayReturnNull := mayReturnNull;
      chunks, headers, chunkIdx := [], map[], map[];
      minMmap, maxMmap, chunksSorted := 0, 0, false;
      nAllocs, nFrees, currentlyAllocated, maxAllocated := 0, 0, 0, 0;
    }

    /** mapBeg is where the kernel would put a mapping of the needed size. Alignment 0 passes the
        first CHECK and moves the user pointer to address 0, so that either a later CHECK fails or
        the header is written to the page below address 0. */
    method Allocate(size: nat, alignment: nat, mapBeg: nat) returns (r: Outcome)
      requires Valid() && size < W() && alignment < W()
      requires 0 < mapBeg && IsAligned(mapBeg, pageSize)
      requires var need := TrueMapSize(pageSize, size, alignment);
        need < W() ==>
          && mapBeg + need < W()
          && forall h :: h in headers ==> Apart(headers[h], Header(mapBeg, need, size))
      modifies this
      ensures var need := TrueMapSize(pageSize, size, alignment);
        && var passes := alignment == 0 || IsPowerOfTwo(alignment);
        && (r.Died? <==> !passes || (need >= W() && !mayReturnNull)
                         || (need < W() && (alignment == 0 || old(|chunks|) >= MAX_NUM_CHUNKS)))
        && (r.Null? <==> passes && need >= W() && mayReturnNull)
        && (r.Block? ==>
            && alignment > 0 && IsAligned(r.p, alignment) && IsAligned(r.p, pageSize)
            && mapBeg + pageSize <= r.p && r.p + size <= mapBeg + need
            && chunks == old(chunks) + [r.p - pageSize]
            && r.p - pageSize !in old(headers)
            && headers == old(headers)[r.p - pageSize := Header(mapBeg, need, size)]
            && nAllocs == old(nAllocs) + 1
            && currentlyAllocated == old(currentlyAllocated) + need)
      ensures !r.Died? ==> Valid()
      ensures !r.Block? ==> unchanged(this)
      ensures nFrees == old(nFrees)
    {
      PowerCheckMeans(alignment);
      if !PassesPowerCheck(alignment) {
        return Died;
      }
      var mapSize, overflow := NeededSize(pageSize, size, alignment);
      if overflow {
        return if mayReturnNull then Null else Died;
      }
      if alignment == 0 {
        return Died;
      }
      r := PlaceBlock(size, alignment, mapBeg, mapSize);
    }

    /** Aligns the user pointer inside the mapping and registers the block. */
    method PlaceBlock(size: nat, alignment: nat, mapBeg: nat, mapSize: nat) returns (r: Outcome)
      requires Valid() && IsPowerOfTwo(alignment) && alignment > 0 && 0 < mapBeg && IsAligned(mapBeg, pageSize)
      requires mapSize == TrueMapSize(pageSize, size, alignment) && mapBeg + mapSize < W()
      requires forall h :: h in headers ==> Apart(headers[h], Header(mapBeg, mapSize, size))
      modifies this
      ensures Valid() && !r.Null? && (r.Died? <==> old(|chunks|) >= MAX_NUM_CHUNKS)
      ensures r.Block? ==>
        && IsAligned(r.p, alignment) && IsAligned(r.p, pageSize)
        && mapBeg + pageSize <= r.p && r.p + size <= mapBeg + mapSize
        && chunks == old(chunks) + [r.p - pageSize]
        && r.p - pageSize !in old(headers)
        && headers == old(headers)[r.p - pageSize := Header(mapBeg, mapSize, size)]
        && nAllocs == old(nAllocs) + 1
        && currentlyAllocated == old(currentlyAllocated) + mapSize
      ensures !r.Block? ==> unchanged(this)
      ensures nFrees == old(nFrees)
    {
      var res := AlignPointer(pageSize, size, mapBeg, alignment);
      if |chunks| >= MAX_NUM_CHUNKS {
        return Died;
      }
      Register(res - pageSize, Header(mapBeg, mapSize, size));
      return Block(res);
    }

    /** The locked part of Allocate. */
    method Register(h: nat, d: Header)
      requires Valid() && HeaderOk(pageSize, h, d) && |chunks| < MAX_NUM_CHUNKS
      requires forall g :: g in headers ==> Apart(headers[g], d)
      modifies this
      ensures Valid() && h !in old(headers) && !chunksSorted
      ensures chunks == old(chunks) + [h] && headers == old(headers)[h := d]
      ensures nAllocs == old(nAllocs) + 1 && nFrees == old(nFrees)
      ensures currentlyAllocated == old(currentlyAllocated) + d.mapSize
    {
      SoundPush(pageSize, chunks, headers, chunkIdx, currentlyAllocated, h, d);
      chunkIdx := chunkIdx[h := |chunks|];
      headers := headers[h := d];
      chunks := chunks + [h];
      chunksSorted := false;
      nAllocs := nAllocs + 1;
      currentlyAllocated := currentlyAllocated + d.mapSize;
      maxAllocated := if maxAllocated < currentlyAllocated then currentlyAllocated else maxAllocated;
    }

    /** p came from Allocate and is live; then no CHECK fails. */
    method Deallocate(p: nat)
      requires Valid() && pageSize <= p && p - pageSize in headers
      modifies this
      ensures Valid()
      ensures headers == old(headers) - {p - pageSize}
      ensures IndexFound(old(chunks), old(chunkIdx), p - pageSize)
      ensures chunks == SwapRemove(old(chunks), old(chunkIdx)[p - pageSize])
      ensures nFrees == old(nFrees) + 1 && nAllocs == old(nAllocs)
      ensures currentlyAllocated == old(currentlyAllocated) - old(headers)[p - pageSize].mapSize
    {
      var h := p - pageSize;
      IndexOfLive(chunks, headers, chunkIdx, h);
      var idx := chunkIdx[h];
      SoundRemove(pageSize, chunks, headers, chunkIdx, currentlyAllocated, idx);
      var last := chunks[|chunks| - 1];
      currentlyAllocated := currentlyAllocated - headers[h].mapSize;
      chunksSorted, nFrees := false, nFrees + 1;
      chunks, headers, chunkIdx := SwapRemove(chunks, idx), headers - {h}, chunkIdx[last := idx] - {h};
    }

    /** The linear search. */
    method GetBlockBegin(p: nat) returns (r: nat)
      requires Valid()
      ensures BlockOf(pageSize, headers, p, r)
    {
      var nearest: nat := 0;
      var i: nat := 0;
      while i < |chunks|
        invariant i <= |chunks|
        invariant nearest <= p
        invariant nearest == 0 || nearest in headers
        invariant forall k :: 0 <= k < i && chunks[k] <= p ==> chunks[k] <= nearest
      {
        var ch: nat := chunks[i];
        ChunkIsLive(chunks, headers, chunkIdx, i);
        assert HeaderOk(pageSize, ch, headers[ch]);
        if ch <= p && p - ch < p - nearest {
          nearest := ch;
        }
        i := i + 1;
      }
      forall g | g in headers && g <= p ensures g <= nearest {
        var k := LiveAt(chunks, headers, chunkIdx, g);
      }
      if nearest == 0 {
        forall g | g in headers ensures !Holds(headers, g, p) {
          assert HeaderOk(pageSize, g, headers[g]);
        }
        return 0;
      }
      NearestHolds(pageSize, headers, nearest, p);
      var d := headers[nearest];
      assert d.mapBeg <= nearest < d.mapBeg + d.mapSize && nearest <= p;
      return if d.mapBeg + d.mapSize <= p then 0 else nearest + pageSize;
    }

    /** SortArray and the loop that rewrites chunk_idx. */
    method SortChunks()
      requires Valid() && chunks != []
      modifies this`chunks, this`chunkIdx, this`chunksSorted, this`minMmap, this`maxMmap
      ensures Valid() && chunksSorted && |chunks| == old(|chunks|) && Sorts(old(chunks), chunks)
    {
      var sorted, idx, min, max := SortIndex(pageSize, chunks, headers, chunkIdx, currentlyAllocated);
      minMmap, maxMmap := min, max;
      chunks, chunkIdx, chunksSorted := sorted, idx, true;
    }

    /** The bisection over the sorted array. */
    method GetBlockBeginFastLocked(p: nat) returns (r: nat)
      requires Valid()
      modifies this`chunks, this`chunkIdx, this`chunksSorted, this`minMmap, this`maxMmap
      ensures Valid() && multiset(chunks) == old(multiset(chunks))
      ensures BlockOf(pageSize, headers, p, r)
    {
      if |chunks| == 0 {
        NoneLive(pageSize, chunks, headers, chunkIdx, p);
        return 0;
      }
      if !chunksSorted {
        SortChunks();
      }
      if p < minMmap || p >= maxMmap {
        OutsideBounds(pageSize, chunks, headers, chunkIdx, minMmap, maxMmap, p);
        return 0;
      }
      r := Bisect(p);
    }

    method Bisect(p: nat) returns (r: nat)
      requires Valid() && chunksSorted && chunks != [] && minMmap <= p
      ensures BlockOf(pageSize, headers, p, r)
    {
      var beg: nat, end: nat := 0, |chunks| - 1;
      while end - beg >= 2
        invariant beg <= end < |chunks| && chunks[beg] <= p
        invariant forall k :: end < k < |chunks| ==> p < chunks[k]
      {
        var mid := (beg + end) / 2;
        assert beg + 1 <= mid;
        if p < chunks[mid] {
          end := mid - 1;
        } else {
          beg := mid;
        }
      }
      if beg < end {
        assert beg + 1 == end;
        if p >= chunks[end] {
          beg := end;
        }
      }
      var h: nat := chunks[beg];
      ChunkIsLive(chunks, headers, chunkIdx, beg);
      forall g | g in headers && g <= p ensures g <= h {
        var k := LiveAt(chunks, headers, chunkIdx, g);
        assert k > beg ==> k > end || k == end;
      }
      NearestHolds(pageSize, headers, h, p);
      var d := headers[h];
      return if d.mapBeg + d.mapSize <= p || p < d.mapBeg then 0 else h + pageSize;
    }

    /** What the blocks need without their alignment padding. */
    method TotalMemoryUsed() returns (res: nat)
      requires Valid()
      ensures res == Used(pageSize, headers, chunks) <= currentlyAllocated
    {
      res := 0;
      var i: nat := 0;
      while i < |chunks|
        invariant i <= |chunks|
        invariant res == Used(pageSize, headers, chunks[..i]) <= Total(headers, chunks[..i])
      {
        var h := chunks[i];
        ChunkIsLive(chunks, headers, chunkIdx, i);
        UsedStep(pageSize, headers, chunks, i);
        res := res + RoundUpMapSize(pageSize, headers[h].size);
        i := i + 1;
      }
      assert chunks[..i] == chunks;
    }
  }

  lemma UsedStep(page: nat, hs: map<nat, Header>, chunks: seq<nat>, i: nat)
    requires PageOk(page) && Layout(page, hs) && i < |chunks| && chunks[i] in hs
    ensures var more := RoundUpMapSize(page, hs[chunks[i]].size);
      && Used(page, hs, chunks[..i + 1]) == Used(page, hs, chunks[..i]) + more
      && Total(hs, chunks[..i + 1]) >= Total(hs, chunks[..i]) + more
  {
    var h := chunks[i];
    assert HeaderOk(page, h, hs[h]);
    RoundUpMapSizeExact(page, hs[h].size);
    assert chunks[..i + 1] == chunks[..i] + [h];
    UsedSnoc(page, hs, chunks[..i], h);
    TotalSplit(hs, chunks[..i], [h]);
    assert Total(hs, [h]) == Bytes(hs, h) + Total(hs, [h][1..]);
  }

  ghost function Used(page: nat, hs: map<nat, Header>, chunks: seq<nat>): nat
    requires page > 0
  {
    if chunks == [] then 0
    else (if chunks[0] in hs then CeilTo(hs[chunks[0]].size, page) + page else 0) + Used(page, hs, chunks[1..])
  }

  lemma {:induction false} UsedSnoc(page: nat, hs: map<nat, Header>, a: seq<nat>, h: nat)
    requires page > 0 && h in hs
    ensures Used(page, hs, a + [h]) == Used(page, hs, a) + CeilTo(hs[h].size, page) + page
  {
    if a == [] {
      assert (a + [h])[1..] == [];
    } else {
      assert (a + [h])[1..] == a[1..] + [h];
      UsedSnoc(page, hs, a[1..], h);
    }
  }
}
