/**
 The coverage bitmap (fuzzer/src/branches.rs). A trace counts how often each edge ran; the count
 falls into one of eight buckets, and the global map has one bit per edge and bucket, set until
 the pair has been seen.
 */
module Coverage {

  // ------------------------------------------------------------- buckets and bytes

  /** The bit number of COUNT_LOOKUP[count], for a positive count. */
  function Bucket(count: nat): (k: nat)
    requires count > 0
    ensures k < 8 && InBucket(count, k)
  {
    if count <= 2 then count - 1
    else if count == 3 then 2
    else if count < 8 then 3
    else if count < 16 then 4
    else if count < 32 then 5
    else if count < 128 then 6
    else 7
  }

  /** The buckets as documented: [1], [2], [3], [4, 7], [8, 15], [16, 31], [32, 127], [128, infinity]. */
  ghost predicate InBucket(count: nat, k: nat) {
    match k
    case 0 => count == 1
    case 1 => count == 2
    case 2 => count == 3
    case 3 => 4 <= count <= 7
    case 4 => 8 <= count <= 15
    case 5 => 16 <= count <= 31
    case 6 => 32 <= count <= 127
    case 7 => 128 <= count
    case _ => false
  }

  /** The buckets partition the positive counts. */
  lemma BucketIff(count: nat, k: nat)
    requires count > 0
    ensures Bucket(count) == k <==> InBucket(count, k)
  {
    assert InBucket(count, Bucket(count));
  }

  // ------------------------------------------------------------- the lookup table

  function Copies(v: bv8, n: nat): (r: seq<bv8>)
    ensures |r| == n && forall i :: 0 <= i < n ==> r[i] == v
  {
    seq(n, _ => v)
  }

  /** COUNT_LOOKUP, row by row. */
  function CountLookup(): (t: seq<bv8>)
    ensures |t| == 256
  {
    [0, 1, 2, 4] + Copies(8, 4) + Copies(16, 8) + Copies(32, 16) + Copies(64, 96) + Copies(128, 128)
  }

  /** The table holds the mask of each count's bucket. */
  lemma LookupIsMask(count: nat)
    requires 0 < count < 256
    ensures CountLookup()[count] == Mask(Bucket(count))
  {
    var t := CountLookup();
    assert t[..4] == [0, 1, 2, 4];
    assert t[1] == 1 && t[2] == 2 && t[3] == 4;
    assert 4 <= count < 8 ==> t[count] == Copies(8, 4)[count - 4];
    assert 8 <= count < 16 ==> t[count] == Copies(16, 8)[count - 8];
    assert 16 <= count < 32 ==> t[count] == Copies(32, 16)[count - 16];
    assert 32 <= count < 128 ==> t[count] == Copies(64, 96)[count - 32];
    assert 128 <= count ==> t[count] == Copies(128, 128)[count - 128];
  }

  /** A byte of the map as the set of its bits. */
  type Byte = set<nat>

  function Full(): Byte { {0, 1, 2, 3, 4, 5, 6, 7} }

  function Mask(k: nat): bv8
    requires k < 8
  {
    if k == 0 then 1 else if k == 1 then 2 else if k == 2 then 4 else if k == 3 then 8
    else if k == 4 then 16 else if k == 5 then 32 else if k == 6 then 64 else 128
  }

  ghost function BitsOf(v: bv8): Byte {
    set k: nat | k < 8 && v & Mask(k) != 0
  }

  /** The tests and the update of has_new, on the sets. */
  lemma MaskTest(v: bv8, k: nat)
    requires k < 8
    ensures Mask(k) & v > 0 <==> k in BitsOf(v)
  {
  }

  lemma MaskClear(v: bv8, k: nat)
    requires k < 8
    ensures BitsOf(v & !Mask(k)) == BitsOf(v) - {k}
  {
    forall j: nat ensures j in BitsOf(v & !Mask(k)) <==> j in BitsOf(v) - {k} {
      if j < 8 {
        MaskApart(v, k, j);
      }
    }
  }

  lemma MaskFull(v: bv8)
    ensures v == 255 <==> BitsOf(v) == Full()
  {
    if BitsOf(v) == Full() {
      FullByte(v);
    }
    if v == 255 {
      forall k: nat ensures k in BitsOf(v) <==> k in Full() {
      }
    }
  }

  lemma MaskApart(v: bv8, k: nat, j: nat)
    requires k < 8 && j < 8
    ensures (v & !Mask(k)) & Mask(j) != 0 <==> j != k && v & Mask(j) != 0
  {
  }

  lemma FullByte(v: bv8)
    requires BitsOf(v) == Full()
    ensures v == 255
  {
    assert 0 in BitsOf(v) && 1 in BitsOf(v) && 2 in BitsOf(v) && 3 in BitsOf(v);
    assert 4 in BitsOf(v) && 5 in BitsOf(v) && 6 in BitsOf(v) && 7 in BitsOf(v);
  }

  // ------------------------------------------------------------- the path of a trace

  /** An edge and a bucket. */
  type Edge = (nat, nat)

  /** An edge and the byte to store for it. */
  type Write = (nat, Byte)

  /** One byte at a time. */
  ghost function BytePath(trace: seq<nat>, n: nat): seq<Edge>
    requires n <= |trace|
  {
    if n == 0 then []
    else BytePath(trace, n - 1) + if trace[n - 1] > 0 then [(n - 1, Bucket(trace[n - 1]))] else []
  }

  lemma {:induction false} PathEntries(trace: seq<nat>, n: nat, e: Edge)
    requires n <= |trace|
    ensures e in BytePath(trace, n) <==> e.0 < n && trace[e.0] > 0 && InBucket(trace[e.0], e.1)
  {
    if n > 0 {
      PathEntries(trace, n - 1, e);
      if trace[n - 1] > 0 {
        BucketIff(trace[n - 1], e.1);
      }
    }
  }

  /** Edges occur in ascending order, so each at most once. */
  ghost predicate Ascending(path: seq<Edge>) {
    forall i, j :: 0 <= i < j < |path| ==> path[i].0 < path[j].0
  }

  lemma {:induction false} PathAscending(trace: seq<nat>, n: nat)
    requires n <= |trace|
    ensures Ascending(BytePath(trace, n)) && forall i :: 0 <= i < |BytePath(trace, n)| ==> BytePath(trace, n)[i].0 < n
    ensures forall i :: 0 <= i < |BytePath(trace, n)| ==> BytePath(trace, n)[i].1 < 8
  {
    if n > 0 {
      PathAscending(trace, n - 1);
    }
  }

  /** The pairs of edge and bucket that a run has. */
  ghost function TracePairs(trace: seq<nat>): (s: set<Edge>)
    ensures forall e: Edge :: e in s <==> e.0 < |trace| && trace[e.0] > 0 && InBucket(trace[e.0], e.1)
  {
    set i: nat, k: nat | i < |trace| && k < 8 && trace[i] > 0 && InBucket(trace[i], k) :: (i, k)
  }

  ghost function Pairs(path: seq<Edge>): set<Edge> {
    set e | e in path
  }

  lemma {:induction false} PairsSize(path: seq<Edge>)
    requires Ascending(path)
    ensures |Pairs(path)| == |path|
  {
    if path != [] {
      var init, e := path[..|path| - 1], path[|path| - 1];
      PairsSize(init);
      assert path == init + [e];
      assert forall j :: 0 <= j < |init| ==> init[j].0 < e.0;
      assert e !in init;
      assert Pairs(path) == Pairs(init) + {e};
    }
  }

  /** The path lists them, each once. */
  lemma PathIsTrace(trace: seq<nat>)
    ensures var path := BytePath(trace, |trace|); Pairs(path) == TracePairs(trace) && |path| == |TracePairs(trace)|
  {
    var path := BytePath(trace, |trace|);
    forall e: Edge ensures e in Pairs(path) <==> e in TracePairs(trace) {
      PathEntries(trace, |trace|, e);
    }
    PathAscending(trace, |trace|);
    PairsSize(path);
  }

  /** Eight counts as one little-endian word. */
  function Word(trace: seq<nat>, base: nat, k: nat): nat
    requires base + k <= |trace|
    decreases k
  {
    if k == 0 then 0 else trace[base] + 256 * Word(trace, base + 1, k - 1)
  }

  lemma {:induction false} WordZero(trace: seq<nat>, base: nat, k: nat)
    requires base + k <= |trace|
    ensures Word(trace, base, k) == 0 <==> forall j :: base <= j < base + k ==> trace[j] == 0
    decreases k
  {
    if k > 0 {
      WordZero(trace, base + 1, k - 1);
      if forall j :: base + 1 <= j < base + k ==> trace[j] == 0 {
        assert trace[base] == 0 ==> forall j :: base <= j < base + k ==> trace[j] == 0;
      }
    }
  }

  lemma {:induction false} ZerosAddNothing(trace: seq<nat>, base: nat, n: nat)
    requires base <= n <= |trace| && forall j :: base <= j < n ==> trace[j] == 0
    ensures BytePath(trace, n) == BytePath(trace, base)
    decreases n
  {
    if base < n {
      ZerosAddNothing(trace, base, n - 1);
    }
  }

  /** Skipping zero words finds the same path. */
  method GetPath(trace: seq<nat>) returns (path: seq<Edge>)
    requires |trace| % 8 == 0
    ensures path == BytePath(trace, |trace|)
  {
    path := [];
    var base: nat := 0;
    while base < |trace|
      invariant base <= |trace| && base % 8 == 0 && path == BytePath(trace, base)
    {
      var v := Word(trace, base, 8);
      WordZero(trace, base, 8);
      if v > 0 {
        path := ScanWord(trace, base, path);
      } else {
        ZerosAddNothing(trace, base, base + 8);
      }
      base := base + 8;
    }
  }

  method ScanWord(trace: seq<nat>, base: nat, before: seq<Edge>) returns (path: seq<Edge>)
    requires base + 8 <= |trace| && before == BytePath(trace, base)
    ensures path == BytePath(trace, base + 8)
  {
    path := before;
    var j: nat := 0;
    while j < 8
      invariant j <= 8 && path == BytePath(trace, base + j)
    {
      var idx := base + j;
      if trace[idx] > 0 {
        path := path + [(idx, Bucket(trace[idx]))];
      }
      j := j + 1;
    }
  }

  // ------------------------------------------------------------- the two phases of has_new

  ghost predicate PathIn(path: seq<Edge>, n: nat) {
    forall i :: 0 <= i < |path| ==> path[i].0 < n && path[i].1 < 8
  }

  /** What the read phase plans to write. */
  ghost function Plan(bytes: seq<Byte>, path: seq<Edge>): seq<Write>
    requires PathIn(path, |bytes|)
  {
    if path == [] then []
    else
      var rest, e := Plan(bytes, path[..|path| - 1]), path[|path| - 1];
      rest + if e.1 in bytes[e.0] then [(e.0, bytes[e.0] - {e.1})] else []
  }

  /** How many edges of the path had an untouched byte. */
  ghost function NewEdges(bytes: seq<Byte>, path: seq<Edge>): nat
    requires PathIn(path, |bytes|)
  {
    if path == [] then 0
    else NewEdges(bytes, path[..|path| - 1]) + if bytes[path[|path| - 1].0] == Full() then 1 else 0
  }

  ghost predicate InMap(writes: seq<Write>, n: nat) {
    forall i :: 0 <= i < |writes| ==> writes[i].0 < n
  }

  ghost function Apply(bytes: seq<Byte>, writes: seq<Write>): (r: seq<Byte>)
    requires InMap(writes, |bytes|)
    ensures |r| == |bytes|
  {
    if writes == [] then bytes
    else
      var e := writes[|writes| - 1];
      Apply(bytes, writes[..|writes| - 1])[e.0 := e.1]
  }

  // ------------------------------------------------------------- the phases on bytes

  /** bucket & v > 0 */
  method TestBucket(v: bv8, k: nat) returns (b: bool)
    requires k < 8
    ensures b <==> k in BitsOf(v)
  {
    MaskTest(v, k);
    b := Mask(k) & v > 0;
  }

  /** v & !bucket */
  method ClearBucket(v: bv8, k: nat) returns (r: bv8)
    requires k < 8
    ensures BitsOf(r) == BitsOf(v) - {k}
  {
    MaskClear(v, k);
    r := v & !Mask(k);
  }

  method IsVirgin(v: bv8) returns (b: bool)
    ensures b <==> BitsOf(v) == Full()
  {
    MaskFull(v);
    b := v == 255;
  }

  /** A map of bytes as a map of bit sets. */
  ghost function Sets(bytes: seq<bv8>): (r: seq<Byte>)
    ensures |r| == |bytes| && forall i :: 0 <= i < |bytes| ==> r[i] == BitsOf(bytes[i])
  {
    if bytes == [] then [] else Sets(bytes[..|bytes| - 1]) + [BitsOf(bytes[|bytes| - 1])]
  }

  ghost function SetWrites(ws: seq<(nat, bv8)>): (r: seq<Write>)
    ensures |r| == |ws| && forall i :: 0 <= i < |ws| ==> r[i] == (ws[i].0, BitsOf(ws[i].1))
  {
    if ws == [] then [] else SetWrites(ws[..|ws| - 1]) + [(ws[|ws| - 1].0, BitsOf(ws[|ws| - 1].1))]
  }

  lemma SetWritesAppend(ws: seq<(nat, bv8)>, more: seq<(nat, bv8)>)
    ensures SetWrites(ws + more) == SetWrites(ws) + SetWrites(more)
  {
  }

  /** What the read phase does with one entry, whose edge has byte v. */
  method ReadEntry(v: bv8, e: Edge) returns (virgin: bool, write: seq<(nat, bv8)>)
    requires e.1 < 8
    ensures virgin <==> BitsOf(v) == Full()
    ensures SetWrites(write) == if e.1 in BitsOf(v) then [(e.0, BitsOf(v) - {e.1})] else []
  {
    virgin := IsVirgin(v);
    write := [];
    var unseen := TestBucket(v, e.1);
    if unseen {
      var w := ClearBucket(v, e.1);
      write := [(e.0, w)];
    }
  }

  lemma PlanSnoc(bytes: seq<Byte>, path: seq<Edge>, i: nat)
    requires PathIn(path, |bytes|) && i < |path|
    ensures PathIn(path[..i], |bytes|) && PathIn(path[..i + 1], |bytes|)
    ensures var e := path[i];
      && Plan(bytes, path[..i + 1]) ==
         Plan(bytes, path[..i]) + (if e.1 in bytes[e.0] then [(e.0, bytes[e.0] - {e.1})] else [])
      && NewEdges(bytes, path[..i + 1]) == NewEdges(bytes, path[..i]) + if bytes[e.0] == Full() then 1 else 0
  {
    assert path[..i + 1][..i] == path[..i];
  }

  /** The state of the read phase before entry i. */
  ghost predicate ReadSoFar(sets: seq<Byte>, path: seq<Edge>, i: nat, writes: seq<(nat, bv8)>, newEdges: nat)
    requires PathIn(path, |sets|) && i <= |path|
  {
    PathIn(path[..i], |sets|) && SetWrites(writes) == Plan(sets, path[..i]) && newEdges == NewEdges(sets, path[..i])
  }

  lemma ReadOneMore(sets: seq<Byte>, path: seq<Edge>, i: nat, writes: seq<(nat, bv8)>, newEdges: nat,
                    virgin: bool, more: seq<(nat, bv8)>)
    requires PathIn(path, |sets|) && i < |path| && ReadSoFar(sets, path, i, writes, newEdges)
    requires var e := path[i];
      && (virgin <==> sets[e.0] == Full())
      && SetWrites(more) == if e.1 in sets[e.0] then [(e.0, sets[e.0] - {e.1})] else []
    ensures ReadSoFar(sets, path, i + 1, writes + more, newEdges + if virgin then 1 else 0)
  {
    PlanSnoc(sets, path, i);
    SetWritesAppend(writes, more);
  }

  lemma ReadAll(sets: seq<Byte>, path: seq<Edge>, writes: seq<(nat, bv8)>, newEdges: nat)
    requires PathIn(path, |sets|) && ReadSoFar(sets, path, |path|, writes, newEdges)
    ensures SetWrites(writes) == Plan(sets, path) && newEdges == NewEdges(sets, path)
  {
    assert path[..|path|] == path;
  }

  /** The read phase plans, on bytes, what Plan says on sets. */
  method ReadPhase(bytes: seq<bv8>, path: seq<Edge>) returns (writes: seq<(nat, bv8)>, newEdges: nat)
    requires PathIn(path, |bytes|)
    ensures SetWrites(writes) == Plan(Sets(bytes), path) && newEdges == NewEdges(Sets(bytes), path)
  {
    writes, newEdges := [], 0;
    var i: nat := 0;
    ghost var sets := Sets(bytes);
    while i < |path|
      invariant i <= |path| && ReadSoFar(sets, path, i, writes, newEdges)
    {
      var virgin, more := ReadEntry(bytes[path[i].0], path[i]);
      ReadOneMore(sets, path, i, writes, newEdges, virgin, more);
      if virgin {
        newEdges := newEdges + 1;
      }
      writes := writes + more;
      i := i + 1;
    }
    ReadAll(sets, path, writes, newEdges);
  }

  lemma ApplySnoc(bytes: seq<Byte>, ws: seq<Write>, i: nat)
    requires InMap(ws, |bytes|) && i < |ws|
    ensures InMap(ws[..i], |bytes|) && InMap(ws[..i + 1], |bytes|)
    ensures Apply(bytes, ws[..i + 1]) == Apply(bytes, ws[..i])[ws[i].0 := ws[i].1]
  {
    assert ws[..i + 1][..i] == ws[..i];
  }

  method WritePhase(bytes: seq<bv8>, writes: seq<(nat, bv8)>) returns (r: seq<bv8>)
    requires InMap(SetWrites(writes), |bytes|)
    ensures |r| == |bytes| && Sets(r) == Apply(Sets(bytes), SetWrites(writes))
  {
    r := bytes;
    var i: nat := 0;
    ghost var sets, ws := Sets(bytes), SetWrites(writes);
    while i < |writes|
      invariant i <= |writes| && |r| == |bytes| && InMap(ws[..i], |sets|)
      invariant Sets(r) == Apply(sets, ws[..i])
    {
      ApplySnoc(sets, ws, i);
      assert ws[i] == (writes[i].0, BitsOf(writes[i].1));
      r := r[writes[i].0 := writes[i].1];
      i := i + 1;
    }
    assert ws[..i] == ws;
  }

  // ------------------------------------------------------------- what bits mean

  ghost predicate Cleared(bytes: seq<Byte>, e: Edge) {
    e.0 < |bytes| && e.1 < 8 && e.1 !in bytes[e.0]
  }

  /** A cleared bit means the pair was really seen. */
  ghost predicate Sound(bytes: seq<Byte>, seen: set<Edge>) {
    forall e {:trigger Cleared(bytes, e)} :: Cleared(bytes, e) ==> e in seen
  }

  /** A bit is cleared exactly if the pair was seen. */
  ghost predicate Exact(bytes: seq<Byte>, seen: set<Edge>) {
    && Sound(bytes, seen)
    && forall e {:trigger Cleared(bytes, e)} :: e in seen ==> Cleared(bytes, e)
  }

  /** The planned write for each entry. */
  lemma {:induction false} PlanEntries(bytes: seq<Byte>, path: seq<Edge>, w: Write)
    requires PathIn(path, |bytes|)
    ensures w in Plan(bytes, path) <==>
      exists i :: 0 <= i < |path| && path[i].1 in bytes[path[i].0] && w == (path[i].0, bytes[path[i].0] - {path[i].1})
  {
    if path != [] {
      var init, e := path[..|path| - 1], path[|path| - 1];
      PlanEntries(bytes, init, w);
      assert path == init + [e];
      if w in Plan(bytes, init) {
        var i :| 0 <= i < |init| && init[i].1 in bytes[init[i].0] && w == (init[i].0, bytes[init[i].0] - {init[i].1});
        assert path[i] == init[i];
      }
    }
  }

  lemma PlanInMap(bytes: seq<Byte>, path: seq<Edge>)
    requires PathIn(path, |bytes|)
    ensures InMap(Plan(bytes, path), |bytes|)
  {
    forall i | 0 <= i < |Plan(bytes, path)| ensures Plan(bytes, path)[i].0 < |bytes| {
      PlanEntries(bytes, path, Plan(bytes, path)[i]);
    }
  }

  /** Read and write without interference take exactly the path's pairs out of the map. */
  lemma {:induction false} PlanApplied(bytes: seq<Byte>, path: seq<Edge>, i: nat, k: nat)
    requires PathIn(path, |bytes|) && Ascending(path) && i < |bytes|
    ensures InMap(Plan(bytes, path), |bytes|)
    ensures k in Apply(bytes, Plan(bytes, path))[i] <==> k in bytes[i] && (i, k) !in path
  {
    PlanInMap(bytes, path);
    if path != [] {
      var init, e := path[..|path| - 1], path[|path| - 1];
      PlanApplied(bytes, init, i, k);
      PlanApplied(bytes, init, e.0, k);
      assert path == init + [e];
      assert forall j :: 0 <= j < |init| ==> init[j].0 < e.0;
      assert (e.0, k) !in init;
      PlanStep(bytes, init, e);
    }
  }

  lemma PlanStep(bytes: seq<Byte>, init: seq<Edge>, e: Edge)
    requires PathIn(init + [e], |bytes|)
    ensures PathIn(init, |bytes|)
    ensures InMap(Plan(bytes, init), |bytes|) && InMap(Plan(bytes, init + [e]), |bytes|)
    ensures Apply(bytes, Plan(bytes, init + [e])) ==
      if e.1 in bytes[e.0] then Apply(bytes, Plan(bytes, init))[e.0 := bytes[e.0] - {e.1}] else Apply(bytes, Plan(bytes, init))
  {
    var path := init + [e];
    assert path[..|path| - 1] == init;
    forall j | 0 <= j < |init| ensures init[j].0 < |bytes| && init[j].1 < 8 {
      assert path[j] == init[j];
    }
    PlanInMap(bytes, init);
    PlanInMap(bytes, path);
    var p, q := Plan(bytes, init), Plan(bytes, path);
    if e.1 in bytes[e.0] {
      assert q == p + [(e.0, bytes[e.0] - {e.1})];
      assert q[..|q| - 1] == p;
    } else {
      assert q == p;
    }
  }

  /** Without interference the map stays exact. */
  lemma ExactAfter(bytes: seq<Byte>, path: seq<Edge>, seen: set<Edge>)
    requires PathIn(path, |bytes|) && Ascending(path) && Exact(bytes, seen)
    ensures InMap(Plan(bytes, path), |bytes|)
    ensures Exact(Apply(bytes, Plan(bytes, path)), seen + Pairs(path))
  {
    PlanInMap(bytes, path);
    var r := Apply(bytes, Plan(bytes, path));
    forall e: Edge ensures Cleared(r, e) <==> e in seen + Pairs(path) {
      if e.0 < |bytes| {
        PlanApplied(bytes, path, e.0, e.1);
        assert e == (e.0, e.1);
        assert Cleared(bytes, e) <==> e in seen;
      } else {
        assert !Cleared(bytes, e);
      }
    }
  }

  // ------------------------------------------------------------- density

  ghost predicate Bytes(bytes: seq<Byte>) {
    forall i :: 0 <= i < |bytes| ==> bytes[i] <= Full()
  }

  ghost function Touched(bytes: seq<Byte>): nat {
    if bytes == [] then 0
    else Touched(bytes[..|bytes| - 1]) + if bytes[|bytes| - 1] != Full() then 1 else 0
  }

  lemma {:induction false} TouchedUpdate(bytes: seq<Byte>, i: nat, b: Byte)
    requires i < |bytes|
    ensures Touched(bytes[i := b]) + (if bytes[i] != Full() then 1 else 0) == Touched(bytes) + if b != Full() then 1 else 0
  {
    var n := |bytes| - 1;
    if i == n {
      assert bytes[i := b][..n] == bytes[..n];
    } else {
      assert bytes[i := b][..n] == bytes[..n][i := b];
      TouchedUpdate(bytes[..n], i, b);
    }
  }

  /** Each new edge of the path is one more touched byte. */
  lemma {:induction false} NewEdgesCount(bytes: seq<Byte>, path: seq<Edge>)
    requires PathIn(path, |bytes|) && Ascending(path)
    ensures InMap(Plan(bytes, path), |bytes|)
    ensures Touched(Apply(bytes, Plan(bytes, path))) == Touched(bytes) + NewEdges(bytes, path)
  {
    PlanInMap(bytes, path);
    if path != [] {
      var init, e := path[..|path| - 1], path[|path| - 1];
      assert path == init + [e];
      NewEdgesCount(bytes, init);
      PlanStep(bytes, init, e);
      NotYetWritten(bytes, init, e);
      TouchOne(Apply(bytes, Plan(bytes, init)), e);
    }
  }

  /** Clearing one bit touches a byte that had all of them. */
  lemma TouchOne(bytes: seq<Byte>, e: Edge)
    requires e.0 < |bytes| && e.1 < 8
    ensures Touched(if e.1 in bytes[e.0] then bytes[e.0 := bytes[e.0] - {e.1}] else bytes)
      == Touched(bytes) + if bytes[e.0] == Full() then 1 else 0
  {
    assert e.1 in Full();
    if e.1 in bytes[e.0] {
      assert e.1 !in bytes[e.0] - {e.1};
      TouchedUpdate(bytes, e.0, bytes[e.0] - {e.1});
    }
  }

  lemma NotYetWritten(bytes: seq<Byte>, init: seq<Edge>, e: Edge)
    requires PathIn(init, |bytes|) && Ascending(init) && e.0 < |bytes| && forall j :: 0 <= j < |init| ==> init[j].0 < e.0
    ensures InMap(Plan(bytes, init), |bytes|) && Apply(bytes, Plan(bytes, init))[e.0] == bytes[e.0]
  {
    PlanInMap(bytes, init);
    forall k: nat ensures k in Apply(bytes, Plan(bytes, init))[e.0] <==> k in bytes[e.0] {
      PlanApplied(bytes, init, e.0, k);
    }
  }

  /** In an exact map the touched bytes are the edges seen in some bucket. */
  lemma TouchedMeansSeen(bytes: seq<Byte>, seen: set<Edge>, i: nat)
    requires Exact(bytes, seen) && Bytes(bytes) && i < |bytes|
    ensures bytes[i] != Full() <==> exists k: nat :: (i, k) in seen
  {
    if bytes[i] != Full() {
      assert exists k :: k in Full() && k !in bytes[i];
      var k: nat :| k in Full() && k !in bytes[i];
      assert Cleared(bytes, (i, k));
    }
    if k: nat :| (i, k) in seen {
      assert Cleared(bytes, (i, k));
      assert k in Full();
    }
  }

  /** The read phase plans something exactly if the path has an unseen pair. */
  lemma PlanIffUnseen(bytes: seq<Byte>, path: seq<Edge>, seen: set<Edge>)
    requires PathIn(path, |bytes|) && Exact(bytes, seen)
    ensures Plan(bytes, path) != [] <==> exists e :: e in path && e !in seen
  {
    if Plan(bytes, path) != [] {
      PlanEntries(bytes, path, Plan(bytes, path)[0]);
      var i :| 0 <= i < |path| && path[i].1 in bytes[path[i].0];
      assert !Cleared(bytes, path[i]) && path[i] in path;
    }
    if e :| e in path && e !in seen {
      UnseenIsPlanned(bytes, path, seen, e);
    }
  }

  /** An unseen pair is never suppressed, as long as cleared bits were really seen. */
  lemma UnseenIsPlanned(bytes: seq<Byte>, path: seq<Edge>, seen: set<Edge>, e: Edge)
    requires PathIn(path, |bytes|) && Sound(bytes, seen) && e in path && e !in seen
    ensures (e.0, bytes[e.0] - {e.1}) in Plan(bytes, path)
  {
    assert !Cleared(bytes, e);
    PlanEntries(bytes, path, (e.0, bytes[e.0] - {e.1}));
    var i :| 0 <= i < |path| && path[i] == e;
  }

  lemma {:induction false} NewEdgesPositive(bytes: seq<Byte>, path: seq<Edge>)
    requires PathIn(path, |bytes|)
    ensures NewEdges(bytes, path) > 0 <==> exists i :: 0 <= i < |path| && bytes[path[i].0] == Full()
  {
    if path != [] {
      var init := path[..|path| - 1];
      NewEdgesPositive(bytes, init);
      if i :| 0 <= i < |init| && bytes[init[i].0] == Full() {
        assert path[i] == init[i];
      }
      if i :| 0 <= i < |path| && bytes[path[i].0] == Full() {
        assert i < |init| ==> init[i] == path[i];
      }
    }
  }

  // ------------------------------------------------------------- the global maps, one thread at a time

  datatype Status = Normal | Timeout | Crash | Other

  /** One of the three maps with what was seen through it. */
  ghost predicate MapOk(bytes: seq<Byte>, seen: set<Edge>, size: nat) {
    |bytes| == size && Bytes(bytes) && Exact(bytes, seen)
  }

  ghost predicate SomeUnseen(path: seq<Edge>, seen: set<Edge>) {
    exists e :: e in path && e !in seen
  }

  ghost predicate SomeUnseenTarget(path: seq<Edge>, seen: set<Edge>, targets: set<nat>) {
    exists e :: e in path && e !in seen && e.0 in targets
  }

  /** Some edge of the path was never seen, in any bucket. */
  ghost predicate SomeUnseenEdge(path: seq<Edge>, seen: set<Edge>) {
    exists e :: e in path && NeverSeen(e.0, seen)
  }

  ghost predicate NeverSeen(i: nat, seen: set<Edge>) {
    forall k: nat :: (i, k) !in seen
  }

  /** Both phases on one map. */
  method Merge(bytes: seq<bv8>, path: seq<Edge>, directed: bool, targets: set<nat>, ghost seen: set<Edge>)
      returns (r: seq<bv8>, isNew: bool, newEdge: bool, count: nat)
    requires MapOk(Sets(bytes), seen, |bytes|) && PathIn(path, |bytes|) && Ascending(path)
    ensures MapOk(Sets(r), seen + Pairs(path), |bytes|)
    ensures isNew <==> if directed then SomeUnseenTarget(path, seen, targets) else SomeUnseen(path, seen)
    ensures newEdge <==> SomeUnseenEdge(path, seen)
    ensures Touched(Sets(r)) == Touched(Sets(bytes)) + count
  {
    ghost var sets := Sets(bytes);
    var writes, n := ReadPhase(bytes, path);
    PlanIffUnseen(sets, path, seen);
    PlanInMap(sets, path);
    ExactAfter(sets, path, seen);
    NewEdgesCount(sets, path);
    NewEdgeMeans(sets, path, seen);
    TargetMeans(sets, path, seen, targets);
    BytesAfter(sets, path);
    count := n;
    r := WritePhase(bytes, writes);
    if writes == [] {
      return r, false, false, count;
    }
    var found := SomeWriteTo(writes, targets);
    SameTargets(writes, targets);
    return r, !directed || found, n > 0, count;
  }

  ghost predicate SomeTo<T>(writes: seq<(nat, T)>, targets: set<nat>) {
    exists i :: 0 <= i < |writes| && writes[i].0 in targets
  }

  method SomeWriteTo(writes: seq<(nat, bv8)>, targets: set<nat>) returns (found: bool)
    ensures found <==> SomeTo(writes, targets)
  {
    var i: nat := 0;
    while i < |writes|
      invariant i <= |writes| && forall j :: 0 <= j < i ==> writes[j].0 !in targets
    {
      if writes[i].0 in targets {
        return true;
      }
      i := i + 1;
    }
    return false;
  }

  lemma SameTargets(writes: seq<(nat, bv8)>, targets: set<nat>)
    ensures SomeTo(SetWrites(writes), targets) <==> SomeTo(writes, targets)
  {
    var ws := SetWrites(writes);
    assert forall i :: 0 <= i < |ws| ==> ws[i].0 == writes[i].0;
    if i :| 0 <= i < |writes| && writes[i].0 in targets {
      assert ws[i].0 in targets;
    }
  }

  lemma NewEdgeMeans(bytes: seq<Byte>, path: seq<Edge>, seen: set<Edge>)
    requires MapOk(bytes, seen, |bytes|) && PathIn(path, |bytes|)
    ensures NewEdges(bytes, path) > 0 <==> SomeUnseenEdge(path, seen)
    ensures NewEdges(bytes, path) > 0 ==> Plan(bytes, path) != []
  {
    NewEdgesPositive(bytes, path);
    forall i | 0 <= i < |path| ensures bytes[path[i].0] == Full() <==> NeverSeen(path[i].0, seen) {
      TouchedMeansSeen(bytes, seen, path[i].0);
    }
    if NewEdges(bytes, path) > 0 {
      var i :| 0 <= i < |path| && bytes[path[i].0] == Full();
      assert path[i] in path && NeverSeen(path[i].0, seen);
      assert path[i] == (path[i].0, path[i].1) && path[i] !in seen;
      UnseenIsPlanned(bytes, path, seen, path[i]);
    }
    if SomeUnseenEdge(path, seen) {
      var e :| e in path && NeverSeen(e.0, seen);
      var i :| 0 <= i < |path| && path[i] == e;
      assert bytes[path[i].0] == Full();
    }
  }

  lemma TargetMeans(bytes: seq<Byte>, path: seq<Edge>, seen: set<Edge>, targets: set<nat>)
    requires MapOk(bytes, seen, |bytes|) && PathIn(path, |bytes|)
    ensures SomeTo(Plan(bytes, path), targets) <==> SomeUnseenTarget(path, seen, targets)
  {
    var plan := Plan(bytes, path);
    if i :| 0 <= i < |plan| && plan[i].0 in targets {
      PlanEntries(bytes, path, plan[i]);
      var j :| 0 <= j < |path| && path[j].1 in bytes[path[j].0] && plan[i] == (path[j].0, bytes[path[j].0] - {path[j].1});
      assert path[j] in path && !Cleared(bytes, path[j]);
    }
    if SomeUnseenTarget(path, seen, targets) {
      var e :| e in path && e !in seen && e.0 in targets;
      UnseenIsPlanned(bytes, path, seen, e);
      var w := (e.0, bytes[e.0] - {e.1});
      var i :| 0 <= i < |plan| && plan[i] == w;
    }
  }

  lemma BytesAfter(bytes: seq<Byte>, path: seq<Edge>)
    requires Bytes(bytes) && PathIn(path, |bytes|) && Ascending(path)
    ensures InMap(Plan(bytes, path), |bytes|) && Bytes(Apply(bytes, Plan(bytes, path)))
  {
    PlanInMap(bytes, path);
    forall i | 0 <= i < |bytes| ensures Apply(bytes, Plan(bytes, path))[i] <= Full() {
      forall k: nat | k in Apply(bytes, Plan(bytes, path))[i] ensures k in Full() {
        PlanApplied(bytes, path, i, k);
      }
    }
  }

  /** Some pair is unseen, and if it matters its edge leads to a target. */
  ghost predicate HasNewPair(ran: set<Edge>, before: set<Edge>, directed: bool, targets: set<nat>) {
    exists e :: e in ran && e !in before && (directed ==> e.0 in targets)
  }

  ghost predicate HasNewEdge(ran: set<Edge>, before: set<Edge>) {
    exists e :: e in ran && NeverSeen(e.0, before)
  }

  /** What has_new answers for a run with the given pairs. */
  ghost predicate Reports(ran: set<Edge>, before: set<Edge>, directed: bool, targets: set<nat>,
                          isNew: bool, newEdge: bool, edgeNum: nat) {
    && edgeNum == |ran|
    && (isNew <==> HasNewPair(ran, before, directed, targets)) && (newEdge <==> HasNewEdge(ran, before))
  }

  lemma SameOnPath(path: seq<Edge>, before: set<Edge>, directed: bool, targets: set<nat>)
    ensures HasNewPair(Pairs(path), before, directed, targets)
      <==> if directed then SomeUnseenTarget(path, before, targets) else SomeUnseen(path, before)
    ensures HasNewEdge(Pairs(path), before) <==> SomeUnseenEdge(path, before)
  {
    assert forall e :: e in Pairs(path) <==> e in path;
    if SomeUnseenEdge(path, before) {
      var e :| e in path && NeverSeen(e.0, before);
      assert e in Pairs(path);
    }
  }

  ghost predicate Records(bytes: seq<bv8>, seen: set<Edge>, size: nat) {
    MapOk(Sets(bytes), seen, size)
  }

  /** The path of a trace, merged into one map. */
  method MergeTrace(bytes: seq<bv8>, trace: seq<nat>, directed: bool, targets: set<nat>, ghost seen: set<Edge>)
      returns (r: seq<bv8>, isNew: bool, newEdge: bool, edgeNum: nat, count: nat)
    requires Records(bytes, seen, |trace|) && |trace| % 8 == 0
    ensures Records(r, seen + TracePairs(trace), |trace|)
    ensures Reports(TracePairs(trace), seen, directed, targets, isNew, newEdge, edgeNum)
    ensures Touched(Sets(r)) == Touched(Sets(bytes)) + count
  {
    var path := GetPath(trace);
    PathAscending(trace, |trace|);
    PathIsTrace(trace);
    SameOnPath(path, seen, directed, targets);
    r, isNew, newEdge, count := Merge(bytes, path, directed, targets, seen);
    edgeNum := |path|;
  }

  class GlobalBranches {
    var virgin: seq<bv8>
    var tmouts: seq<bv8>
    var crashes: seq<bv8>
    var density: nat
    const size: nat                   // BRANCHES_SIZE

    ghost var seen: map<Status, set<Edge>>

    ghost predicate Valid()
      reads this
    {
      && size % 8 == 0
      && Normal in seen && Timeout in seen && Crash in seen
      && Records(virgin, seen[Normal], size) && Records(tmouts, seen[Timeout], size) && Records(crashes, seen[Crash], size)
      && density == Touched(Sets(virgin))
    }

    constructor (size: nat)
      requires size % 8 == 0
      ensures Valid() && this.size == size && density == 0
      ensures seen == map[Normal := {}, Timeout := {}, Crash := {}]
    {
      this.size := size;
      var bytes: seq<bv8> := seq(size, i => 255);
      virgin, tmouts, crashes, density := bytes, bytes, bytes, 0;
      seen := map[Normal := {}, Timeout := {}, Crash := {}];
      new;
      MaskFull(255);
      FreshMap(Sets(virgin));
    }

    /** Has this run seen a pair of edge and bucket that no earlier run with its status saw? */
    method HasNew(trace: seq<nat>, status: Status, directed: bool, targets: set<nat>)
        returns (isNew: bool, newEdge: bool, edgeNum: nat)
      requires Valid() && |trace| == size
      modifies this
      ensures Valid()
      ensures status.Other? ==> !isNew && !newEdge && edgeNum == 0 && unchanged(this)
      ensures !status.Other? ==>
        && Reports(TracePairs(trace), old(seen)[status], directed, targets, isNew, newEdge, edgeNum)
        && seen == old(seen)[status := old(seen)[status] + TracePairs(trace)]
      ensures !status.Normal? ==> density == old(density)
    {
      if status.Other? {
        return false, false, 0;
      }
      var n;
      ghost var ran := TracePairs(trace);
      match status {
        case Normal =>
          virgin, isNew, newEdge, edgeNum, n := MergeTrace(virgin, trace, directed, targets, seen[status]);
          density := density + n;
        case Timeout =>
          tmouts, isNew, newEdge, edgeNum, n := MergeTrace(tmouts, trace, directed, targets, seen[status]);
        case Crash =>
          crashes, isNew, newEdge, edgeNum, n := MergeTrace(crashes, trace, directed, targets, seen[status]);
      }
      seen := seen[status := seen[status] + ran];
    }
  }

  lemma {:induction false} FreshMap(bytes: seq<Byte>)
    requires forall i :: 0 <= i < |bytes| ==> bytes[i] == Full()
    ensures MapOk(bytes, {}, |bytes|) && Touched(bytes) == 0
  {
    if bytes != [] {
      FreshMap(bytes[..|bytes| - 1]);
    }
  }
}
