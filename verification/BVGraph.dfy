/**
 BVGraph (sanitizer_bvgraph.h): a directed graph of fixed size as an array of bit
 vectors, each taken as the set it refines.
 */
module BVGraphs {
  import opened BitVectors
  import opened Common

  ghost predicate Graph(v: seq<set<nat>>) {
    forall u: nat {:trigger v[u]} :: u < |v| ==> forall w :: w in v[u] ==> w < |v|
  }

  /** p is a non-empty sequence of nodes joined by edges. */
  ghost predicate Walk(v: seq<set<nat>>, p: seq<nat>) {
    && p != []
    && (forall i: nat :: i < |p| ==> p[i] < |v|)
    && (forall i: nat :: i + 1 < |p| ==> Edge(v, p, i))
  }

  ghost predicate Edge(v: seq<set<nat>>, p: seq<nat>, i: nat)
    requires i + 1 < |p| && forall i: nat :: i < |p| ==> p[i] < |v|
  {
    p[i + 1] in v[p[i]]
  }

  ghost predicate Joins(v: seq<set<nat>>, p: seq<nat>, a: nat, z: nat) {
    Walk(v, p) && p[0] == a && p[|p| - 1] == z
  }

  /** Reflexive and transitive. */
  ghost predicate Reaches(v: seq<set<nat>>, a: nat, z: nat) {
    exists p :: Joins(v, p, a, z)
  }

  /** A walk of at most m nodes from a into the targets. */
  ghost predicate Hits(v: seq<set<nat>>, p: seq<nat>, a: nat, targets: set<nat>) {
    Walk(v, p) && p[0] == a && p[|p| - 1] in targets
  }

  lemma WalkSnoc(v: seq<set<nat>>, p: seq<nat>, w: nat)
    requires Walk(v, p) && w < |v| && w in v[p[|p| - 1]]
    ensures Walk(v, p + [w])
  {
    forall i: nat | i + 1 < |p| + 1
      ensures Edge(v, p + [w], i)
    {
      assert i + 1 < |p| ==> Edge(v, p, i);
    }
  }

  lemma WalkCons(v: seq<set<nat>>, u: nat, p: seq<nat>)
    requires Walk(v, p) && u < |v| && p[0] in v[u]
    ensures Walk(v, [u] + p)
  {
    forall i: nat | i + 1 < |p| + 1
      ensures Edge(v, [u] + p, i)
    {
      assert i > 0 ==> Edge(v, p, i - 1);
    }
  }

  lemma WalkTail(v: seq<set<nat>>, p: seq<nat>)
    requires Walk(v, p) && |p| > 1
    ensures Walk(v, p[1..]) && p[1] in v[p[0]]
  {
    assert Edge(v, p, 0);
    forall i: nat | i + 1 < |p| - 1
      ensures Edge(v, p[1..], i)
    {
      assert Edge(v, p, i + 1);
    }
  }

  /** A set that contains a node and all successors of its members contains what it reaches. */
  lemma {:induction false} ClosedContains(v: seq<set<nat>>, s: set<nat>, p: seq<nat>)
    requires Walk(v, p) && p[0] in s
    requires forall u :: u in s ==> u < |v| && v[u] <= s
    ensures p[|p| - 1] in s
    decreases |p|
  {
    if |p| > 1 {
      WalkTail(v, p);
      ClosedContains(v, s, p[1..]);
    }
  }

  lemma ReachStep(v: seq<set<nat>>, a: nat, u: nat, w: nat)
    requires Graph(v) && Reaches(v, a, u) && u < |v| && w in v[u]
    ensures Reaches(v, a, w)
  {
    var p :| Joins(v, p, a, u);
    WalkSnoc(v, p, w);
    assert Joins(v, p + [w], a, w);
  }

  // ------------------------------------------------------------- the work list

  ghost predicate AllReached(v: seq<set<nat>>, from: nat, s: set<nat>) {
    forall u :: u in s ==> u < |v| && Reaches(v, from, u)
  }

  ghost predicate SuccessorsIn(v: seq<set<nat>>, visited: set<nat>, met: set<nat>) {
    forall u :: u in visited ==> u < |v| && v[u] <= met
  }

  /** Everything met so far is reachable, and successors of visited nodes have been met. */
  ghost predicate SearchInv(v: seq<set<nat>>, from: nat, visited: set<nat>, todo: set<nat>) {
    && Graph(v) && from in visited
    && AllReached(v, from, visited) && AllReached(v, from, todo)
    && SuccessorsIn(v, visited, visited + todo)
  }

  lemma SearchStarts(v: seq<set<nat>>, from: nat)
    requires Graph(v) && from < |v|
    ensures SearchInv(v, from, {from}, v[from])
  {
    assert Joins(v, [from], from, from);
    SuccessorsReached(v, from, from);
  }

  lemma SuccessorsReached(v: seq<set<nat>>, from: nat, u: nat)
    requires Graph(v) && u < |v| && Reaches(v, from, u)
    ensures AllReached(v, from, v[u])
  {
    forall w | w in v[u]
      ensures Reaches(v, from, w)
    {
      ReachStep(v, from, u, w);
    }
  }

  lemma SuccessorsMore(v: seq<set<nat>>, visited: set<nat>, met: set<nat>, met': set<nat>)
    requires SuccessorsIn(v, visited, met) && met <= met'
    ensures SuccessorsIn(v, visited, met')
  {
  }

  lemma SearchSkip(v: seq<set<nat>>, from: nat, visited: set<nat>, todo: set<nat>, idx: nat)
    requires SearchInv(v, from, visited, todo) && idx in todo && idx in visited
    ensures SearchInv(v, from, visited, todo - {idx}) && |todo - {idx}| < |todo|
  {
    assert visited + todo == visited + (todo - {idx});
  }

  lemma SearchVisit(v: seq<set<nat>>, from: nat, visited: set<nat>, todo: set<nat>, idx: nat)
    requires SearchInv(v, from, visited, todo) && idx in todo && idx !in visited
    ensures idx < |v| && SearchInv(v, from, visited + {idx}, todo - {idx} + v[idx])
  {
    SuccessorsReached(v, from, idx);
    var met := (visited + {idx}) + (todo - {idx} + v[idx]);
    SuccessorsMore(v, visited, visited + todo, met);
  }

  lemma FewerFree(n: nat, visited: set<nat>, idx: nat)
    requires idx < n && idx !in visited
    ensures |Nodes(n) - (visited + {idx})| < |Nodes(n) - visited|
  {
    var free := Nodes(n) - visited;
    assert idx in free && free - {idx} == Nodes(n) - (visited + {idx});
  }

  lemma SearchEnds(v: seq<set<nat>>, from: nat, visited: set<nat>, targets: set<nat>)
    requires SearchInv(v, from, visited, {})
    ensures targets * visited != {} <==> exists z :: z in targets && Reaches(v, from, z)
  {
    if z :| z in targets && Reaches(v, from, z) {
      var p :| Joins(v, p, from, z);
      ClosedContains(v, visited, p);
      assert z in targets * visited;
    }
    if targets * visited != {} {
      var z :| z in targets * visited;
      assert z in targets && Reaches(v, from, z);
    }
  }

  // ------------------------------------------------------------- walks without repetition

  ghost predicate Simple(p: seq<nat>) {
    forall i: nat, j: nat :: i < j < |p| ==> p[i] != p[j]
  }

  /** Cutting a loop out of a walk. */
  lemma CutLoop(v: seq<set<nat>>, p: seq<nat>, i: nat, j: nat)
    requires Walk(v, p) && i < j < |p| && p[i] == p[j]
    ensures Walk(v, p[..i] + p[j..]) && |p[..i] + p[j..]| < |p|
    ensures (p[..i] + p[j..])[0] == p[0] && (p[..i] + p[j..])[|p[..i] + p[j..]| - 1] == p[|p| - 1]
  {
    var q := p[..i] + p[j..];
    forall x: nat | x + 1 < |q|
      ensures Edge(v, q, x)
    {
      if x < i {
        assert Edge(v, p, x);
      } else {
        assert Edge(v, p, x - i + j);
      }
    }
  }

  lemma {:induction false} SimpleWalk(v: seq<set<nat>>, p: seq<nat>) returns (q: seq<nat>)
    requires Walk(v, p)
    ensures Walk(v, q) && Simple(q) && q[0] == p[0] && q[|q| - 1] == p[|p| - 1] && |q| <= |p|
    decreases |p|
  {
    if Simple(p) {
      q := p;
    } else {
      var i: nat, j: nat :| i < j < |p| && p[i] == p[j];
      CutLoop(v, p, i, j);
      q := SimpleWalk(v, p[..i] + p[j..]);
    }
  }

  ghost function Nodes(n: nat): (s: set<nat>)
    ensures |s| == n && forall x: nat :: x in s <==> x < n
  {
    if n == 0 then {} else Nodes(n - 1) + {n - 1}
  }

  ghost function Seen(p: seq<nat>): (s: set<nat>)
    ensures forall x: nat :: x in s <==> x in p
  {
    if p == [] then {} else
    assert p == p[..|p| - 1] + [p[|p| - 1]];
    Seen(p[..|p| - 1]) + {p[|p| - 1]}
  }

  lemma {:induction false} SeenSize(p: seq<nat>)
    requires Simple(p)
    ensures |Seen(p)| == |p|
  {
    if p != [] {
      var init, last := p[..|p| - 1], p[|p| - 1];
      SeenSize(init);
      assert last !in init;
    }
  }

  /** Pigeonhole: a walk that repeats no node is no longer than the graph is large. */
  lemma SimpleIsShort(p: seq<nat>, n: nat)
    requires Simple(p) && forall i: nat :: i < |p| ==> p[i] < n
    ensures |p| <= n
  {
    SeenSize(p);
    SubsetSize(Seen(p), Nodes(n));
  }

  // ------------------------------------------------------------- one more edge

  function WithEdge(v: seq<set<nat>>, from: nat, to: nat): seq<set<nat>>
    requires from < |v|
  {
    v[from := v[from] + {to}]
  }

  lemma WalkStays(v: seq<set<nat>>, from: nat, to: nat, p: seq<nat>)
    requires from < |v| && Walk(v, p)
    ensures Walk(WithEdge(v, from, to), p)
  {
    forall i: nat | i + 1 < |p|
      ensures Edge(WithEdge(v, from, to), p, i)
    {
      assert Edge(v, p, i);
    }
  }

  lemma WalkJoin(v: seq<set<nat>>, p: seq<nat>, q: seq<nat>)
    requires Walk(v, p) && Walk(v, q) && q[0] in v[p[|p| - 1]]
    ensures Walk(v, p + q)
  {
    forall i: nat | i + 1 < |p + q|
      ensures Edge(v, p + q, i)
    {
      if i + 1 < |p| {
        assert Edge(v, p, i);
      } else if i >= |p| {
        assert Edge(v, q, i - |p|);
      }
    }
  }

  lemma ReachesSnoc(v: seq<set<nat>>, a: nat, y: nat, z: nat)
    requires y < |v| && z < |v| && Reaches(v, a, y) && z in v[y]
    ensures Reaches(v, a, z)
  {
    var p :| Joins(v, p, a, y);
    WalkSnoc(v, p, z);
    assert Joins(v, p + [z], a, z);
  }

  lemma {:induction false} WalkUses(v: seq<set<nat>>, from: nat, to: nat, p: seq<nat>)
    requires from < |v| && to < |v| && Walk(WithEdge(v, from, to), p)
    ensures var a, z := p[0], p[|p| - 1]; Reaches(v, a, z) || (Reaches(v, a, from) && Reaches(v, to, z))
    decreases |p|
  {
    var w, a, z := WithEdge(v, from, to), p[0], p[|p| - 1];
    if |p| == 1 {
      assert Walk(v, [a]) && Joins(v, [a], a, z);
    } else {
      var q := p[..|p| - 1];
      var y := q[|q| - 1];
      forall i: nat | i + 1 < |q|
        ensures Edge(w, q, i)
      {
        assert Edge(w, p, i);
      }
      WalkUses(v, from, to, q);
      assert Edge(w, p, |p| - 2);
      if z in v[y] {
        if Reaches(v, a, y) {
          ReachesSnoc(v, a, y, z);
        } else {
          ReachesSnoc(v, to, y, z);
        }
      } else {
        assert y == from && z == to && Joins(v, [to], to, to);
      }
    }
  }

  /** What one more edge adds to reachability. */
  lemma EdgeReaches(v: seq<set<nat>>, from: nat, to: nat, a: nat, z: nat)
    requires from < |v| && to < |v|
    ensures Reaches(WithEdge(v, from, to), a, z) <==> Reaches(v, a, z) || (Reaches(v, a, from) && Reaches(v, to, z))
  {
    var w := WithEdge(v, from, to);
    if Reaches(w, a, z) {
      var p :| Joins(w, p, a, z);
      WalkUses(v, from, to, p);
    }
    if Reaches(v, a, z) {
      var p :| Joins(v, p, a, z);
      WalkStays(v, from, to, p);
      assert Joins(w, p, a, z);
    }
    if Reaches(v, a, from) && Reaches(v, to, z) {
      var p :| Joins(v, p, a, from);
      var q :| Joins(v, q, to, z);
      WalkStays(v, from, to, p);
      WalkStays(v, from, to, q);
      WalkJoin(w, p, q);
      assert Joins(w, p + q, a, z);
    }
  }

  // ------------------------------------------------------------- searches

  class BVGraph {
    const size: nat
    var v: seq<set<nat>>
    var t1: set<nat>
    var t2: set<nat>

    ghost predicate Valid()
      reads this
    {
      |v| == size && Graph(v)
    }

    constructor (size: nat)
      ensures Valid() && this.size == size && forall u: nat :: u < size ==> v[u] == {}
    {
      this.size := size;
      v := seq(size, _ => {});
      t1, t2 := {}, {};
    }

    /** Adds an edge; a node then reaches what it reached before and, if it reached from, whatever
        to reaches. */
    method AddEdge(from: nat, to: nat) returns (added: bool)
      requires Valid() && from < size && to < size
      modifies this
      ensures Valid() && v == old(v)[from := old(v)[from] + {to}]
      ensures added <==> to !in old(v)[from]
      ensures forall a: nat, z: nat :: Reaches(v, a, z) <==>
        Reaches(old(v), a, z) || (Reaches(old(v), a, from) && Reaches(old(v), to, z))
    {
      forall a: nat, z: nat
        ensures Reaches(WithEdge(v, from, to), a, z) <==> Reaches(v, a, z) || (Reaches(v, a, from) && Reaches(v, to, z))
      {
        EdgeReaches(v, from, to, a, z);
      }
      added := to !in v[from];
      v := v[from := v[from] + {to}];
    }

    /** Is there a path from `from` to any of the targets? */
    method IsReachable(from: nat, targets: set<nat>) returns (r: bool)
      requires Valid() && from < size
      modifies `t1, `t2
      ensures r <==> exists z :: z in targets && Reaches(v, from, z)
    {
      t1 := v[from];
      t2 := {from};
      SearchStarts(v, from);
      while t1 != {}
        invariant SearchInv(v, from, t2, t1)
        decreases |Nodes(size) - t2|, |t1|
      {
        var idx := Least(t1);
        ghost var todo, visited := t1, t2;
        t1 := t1 - {idx};
        if idx in t2 {
          SearchSkip(v, from, visited, todo, idx);
        } else {
          SearchVisit(v, from, visited, todo, idx);
          FewerFree(size, visited, idx);
          t2 := t2 + {idx};
          t1 := t1 + v[idx];
        }
      }
      SearchEnds(v, from, t2, targets);
      r := targets * t2 != {};
    }

    /** A path from `from` into the targets of at most `room` nodes, written into `path` from
        position `off` on; 0 if there is none. */
    method FindPath(from: nat, targets: set<nat>, path: array<nat>, off: nat, room: nat) returns (len: nat)
      requires Valid() && from < size && off + room <= path.Length
      modifies path
      ensures len <= room
      ensures forall i: nat :: i < off ==> path[i] == old(path[i])
      ensures len > 0 ==> Hits(v, path[off..off + len], from, targets)
      ensures len == 0 ==> forall p :: Hits(v, p, from, targets) ==> |p| > room
      decreases room
    {
      if room == 0 {
        return 0;
      }
      path[off] := from;
      if from in targets {
        assert path[off..off + 1] == [from];
        return 1;
      }
      var it := v[from];
      while it != {}
        invariant it <= v[from] && path[off] == from
        invariant forall i: nat :: i < off ==> path[i] == old(path[i])
        invariant forall u, p :: u in v[from] - it && Hits(v, p, u, targets) ==> |p| > room - 1
        decreases it
      {
        var idx := Least(it);
        it := it - {idx};
        var res := FindPath(idx, targets, path, off + 1, room - 1);
        if res > 0 {
          assert path[off..off + 1 + res] == [from] + path[off + 1..off + 1 + res];
          WalkCons(v, from, path[off + 1..off + 1 + res]);
          return res + 1;
        }
      }
      forall p | Hits(v, p, from, targets)
        ensures |p| > room
      {
        NoShortHit(v, from, targets, p, room);
      }
      len := 0;
    }

    /** Like FindPath, but the path is a shortest one. */
    method FindShortestPath(from: nat, targets: set<nat>, path: array<nat>, room: nat) returns (len: nat)
      requires Valid() && from < size && room <= path.Length
      modifies path
      ensures len <= room
      ensures len > 0 ==> Hits(v, path[..len], from, targets)
      ensures len > 0 ==> forall p :: Hits(v, p, from, targets) ==> len <= |p|
      ensures len == 0 ==> forall p :: Hits(v, p, from, targets) ==> |p| > room
      ensures room >= size ==> (len > 0 <==> exists z :: z in targets && Reaches(v, from, z))
    {
      var p: nat := 1;
      len := 0;
      while p <= room
        invariant 1 <= p <= room + 1 && len == 0
        invariant forall q :: Hits(v, q, from, targets) ==> |q| >= p
      {
        var res := FindPath(from, targets, path, 0, p);
        if res == p {
          assert path[0..p] == path[..p];
          len := p;
          HitMeansReach(v, from, targets, path[..p]);
          return;
        }
        p := p + 1;
      }
      if z :| room >= size && z in targets && Reaches(v, from, z) {
        var q :| Joins(v, q, from, z);
        var s := SimpleWalk(v, q);
        SimpleIsShort(s, size);
        assert Hits(v, s, from, targets);
      }
    }
  }

  lemma NoShortHit(v: seq<set<nat>>, from: nat, targets: set<nat>, p: seq<nat>, room: nat)
    requires Hits(v, p, from, targets) && from !in targets && room > 0
    requires forall u, q :: u in v[from] && Hits(v, q, u, targets) ==> |q| > room - 1
    ensures |p| > room
  {
    if |p| > 1 {
      WalkTail(v, p);
      assert Hits(v, p[1..], p[1], targets);
    }
  }

  lemma HitMeansReach(v: seq<set<nat>>, from: nat, targets: set<nat>, p: seq<nat>)
    requires Hits(v, p, from, targets)
    ensures exists z :: z in targets && Reaches(v, from, z)
  {
    var z := p[|p| - 1];
    assert Joins(v, p, from, z);
  }
}
