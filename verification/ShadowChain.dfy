/**
 The blocks loadShadow adds for the wide compares (DFSanPass.cc): the head is split, a fallback
 block is added, and each further compare gets a block between the last one and the tail. The
 dominator tree is updated block by block while the graph is still incomplete; once the last
 branch is fixed up the two agree.
 */
module ShadowChain {
  import opened ShadowCombine
  import opened ShadowRuns
  import opened ShadowSplit

  // ------------------------------------------------------------- the graph

  /** The block of compare k: the head, then the blocks after fallback n and tail n + 1. */
  function Link(head: nat, n: nat, k: nat): (b: nat)
    ensures k > 0 ==> b == n + 1 + k
  {
    if k == 0 then head else n + 1 + k
  }

  /** The graph while it is built, with k further compares: every compare so far leads to the
      fallback, and nothing leads to the tail yet. */
  ghost function Building(edges: Edges, head: nat, n: nat, k: nat): Edges {
    if k == 0 then
      (set e | e in edges && e.0 != head) + (set e | e in edges && e.0 == head :: (n + 1, e.1)) + {(head, n)}
    else
      Building(edges, head, n, k - 1) + {(Link(head, n, k - 1), Link(head, n, k)), (Link(head, n, k), n)}
  }

  /** The finished graph: the last compare and the fallback lead to the tail. */
  ghost function ChainEdges(edges: Edges, head: nat, n: nat, k: nat): Edges {
    Building(edges, head, n, k) + {(Link(head, n, k), n + 1), (n, n + 1)}
  }

  /** The updates of the dominator tree: each block is hung below the compare that leads to it. */
  function ChainDoms(doms: seq<set<nat>>, head: nat, k: nat): (r: seq<set<nat>>)
    requires head < |doms|
    ensures |r| == |doms| + 2 + k
  {
    if k == 0 then Split(doms, head)
    else
      var r := ChainDoms(doms, head, k - 1);
      Below(r, Link(head, |doms|, k - 1))
  }

  /** addNewBlock with immediate dominator x. */
  function Below(doms: seq<set<nat>>, x: nat): (r: seq<set<nat>>)
    requires x < |doms|
    ensures |r| == |doms| + 1 && r[..|doms|] == doms
  {
    doms + [doms[x] + {|doms|}]
  }

  // ------------------------------------------------------------- one more compare

  /** Block n takes the edge from x to t over; like x, it also leads to f. */
  ghost function Subdivided(edges: Edges, x: nat, t: nat, f: nat, n: nat): Edges {
    edges - {(x, t)} + {(x, n), (n, t), (n, f)}
  }

  ghost predicate Divisible(edges: Edges, x: nat, t: nat, f: nat, n: nat) {
    && Blocks(edges, n) && f != x && f != t
    && (x, t) in edges && (x, f) in edges && (f, t) in edges
  }

  lemma EdgeEnds(edges: Edges, n: nat, a: nat, b: nat)
    requires Blocks(edges, n) && (a, b) in edges
    ensures a < n && b < n
  {
    var e := (a, b);
    assert e in edges;
  }

  /** Leaving out the new block gives a path of the old graph. */
  lemma {:induction false} WithoutNew(edges: Edges, x: nat, t: nat, f: nat, n: nat, p: seq<nat>)
    requires Divisible(edges, x, t, f, n) && IsPath(Subdivided(edges, x, t, f, n), p)
    ensures var b := p[|p| - 1]; b <= n && LeadsTo(edges, Contract(p, n), if b < n then b else x)
    decreases |p|
  {
    if |p| == 1 {
      assert p == [0] && Contract(p[..0], n) == [];
    } else {
      var es, q, a, b := Subdivided(edges, x, t, f, n), p[..|p| - 1], p[|p| - 2], p[|p| - 1];
      InitPath(es, p);
      WithoutNew(edges, x, t, f, n, q);
      assert q[|q| - 1] == a;
      if b < n {
        SnocPath(edges, Contract(q, n), b);
      } else {
        StepToNew(edges, x, t, f, n, a, b);
        assert Contract(p, n) == Contract(q, n);
      }
    }
  }

  lemma StepToNew(edges: Edges, x: nat, t: nat, f: nat, n: nat, a: nat, b: nat)
    requires Divisible(edges, x, t, f, n) && (a, b) in Subdivided(edges, x, t, f, n) && n <= b
    ensures a == x && b == n && x < n
  {
    EdgeEnds(edges, n, x, t);
    EdgeEnds(edges, n, f, t);
    EdgeEnds(edges, n, x, f);
    if (a, b) in edges {
      EdgeEnds(edges, n, a, b);
    }
  }

  /** p with y between x and t. */
  ghost function Via(p: seq<nat>, x: nat, t: nat, y: nat): seq<nat> {
    if |p| <= 1 then p
    else
      var a, b := p[|p| - 2], p[|p| - 1];
      Via(p[..|p| - 1], x, t, y) + (if a == x && b == t then [y] else []) + [b]
  }

  lemma {:induction false} ViaPath(edges: Edges, es: Edges, x: nat, t: nat, y: nat, p: seq<nat>)
    requires edges - {(x, t)} <= es && (x, y) in es && (y, t) in es && IsPath(edges, p)
    ensures LeadsTo(es, Via(p, x, t, y), p[|p| - 1])
    decreases |p|
  {
    if |p| > 1 {
      var q, a, b := p[..|p| - 1], p[|p| - 2], p[|p| - 1];
      InitPath(edges, p);
      ViaPath(edges, es, x, t, y, q);
      var w := Via(q, x, t, y);
      if a == x && b == t {
        SnocPath(es, w, y);
        SnocPath(es, w + [y], b);
      } else {
        SnocPath(es, w, b);
        assert w + [] + [b] == w + [b];
      }
    }
  }

  lemma {:induction false} ViaMembers(p: seq<nat>, x: nat, t: nat, y: nat, z: nat)
    ensures z in Via(p, x, t, y) ==> z in p || z == y
    ensures z in p ==> z in Via(p, x, t, y)
    decreases |p|
  {
    if |p| > 1 {
      ViaMembers(p[..|p| - 1], x, t, y, z);
      assert p == p[..|p| - 1] + [p[|p| - 1]];
    }
  }

  // ------------------------------------------------------------- dominance after one more compare

  lemma OldStay(edges: Edges, x: nat, t: nat, f: nat, n: nat, a: nat, b: nat)
    requires Divisible(edges, x, t, f, n) && a < n && b < n
    ensures OnEveryPath(Subdivided(edges, x, t, f, n), a, b) <==> OnEveryPath(edges, a, b)
  {
    var es := Subdivided(edges, x, t, f, n);
    if OnEveryPath(es, a, b) {
      forall p: seq<nat> | LeadsTo(edges, p, b) ensures a in p {
        ViaPath(edges, es, x, t, n, p);
        ViaMembers(p, x, t, n, a);
        assert LeadsTo(es, Via(p, x, t, n), b);
      }
    }
    if OnEveryPath(edges, a, b) {
      forall p: seq<nat> | LeadsTo(es, p, b) ensures a in p {
        WithoutNew(edges, x, t, f, n, p);
        ContractMembers(p, n, a);
        assert LeadsTo(edges, Contract(p, n), b);
      }
    }
  }

  /** Every block can be reached through the fallback, around the new block. */
  lemma NewDominatesNone(edges: Edges, x: nat, t: nat, f: nat, n: nat, p: seq<nat>, b: nat, a: nat)
    requires Divisible(edges, x, t, f, n) && n <= a && LeadsTo(edges, p, b)
    ensures !OnEveryPath(Subdivided(edges, x, t, f, n), a, b)
  {
    var es := Subdivided(edges, x, t, f, n);
    EdgeEnds(edges, n, x, f);
    ViaPath(edges, es, x, t, f, p);
    ViaMembers(p, x, t, f, a);
    BoundedPath(edges, n, p, a);
    assert LeadsTo(es, Via(p, x, t, f), b);
  }

  lemma NewBelow(edges: Edges, x: nat, t: nat, f: nat, n: nat, a: nat)
    requires Divisible(edges, x, t, f, n)
    ensures var es := Subdivided(edges, x, t, f, n); OnEveryPath(es, a, n) <==> a == n || OnEveryPath(es, a, x)
  {
    var es := Subdivided(edges, x, t, f, n);
    if OnEveryPath(es, a, n) && a != n {
      forall q: seq<nat> | LeadsTo(es, q, x) ensures a in q {
        SnocPath(es, q, n);
        assert a in q + [n];
      }
    }
    if a == n || OnEveryPath(es, a, x) {
      forall q: seq<nat> | LeadsTo(es, q, n) ensures a in q {
        if a != n {
          InitPath(es, q);
          StepToNew(edges, x, t, f, n, q[|q| - 2], n);
          assert LeadsTo(es, q[..|q| - 1], x);
        }
      }
    }
  }

  /** One more compare keeps the dominator sets exact. */
  lemma SubdividedExact(edges: Edges, doms: seq<set<nat>>, x: nat, t: nat, f: nat)
    requires DominatorsOf(edges, doms) && Dominance(doms) && Divisible(edges, x, t, f, |doms|) && x < |doms|
    ensures DominatorsOf(Subdivided(edges, x, t, f, |doms|), Below(doms, x))
  {
    var n, es, r := |doms|, Subdivided(edges, x, t, f, |doms|), Below(doms, x);
    forall p: seq<nat> | IsPath(es, p) ensures ExactAt(es, r, p[|p| - 1]) {
      var b := p[|p| - 1];
      WithoutNew(edges, x, t, f, n, p);
      forall a: nat ensures a in r[b] <==> OnEveryPath(es, a, b) {
        var c := if b < n then b else x;
        ExactBelow(edges, doms, x, t, f, Contract(p, n), c, a);
        NewBelow(edges, x, t, f, n, a);
      }
    }
  }

  lemma ExactBelow(edges: Edges, doms: seq<set<nat>>, x: nat, t: nat, f: nat, q: seq<nat>, b: nat, a: nat)
    requires DominatorsOf(edges, doms) && Dominance(doms) && Divisible(edges, x, t, f, |doms|)
    requires b < |doms| && LeadsTo(edges, q, b)
    ensures a in doms[b] <==> OnEveryPath(Subdivided(edges, x, t, f, |doms|), a, b)
  {
    assert ExactAt(edges, doms, b);
    if a < |doms| {
      OldStay(edges, x, t, f, |doms|, a, b);
    } else {
      NewDominatesNone(edges, x, t, f, |doms|, q, b, a);
    }
  }

  lemma BelowDominance(doms: seq<set<nat>>, x: nat)
    requires Dominance(doms) && x < |doms|
    ensures Dominance(Below(doms, x))
  {
    var n, r := |doms|, Below(doms, x);
    forall a: nat, b: nat | b < |r| && a in r[b] ensures a < |r| && r[a] <= r[b] {
      assert b < n ==> r[b] == doms[b];
      assert a < n ==> r[a] == doms[a];
      var c := if b < n then b else x;
      assert a in doms[c] ==> a < n && doms[a] <= doms[c];
    }
    forall a: nat, b: nat | b < |r| && a < |r| && a in r[b] && b in r[a] ensures a == b {
      assert b < n ==> n !in doms[b];
      assert a < n ==> n !in doms[a];
    }
  }

  // ------------------------------------------------------------- the whole chain

  lemma {:induction false} NothingToTail(edges: Edges, head: nat, n: nat, k: nat, a: nat)
    requires Blocks(edges, n) && head < n
    ensures (a, n + 1) !in Building(edges, head, n, k)
  {
    if k == 0 {
      assert forall e :: e in edges ==> e.1 != n + 1;
      var e := (a, n + 1);
      assert e !in edges;
    } else {
      NothingToTail(edges, head, n, k - 1, a);
    }
  }

  lemma ChainZero(edges: Edges, head: nat, n: nat)
    ensures ChainEdges(edges, head, n, 0) == SplitEdges(edges, head, n)
  {
  }

  lemma ChainStep(edges: Edges, head: nat, n: nat, k: nat)
    requires Blocks(edges, n) && head < n
    ensures ChainEdges(edges, head, n, k + 1)
      == Subdivided(ChainEdges(edges, head, n, k), Link(head, n, k), n + 1, n, n + 2 + k)
  {
    NothingToTail(edges, head, n, k, Link(head, n, k));
  }

  lemma {:induction false} ToFallback(edges: Edges, head: nat, n: nat, k: nat)
    ensures (Link(head, n, k), n) in Building(edges, head, n, k)
  {
  }

  /** The dominator sets are a partial order and those of the graph. */
  ghost predicate TreeOf(edges: Edges, doms: seq<set<nat>>) {
    DominatorsOf(edges, doms) && Dominance(doms) && Blocks(edges, |doms|)
  }

  lemma CompareExact(edges: Edges, doms: seq<set<nat>>, x: nat, t: nat, f: nat)
    requires TreeOf(edges, doms) && Divisible(edges, x, t, f, |doms|) && x < |doms|
    ensures TreeOf(Subdivided(edges, x, t, f, |doms|), Below(doms, x))
  {
    var n := |doms|;
    EdgeEnds(edges, n, x, t);
    EdgeEnds(edges, n, x, f);
    SubdividedExact(edges, doms, x, t, f);
    BelowDominance(doms, x);
  }

  /** With all branches fixed up, the dominator sets are those of the graph, for any number of
      compares. */
  lemma {:induction false} ChainExact(edges: Edges, doms: seq<set<nat>>, head: nat, k: nat)
    requires TreeOf(edges, doms) && head < |doms|
    ensures TreeOf(ChainEdges(edges, head, |doms|, k), ChainDoms(doms, head, k))
  {
    if k == 0 {
      ChainZero(edges, head, |doms|);
      SplitExact(edges, doms, head);
      SplitDominance(doms, head);
    } else {
      ChainExact(edges, doms, head, k - 1);
      OneMoreCompare(edges, doms, head, k - 1);
    }
  }

  lemma OneMoreCompare(edges: Edges, doms: seq<set<nat>>, head: nat, k: nat)
    requires Blocks(edges, |doms|) && head < |doms|
    requires TreeOf(ChainEdges(edges, head, |doms|, k), ChainDoms(doms, head, k))
    ensures TreeOf(ChainEdges(edges, head, |doms|, k + 1), ChainDoms(doms, head, k + 1))
  {
    var n := |doms|;
    var es, r, x := ChainEdges(edges, head, n, k), ChainDoms(doms, head, k), Link(head, n, k);
    ToFallback(edges, head, n, k);
    ChainStep(edges, head, n, k);
    CompareExact(es, r, x, n + 1, n);
  }

  lemma {:induction false} ChainExtends(ds: seq<Def>, doms: seq<set<nat>>, head: nat, k: nat)
    requires head < |doms|
    ensures Extends(ds, doms, ds, ChainDoms(doms, head, k))
    ensures ChainDoms(doms, head, k)[|doms| + 1] == doms[head] + {|doms| + 1}
  {
    if k > 0 {
      ChainExtends(ds, doms, head, k - 1);
      var r, r' := ChainDoms(doms, head, k - 1), ChainDoms(doms, head, k);
      forall b: nat | b < |doms| + 2 ensures r'[b] == r[b] {
        assert r'[..|r|] == r;
      }
    }
  }

  /** The values and tables of the pass survive: no block loses a dominator. */
  lemma WellFormedChain(ds: seq<Def>, doms: seq<set<nat>>, head: nat, k: nat)
    requires WellFormed(ds, doms) && head < |doms| && Dominance(ChainDoms(doms, head, k))
    ensures WellFormed(ds, ChainDoms(doms, head, k))
  {
    var r := ChainDoms(doms, head, k);
    ChainExtends(ds, doms, head, k);
    forall v: nat | v < |ds| && ds[v].inst.Union?
      ensures Available(ds, r, ds[v].inst.a, ds[v].home) && Available(ds, r, ds[v].inst.b, ds[v].home)
    {
      AvailableStays(ds, doms, ds, r, ds[v].inst.a, ds[v].home);
      AvailableStays(ds, doms, ds, r, ds[v].inst.b, ds[v].home);
    }
  }
}
