/**
 SplitBlockAndInsertIfThen on the control-flow graph, and the update of the dominator tree that
 goes with it: the updated tree is the dominance relation of the new graph.
 */
module ShadowSplit {
  import opened ShadowCombine
  import opened ShadowRuns

  ghost predicate Blocks(edges: Edges, n: nat) {
    0 < n && forall e :: e in edges ==> e.0 < n && e.1 < n
  }

  /** Head keeps what precedes the insertion point; n is the new "then" block and n + 1 the tail,
      which inherits the ways out of head. */
  ghost function SplitEdges(edges: Edges, head: nat, n: nat): Edges {
    (set e | e in edges && e.0 != head)
    + (set e | e in edges && e.0 == head :: (n + 1, e.1))
    + {(head, n), (n, n + 1), (head, n + 1)}
  }

  lemma SplitEdgeCases(edges: Edges, head: nat, n: nat, a: nat, b: nat)
    requires Blocks(edges, n) && head < n
    ensures (a, b) in SplitEdges(edges, head, n) <==>
      || ((a, b) in edges && a != head)
      || (a == n + 1 && (head, b) in edges)
      || (a == head && (b == n || b == n + 1))
      || (a == n && b == n + 1)
    ensures (a, b) in edges ==> a < n && b < n
    ensures (head, b) in edges ==> b < n
  {
    if a == n + 1 && (head, b) in edges {
      var e := (head, b);
      assert e in edges && e.0 == head && (n + 1, e.1) == (a, b);
    }
  }

  // ------------------------------------------------------------- contracting a path

  ghost function Contract(p: seq<nat>, n: nat): seq<nat> {
    if p == [] then []
    else Contract(p[..|p| - 1], n) + if p[|p| - 1] < n then [p[|p| - 1]] else []
  }

  lemma InitPath(edges: Edges, p: seq<nat>)
    requires IsPath(edges, p) && |p| > 1
    ensures IsPath(edges, p[..|p| - 1]) && (p[|p| - 2], p[|p| - 1]) in edges
  {
    PrefixPath(edges, p, |p| - 2);
    var i := |p| - 2;
    assert (p[i], p[i + 1]) in edges;
  }

  lemma SnocPath(edges: Edges, p: seq<nat>, b: nat)
    requires IsPath(edges, p) && (p[|p| - 1], b) in edges
    ensures LeadsTo(edges, p + [b], b)
  {
    var r := p + [b];
    forall i | 0 <= i < |r| - 1 ensures (r[i], r[i + 1]) in edges {
      if i < |p| - 1 {
        assert (p[i], p[i + 1]) in edges;
      }
    }
  }

  /** Leaving out the new blocks turns a path of the new graph into one of the old graph. */
  lemma {:induction false} ContractPath(edges: Edges, head: nat, n: nat, p: seq<nat>)
    requires Blocks(edges, n) && head < n && IsPath(SplitEdges(edges, head, n), p)
    ensures var b := p[|p| - 1]; LeadsTo(edges, Contract(p, n), if b < n then b else head)
    decreases |p|
  {
    if |p| == 1 {
      assert p == [0] && Contract(p[..0], n) == [];
    } else {
      var q, a, b := p[..|p| - 1], p[|p| - 2], p[|p| - 1];
      InitPath(SplitEdges(edges, head, n), p);
      ContractPath(edges, head, n, q);
      SplitEdgeCases(edges, head, n, a, b);
      assert q[|q| - 1] == a;
      if b < n {
        SnocPath(edges, Contract(q, n), b);
      } else {
        assert Contract(p, n) == Contract(q, n);
      }
    }
  }

  lemma {:induction false} ContractMembers(p: seq<nat>, n: nat, x: nat)
    ensures x in Contract(p, n) <==> x in p && x < n
  {
    if p != [] {
      ContractMembers(p[..|p| - 1], n, x);
      assert p == p[..|p| - 1] + [p[|p| - 1]];
    }
  }

  // ------------------------------------------------------------- expanding a path

  ghost function Expand(p: seq<nat>, head: nat, n: nat): seq<nat> {
    if |p| <= 1 then p
    else Expand(p[..|p| - 1], head, n) + (if p[|p| - 2] == head then [n + 1] else []) + [p[|p| - 1]]
  }

  lemma {:induction false} ExpandPath(edges: Edges, head: nat, n: nat, p: seq<nat>)
    requires Blocks(edges, n) && head < n && IsPath(edges, p)
    ensures LeadsTo(SplitEdges(edges, head, n), Expand(p, head, n), p[|p| - 1])
    decreases |p|
  {
    if |p| > 1 {
      var es, q, a, b := SplitEdges(edges, head, n), p[..|p| - 1], p[|p| - 2], p[|p| - 1];
      InitPath(edges, p);
      ExpandPath(edges, head, n, q);
      assert q[|q| - 1] == a;
      var w := Expand(q, head, n);
      if a == head {
        SplitEdgeCases(edges, head, n, head, n + 1);
        SplitEdgeCases(edges, head, n, n + 1, b);
        SnocPath(es, w, n + 1);
        SnocPath(es, w + [n + 1], b);
      } else {
        SplitEdgeCases(edges, head, n, a, b);
        SnocPath(es, w, b);
        assert w + [] + [b] == w + [b];
      }
    }
  }

  lemma {:induction false} ExpandMembers(p: seq<nat>, head: nat, n: nat, x: nat)
    ensures x in p ==> x in Expand(p, head, n)
    ensures x in Expand(p, head, n) ==> x in p || (x == n + 1 && |p| > 1 && head in p[..|p| - 1])
    decreases |p|
  {
    if |p| > 1 {
      var q := p[..|p| - 1];
      ExpandMembers(q, head, n, x);
      assert p == q + [p[|p| - 1]];
      assert q[|q| - 1] == p[|p| - 2];
      assert |q| > 1 && head in q[..|q| - 1] ==> head in q;
    }
  }

  // ------------------------------------------------------------- dominance in the new graph

  lemma OldDominators(edges: Edges, head: nat, n: nat, a: nat, b: nat)
    requires Blocks(edges, n) && head < n && a < n && b < n
    ensures OnEveryPath(SplitEdges(edges, head, n), a, b) <==> OnEveryPath(edges, a, b)
  {
    var es := SplitEdges(edges, head, n);
    if OnEveryPath(es, a, b) {
      forall p: seq<nat> | LeadsTo(edges, p, b) ensures a in p {
        ExpandPath(edges, head, n, p);
        ExpandMembers(p, head, n, a);
        assert LeadsTo(es, Expand(p, head, n), b);
      }
    }
    if OnEveryPath(edges, a, b) {
      forall p: seq<nat> | LeadsTo(es, p, b) ensures a in p {
        ContractPath(edges, head, n, p);
        ContractMembers(p, n, a);
        assert LeadsTo(edges, Contract(p, n), b);
      }
    }
  }

  /** The tail dominates what head dominated, other than head itself. */
  lemma TailDominates(edges: Edges, head: nat, n: nat, p: seq<nat>, b: nat)
    requires Blocks(edges, n) && head < n && b < n && LeadsTo(edges, p, b)
    ensures OnEveryPath(SplitEdges(edges, head, n), n + 1, b) <==> OnEveryPath(edges, head, b) && b != head
  {
    var es := SplitEdges(edges, head, n);
    if OnEveryPath(edges, head, b) && b != head {
      forall q: seq<nat> | LeadsTo(es, q, b) ensures n + 1 in q {
        ThroughTail(edges, head, n, q, b);
      }
    } else {
      var q := AvoidingPath(edges, head, p, b);
      ExpandPath(edges, head, n, q);
      ExpandMembers(q, head, n, n + 1);
      BoundedPath(edges, n, q, n + 1);
      assert LeadsTo(es, Expand(q, head, n), b) && n + 1 !in Expand(q, head, n);
    }
  }

  /** A path through head that goes on goes through the tail. */
  lemma ThroughTail(edges: Edges, head: nat, n: nat, q: seq<nat>, b: nat)
    requires Blocks(edges, n) && head < n && b < n && b != head
    requires LeadsTo(SplitEdges(edges, head, n), q, b) && OnEveryPath(edges, head, b)
    ensures n + 1 in q
  {
    ContractPath(edges, head, n, q);
    ContractMembers(q, n, head);
    assert head in Contract(q, n);
    var i :| 0 <= i < |q| && q[i] == head;
    assert i < |q| - 1 && (q[i], q[i + 1]) in SplitEdges(edges, head, n);
    SplitEdgeCases(edges, head, n, head, q[i + 1]);
    if q[i + 1] == n {
      assert (q[i + 1], q[i + 1 + 1]) in SplitEdges(edges, head, n);
      SplitEdgeCases(edges, head, n, n, q[i + 2]);
    }
  }

  /** A path to b on which head occurs at most at the end. */
  lemma AvoidingPath(edges: Edges, head: nat, p: seq<nat>, b: nat) returns (q: seq<nat>)
    requires LeadsTo(edges, p, b) && (!OnEveryPath(edges, head, b) || b == head)
    ensures LeadsTo(edges, q, b) && head !in q[..|q| - 1]
  {
    if !OnEveryPath(edges, head, b) {
      q :| LeadsTo(edges, q, b) && head !in q;
    } else {
      var i := FirstIndex(p, head);
      PrefixPath(edges, p, i);
      q := p[..i + 1];
      assert q[..|q| - 1] == p[..i];
    }
  }

  ghost function FirstIndex(p: seq<nat>, b: nat): (t: nat)
    requires b in p
    ensures t < |p| && p[t] == b && b !in p[..t]
  {
    if p[0] == b then 0
    else
      assert p == [p[0]] + p[1..];
      var t := FirstIndex(p[1..], b);
      assert p[..t + 1] == [p[0]] + p[1..][..t];
      t + 1
  }

  lemma BoundedPath(edges: Edges, n: nat, p: seq<nat>, x: nat)
    requires Blocks(edges, n) && IsPath(edges, p) && n <= x
    ensures x !in p
  {
    forall i | 0 <= i < |p| ensures p[i] < n {
      if i > 0 {
        var j := i - 1;
        var e := (p[j], p[j + 1]);
        assert e in edges;
      }
    }
  }

  lemma ThenDominatesNone(edges: Edges, head: nat, n: nat, p: seq<nat>, b: nat, x: nat)
    requires Blocks(edges, n) && head < n && b < n && LeadsTo(edges, p, b) && n <= x && x != n + 1
    ensures !OnEveryPath(SplitEdges(edges, head, n), x, b)
  {
    ExpandPath(edges, head, n, p);
    ExpandMembers(p, head, n, x);
    BoundedPath(edges, n, p, x);
    assert LeadsTo(SplitEdges(edges, head, n), Expand(p, head, n), b);
  }

  /** The new blocks are entered only from head, directly or through each other. */
  lemma NewBlocks(edges: Edges, head: nat, n: nat, a: nat, b: nat)
    requires Blocks(edges, n) && head < n && (b == n || b == n + 1)
    ensures OnEveryPath(SplitEdges(edges, head, n), a, b) <==> a == b || OnEveryPath(SplitEdges(edges, head, n), a, head)
  {
    var es := SplitEdges(edges, head, n);
    SplitEdgeCases(edges, head, n, head, b);
    if OnEveryPath(es, a, b) && a != b {
      forall q: seq<nat> | LeadsTo(es, q, head) ensures a in q {
        SnocPath(es, q, b);
        assert a in q + [b];
      }
    }
    if a == b || OnEveryPath(es, a, head) {
      forall q: seq<nat> | LeadsTo(es, q, b) ensures a in q {
        if a != b {
          ThroughHead(edges, head, n, q, b, a);
        }
      }
    }
  }

  lemma ThroughHead(edges: Edges, head: nat, n: nat, q: seq<nat>, b: nat, a: nat)
    requires Blocks(edges, n) && head < n && (b == n || b == n + 1)
    requires LeadsTo(SplitEdges(edges, head, n), q, b) && OnEveryPath(SplitEdges(edges, head, n), a, head)
    ensures a in q
  {
    var es := SplitEdges(edges, head, n);
    InitPath(es, q);
    var r := q[..|q| - 1];
    SplitEdgeCases(edges, head, n, q[|q| - 2], b);
    if r[|r| - 1] == head {
      assert LeadsTo(es, r, head);
    } else {
      InitPath(es, r);
      SplitEdgeCases(edges, head, n, r[|r| - 2], n);
      assert LeadsTo(es, r[..|r| - 1], head);
    }
  }

  lemma ExactOnOld(edges: Edges, doms: seq<set<nat>>, head: nat, c: seq<nat>, b: nat, a: nat)
    requires DominatorsOf(edges, doms) && Dominance(doms) && Blocks(edges, |doms|) && head < |doms|
    requires b < |doms| && LeadsTo(edges, c, b)
    ensures a in Split(doms, head)[b] <==> OnEveryPath(SplitEdges(edges, head, |doms|), a, b)
  {
    var n := |doms|;
    SplitMember(doms, head, a, b);
    if a < n {
      OldDominators(edges, head, n, a, b);
      assert a in doms[b] <==> OnEveryPath(edges, a, b);
    } else if a == n + 1 {
      TailDominates(edges, head, n, c, b);
      assert head in doms[b] <==> OnEveryPath(edges, head, b);
    } else {
      ThenDominatesNone(edges, head, n, c, b, a);
    }
  }

  /** The split keeps the dominator sets exact. */
  lemma SplitExact(edges: Edges, doms: seq<set<nat>>, head: nat)
    requires DominatorsOf(edges, doms) && Dominance(doms) && Blocks(edges, |doms|) && head < |doms|
    ensures DominatorsOf(SplitEdges(edges, head, |doms|), Split(doms, head))
    ensures Blocks(SplitEdges(edges, head, |doms|), |doms| + 2)
  {
    var n, es, r := |doms|, SplitEdges(edges, head, |doms|), Split(doms, head);
    forall p: seq<nat> | IsPath(es, p) ensures ExactAt(es, r, p[|p| - 1]) {
      var b := p[|p| - 1];
      EndBlock(edges, head, n, p);
      forall a: nat ensures a in r[b] <==> OnEveryPath(es, a, b) {
        SplitExactAt(edges, doms, head, p, a);
      }
    }
  }

  lemma SplitExactAt(edges: Edges, doms: seq<set<nat>>, head: nat, p: seq<nat>, a: nat)
    requires DominatorsOf(edges, doms) && Dominance(doms) && Blocks(edges, |doms|) && head < |doms|
    requires IsPath(SplitEdges(edges, head, |doms|), p) && p[|p| - 1] < |doms| + 2
    ensures a in Split(doms, head)[p[|p| - 1]] <==> OnEveryPath(SplitEdges(edges, head, |doms|), a, p[|p| - 1])
  {
    var n, b := |doms|, p[|p| - 1];
    ContractPath(edges, head, n, p);
    if b < n {
      ExactOnOld(edges, doms, head, Contract(p, n), b, a);
    } else {
      NewBlocks(edges, head, n, a, b);
      ExactOnOld(edges, doms, head, Contract(p, n), head, a);
      SplitMember(doms, head, a, b);
      SplitMember(doms, head, a, head);
    }
  }

  lemma EndBlock(edges: Edges, head: nat, n: nat, p: seq<nat>)
    requires Blocks(edges, n) && head < n && IsPath(SplitEdges(edges, head, n), p)
    ensures p[|p| - 1] <= n + 1
  {
    if |p| > 1 {
      InitPath(SplitEdges(edges, head, n), p);
      SplitEdgeCases(edges, head, n, p[|p| - 2], p[|p| - 1]);
    }
  }
}
