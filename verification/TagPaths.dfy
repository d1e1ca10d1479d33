/**
 Paths of the label trie: two nodes whose bit paths agree lie on one branch, so a path
 determines its node and a denoted set determines its label.
 */
module TagPaths {
  import opened TagTrie

  /** a is d or an ancestor of d. */
  ghost predicate Anc(ns: seq<TagNode>, g: Shape, a: nat, d: nat)
    requires Inv(ns, g) && a < |ns| && d < |ns|
    decreases End(ns, d)
  {
    a == d || (d != ROOT && NodeOk(ns, g, d) && Anc(ns, g, a, g.up[d]))
  }

  ghost predicate AgreeBelow(s: set<nat>, t: set<nat>, m: nat) {
    forall o: nat :: o < m ==> (o in s <==> o in t)
  }

  lemma {:induction false} AncEnds(ns: seq<TagNode>, g: Shape, a: nat, d: nat)
    requires Inv(ns, g) && a < |ns| && d < |ns| && Anc(ns, g, a, d)
    ensures End(ns, a) <= End(ns, d)
    ensures End(ns, a) == End(ns, d) ==> a == d
    ensures AgreeBelow(g.den[a], g.den[d], End(ns, a))
    decreases End(ns, d)
  {
    if a != d {
      assert NodeOk(ns, g, d);
      AncEnds(ns, g, a, g.up[d]);
    }
  }

  /** The child of a on the branch to a proper descendant d. */
  lemma {:induction false} ChildTowards(ns: seq<TagNode>, g: Shape, a: nat, d: nat) returns (c: nat)
    requires Inv(ns, g) && a < |ns| && d < |ns| && Anc(ns, g, a, d) && a != d
    ensures 0 < c < |ns| && g.up[c] == a && Anc(ns, g, c, d)
    ensures g.one[c] <==> End(ns, a) in g.den[d]
    decreases End(ns, d)
  {
    assert NodeOk(ns, g, d);
    var u := g.up[d];
    if u == a {
      c := d;
      ParentFacts(ns, g, a);
    } else {
      c := ChildTowards(ns, g, a, u);
      AncEnds(ns, g, a, u);
    }
  }

  /** Nodes whose bit paths agree on their common length lie on one branch. */
  lemma {:induction false} SameBranch(ns: seq<TagNode>, g: Shape, i: nat, j: nat)
    requires Inv(ns, g) && i < |ns| && j < |ns| && End(ns, j) <= End(ns, i)
    requires AgreeBelow(g.den[i], g.den[j], End(ns, j))
    ensures Anc(ns, g, j, i)
    decreases End(ns, i) + End(ns, j)
  {
    assert j != ROOT ==> NodeOk(ns, g, j);
    if i != j && i != ROOT {
      assert NodeOk(ns, g, i);
      var u := g.up[i];
      if End(ns, j) <= End(ns, u) {
        SameBranch(ns, g, u, j);
      } else {
        SameBranch(ns, g, j, u);
        var c := ChildTowards(ns, g, u, j);
        assert NodeOk(ns, g, c);
        ParentFacts(ns, g, u);
        assert c == i;
        AncEnds(ns, g, i, j);
      }
    }
  }

  /** A path determines its node. */
  lemma PathUnique(ns: seq<TagNode>, g: Shape, i: nat, j: nat)
    requires Inv(ns, g) && i < |ns| && j < |ns|
    requires End(ns, i) == End(ns, j) && g.den[i] == g.den[j]
    ensures i == j
  {
    SameBranch(ns, g, i, j);
    AncEnds(ns, g, j, i);
  }

  /** Labels are canonical: a set has at most one label. */
  lemma LabelUnique(ns: seq<TagNode>, g: Shape, i: nat, j: nat)
    requires Inv(ns, g) && IsLabel(ns, g, i) && IsLabel(ns, g, j)
    requires g.den[i] == g.den[j]
    ensures i == j
  {
    assert i != ROOT ==> NodeOk(ns, g, i) && End(ns, i) - 1 in g.den[i];
    assert j != ROOT ==> NodeOk(ns, g, j) && End(ns, j) - 1 in g.den[j];
    if i != ROOT && j != ROOT {
      PathUnique(ns, g, i, j);
    }
  }

  /** Below the first one of a path sits the node of the leading zeros. */
  lemma {:induction false} FirstRun(ns: seq<TagNode>, g: Shape, i: nat, b: nat) returns (z: nat)
    requires Inv(ns, g) && i < |ns| && b in g.den[i] && forall o :: o in g.den[i] ==> b <= o
    ensures z < |ns| && g.den[z] == {} && End(ns, z) == b && ns[z].right != ROOT
    decreases End(ns, i)
  {
    assert NodeOk(ns, g, i);
    var u := g.up[i];
    if g.den[u] == {} {
      z := u;
      assert End(ns, u) in g.den[i];
    } else {
      assert b in g.den[u] by {
        ParentFacts(ns, g, u);
        var o :| o in g.den[u];
        assert o in g.den[i];
      }
      z := FirstRun(ns, g, u, b);
    }
  }

  /** Everything a 1-node's skip pointer gives a walker. */
  lemma ParentStep(ns: seq<TagNode>, g: Shape, i: nat)
    requires Inv(ns, g) && i != ROOT && IsLabel(ns, g, i)
    ensures IsLabel(ns, g, ns[i].parent)
    ensures g.up[i] < |ns| && End(ns, ns[i].parent) <= End(ns, g.up[i]) < End(ns, i)
    ensures ns[i].seg.begin <= End(ns, g.up[i])
    ensures g.den[i] == g.den[ns[i].parent] + Range(End(ns, g.up[i]), End(ns, i))
    ensures forall o :: o in g.den[ns[i].parent] ==> o < End(ns, ns[i].parent)
    ensures ns[i].seg.begin in g.den[i]
    ensures Range(ns[i].seg.begin, ns[i].seg.end) <= g.den[i]
    ensures forall o :: o in g.den[i] && ns[i].seg.begin <= o ==> o < ns[i].seg.end
  {
    assert NodeOk(ns, g, i);
    WidenedBegin(ns, g, i);
    ParentFacts(ns, g, ns[i].parent);
  }

  lemma SegNonEmpty(ns: seq<TagNode>, g: Shape, i: nat)
    requires Inv(ns, g) && i != ROOT && IsLabel(ns, g, i)
    ensures ns[i].seg.begin < ns[i].seg.end
  {
    assert NodeOk(ns, g, i);
  }

  lemma ParentLower(ns: seq<TagNode>, g: Shape, i: nat)
    requires Inv(ns, g) && i != ROOT && IsLabel(ns, g, i)
    ensures IsLabel(ns, g, ns[i].parent) && End(ns, ns[i].parent) < End(ns, i)
    ensures ns[i].seg.begin in g.den[i] && g.den[ns[i].parent] <= g.den[i]
  {
    ParentStep(ns, g, i);
  }
}
