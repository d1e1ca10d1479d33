/**
 When `combine` denotes the union: a condition on the segments `find` lists for the two
 labels, necessary and sufficient, and a reachable pair of labels that violates it.
 */
module TagExactness {
  import opened TagTrie
  import opened TagPaths
  import opened TagMerge
  import opened TagInference

  ghost predicate ShowsAt(segs: seq<TagSeg>, b: nat) {
    exists k: nat :: k < |segs| && segs[k].begin == b
  }

  lemma {:induction false} VisibleBegins(ns: seq<TagNode>, g: Shape, i: nat, b: nat)
    requires Inv(ns, g) && IsLabel(ns, g, i)
    ensures b in Begins(ns, g, i) <==> ShowsAt(Visible(ns, g, i), b)
    decreases End(ns, i)
  {
    if i != ROOT {
      ParentStep(ns, g, i);
      var v := Visible(ns, g, i);
      assert v[|v| - 1] == ns[i].seg;
      if !Widened(ns, g, i) {
        var p := ns[i].parent;
        VisibleBegins(ns, g, p, b);
        var w := Visible(ns, g, p);
        assert v == w + [ns[i].seg];
        if ShowsAt(w, b) {
          var k: nat :| k < |w| && w[k].begin == b;
          assert v[k] == w[k];
        }
      }
    }
  }

  /** The segments listed for a label partition what it denotes, lowest first. */
  lemma {:induction false} VisibleFacts(ns: seq<TagNode>, g: Shape, i: nat)
    requires Inv(ns, g) && IsLabel(ns, g, i)
    ensures var v := Visible(ns, g, i);
      && (i != ROOT ==> v != [] && v[0].begin in g.den[i] && AtLeast(g.den[i], v[0].begin))
      && (forall k: nat, m: nat :: k < m < |v| ==> v[k].begin < v[m].begin)
      && (forall k: nat, o: nat :: k < |v| && v[k].begin <= o < v[k].end ==>
            o in g.den[i] && BeginOf(ns, g, i, o) == v[k].begin)
    decreases End(ns, i)
  {
    if i != ROOT {
      ParentStep(ns, g, i);
      BeginOfParent(ns, g, i);
      WidenedIsWhole(ns, g, i);
      var p, v := ns[i].parent, Visible(ns, g, i);
      assert forall o :: o in SegRange(ns[i]) <==> ns[i].seg.begin <= o < ns[i].seg.end;
      if !Widened(ns, g, i) {
        VisibleFacts(ns, g, p);
        var w := Visible(ns, g, p);
        assert v == w + [ns[i].seg];
        forall k: nat | k < |w|
          ensures v[k] == w[k] && w[k].begin < ns[i].seg.begin
        {
          VisibleBegins(ns, g, p, w[k].begin);
          BeginsBound(ns, g, p);
        }
      }
    }
  }

  lemma {:induction false} VisibleHolds(ns: seq<TagNode>, g: Shape, i: nat, o: nat) returns (k: nat)
    requires Inv(ns, g) && IsLabel(ns, g, i) && o in g.den[i]
    ensures k < |Visible(ns, g, i)| && Visible(ns, g, i)[k].begin == BeginOf(ns, g, i, o) <= o < Visible(ns, g, i)[k].end
    decreases End(ns, i)
  {
    ParentStep(ns, g, i);
    BeginOfParent(ns, g, i);
    WidenedIsWhole(ns, g, i);
    var v := Visible(ns, g, i);
    if ns[i].seg.begin <= o {
      k := |v| - 1;
    } else {
      k := VisibleHolds(ns, g, ns[i].parent, o);
      assert v == Visible(ns, g, ns[i].parent) + [ns[i].seg];
    }
  }

  /** No segment of b that begins together with a segment of a, other than a's first,
      reaches outside a. */
  ghost predicate NoLongerTie(ns: seq<TagNode>, g: Shape, a: nat, b: nat)
    requires Inv(ns, g) && IsLabel(ns, g, a) && IsLabel(ns, g, b)
  {
    var va, vb := Visible(ns, g, a), Visible(ns, g, b);
    forall k: nat, m: nat :: 0 < k < |va| && m < |vb| && va[k].begin == vb[m].begin ==>
      Range(vb[m].begin, vb[m].end) <= g.den[a]
  }

  lemma HiddenMeansTie(ns: seq<TagNode>, g: Shape, a: nat, at: nat)
    requires Inv(ns, g) && IsLabel(ns, g, a)
    ensures Hidden(ns, g, a, at) <==>
      exists k: nat :: 0 < k < |Visible(ns, g, a)| && Visible(ns, g, a)[k].begin == at
  {
    var va := Visible(ns, g, a);
    VisibleFacts(ns, g, a);
    VisibleBegins(ns, g, a, at);
    if Hidden(ns, g, a, at) {
      var c :| c in g.den[a] && c < at;
      var k: nat :| k < |va| && va[k].begin == at;
      assert k != 0;
    }
    if k: nat :| 0 < k < |va| && va[k].begin == at {
      assert va[0].begin < at && va[0].begin in g.den[a];
    }
  }

  /** `combine` denotes the union of labels a <= b exactly when no tie hides a longer segment. */
  lemma ExactIff(ns: seq<TagNode>, g: Shape, a: nat, b: nat)
    requires Inv(ns, g) && IsLabel(ns, g, a) && IsLabel(ns, g, b)
    ensures Kept(ns, g, a, b) == g.den[a] + g.den[b] <==> NoLongerTie(ns, g, a, b)
  {
    var va, vb := Visible(ns, g, a), Visible(ns, g, b);
    VisibleFacts(ns, g, b);
    if NoLongerTie(ns, g, a, b) {
      forall o | o in g.den[b]
        ensures o in Kept(ns, g, a, b)
      {
        HiddenMeansTie(ns, g, a, BeginOf(ns, g, b, o));
        var m := VisibleHolds(ns, g, b, o);
      }
    } else {
      var k: nat, m: nat :| 0 < k < |va| && m < |vb| && va[k].begin == vb[m].begin
                            && !(Range(vb[m].begin, vb[m].end) <= g.den[a]);
      var o :| o in Range(vb[m].begin, vb[m].end) && o !in g.den[a];
      HiddenMeansTie(ns, g, a, BeginOf(ns, g, b, o));
      assert o in g.den[b] && o !in Kept(ns, g, a, b);
    }
  }
}
