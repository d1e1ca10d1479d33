/**
 Short runs of the label store, from an empty one, in which inference loses or invents offsets.
 */
module TagLosses {
  import opened TagTrie
  import opened TagPaths
  import opened TagMerge
  import opened TagInference
  import opened TagSets
  import opened TagRuns

  /** Inserting 0, 2 and 3, combining 0 with 2 and grouping 2 with 3 gives labels a of {0, 2} and
      b of {2, 3} such that combine(a, b) denotes {0, 2}: offset 3 is lost on the tie at 2. */
  method CombineCanLose() returns (ts: TagSet, a: nat, b: nat, c: nat)
    ensures fresh(ts) && ts.Valid()
    ensures IsLabel(ts.nodes, ts.shape, a) && IsLabel(ts.nodes, ts.shape, b) && IsLabel(ts.nodes, ts.shape, c)
    ensures ts.SetOf(a) == {0, 2} && ts.SetOf(b) == {2, 3} && ts.SetOf(c) == {0, 2}
  {
    ts := new TagSet();
    var l2;
    a, l2 := CombineApart(ts);
    b := GroupPair(ts, a, l2);
    LosesThree(ts.nodes, ts.shape, a, b);
    var r := ts.Combine(a, b);
    c := r.lb;
  }

  /** The labels of {0, 2} and {2}, in a store that has no other offsets. */
  method CombineApart(ts: TagSet) returns (a: nat, l2: nat)
    requires ts.Valid() && Plain(ts.nodes, ts.shape) && |ts.nodes| == 1
    modifies ts
    ensures ts.Valid() && |ts.nodes| <= 20 && AddsWithin(0, ts.nodes, ts.shape, {0, 2})
    ensures a != ROOT && IsLabel(ts.nodes, ts.shape, a) && ts.SetOf(a) == {0, 2} && End(ts.nodes, a) == 3
    ensures l2 != ROOT && IsLabel(ts.nodes, ts.shape, l2) && ts.SetOf(l2) == {2} && End(ts.nodes, l2) == 3
  {
    ghost var g0 := ts.shape;
    assert AddsWithin(0, ts.nodes, g0, {}) by { assert RootOk(ts.nodes, g0); }
    var r0 := ts.Insert(0);
    ghost var n1, g1 := ts.nodes, ts.shape;
    var r2 := ts.Insert(2);
    ghost var n2, g2 := ts.nodes, ts.shape;
    var r := ts.Combine(r0.lb, r2.lb);
    a, l2 := r.lb, r2.lb;
    LabelEnd(ts.nodes, ts.shape, a);
    forall i: nat | i < |ts.nodes| ensures ts.shape.den[i] <= {0, 2} {
      if i < 1 {
        assert ts.shape.den[i] == g0.den[i];
      } else if i < |n1| {
        assert ts.shape.den[i] == g1.den[i];
      } else if i < |n2| {
        assert ts.shape.den[i] == g2.den[i];
      }
    }
  }

  /** The label of {2, 3} as a group. It is new, so its index is above a's. */
  method GroupPair(ts: TagSet, a: nat, l2: nat) returns (b: nat)
    requires ts.Valid() && |ts.nodes| <= 20 && AddsWithin(0, ts.nodes, ts.shape, {0, 2})
    requires IsLabel(ts.nodes, ts.shape, a)
    requires l2 != ROOT && IsLabel(ts.nodes, ts.shape, l2) && ts.SetOf(l2) == {2} && End(ts.nodes, l2) == 3
    modifies ts
    ensures ts.Valid() && Grows(old(ts.nodes), old(ts.shape), ts.nodes, ts.shape) && |ts.nodes| <= 23
    ensures a < b && IsLabel(ts.nodes, ts.shape, b) && ts.SetOf(b) == {2, 3} == SegRange(ts.nodes[b])
    ensures ts.nodes[b].seg.begin == 2 && End(ts.nodes, b) == 4
  {
    ghost var n0, g0 := ts.nodes, ts.shape;
    var r3 := ts.Insert(3);
    ghost var n1, g1 := ts.nodes, ts.shape;
    var lbs := [l2, r3.lb];
    BytesFire(n1, g1, lbs, 2);
    var r, _ := ts.CombineN(lbs, true);
    GrowsTrans(n0, g0, n1, g1, ts.nodes, ts.shape);
    b := r.lb;
    assert Range(2, 4) == {2, 3};
    LabelEnd(ts.nodes, ts.shape, b);
    SegNonEmpty(ts.nodes, ts.shape, b);
    assert ts.nodes[b].seg.begin in SegRange(ts.nodes[b]);
    assert 2 in SegRange(ts.nodes[b]);
    assert forall i: nat :: i < |n0| ==> ts.shape.den[i] == g0.den[i] && 3 !in g0.den[i];
    assert 3 in ts.shape.den[b];
  }

  /** The tie at 2 hides the segment [2, 4) of b behind a's segment [2, 3). */
  lemma LosesThree(ns: seq<TagNode>, g: Shape, a: nat, b: nat)
    requires Inv(ns, g) && IsLabel(ns, g, a) && b != ROOT && IsLabel(ns, g, b)
    requires g.den[a] == {0, 2} && g.den[b] == {2, 3} && ns[b].seg.begin == 2
    ensures Kept(ns, g, a, b) == {0, 2}
  {
    ParentStep(ns, g, a);
    WidenedIsWhole(ns, g, a);
    assert 0 in g.den[a] && 1 !in g.den[a] && 2 in g.den[a];
    assert !Widened(ns, g, a);
    LabelEnd(ns, g, a);
    assert ns[a].seg.begin == 2;
    assert 2 in Begins(ns, g, a);
    assert BeginOf(ns, g, b, 2) == 2 && BeginOf(ns, g, b, 3) == 2;
    assert Hidden(ns, g, a, 2);
  }

  /** Loading four bytes of which only the first and the last are tainted, by offsets b and b + 3,
      gives a label that also denotes b + 1 and b + 2, which no operand does. */
  method GroupCanInvent(b: nat) returns (ts: TagSet, first: nat, last: nat, c: nat)
    requires b + 4 <= MAX_LB
    ensures fresh(ts) && ts.Valid()
    ensures IsLabel(ts.nodes, ts.shape, first) && IsLabel(ts.nodes, ts.shape, last) && IsLabel(ts.nodes, ts.shape, c)
    ensures ts.SetOf(first) == {b} && ts.SetOf(last) == {b + 3} && ts.SetOf(c) == {b, b + 1, b + 2, b + 3}
  {
    ts := new TagSet();
    var r1 := ts.Insert(b);
    ghost var n1, g1 := ts.nodes, ts.shape;
    var r2 := ts.Insert(b + 3);
    ghost var n2, g2 := ts.nodes, ts.shape;
    first, last := r1.lb, r2.lb;
    var lbs := [first, ROOT, ROOT, last];
    SingleLabel(n2, g2, first, b);
    SingleLabel(n2, g2, last, b + 3);
    assert FirstNonRoot(lbs) == 0 && GroupFires(n2, lbs);
    var r, _ := ts.CombineN(lbs, true);
    c := r.lb;
    assert Range(b, b + 4) == {b, b + 1, b + 2, b + 3};
  }
}
