/**
 What `find` lists, exactly: the segments of a label from the state before the call, with the
 widened segments that carry an and-op mark broken into single offsets.
 */
module TagListed {
  import opened TagTrie
  import opened TagAdds
  import opened TagPaths
  import opened TagMerge
  import opened TagInference

  /** Unsigned segments of one offset each, from b up to e. */
  ghost function Units(b: nat, e: nat): seq<TagSeg> {
    if e <= b then [] else Units(b, e - 1) + [TagSeg(false, e - 1, e)]
  }

  ghost function Listed(ns: seq<TagNode>, g: Shape, i: nat): seq<TagSeg>
    requires Inv(ns, g) && IsLabel(ns, g, i)
    decreases End(ns, i)
  {
    if i == ROOT then [] else
    ParentStep(ns, g, i);
    var p, seg := ns[i].parent, ns[i].seg;
    if !Breaks(ns, i) then Listed(ns, g, p) + [seg]
    else if !ns[i].andOp then [seg]
    else Listed(ns, g, p) + Units(End(ns, p), seg.end - 1) + [seg.(begin := seg.end - 1)]
  }

  /** Without marks that is what the label shows. */
  lemma {:induction false} ListedIsVisible(ns: seq<TagNode>, g: Shape, i: nat)
    requires Inv(ns, g) && IsLabel(ns, g, i) && NoMarks(ns)
    ensures Listed(ns, g, i) == Visible(ns, g, i)
    decreases End(ns, i)
  {
    if i != ROOT {
      ParentStep(ns, g, i);
      BreaksIffWidened(ns, g, i);
      ListedIsVisible(ns, g, ns[i].parent);
    }
  }

  /** A label whose own segment is all it denotes is listed as that segment. */
  lemma OneIsListed(ns: seq<TagNode>, g: Shape, i: nat)
    requires Inv(ns, g) && IsLabel(ns, g, i) && OneSegment(ns, g, i)
    ensures Listed(ns, g, i) == [ns[i].seg]
  {
    ParentStep(ns, g, i);
    BreaksIffWidened(ns, g, i);
    WidenedIsWhole(ns, g, i);
    if !Breaks(ns, i) {
      var p := ns[i].parent;
      if p != ROOT {
        ParentStep(ns, g, p);
        assert false;
      }
      assert Listed(ns, g, ROOT) == [];
    }
  }

  ghost predicate Unsigned(segs: seq<TagSeg>) {
    forall k: nat :: k < |segs| ==> !segs[k].sign
  }

  lemma {:induction false} UnitsUnsigned(b: nat, e: nat)
    ensures Unsigned(Units(b, e))
    decreases e
  {
    if e > b {
      UnitsUnsigned(b, e - 1);
    }
  }

  lemma {:induction false} ListedUnsigned(ns: seq<TagNode>, g: Shape, i: nat)
    requires Inv(ns, g) && IsLabel(ns, g, i) && NoSigns(ns)
    ensures Unsigned(Listed(ns, g, i))
    decreases End(ns, i)
  {
    if i != ROOT {
      ParentStep(ns, g, i);
      ListedUnsigned(ns, g, ns[i].parent);
      UnitsUnsigned(End(ns, ns[i].parent), ns[i].seg.end - 1);
    }
  }

  // ------------------------------------------------------------- breaking one segment up

  /** The label of Range(b, x) has the segment of its last offset, no sign and no mark. */
  ghost predicate UnitAt(ns: seq<TagNode>, g: Shape, b: nat, x: nat)
    requires Sized(ns, g)
  {
    exists i: nat {:trigger IsUnit(ns, g, i, b, x)} :: i < |ns| && IsUnit(ns, g, i, b, x)
  }

  ghost predicate IsUnit(ns: seq<TagNode>, g: Shape, i: nat, b: nat, x: nat)
    requires Sized(ns, g) && i < |ns|
  {
    && i != ROOT && IsLabel(ns, g, i) && g.den[i] == Range(b, x) && b < x
    && ns[i].seg == TagSeg(false, x - 1, x) && !ns[i].andOp
  }

  ghost predicate UnitsBetween(ns: seq<TagNode>, g: Shape, b: nat, low: nat, high: nat)
    requires Sized(ns, g)
  {
    forall x: nat {:trigger UnitAt(ns, g, b, x)} :: low < x < high ==> UnitAt(ns, g, b, x)
  }

  /** Labels up to e keep their segment, parent and mark. */
  ghost predicate LowSame(ns: seq<TagNode>, g: Shape, ns': seq<TagNode>, e: nat)
    requires Sized(ns, g)
  {
    && |ns| <= |ns'|
    && forall i: nat {:trigger SameNode(ns, ns', i)} :: i < |ns| && IsLabel(ns, g, i) && End(ns, i) <= e ==> SameNode(ns, ns', i)
  }

  ghost predicate SameNode(ns: seq<TagNode>, ns': seq<TagNode>, i: nat)
    requires i < |ns| <= |ns'|
  {
    ns'[i].seg == ns[i].seg && ns'[i].parent == ns[i].parent && ns'[i].andOp == ns[i].andOp
  }

  lemma {:induction false} ListedSame(ns: seq<TagNode>, g: Shape, ns': seq<TagNode>, g': Shape, e: nat, i: nat)
    requires Inv(ns, g) && Inv(ns', g') && Grows(ns, g, ns', g') && LowSame(ns, g, ns', e)
    requires IsLabel(ns, g, i) && End(ns, i) <= e
    ensures IsLabel(ns', g', i) && Listed(ns', g', i) == Listed(ns, g, i)
    decreases End(ns, i)
  {
    if i != ROOT {
      assert SameNode(ns, ns', i);
      ParentStep(ns, g, i);
      ParentStep(ns', g', i);
      var p := ns[i].parent;
      assert SameNode(ns, ns', p);
      ListedSame(ns, g, ns', g', e, p);
      assert Breaks(ns', i) <==> Breaks(ns, i);
      assert End(ns', p) == End(ns, p);
    }
  }

  /** A unit's parent is the label of one offset less. */
  lemma UnitParent(ns: seq<TagNode>, g: Shape, i: nat, b: nat, x: nat)
    requires Inv(ns, g) && i < |ns| && IsUnit(ns, g, i, b, x) && b + 1 < x
    requires HasLabel(ns, g, Range(b, x - 1))
    ensures IsLabel(ns, g, ns[i].parent) && g.den[ns[i].parent] == Range(b, x - 1) && !Breaks(ns, i)
  {
    var j: nat :| IsLabel(ns, g, j) && g.den[j] == Range(b, x - 1);
    ParentStep(ns, g, i);
    LabelEnd(ns, g, j);
    assert b in g.den[j] && x - 2 in g.den[j];
    UnitStart(ns, g, i, j, b);
    ParentTouches(ns, g, i, b);
  }

  lemma {:induction false} UnitsListed(ns: seq<TagNode>, g: Shape, p: nat, b: nat, high: nat, x: nat, i: nat)
    requires Inv(ns, g) && p != ROOT && IsLabel(ns, g, p) && g.den[p] == Range(b, End(ns, p)) && b < End(ns, p)
    requires UnitsBetween(ns, g, b, End(ns, p), high) && End(ns, p) <= x < high
    requires IsLabel(ns, g, i) && g.den[i] == Range(b, x)
    ensures Listed(ns, g, i) == Listed(ns, g, p) + Units(End(ns, p), x)
    decreases x
  {
    assert b in g.den[i];
    if x == End(ns, p) {
      LabelUnique(ns, g, i, p);
      assert Listed(ns, g, p) + [] == Listed(ns, g, p);
    } else {
      assert UnitAt(ns, g, b, x);
      var j: nat :| j < |ns| && IsUnit(ns, g, j, b, x);
      LabelUnique(ns, g, i, j);
      assert HasLabel(ns, g, Range(b, x - 1)) by {
        assert x - 1 > End(ns, p) ==> UnitAt(ns, g, b, x - 1);
      }
      UnitParent(ns, g, i, b, x);
      UnitsListed(ns, g, p, b, high, x - 1, ns[i].parent);
      assert Listed(ns, g, i) == Listed(ns, g, ns[i].parent) + [TagSeg(false, x - 1, x)];
      assert Listed(ns, g, p) + (Units(End(ns, p), x - 1) + [TagSeg(false, x - 1, x)])
          == Listed(ns, g, p) + Units(End(ns, p), x - 1) + [TagSeg(false, x - 1, x)];
    }
  }

  /** What `split_and_op` leaves of a widened label lb above p. */
  ghost predicate Broken(ns: seq<TagNode>, g: Shape, ns': seq<TagNode>, g': Shape, lb: nat)
    requires Inv(ns, g) && Inv(ns', g') && lb < |ns| <= |ns'| && Breaks(ns, lb)
  {
    var p := ns[lb].parent;
    && LowSame(ns, g, ns', End(ns, p)) && UnitsBetween(ns', g', ns[lb].seg.begin, End(ns, p), End(ns, lb))
    && ns'[lb].seg == ns[lb].seg.(begin := End(ns, lb) - 1)
    && ns'[lb].parent < |ns'| && End(ns', ns'[lb].parent) == End(ns, lb) - 1
  }

  lemma ListedWhole(ns: seq<TagNode>, g: Shape, i: nat)
    requires Inv(ns, g) && i != ROOT && IsLabel(ns, g, i) && !Breaks(ns, i)
    ensures IsLabel(ns, g, ns[i].parent) && Listed(ns, g, i) == Listed(ns, g, ns[i].parent) + [ns[i].seg]
  {
    ParentStep(ns, g, i);
  }

  lemma ListedBroken(ns: seq<TagNode>, g: Shape, i: nat)
    requires Inv(ns, g) && i != ROOT && IsLabel(ns, g, i) && Breaks(ns, i) && ns[i].andOp
    ensures var p, seg := ns[i].parent, ns[i].seg;
      && p != ROOT && IsLabel(ns, g, p) && g.den[p] == Range(seg.begin, End(ns, p)) && seg.begin < End(ns, p) < seg.end
      && Listed(ns, g, i) == Listed(ns, g, p) + Units(End(ns, p), seg.end - 1) + [seg.(begin := seg.end - 1)]
  {
    ParentStep(ns, g, i);
    GuardMeansWidened(ns, g, i);
    SegNonEmpty(ns, g, ns[i].parent);
  }

  /** The last store of `split_and_op`, after the units are in place. */
  lemma BrokenUp(ns0: seq<TagNode>, g0: Shape, ns: seq<TagNode>, g: Shape, ns': seq<TagNode>, lb: nat)
    requires Inv(ns0, g0) && Inv(ns, g) && Inv(ns', g) && lb != ROOT && IsLabel(ns0, g0, lb) && Breaks(ns0, lb)
    requires GapFree(ns0, g0, lb, ns0[lb].parent, ns0[lb].seg.begin)
    requires SplitInv(ns0, g0, ns, g, lb, ns0[lb].parent, ns0[lb].seg.begin, lb) && LowSame(ns0, g0, ns, End(ns0, ns0[lb].parent))
    requires ns' == ns[lb := WithBegin(ns[lb], End(ns0, lb) - 1)]
    requires ns[lb].parent < |ns| && End(ns, ns[lb].parent) == End(ns0, lb) - 1
    ensures Broken(ns0, g0, ns', g, lb)
  {
    var p, b, e := ns0[lb].parent, ns0[lb].seg.begin, End(ns0, lb);
    assert SignKept(ns0, ns, lb) && End(ns, lb) == e;
    forall i: nat | i < |ns0| && IsLabel(ns0, g0, i) && End(ns0, i) <= End(ns0, p) ensures SameNode(ns0, ns', i) {
      assert SameNode(ns0, ns, i);
    }
    forall x: nat | End(ns0, p) < x < e ensures UnitAt(ns', g, b, x) {
      assert UnitAt(ns, g, b, x);
      var i: nat :| i < |ns| && IsUnit(ns, g, i, b, x);
      assert i != lb;
      assert IsUnit(ns', g, i, b, x);
    }
  }

  /** Breaking a marked segment up does not change what is listed. */
  lemma BrokenListed(ns: seq<TagNode>, g: Shape, ns': seq<TagNode>, g': Shape, lb: nat)
    requires Inv(ns, g) && Inv(ns', g') && Grows(ns, g, ns', g') && lb != ROOT && IsLabel(ns, g, lb)
    requires ns[lb].andOp && Breaks(ns, lb) && Broken(ns, g, ns', g', lb)
    ensures IsLabel(ns', g', lb) && !Breaks(ns', lb) && Listed(ns', g', lb) == Listed(ns, g, lb)
  {
    var p, b, e := ns[lb].parent, ns[lb].seg.begin, End(ns, lb);
    ListedBroken(ns, g, lb);
    BrokenParent(ns, g, ns', g', lb);
    ListedWhole(ns', g', lb);
    ListedSame(ns, g, ns', g', End(ns, p), p);
    UnitsListed(ns', g', p, b, e, e - 1, ns'[lb].parent);
  }

  lemma BrokenParent(ns: seq<TagNode>, g: Shape, ns': seq<TagNode>, g': Shape, lb: nat)
    requires Inv(ns, g) && Inv(ns', g') && Grows(ns, g, ns', g') && lb != ROOT && IsLabel(ns, g, lb)
    requires Breaks(ns, lb) && Broken(ns, g, ns', g', lb)
    ensures var b, e, q := ns[lb].seg.begin, End(ns, lb), ns'[lb].parent;
      IsLabel(ns', g', q) && g'.den[q] == Range(b, e - 1) && !Breaks(ns', lb)
  {
    GuardMeansWidened(ns, g, lb);
    ParentStep(ns', g', lb);
    var b, e, q := ns[lb].seg.begin, End(ns, lb), ns'[lb].parent;
    assert g'.den[lb] == Range(b, e);
    assert End(ns', g'.up[lb]) == e - 1;
    assert g'.den[lb] == g'.den[q] + Range(e - 1, e);
    assert e - 1 !in g'.den[q];
  }

  // ------------------------------------------------------------- inserting the units

  /** p is the parent of the gap-free label lb. */
  ghost predicate GapFree(ns: seq<TagNode>, g: Shape, lb: nat, p: nat, b: nat)
    requires Inv(ns, g)
  {
    && lb != ROOT && IsLabel(ns, g, lb) && p != ROOT && IsLabel(ns, g, p) && ns[lb].parent == p
    && b < End(ns, p) < End(ns, lb)
    && g.den[lb] == Range(b, End(ns, lb)) && g.den[p] == Range(b, End(ns, p))
  }

  /** There is no label between them. */
  lemma NoneBetween(ns: seq<TagNode>, g: Shape, lb: nat, p: nat, b: nat, j: nat, x: nat)
    requires Inv(ns, g) && GapFree(ns, g, lb, p, b) && IsLabel(ns, g, j) && g.den[j] == Range(b, x) && End(ns, p) < x <= End(ns, lb)
    ensures j == lb
  {
    assert b in g.den[j] && x - 1 in g.den[j];
    LabelEnd(ns, g, j);
    ParentStep(ns, g, lb);
    assert End(ns, p) in g.den[lb];
    assert End(ns, g.up[lb]) == End(ns, p);
    assert NodeOk(ns, g, lb);
    SameBranch(ns, g, lb, j);
    if j != lb {
      AncEnds(ns, g, j, g.up[lb]);
      assert false;
    }
  }

  /** The units up to cur are there. */
  ghost predicate SplitInv(ns0: seq<TagNode>, g0: Shape, ns: seq<TagNode>, g: Shape, lb: nat, p: nat, b: nat, cur: nat)
    requires Inv(ns0, g0) && GapFree(ns0, g0, lb, p, b)
  {
    && Adds(ns0, g0, ns, g, Range(End(ns0, p) + 1, End(ns0, lb) + 1)) && SignsKept(ns0, ns)
    && cur != ROOT && IsLabel(ns, g, cur) && End(ns0, p) <= End(ns, cur) <= End(ns0, lb)
    && g.den[cur] == Range(b, End(ns, cur))
    && (cur != lb ==> TopIs(ns0, ns, g, End(ns, cur)))
    && UnitsBetween(ns, g, b, End(ns0, p), if cur == lb then End(ns0, lb) else End(ns, cur) + 1)
  }

  /** No new label ends above e. */
  ghost predicate TopIs(ns0: seq<TagNode>, ns: seq<TagNode>, g: Shape, e: nat)
    requires Sized(ns, g)
  {
    forall j: nat {:trigger g.one[j]} :: |ns0| <= j < |ns| && g.one[j] ==> End(ns, j) <= e
  }

  lemma SplitBegins(ns: seq<TagNode>, g: Shape, lb: nat, p: nat, b: nat)
    requires Inv(ns, g) && GapFree(ns, g, lb, p, b)
    ensures SplitInv(ns, g, ns, g, lb, p, b, p)
  {
    NothingAdded(ns, g, Range(End(ns, p) + 1, End(ns, lb) + 1));
  }

  lemma UnitStays(ns: seq<TagNode>, g: Shape, ns': seq<TagNode>, g': Shape, e: nat, b: nat, x: nat)
    requires Inv(ns, g) && Inv(ns', g') && Adds(ns, g, ns', g', {e}) && SignsKept(ns, ns') && UnitAt(ns, g, b, x) && x <= e
    ensures UnitAt(ns', g', b, x)
  {
    var i: nat :| i < |ns| && IsUnit(ns, g, i, b, x);
    LowKept(ns, g, ns', g', {e}, i);
    assert SignKept(ns, ns', i) && End(ns', i) == End(ns, i) && ns'[i].andOp == ns[i].andOp;
    assert IsUnit(ns', g', i, b, x);
  }

  /** The next unit: new, or lb itself. */
  lemma SplitAdvances(ns0: seq<TagNode>, g0: Shape, ns: seq<TagNode>, g: Shape, ns': seq<TagNode>, g': Shape,
                      lb: nat, p: nat, b: nat, cur: nat, r: nat)
    requires Inv(ns0, g0) && GapFree(ns0, g0, lb, p, b) && Inv(ns, g) && Inv(ns', g')
    requires SplitInv(ns0, g0, ns, g, lb, p, b, cur) && cur != lb && End(ns, cur) < End(ns0, lb)
    requires var e := End(ns, cur) + 1;
      && Adds(ns, g, ns', g', {e}) && SignsKept(ns, ns')
      && r != ROOT && IsLabel(ns', g', r) && g'.den[r] == Range(b, e) && End(ns', r) == e
      && (|ns'| > |ns| ==> r == |ns| && |ns'| == |ns| + 1 && ns'[r].seg == TagSeg(false, e - 1, e))
    ensures SplitInv(ns0, g0, ns', g', lb, p, b, r)
  {
    var e, low, high := End(ns, cur) + 1, End(ns0, p), End(ns0, lb);
    var ends := Range(low + 1, high + 1);
    AddsTrans(ns0, g0, ns, g, ns', g', ends, {e});
    assert ends + {e} == ends;
    SignsTrans(ns0, ns, ns');
    if r < |ns0| {
      NoneBetween(ns0, g0, lb, p, b, r, e);
    } else if r < |ns| {
      assert false;
    } else {
      assert NewOk(ns', g', {e}, r);
      assert IsUnit(ns', g', r, b, e);
      NewTop(ns0, g0, ns, g, ns', g', e);
    }
    forall x: nat | low < x < (if r == lb then high else e + 1) ensures UnitAt(ns', g', b, x) {
      if x < e {
        assert UnitAt(ns, g, b, x);
        UnitStays(ns, g, ns', g', e, b, x);
      }
    }
  }

  lemma NewTop(ns0: seq<TagNode>, g0: Shape, ns: seq<TagNode>, g: Shape, ns': seq<TagNode>, g': Shape, e: nat)
    requires Grows(ns0, g0, ns, g) && Adds(ns, g, ns', g', {e}) && e > 0 && TopIs(ns0, ns, g, e - 1)
    ensures TopIs(ns0, ns', g', e)
  {
    forall j: nat | |ns0| <= j < |ns'| && g'.one[j] ensures End(ns', j) <= e {
      if j < |ns| {
        assert g.one[j] && End(ns', j) == End(ns, j);
      } else {
        assert NewOk(ns', g', {e}, j);
      }
    }
  }

  /** Once all units are there the label's last offset can become its segment. */
  lemma SplitEnds(ns0: seq<TagNode>, g0: Shape, ns: seq<TagNode>, g: Shape, lb: nat, p: nat, b: nat)
    requires Inv(ns0, g0) && GapFree(ns0, g0, lb, p, b) && Inv(ns, g) && SplitInv(ns0, g0, ns, g, lb, p, b, lb)
    ensures g.up[lb] < |ns| && b < End(ns, g.up[lb]) == End(ns, lb) - 1
    ensures LowSame(ns0, g0, ns, End(ns0, p))
  {
    var e := End(ns0, lb);
    assert End(ns, lb) == e && End(ns, p) == End(ns0, p) && g.den[p] == g0.den[p];
    var j: nat := p;
    if e - 1 > End(ns0, p) {
      assert UnitAt(ns, g, b, e - 1);
      j :| j < |ns| && IsUnit(ns, g, j, b, e - 1);
    }
    UnitStart(ns, g, lb, j, b);
    forall i: nat | i < |ns0| && IsLabel(ns0, g0, i) && End(ns0, i) <= End(ns0, p) ensures SameNode(ns0, ns, i) {
      LowNode(ns0, g0, ns, g, lb, p, i);
    }
  }

  lemma LowNode(ns0: seq<TagNode>, g0: Shape, ns: seq<TagNode>, g: Shape, lb: nat, p: nat, i: nat)
    requires Inv(ns0, g0) && Inv(ns, g) && lb < |ns0| && p < |ns0| && IsLabel(ns0, g0, i) && End(ns0, i) <= End(ns0, p)
    requires Adds(ns0, g0, ns, g, Range(End(ns0, p) + 1, End(ns0, lb) + 1)) && SignsKept(ns0, ns)
    ensures SameNode(ns0, ns, i)
  {
    assert SignKept(ns0, ns, i) && End(ns, i) == End(ns0, i) && ns[i].andOp == ns0[i].andOp;
    if i != ROOT {
      LowKept(ns0, g0, ns, g, Range(End(ns0, p) + 1, End(ns0, lb) + 1), i);
    }
  }

  // ------------------------------------------------------------- the loop of find

  /** Where the highest listed segment of a label begins. */
  ghost function TopBegin(ns: seq<TagNode>, lb: nat): nat
    requires lb < |ns|
  {
    if ns[lb].andOp && Breaks(ns, lb) then ns[lb].seg.end - 1 else ns[lb].seg.begin
  }

  /** It begins below `last`, if there is one. */
  ghost predicate InReach(ns: seq<TagNode>, lb: nat, last: nat)
    requires lb < |ns|
  {
    lb == ROOT || TopBegin(ns, lb) < last
  }

  /** What is still to be listed from lb on, below what tags already have. */
  ghost predicate ListInv(ns: seq<TagNode>, g: Shape, all: seq<TagSeg>, lb: nat, last: nat, tags: seq<TagSeg>)
    requires Inv(ns, g) && IsLabel(ns, g, lb)
  {
    || (AtLeast(g.den[lb], last) && all == Reversed(tags))
    || (InReach(ns, lb, last) && all == Listed(ns, g, lb) + Reversed(tags))
  }

  /** One label is read in a state where nothing is left to break up. */
  lemma ListStep(ns: seq<TagNode>, g: Shape, all: seq<TagSeg>, lb: nat, last: nat, tags: seq<TagSeg>)
    requires Inv(ns, g) && lb != ROOT && IsLabel(ns, g, lb) && ListInv(ns, g, all, lb, last, tags)
    requires !(ns[lb].andOp && Breaks(ns, lb))
    ensures IsLabel(ns, g, ns[lb].parent)
    ensures var t := ns[lb].seg;
      if t.begin < last then ListInv(ns, g, all, ns[lb].parent, t.begin, tags + [t])
      else ListInv(ns, g, all, ns[lb].parent, last, tags)
  {
    ParentStep(ns, g, lb);
    BreaksIffWidened(ns, g, lb);
    WidenedIsWhole(ns, g, lb);
    var t, p := ns[lb].seg, ns[lb].parent;
    assert Reversed(tags + [t]) == [t] + Reversed(tags);
    if InReach(ns, lb, last) && all == Listed(ns, g, lb) + Reversed(tags) {
      if !Breaks(ns, lb) {
        assert Listed(ns, g, lb) == Listed(ns, g, p) + [t];
        assert all == Listed(ns, g, p) + ([t] + Reversed(tags));
        if p != ROOT {
          SegNonEmpty(ns, g, p);
        }
      }
    }
  }

  /** Breaking a segment up changes nothing of that. */
  lemma ListKept(ns: seq<TagNode>, g: Shape, ns': seq<TagNode>, g': Shape, all: seq<TagSeg>, lb: nat, last: nat, tags: seq<TagSeg>)
    requires Inv(ns, g) && Inv(ns', g') && Grows(ns, g, ns', g') && lb != ROOT && IsLabel(ns, g, lb)
    requires ns[lb].andOp && Breaks(ns, lb) && Broken(ns, g, ns', g', lb) && ListInv(ns, g, all, lb, last, tags)
    ensures ListInv(ns', g', all, lb, last, tags) && !Breaks(ns', lb)
  {
    BrokenListed(ns, g, ns', g', lb);
  }

  lemma ListStarts(ns: seq<TagNode>, g: Shape, lb: nat)
    requires Inv(ns, g) && IsLabel(ns, g, lb) && InReach(ns, lb, MAX_LB)
    ensures ListInv(ns, g, Listed(ns, g, lb), lb, MAX_LB, [])
  {
    assert Listed(ns, g, lb) == Listed(ns, g, lb) + Reversed([]);
  }

  lemma ListEnds(ns: seq<TagNode>, g: Shape, all: seq<TagSeg>, last: nat, tags: seq<TagSeg>)
    requires Inv(ns, g) && ListInv(ns, g, all, ROOT, last, tags)
    ensures all == Reversed(tags)
  {
    assert [] + Reversed(tags) == Reversed(tags);
  }

  /** When a label of small offsets is read. */
  lemma SmallInReach(ns: seq<TagNode>, g: Shape, lb: nat)
    requires Inv(ns, g) && IsLabel(ns, g, lb) && End(ns, lb) <= MAX_LB
    ensures InReach(ns, lb, MAX_LB)
  {
    if lb != ROOT {
      SegNonEmpty(ns, g, lb);
    }
  }

  /** The highest segment read has the label's sign, and without signs in the store none has one. */
  ghost predicate SignsRead(ns: seq<TagNode>, lb: nat, segs: seq<TagSeg>)
    requires lb < |ns|
  {
    && (NoSigns(ns) ==> Unsigned(segs))
    && (lb != ROOT ==> segs != [] && segs[|segs| - 1].sign == ns[lb].seg.sign)
  }

  /** The cases in which the list is simple. */
  lemma ListedFacts(ns: seq<TagNode>, g: Shape, lb: nat)
    requires Inv(ns, g) && IsLabel(ns, g, lb)
    ensures OneSegment(ns, g, lb) ==> InReach(ns, lb, MAX_LB) && Listed(ns, g, lb) == [ns[lb].seg]
    ensures NoMarks(ns) ==> Listed(ns, g, lb) == Visible(ns, g, lb)
    ensures End(ns, lb) <= MAX_LB ==> InReach(ns, lb, MAX_LB)
    ensures SignsRead(ns, lb, Listed(ns, g, lb))
  {
    if NoSigns(ns) {
      ListedUnsigned(ns, g, lb);
    }
    if OneSegment(ns, g, lb) {
      OneIsListed(ns, g, lb);
    }
    if NoMarks(ns) {
      ListedIsVisible(ns, g, lb);
    }
    if End(ns, lb) <= MAX_LB {
      SmallInReach(ns, g, lb);
    }
  }
}
