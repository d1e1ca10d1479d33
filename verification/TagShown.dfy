/**
 Which segments `combine` works with: those a reader of one of the operands is shown. So new
 labels end where such a segment ends, and signs come from such segments.
 */
module TagShown {
  import opened TagTrie
  import opened TagAdds
  import opened TagPaths
  import opened TagMerge
  import opened TagInference

  /** The walker at l still meets what a reader of a is shown, or nothing below `last`. */
  ghost predicate SeesOf(ns: seq<TagNode>, g: Shape, a: nat, l: nat, last: nat)
    requires Inv(ns, g) && IsLabel(ns, g, a) && IsLabel(ns, g, l)
  {
    AtLeast(g.den[l], last) || forall s :: s in Visible(ns, g, l) ==> s in Visible(ns, g, a)
  }

  /** A step to the parent, whether the segment was below `last` and taken or not. */
  lemma SeesParent(ns: seq<TagNode>, g: Shape, a: nat, l: nat, last: nat)
    requires Inv(ns, g) && IsLabel(ns, g, a) && l != ROOT && IsLabel(ns, g, l) && SeesOf(ns, g, a, l, last)
    ensures IsLabel(ns, g, ns[l].parent)
    ensures ns[l].seg.begin < last ==> ns[l].seg in Visible(ns, g, a) && SeesOf(ns, g, a, ns[l].parent, ns[l].seg.begin)
    ensures last <= ns[l].seg.begin ==> SeesOf(ns, g, a, ns[l].parent, last)
  {
    ParentStep(ns, g, l);
    WidenedIsWhole(ns, g, l);
    var v := Visible(ns, g, l);
    assert v[|v| - 1] == ns[l].seg;
    assert ns[l].seg in v;
    if !Widened(ns, g, l) {
      assert v == Visible(ns, g, ns[l].parent) + [ns[l].seg];
    }
  }

  ghost predicate ShownBy(ns: seq<TagNode>, g: Shape, a: nat, b: nat, x: nat)
    requires Inv(ns, g) && IsLabel(ns, g, a) && IsLabel(ns, g, b)
  {
    x < |ns| && (ns[x].seg in Visible(ns, g, a) || ns[x].seg in Visible(ns, g, b))
  }

  /** The operand whose own segment begins higher. */
  ghost function Top(ns: seq<TagNode>, a: nat, b: nat): nat
    requires a < |ns| && b < |ns|
  {
    if ns[a].seg.begin < ns[b].seg.begin then b else a
  }

  /** Every stacked segment is shown for an operand, and the first one is the highest of all. */
  ghost predicate ShownInv(ns: seq<TagNode>, g: Shape, a: nat, b: nat, l1: nat, l2: nat, last: nat, st: seq<nat>)
    requires Inv(ns, g) && IsLabel(ns, g, a) && IsLabel(ns, g, b) && IsLabel(ns, g, l1) && IsLabel(ns, g, l2)
  {
    && SeesOf(ns, g, a, l1, last) && SeesOf(ns, g, b, l2, last)
    && (forall k: nat {:trigger st[k]} :: k < |st| ==> ShownBy(ns, g, a, b, st[k]))
    && (Small(ns, a, b) ==> if st == [] then l1 == a && l2 == b && last == MAX_LB else st[0] == Top(ns, a, b))
  }

  lemma ShownPush(ns: seq<TagNode>, g: Shape, a: nat, b: nat, l1: nat, l2: nat, last: nat, st: seq<nat>, x: nat)
    requires Inv(ns, g) && IsLabel(ns, g, a) && IsLabel(ns, g, b) && l1 != ROOT && IsLabel(ns, g, l1) && IsLabel(ns, g, l2)
    requires ShownInv(ns, g, a, b, l1, l2, last, st)
    requires x == if ns[l1].seg.begin < ns[l2].seg.begin then l2 else l1
    requires x != ROOT && ns[x].seg.begin < last
    ensures IsLabel(ns, g, ns[x].parent)
    ensures var l1', l2' := if x == l1 then ns[x].parent else l1, if x == l1 then l2 else ns[x].parent;
      ShownInv(ns, g, a, b, l1', l2', ns[x].seg.begin, st + [x])
  {
    var top := st + [x];
    if x == l1 {
      SeesParent(ns, g, a, x, last);
      assert AtLeast(g.den[l2], last) ==> AtLeast(g.den[l2], ns[x].seg.begin);
    } else {
      SeesParent(ns, g, b, x, last);
      assert AtLeast(g.den[l1], last) ==> AtLeast(g.den[l1], ns[x].seg.begin);
    }
    forall k: nat | k < |top| ensures ShownBy(ns, g, a, b, top[k]) {
      assert k < |st| ==> top[k] == st[k];
    }
  }

  lemma ShownSkip(ns: seq<TagNode>, g: Shape, a: nat, b: nat, l1: nat, l2: nat, last: nat, st: seq<nat>, x: nat)
    requires Inv(ns, g) && IsLabel(ns, g, a) && IsLabel(ns, g, b) && l1 != ROOT && IsLabel(ns, g, l1) && IsLabel(ns, g, l2)
    requires ShownInv(ns, g, a, b, l1, l2, last, st)
    requires x == if ns[l1].seg.begin < ns[l2].seg.begin then l2 else l1
    requires x != ROOT && last <= ns[x].seg.begin
    ensures IsLabel(ns, g, ns[x].parent)
    ensures var l1', l2' := if x == l1 then ns[x].parent else l1, if x == l1 then l2 else ns[x].parent;
      ShownInv(ns, g, a, b, l1', l2', last, st)
  {
    SegNonEmpty(ns, g, x);
    if x == l1 {
      SeesParent(ns, g, a, x, last);
    } else {
      SeesParent(ns, g, b, x, last);
    }
  }

  // ------------------------------------------------------------- the walk as a whole

  ghost predicate CollectInv(ns: seq<TagNode>, g: Shape, a: nat, b: nat, l1: nat, l2: nat, last: nat, st: seq<nat>)
    requires Inv(ns, g) && IsLabel(ns, g, a) && IsLabel(ns, g, b)
  {
    && WalkInv(ns, g, a, b, l1, l2, last, st) && ShownInv(ns, g, a, b, l1, l2, last, st)
    && (Small(ns, a, b) ==> ExactInv(ns, g, a, b, l1, l2, last, st))
    && |st| + End(ns, l1) + End(ns, l2) <= End(ns, a) + End(ns, b)
  }

  lemma CollectBegins(ns: seq<TagNode>, g: Shape, a: nat, b: nat)
    requires Inv(ns, g) && a != ROOT && b != ROOT && IsLabel(ns, g, a) && IsLabel(ns, g, b)
    ensures CollectInv(ns, g, a, b, a, b, MAX_LB, [])
  {
    WalkStarts(ns, g, a, b);
  }

  lemma CollectFirst(ns: seq<TagNode>, g: Shape, a: nat, b: nat, l1: nat, l2: nat, last: nat, st: seq<nat>)
    requires Inv(ns, g) && IsLabel(ns, g, a) && IsLabel(ns, g, b) && CollectInv(ns, g, a, b, l1, l2, last, st)
    requires l1 != ROOT && ns[l2].seg.begin <= ns[l1].seg.begin
    ensures ns[l1].parent < |ns| && End(ns, ns[l1].parent) < End(ns, l1)
    ensures if ns[l1].seg.begin < last then CollectInv(ns, g, a, b, ns[l1].parent, l2, ns[l1].seg.begin, st + [l1])
      else CollectInv(ns, g, a, b, ns[l1].parent, l2, last, st)
  {
    ParentLower(ns, g, l1);
    if ns[l1].seg.begin < last {
      WalkPushFirst(ns, g, a, b, l1, l2, last, st);
      ShownPush(ns, g, a, b, l1, l2, last, st, l1);
    } else {
      WalkSkipFirst(ns, g, a, b, l1, l2, last, st);
      ShownSkip(ns, g, a, b, l1, l2, last, st, l1);
    }
  }

  lemma CollectSecond(ns: seq<TagNode>, g: Shape, a: nat, b: nat, l1: nat, l2: nat, last: nat, st: seq<nat>)
    requires Inv(ns, g) && IsLabel(ns, g, a) && IsLabel(ns, g, b) && CollectInv(ns, g, a, b, l1, l2, last, st)
    requires l1 != ROOT && ns[l1].seg.begin < ns[l2].seg.begin
    ensures ns[l2].parent < |ns| && End(ns, ns[l2].parent) < End(ns, l2)
    ensures if ns[l2].seg.begin < last then CollectInv(ns, g, a, b, l1, ns[l2].parent, ns[l2].seg.begin, st + [l2])
      else CollectInv(ns, g, a, b, l1, ns[l2].parent, last, st)
  {
    assert l2 != ROOT;
    ParentLower(ns, g, l2);
    if ns[l2].seg.begin < last {
      WalkPushSecond(ns, g, a, b, l1, l2, last, st);
      ShownPush(ns, g, a, b, l1, l2, last, st, l2);
    } else {
      WalkSkipSecond(ns, g, a, b, l1, l2, last, st);
      ShownSkip(ns, g, a, b, l1, l2, last, st, l2);
    }
  }

  lemma CollectEnds(ns: seq<TagNode>, g: Shape, a: nat, b: nat, l1: nat, l2: nat, last: nat, st: seq<nat>)
    requires Inv(ns, g) && a != ROOT && b != ROOT && IsLabel(ns, g, a) && IsLabel(ns, g, b)
    requires CollectInv(ns, g, a, b, l1, l2, last, st) && (l1 == ROOT || l1 == l2)
    ensures Handover(ns, g, st, l2) && Shown(ns, g, a, b, st)
    ensures g.den[l2] + Cover(ns, g, st) <= g.den[a] + g.den[b]
    ensures Small(ns, a, b) ==> g.den[l2] + Cover(ns, g, st) == Kept(ns, g, a, b)
    ensures |st| <= End(ns, a) + End(ns, b)
  {
    if Small(ns, a, b) {
      WalkEnds(ns, g, a, b, l1, l2, last, st);
    }
  }

  // ------------------------------------------------------------- what a caller of combine may rely on

  ghost function SegEnds(segs: seq<TagSeg>): (s: set<nat>)
    ensures forall k: nat :: k < |segs| ==> segs[k].end in s
    ensures forall e :: e in s ==> exists k: nat :: k < |segs| && segs[k].end == e
  {
    set k: nat | k < |segs| :: segs[k].end
  }

  ghost predicate HasSign(segs: seq<TagSeg>) {
    exists k: nat :: k < |segs| && segs[k].sign
  }

  ghost predicate Shown(ns: seq<TagNode>, g: Shape, a: nat, b: nat, st: seq<nat>)
    requires Inv(ns, g) && IsLabel(ns, g, a) && IsLabel(ns, g, b)
  {
    && (forall k: nat {:trigger st[k]} :: k < |st| ==> ShownBy(ns, g, a, b, st[k]))
    && (Small(ns, a, b) && a != b ==> st != [] && st[0] == Top(ns, a, b))
  }

  /** Combining a and b into lb adds labels only where a segment shown for one of them ends, loses
      no sign, adds signs only if such a segment has one, and signs lb if the highest has. */
  ghost predicate Combined(ns: seq<TagNode>, g: Shape, ns': seq<TagNode>, g': Shape, a: nat, b: nat, lb: nat)
    requires Inv(ns, g) && IsLabel(ns, g, a) && IsLabel(ns, g, b)
  {
    && lb < |ns'| && Adds(ns, g, ns', g', SegEnds(Visible(ns, g, a)) + SegEnds(Visible(ns, g, b)))
    && (forall i: nat {:trigger ns[i].seg.sign} :: i < |ns| && ns[i].seg.sign ==> ns'[i].seg.sign)
    && (!HasSign(Visible(ns, g, a)) && !HasSign(Visible(ns, g, b)) ==> SignsKept(ns, ns'))
    && (Small(ns, a, b) && a != ROOT && b != ROOT && ns[Top(ns, a, b)].seg.sign ==> ns'[lb].seg.sign)
  }

  lemma NothingCombined(ns: seq<TagNode>, g: Shape, a: nat, b: nat, lb: nat)
    requires Inv(ns, g) && IsLabel(ns, g, a) && IsLabel(ns, g, b) && lb < |ns|
    requires a == ROOT || b == ROOT || lb == a == b
    ensures Combined(ns, g, ns, g, a, b, lb)
  {
    NothingAdded(ns, g, SegEnds(Visible(ns, g, a)) + SegEnds(Visible(ns, g, b)));
  }

  lemma ReplayedIsCombined(ns: seq<TagNode>, g: Shape, ns': seq<TagNode>, g': Shape, a: nat, b: nat, st: seq<nat>, lb: nat)
    requires Inv(ns, g) && a != ROOT && b != ROOT && a != b && IsLabel(ns, g, a) && IsLabel(ns, g, b)
    requires Indices(ns, st) && Shown(ns, g, a, b, st) && Replayed(ns, g, ns', g', st, 0, lb)
    ensures Combined(ns, g, ns', g', a, b, lb)
  {
    var va, vb := Visible(ns, g, a), Visible(ns, g, b);
    var ends := SegEnds(va) + SegEnds(vb);
    forall e | e in StackEnds(ns, st) ensures e in ends {
      var k: nat :| k < |st| && End(ns, st[k]) == e;
      assert ShownBy(ns, g, a, b, st[k]);
    }
    AddsMore(ns, g, ns', g', StackEnds(ns, st), ends);
    if SomeSigned(ns, st) {
      var k: nat :| k < |st| && ns[st[k]].seg.sign;
      assert ShownBy(ns, g, a, b, st[k]);
      assert HasSign(va) || HasSign(vb);
    }
  }
}
