/**
 Lemmas about shape inference and and-op splitting in TagSet: both rewrite where a
 segment begins and never what a label denotes.
 */
module TagInference {
  import opened TagTrie
  import opened TagPaths
  import opened TagMerge

  ghost predicate MayBegin(ns: seq<TagNode>, g: Shape, i: nat, b: nat)
    requires Inv(ns, g) && i != ROOT && IsLabel(ns, g, i)
  {
    && b < End(ns, i)
    && ((g.up[i] < |ns| && b == End(ns, g.up[i])) || g.den[i] == Range(b, End(ns, i)))
  }

  function WithBegin(n: TagNode, b: nat): TagNode {
    n.(seg := n.seg.(begin := b))
  }

  lemma BeginKeepsInv(ns: seq<TagNode>, g: Shape, i: nat, b: nat)
    requires Inv(ns, g) && i != ROOT && IsLabel(ns, g, i) && MayBegin(ns, g, i, b)
    ensures Inv(ns[i := WithBegin(ns[i], b)], g)
    ensures Grows(ns, g, ns[i := WithBegin(ns[i], b)], g)
  {
    var ns' := ns[i := WithBegin(ns[i], b)];
    forall k: nat | k < |ns'|
      ensures LinkOk(ns', g, k)
    {
      assert LinkOk(ns, g, k);
    }
    forall k: nat | 0 < k < |ns'|
      ensures NodeOk(ns', g, k)
    {
      assert NodeOk(ns, g, k);
    }
  }

  /** A label whose skip pointer is the root denotes a single offset. */
  lemma SingleOffset(ns: seq<TagNode>, g: Shape, i: nat)
    requires Inv(ns, g) && i != ROOT && IsLabel(ns, g, i) && ns[i].parent == ROOT
    ensures End(ns, i) == ns[i].seg.begin + 1
    ensures g.den[i] == {ns[i].seg.begin}
  {
    assert NodeOk(ns, g, i);
    assert g.den[i] == Range(End(ns, g.up[i]), End(ns, i)) == {End(ns, g.up[i])};
    ParentStep(ns, g, i);
  }

  /** Under the guard of `split_and_op` the segment is all the label denotes, and so is its parent's part. */
  lemma GuardMeansWidened(ns: seq<TagNode>, g: Shape, i: nat)
    requires Inv(ns, g) && i != ROOT && IsLabel(ns, g, i)
    requires ns[i].parent < |ns| && ns[i].parent != ROOT && ns[i].seg.begin <= ns[ns[i].parent].seg.begin
    ensures g.den[i] == Range(ns[i].seg.begin, ns[i].seg.end)
    ensures g.den[ns[i].parent] == Range(ns[i].seg.begin, End(ns, ns[i].parent))
    ensures End(ns, ns[i].parent) < End(ns, i)
  {
    ParentStep(ns, g, i);
    WidenedIsWhole(ns, g, i);
    var p := ns[i].parent;
    ParentStep(ns, g, p);
    assert Widened(ns, g, i);
    assert End(ns, p) - 1 in g.den[p];
    assert End(ns, g.up[i]) - 1 in g.den[i];
  }

  /** If the path of i without its last one is there, i structurally starts at its end. */
  lemma UnitStart(ns: seq<TagNode>, g: Shape, i: nat, prev: nat, b: nat)
    requires Inv(ns, g) && i != ROOT && IsLabel(ns, g, i) && prev < |ns|
    requires End(ns, prev) + 1 == End(ns, i) && b < End(ns, i)
    requires g.den[i] == Range(b, End(ns, i)) && g.den[prev] == Range(b, End(ns, prev))
    ensures g.up[i] < |ns| && End(ns, g.up[i]) == End(ns, i) - 1
  {
    SameBranch(ns, g, i, prev);
    assert NodeOk(ns, g, i);
    AncEnds(ns, g, prev, g.up[i]);
  }

  /** A label of a gap-free set whose last run is one offset long has its parent right below. */
  lemma ParentTouches(ns: seq<TagNode>, g: Shape, i: nat, b: nat)
    requires Inv(ns, g) && i != ROOT && IsLabel(ns, g, i) && g.up[i] < |ns|
    requires g.den[i] == Range(b, End(ns, i)) && b < End(ns, g.up[i]) == End(ns, i) - 1
    ensures ns[i].parent < |ns| && End(ns, ns[i].parent) == End(ns, i) - 1
  {
    ParentStep(ns, g, i);
    assert End(ns, g.up[i]) - 1 in g.den[i];
    assert End(ns, g.up[i]) - 1 in g.den[ns[i].parent];
  }

  /** The guards of `split_and_op`: a wide segment that hides its parent's. */
  ghost predicate Breaks(ns: seq<TagNode>, lb: nat)
    requires lb < |ns|
  {
    && ns[lb].seg.end - ns[lb].seg.begin > 1
    && ROOT != ns[lb].parent < |ns| && ns[ns[lb].parent].seg.begin >= ns[lb].seg.begin
  }

  /** They hold exactly of the labels whose segment inference has widened. */
  lemma BreaksIffWidened(ns: seq<TagNode>, g: Shape, i: nat)
    requires Inv(ns, g) && i != ROOT && IsLabel(ns, g, i)
    ensures Breaks(ns, i) <==> Widened(ns, g, i)
  {
    ParentStep(ns, g, i);
    WidenedIsWhole(ns, g, i);
    var p := ns[i].parent;
    if p != ROOT {
      ParentStep(ns, g, p);
    }
    if Widened(ns, g, i) {
      assert End(ns, g.up[i]) - 1 in g.den[i];
    }
  }

  // ------------------------------------------------------------- reading segments

  ghost predicate Covers(segs: seq<TagSeg>, o: nat) {
    exists k: nat :: k < |segs| && segs[k].begin <= o < segs[k].end
  }

  /** Sorted, disjoint and non-empty segments, highest first. */
  ghost predicate Descending(segs: seq<TagSeg>) {
    && (forall k: nat :: k < |segs| ==> segs[k].begin < segs[k].end)
    && (forall k: nat, m: nat :: k < m < |segs| ==> segs[m].end <= segs[k].begin)
  }

  ghost predicate Ascending(segs: seq<TagSeg>) {
    && (forall k: nat :: k < |segs| ==> segs[k].begin < segs[k].end)
    && (forall k: nat, m: nat :: k < m < |segs| ==> segs[k].end <= segs[m].begin)
  }

  /** The label's own segment is all it denotes, and no and-op mark asks to break it up. */
  ghost predicate OneSegment(ns: seq<TagNode>, g: Shape, lb: nat)
    requires Sized(ns, g) && lb < |ns|
  {
    && lb != ROOT && !ns[lb].andOp && ns[lb].seg.begin < MAX_LB
    && g.den[lb] == SegRange(ns[lb])
  }

  function Reversed(s: seq<TagSeg>): (r: seq<TagSeg>)
    ensures |r| == |s| && forall k: nat :: k < |s| ==> r[k] == s[|s| - 1 - k]
  {
    seq(|s|, i requires 0 <= i < |s| => s[|s| - 1 - i])
  }

  lemma ReversedCovers(s: seq<TagSeg>, o: nat)
    ensures Covers(Reversed(s), o) <==> Covers(s, o)
    ensures Descending(s) ==> Ascending(Reversed(s))
  {
    var r := Reversed(s);
    if Covers(s, o) {
      var k: nat :| k < |s| && s[k].begin <= o < s[k].end;
      assert r[|s| - 1 - k] == s[k];
    }
    if Covers(r, o) {
      var k: nat :| k < |r| && r[k].begin <= o < r[k].end;
      assert s[|s| - 1 - k] == r[k];
    }
  }

  lemma CoversPush(segs: seq<TagSeg>, t: TagSeg, o: nat)
    ensures Covers(segs + [t], o) <==> Covers(segs, o) || t.begin <= o < t.end
  {
    if Covers(segs, o) {
      var k: nat :| k < |segs| && segs[k].begin <= o < segs[k].end;
      assert (segs + [t])[k] == segs[k];
    }
    if t.begin <= o < t.end {
      assert (segs + [t])[|segs|] == t;
    }
  }

  /** The reader at label lb, having passed everything from `last` upwards. */
  ghost predicate ReadInv(ns: seq<TagNode>, g: Shape, lb0: nat, lb: nat, last: nat, tags: seq<TagSeg>)
    requires Inv(ns, g) && IsLabel(ns, g, lb0)
  {
    && IsLabel(ns, g, lb) && g.den[lb] <= g.den[lb0] && Descending(tags)
    && (tags == [] ==> last == MAX_LB)
    && (tags != [] ==> last == tags[|tags| - 1].begin)
    && (tags == [] || End(ns, lb) <= last || AtLeast(g.den[lb], last))
    && (forall o :: Covers(tags, o) ==> o in g.den[lb0])
    && (End(ns, lb0) <= MAX_LB ==>
          && (forall o :: o in g.den[lb0] ==> if last <= o then Covers(tags, o) else o in g.den[lb])
          && End(ns, lb) <= MAX_LB)
  }

  lemma ReadPush(ns: seq<TagNode>, g: Shape, lb0: nat, lb: nat, last: nat, tags: seq<TagSeg>)
    requires Inv(ns, g) && IsLabel(ns, g, lb0) && ReadInv(ns, g, lb0, lb, last, tags)
    requires lb != ROOT && ns[lb].seg.begin < last
    ensures ReadInv(ns, g, lb0, ns[lb].parent, ns[lb].seg.begin, tags + [ns[lb].seg])
  {
    ParentStep(ns, g, lb);
    WidenedIsWhole(ns, g, lb);
    var t := ns[lb].seg;
    forall o: nat
      ensures Covers(tags + [t], o) <==> Covers(tags, o) || t.begin <= o < t.end
    {
      CoversPush(tags, t, o);
    }
    forall k: nat, m: nat | k < m < |tags + [t]|
      ensures (tags + [t])[m].end <= (tags + [t])[k].begin
    {
      assert k < |tags| - 1 ==> tags[|tags| - 1].end <= tags[k].begin;
    }
    assert g.den[lb] == g.den[ns[lb].parent] + Range(End(ns, g.up[lb]), End(ns, lb));
  }

  lemma ReadSkip(ns: seq<TagNode>, g: Shape, lb0: nat, lb: nat, last: nat, tags: seq<TagSeg>)
    requires Inv(ns, g) && IsLabel(ns, g, lb0) && ReadInv(ns, g, lb0, lb, last, tags)
    requires lb != ROOT && last <= ns[lb].seg.begin
    ensures ReadInv(ns, g, lb0, ns[lb].parent, last, tags)
  {
    ParentStep(ns, g, lb);
    assert g.den[lb] == g.den[ns[lb].parent] + Range(End(ns, g.up[lb]), End(ns, lb));
  }

  lemma GroupSet(b: nat, len: nat)
    requires 0 < len
    ensures {b} + Range(b + 1, b + 1 + (len - 1)) == Range(b, b + len)
  {
  }

  lemma ReadStarts(ns: seq<TagNode>, g: Shape, lb0: nat)
    requires Inv(ns, g) && IsLabel(ns, g, lb0)
    ensures ReadInv(ns, g, lb0, lb0, MAX_LB, [])
  {
    LabelEnd(ns, g, lb0);
  }

  lemma ReadEnds(ns: seq<TagNode>, g: Shape, lb0: nat, last: nat, tags: seq<TagSeg>)
    requires Inv(ns, g) && IsLabel(ns, g, lb0) && ReadInv(ns, g, lb0, ROOT, last, tags)
    ensures Ascending(Reversed(tags))
    ensures forall o: nat :: Covers(Reversed(tags), o) ==> o in g.den[lb0]
    ensures End(ns, lb0) <= MAX_LB ==> forall o: nat :: o in g.den[lb0] ==> Covers(Reversed(tags), o)
  {
    forall o: nat
      ensures Covers(Reversed(tags), o) <==> Covers(tags, o)
      ensures Ascending(Reversed(tags))
    {
      ReversedCovers(tags, o);
    }
  }

  // ------------------------------------------------------------- what a reader sees

  /** The segments that `find` lists for a label when nothing is marked for splitting. */
  ghost function Visible(ns: seq<TagNode>, g: Shape, i: nat): seq<TagSeg>
    requires Inv(ns, g) && IsLabel(ns, g, i)
    decreases End(ns, i)
  {
    if i == ROOT then [] else
    ParentStep(ns, g, i);
    if Widened(ns, g, i) then [ns[i].seg] else Visible(ns, g, ns[i].parent) + [ns[i].seg]
  }

  ghost predicate NoMarks(ns: seq<TagNode>) {
    forall i: nat {:trigger ns[i].andOp} :: i < |ns| ==> !ns[i].andOp
  }

  // ------------------------------------------------------------- combine_n

  ghost predicate AllLabels(ns: seq<TagNode>, g: Shape, lbs: seq<nat>)
    requires Sized(ns, g)
  {
    forall k: nat {:trigger lbs[k]} :: k < |lbs| ==> IsLabel(ns, g, lbs[k])
  }

  ghost predicate AllSmall(ns: seq<TagNode>, lbs: seq<nat>) {
    forall k: nat {:trigger lbs[k]} :: k < |lbs| ==> lbs[k] < |ns| && End(ns, lbs[k]) <= MAX_LB
  }

  ghost function UnionOf(den: seq<set<nat>>, lbs: seq<nat>): set<nat>
    requires forall k: nat :: k < |lbs| ==> lbs[k] < |den|
  {
    if lbs == [] then {} else UnionOf(den, lbs[..|lbs| - 1]) + den[lbs[|lbs| - 1]]
  }

  lemma UnionPush(den: seq<set<nat>>, lbs: seq<nat>, k: nat)
    requires k < |lbs| && forall k: nat :: k < |lbs| ==> lbs[k] < |den|
    ensures UnionOf(den, lbs[..k + 1]) == UnionOf(den, lbs[..k]) + den[lbs[k]]
  {
    assert lbs[..k + 1][..k] == lbs[..k];
  }

  /** cur is what the first k labels, combined one after another, have become. */
  ghost predicate Folded(ns0: seq<TagNode>, g0: Shape, ns: seq<TagNode>, g: Shape, lbs: seq<nat>, k: nat, cur: nat,
                         small: bool, plain: bool)
    requires Sized(ns0, g0) && AllLabels(ns0, g0, lbs)
  {
    && Grows(ns0, g0, ns, g) && k <= |lbs| && IsLabel(ns, g, cur)
    && g.den[cur] <= UnionOf(g0.den, lbs[..k])
    && (plain ==> Plain(ns, g)) && (small ==> End(ns, cur) <= MAX_LB)
    && (small && plain ==> g.den[cur] == UnionOf(g0.den, lbs[..k]))
  }

  ghost function FirstNonRoot(lbs: seq<nat>): (k: nat)
    ensures k <= |lbs| && (k < |lbs| ==> lbs[k] != ROOT)
    ensures forall j: nat :: j < k ==> lbs[j] == ROOT
  {
    if lbs == [] || lbs[0] != ROOT then 0 else 1 + FirstNonRoot(lbs[1..])
  }

  ghost predicate AllAre(lbs: seq<nat>, lb: nat) {
    forall k: nat :: k < |lbs| ==> lbs[k] == lb
  }

  /** The condition under which `infer_shape` groups two labels `len` bytes apart. */
  ghost predicate ShapeOf(ns: seq<TagNode>, l1: nat, l2: nat, len: nat) {
    && l1 < |ns| && l2 < |ns| && (len == 2 || len == 4 || len == 8)
    && ns[l1].parent == ROOT && ns[l2].parent == ROOT
    && ns[l1].seg.begin + len == ns[l2].seg.end
  }

  /** A label is never grouped with itself. */
  lemma SelfNeverGroups(ns: seq<TagNode>, g: Shape, lb: nat, len: nat)
    requires Inv(ns, g) && lb != ROOT && IsLabel(ns, g, lb)
    ensures !ShapeOf(ns, lb, lb, len)
  {
    if ns[lb].parent == ROOT {
      SingleOffset(ns, g, lb);
    }
  }

  /** The condition under which `combine_n` returns a group instead of a union. */
  ghost predicate GroupFires(ns: seq<TagNode>, lbs: seq<nat>) {
    var k := FirstNonRoot(lbs);
    k + 1 < |lbs| && ShapeOf(ns, lbs[k], lbs[|lbs| - 1], |lbs|)
  }

  // ------------------------------------------------------------- infer_shape2

  /** How many nodes a walk from label i to the root visits. */
  ghost function Depth(ns: seq<TagNode>, g: Shape, i: nat): nat
    requires Inv(ns, g) && IsLabel(ns, g, i)
    decreases End(ns, i)
  {
    if i == ROOT then 0 else
    ParentStep(ns, g, i);
    1 + Depth(ns, g, ns[i].parent)
  }

  /** The labels `infer_shape2` widens: len offsets without a hole, one node each, the label's own
      segment not widened yet. */
  ghost predicate Widens(ns: seq<TagNode>, g: Shape, lb: nat, len: nat)
    requires Inv(ns, g) && IsLabel(ns, g, lb)
  {
    && lb != ROOT && ns[lb].seg.begin + 1 == End(ns, lb) && 0 < len <= End(ns, lb)
    && g.den[lb] == Range(End(ns, lb) - len, End(ns, lb)) && Depth(ns, g, lb) == len
  }

  /** k parents up from lb lie at least k offsets back; exactly k means no hole on the way. */
  ghost predicate Climbed(ns: seq<TagNode>, g: Shape, lb: nat, cur: nat, k: nat)
    requires Inv(ns, g) && IsLabel(ns, g, lb) && IsLabel(ns, g, cur)
  {
    && k <= End(ns, lb) - End(ns, cur)
    && g.den[cur] <= g.den[lb]
    && (End(ns, lb) - End(ns, cur) == k ==> Range(End(ns, cur), End(ns, lb)) <= g.den[lb])
    && (forall o :: o in g.den[lb] && o < End(ns, cur) ==> o in g.den[cur])
    && Depth(ns, g, lb) == k + Depth(ns, g, cur)
  }

  lemma ClimbStep(ns: seq<TagNode>, g: Shape, lb: nat, cur: nat, k: nat)
    requires Inv(ns, g) && IsLabel(ns, g, lb) && cur != ROOT && IsLabel(ns, g, cur) && Climbed(ns, g, lb, cur, k)
    ensures IsLabel(ns, g, ns[cur].parent) && Climbed(ns, g, lb, ns[cur].parent, k + 1)
  {
    ParentStep(ns, g, cur);
    var p := ns[cur].parent;
    if End(ns, lb) - End(ns, p) == k + 1 {
      assert End(ns, p) == End(ns, g.up[cur]) == End(ns, cur) - 1;
    }
  }

  /** Where the climb of len - 1 parents ends, the tests decide whether the label widens. */
  lemma ClimbEnds(ns: seq<TagNode>, g: Shape, lb: nat, cur: nat, len: nat)
    requires Inv(ns, g) && lb != ROOT && IsLabel(ns, g, lb) && cur != ROOT && IsLabel(ns, g, cur)
    requires len > 0 && Climbed(ns, g, lb, cur, len - 1) && ns[lb].seg.begin + 1 == End(ns, lb)
    ensures Widens(ns, g, lb, len) <==> ns[cur].parent == ROOT && ns[cur].seg.begin + len == End(ns, lb)
  {
    ParentStep(ns, g, cur);
    if ns[cur].parent == ROOT {
      SingleOffset(ns, g, cur);
      var b := ns[cur].seg.begin;
      LabelEnd(ns, g, lb);
      assert Depth(ns, g, ROOT) == 0 && Depth(ns, g, cur) == 1;
      if b + len == End(ns, lb) {
        assert g.den[lb] == Range(b, End(ns, lb));
      }
      if Widens(ns, g, lb, len) {
        assert End(ns, lb) - len in g.den[lb];
        assert b in g.den[lb];
      }
    } else {
      ParentStep(ns, g, ns[cur].parent);
      assert Depth(ns, g, cur) >= 2;
    }
  }

  ghost predicate HasLabel(ns: seq<TagNode>, g: Shape, s: set<nat>)
    requires Sized(ns, g)
  {
    exists i: nat :: IsLabel(ns, g, i) && g.den[i] == s
  }

  ghost predicate HasPrefix(ns: seq<TagNode>, g: Shape, b: nat, e: nat)
    requires Sized(ns, g)
  {
    HasLabel(ns, g, Range(b, e))
  }

  /** Every initial part of the offsets from b to e has a label. */
  ghost predicate AllPrefixes(ns: seq<TagNode>, g: Shape, b: nat, e: nat)
    requires Sized(ns, g)
  {
    forall c: nat :: b < c <= e ==> HasPrefix(ns, g, b, c)
  }

  lemma GapFreeParent(ns: seq<TagNode>, g: Shape, i: nat, b: nat, n: nat)
    requires Inv(ns, g) && i != ROOT && IsLabel(ns, g, i) && 0 < n && g.den[i] == Range(b, b + n)
    ensures IsLabel(ns, g, ns[i].parent) && End(ns, i) == b + n
    ensures if ns[i].parent == ROOT then n == 1
      else b < End(ns, ns[i].parent) < b + n && g.den[ns[i].parent] == Range(b, End(ns, ns[i].parent))
  {
    ParentStep(ns, g, i);
    LabelEnd(ns, g, i);
    assert b + n - 1 in g.den[i];
    var p := ns[i].parent;
    if p == ROOT {
      SingleOffset(ns, g, i);
      assert b in g.den[i] && b + n - 1 in g.den[i];
    } else {
      LabelEnd(ns, g, p);
      ParentStep(ns, g, p);
      assert End(ns, p) - 1 in g.den[p];
      assert b in g.den[p] by {
        assert End(ns, p) - 1 in g.den[i];
        assert b in g.den[i];
      }
    }
  }

  /** A walk from a gap-free label visits at most one node per offset, and exactly one if and
      only if every initial part has a label. */
  lemma {:induction false} DepthMeans(ns: seq<TagNode>, g: Shape, i: nat, b: nat, n: nat)
    requires Inv(ns, g) && i != ROOT && IsLabel(ns, g, i) && 0 < n && g.den[i] == Range(b, b + n)
    ensures Depth(ns, g, i) <= n
    ensures Depth(ns, g, i) == n <==> AllPrefixes(ns, g, b, b + n)
    decreases n
  {
    GapFreeParent(ns, g, i, b, n);
    var p, e := ns[i].parent, b + n;
    assert HasPrefix(ns, g, b, e);
    if p == ROOT {
      assert Depth(ns, g, p) == 0;
    } else {
      var k := End(ns, p) - b;
      DepthMeans(ns, g, p, b, k);
      if AllPrefixes(ns, g, b, e) {
        ParentOfPrefix(ns, g, i, b, n);
        assert AllPrefixes(ns, g, b, b + k);
      }
    }
  }

  lemma ParentOfPrefix(ns: seq<TagNode>, g: Shape, i: nat, b: nat, n: nat)
    requires Inv(ns, g) && i != ROOT && IsLabel(ns, g, i) && 1 < n && g.den[i] == Range(b, b + n) && End(ns, i) == b + n
    requires AllPrefixes(ns, g, b, b + n)
    ensures ns[i].parent < |ns| && End(ns, ns[i].parent) == b + n - 1
  {
    var m := n - 1;
    assert HasPrefix(ns, g, b, b + m);
    var j: nat :| IsLabel(ns, g, j) && g.den[j] == Range(b, b + m);
    assert b in g.den[j];
    LabelEnd(ns, g, j);
    assert b + m - 1 in g.den[j];
    GapFreeParent(ns, g, j, b, m);
    UnitStart(ns, g, i, j, b);
    ParentTouches(ns, g, i, b);
  }

  /** So `infer_shape2` widens a label exactly if its own segment is one offset wide, it denotes
      len offsets in a row, and every initial part of them has a label. */
  lemma WidensIff(ns: seq<TagNode>, g: Shape, lb: nat, len: nat)
    requires Inv(ns, g) && IsLabel(ns, g, lb)
    ensures Widens(ns, g, lb, len) <==>
      && lb != ROOT && ns[lb].seg.begin + 1 == End(ns, lb) && 0 < len <= End(ns, lb)
      && g.den[lb] == Range(End(ns, lb) - len, End(ns, lb)) && AllPrefixes(ns, g, End(ns, lb) - len, End(ns, lb))
  {
    if lb != ROOT && 0 < len <= End(ns, lb) && g.den[lb] == Range(End(ns, lb) - len, End(ns, lb)) {
      DepthMeans(ns, g, lb, End(ns, lb) - len, len);
    }
  }
}
