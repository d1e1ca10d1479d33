/**
 The label trie behind TagSet (runtime/src/tag_set.rs), as values.

 A label is an index into a vector of nodes.  The vector encodes a path-compressed
 binary trie: following `left` appends a run of zeros to the bit path, following
 `right` a run of ones, and `seg.end` is the length of the path.  The label denotes
 the positions of the ones.  The fields that are not in the vector (the structural
 parent, the bit of the incoming edge and the denoted set) live in a `Shape`.
 */
module TagTrie {

  const MAX_LB: nat := 0x3F_FFFF
  const ROOT: nat := 0

  datatype TagSeg = TagSeg(sign: bool, begin: nat, end: nat)

  datatype TagNode = TagNode(left: nat, right: nat, parent: nat, andOp: bool, seg: TagSeg)

  /** `up[i]` is the structural parent of node i, `one[i]` the bit on the edge into it
      and `den[i]` the set of offsets its path denotes. */
  datatype Shape = Shape(up: seq<nat>, one: seq<bool>, den: seq<set<nat>>)

  ghost predicate Within(o: nat, a: nat, b: nat) {
    a <= o < b
  }

  ghost function Range(a: nat, b: nat): (s: set<nat>)
    ensures forall o: nat :: o in s <==> a <= o < b
  {
    set o: nat | o < b && Within(o, a, b)
  }

  lemma RangeJoin(s: set<nat>, a: nat, b: nat, c: nat)
    requires a <= b <= c
    ensures s + Range(a, b) + Range(b, c) == s + Range(a, c)
  {
  }

  // ---------------------------------------------------------------- invariant

  ghost predicate Sized(ns: seq<TagNode>, g: Shape) {
    1 <= |ns| <= MAX_LB && |g.up| == |ns| && |g.one| == |ns| && |g.den| == |ns|
  }

  ghost function End(ns: seq<TagNode>, i: nat): nat
    requires i < |ns|
  {
    ns[i].seg.end
  }

  /** The last 1-node on the path to i, i included: what `parent` of a child must be. */
  ghost function LastOne(ns: seq<TagNode>, g: Shape, i: nat): nat
    requires Sized(ns, g) && i < |ns|
  {
    if g.one[i] then i else ns[i].parent
  }

  ghost predicate RootOk(ns: seq<TagNode>, g: Shape)
    requires Sized(ns, g)
  {
    && ns[ROOT].seg.begin == 0 && ns[ROOT].seg.end == 0 && ns[ROOT].parent == ROOT
    && g.up[ROOT] == ROOT && !g.one[ROOT] && g.den[ROOT] == {}
  }

  ghost predicate LinkOk(ns: seq<TagNode>, g: Shape, i: nat)
    requires Sized(ns, g) && i < |ns|
  {
    && (ns[i].left != ROOT ==> ns[i].left < |ns| && g.up[ns[i].left] == i && !g.one[ns[i].left])
    && (ns[i].right != ROOT ==> ns[i].right < |ns| && g.up[ns[i].right] == i && g.one[ns[i].right])
  }

  /** A 1-node's segment either starts where the node structurally starts, or has been
      widened by shape inference to the whole (contiguous) set the node denotes. */
  ghost predicate SegOk(ns: seq<TagNode>, g: Shape, i: nat)
    requires Sized(ns, g) && i < |ns| && g.up[i] < |ns|
  {
    var seg := ns[i].seg;
    var start := End(ns, g.up[i]);
    if g.one[i] then
      && seg.begin < seg.end
      && (seg.begin == start || g.den[i] == Range(seg.begin, seg.end))
      && (ns[i].parent == ROOT ==> seg.end == start + 1)
    else
      seg.begin == start
  }

  ghost predicate NodeOk(ns: seq<TagNode>, g: Shape, i: nat)
    requires Sized(ns, g) && i < |ns|
  {
    var u, p := g.up[i], ns[i].parent;
    && u < |ns| && End(ns, u) < End(ns, i)
    && i == (if g.one[i] then ns[u].right else ns[u].left)
    && p == LastOne(ns, g, u) && p < |ns|
    && (p == ROOT || g.one[p])
    && End(ns, p) <= End(ns, u)
    && g.den[u] == g.den[p]
    && g.den[i] == g.den[u] + (if g.one[i] then Range(End(ns, u), End(ns, i)) else {})
    && (forall o :: o in g.den[i] ==> o < End(ns, i))
    && SegOk(ns, g, i)
  }

  ghost predicate Inv(ns: seq<TagNode>, g: Shape) {
    && Sized(ns, g)
    && RootOk(ns, g)
    && (forall i: nat {:trigger LinkOk(ns, g, i)} :: i < |ns| ==> LinkOk(ns, g, i))
    && (forall i: nat {:trigger NodeOk(ns, g, i)} :: 0 < i < |ns| ==> NodeOk(ns, g, i))
  }

  ghost predicate IsLabel(ns: seq<TagNode>, g: Shape, lb: nat)
    requires Sized(ns, g)
  {
    lb < |ns| && (lb == ROOT || g.one[lb])
  }

  /** No node disappears, and none changes its end, its bit or the set it denotes. */
  ghost predicate Grows(ns: seq<TagNode>, g: Shape, ns': seq<TagNode>, g': Shape) {
    && Sized(ns, g) && Sized(ns', g') && |ns| <= |ns'|
    && (forall i: nat {:trigger End(ns', i)} :: i < |ns| ==> End(ns', i) == End(ns, i))
    && (forall i: nat {:trigger ns'[i].andOp} :: i < |ns| ==> ns'[i].andOp == ns[i].andOp)
    && g.one <= g'.one && g.den <= g'.den
  }

  /** The nodes from n on denote nothing outside s. */
  ghost predicate AddsWithin(n: nat, ns: seq<TagNode>, g: Shape, s: set<nat>) {
    |g.den| == |ns| && forall i: nat {:trigger g.den[i]} :: n <= i < |ns| ==> g.den[i] <= s
  }

  /** Segments of earlier 1-nodes keep their begin or raise it to at most `end`. */
  ghost predicate BeginsRaised(ns: seq<TagNode>, g: Shape, ns': seq<TagNode>, end: nat) {
    && Sized(ns, g) && |ns| <= |ns'|
    && forall i: nat {:trigger ns'[i].seg} :: i < |ns| && g.one[i] ==>
         ns'[i].seg.begin == ns[i].seg.begin || ns[i].seg.begin <= ns'[i].seg.begin <= end
  }

  /** Runs without shape inference only ever hold unit segments that start structurally. */
  ghost predicate Plain(ns: seq<TagNode>, g: Shape) {
    && Sized(ns, g)
    && forall i: nat {:trigger UnitSeg(ns, g, i)} :: 0 < i < |ns| && g.one[i] ==> UnitSeg(ns, g, i)
  }

  ghost predicate UnitSeg(ns: seq<TagNode>, g: Shape, i: nat)
    requires Sized(ns, g) && i < |ns|
  {
    && g.up[i] < |ns|
    && ns[i].seg.end == ns[i].seg.begin + 1 && ns[i].seg.begin == End(ns, g.up[i])
  }

  // ------------------------------------------------- adding one node to the trie

  function Child(n: TagNode, bit: bool): nat {
    if bit then n.right else n.left
  }

  function WithChild(n: TagNode, bit: bool, c: nat): TagNode {
    if bit then n.(right := c) else n.(left := c)
  }

  function Fresh(bit: bool, child: nat, parent: nat, begin: nat, end: nat): TagNode {
    WithChild(TagNode(ROOT, ROOT, parent, false, TagSeg(false, begin, end)), bit, child)
  }

  ghost function GrownDen(ns: seq<TagNode>, g: Shape, cur: nat, bit: bool, n: nat): set<nat>
    requires Sized(ns, g) && cur < |ns|
  {
    g.den[cur] + (if bit then Range(End(ns, cur), End(ns, cur) + n) else {})
  }

  ghost function LeafShape(ns: seq<TagNode>, g: Shape, cur: nat, bit: bool, n: nat): Shape
    requires Sized(ns, g) && cur < |ns|
  {
    Shape(g.up + [cur], g.one + [bit], g.den + [GrownDen(ns, g, cur, bit, n)])
  }

  ghost function SplitShape(ns: seq<TagNode>, g: Shape, cur: nat, bit: bool, n: nat, next: nat): Shape
    requires Sized(ns, g) && cur < |ns| && next < |ns|
  {
    Shape(g.up[next := |ns|] + [cur], g.one + [bit], g.den + [GrownDen(ns, g, cur, bit, n)])
  }

  ghost predicate LeafStep(ns: seq<TagNode>, g: Shape, ns': seq<TagNode>, cur: nat, bit: bool, n: nat) {
    && Sized(ns, g) && cur < |ns| && |ns'| == |ns| + 1
    && ns'[|ns|] == Fresh(bit, ROOT, LastOne(ns, g, cur), End(ns, cur), End(ns, cur) + n)
    && ns'[cur] == WithChild(ns[cur], bit, |ns|)
    && forall i: nat :: i < |ns| && i != cur ==> ns'[i] == ns[i]
  }

  ghost predicate SplitStep(ns: seq<TagNode>, g: Shape, ns': seq<TagNode>, cur: nat, bit: bool, n: nat, next: nat) {
    && Sized(ns, g) && cur < |ns| && next < |ns| && cur != next && |ns'| == |ns| + 1
    && ns'[|ns|] == Fresh(bit, next, LastOne(ns, g, cur), End(ns, cur), End(ns, cur) + n)
    && ns'[cur] == WithChild(ns[cur], bit, |ns|)
    && ns'[next].left == ns[next].left && ns'[next].right == ns[next].right
    && ns'[next].andOp == ns[next].andOp
    && ns'[next].parent == (if bit then |ns| else ns[next].parent)
    && ns'[next].seg == ns[next].seg.(begin := End(ns, cur) + n)
    && forall i: nat :: i < |ns| && i != cur && i != next ==> ns'[i] == ns[i]
  }

  lemma ParentFacts(ns: seq<TagNode>, g: Shape, i: nat)
    requires Inv(ns, g) && i < |ns|
    ensures LastOne(ns, g, i) < |ns| && IsLabel(ns, g, LastOne(ns, g, i))
    ensures End(ns, LastOne(ns, g, i)) <= End(ns, i)
    ensures g.den[LastOne(ns, g, i)] == g.den[i]
    ensures forall o :: o in g.den[i] ==> o < End(ns, i)
  {
    if i != ROOT {
      assert NodeOk(ns, g, i);
    }
  }

  ghost predicate CanHang(ns: seq<TagNode>, g: Shape, ns': seq<TagNode>, cur: nat, bit: bool, n: nat) {
    && Inv(ns, g) && |ns| < MAX_LB && LeafStep(ns, g, ns', cur, bit, n)
    && 0 < n && Child(ns[cur], bit) == ROOT
    && (bit && LastOne(ns, g, cur) == ROOT ==> n == 1)
  }

  lemma LeafLinks(ns: seq<TagNode>, g: Shape, ns': seq<TagNode>, cur: nat, bit: bool, n: nat, i: nat)
    requires CanHang(ns, g, ns', cur, bit, n) && i < |ns'|
    ensures LinkOk(ns', LeafShape(ns, g, cur, bit, n), i)
  {
    if i < |ns| {
      assert LinkOk(ns, g, i);
    }
  }

  lemma LeafNew(ns: seq<TagNode>, g: Shape, ns': seq<TagNode>, cur: nat, bit: bool, n: nat)
    requires CanHang(ns, g, ns', cur, bit, n)
    ensures NodeOk(ns', LeafShape(ns, g, cur, bit, n), |ns|)
  {
    ParentFacts(ns, g, cur);
  }

  lemma LeafOther(ns: seq<TagNode>, g: Shape, ns': seq<TagNode>, cur: nat, bit: bool, n: nat, i: nat)
    requires CanHang(ns, g, ns', cur, bit, n) && 0 < i < |ns|
    ensures NodeOk(ns', LeafShape(ns, g, cur, bit, n), i)
  {
    assert NodeOk(ns, g, i);
  }

  lemma LeafKeepsInv(ns: seq<TagNode>, g: Shape, ns': seq<TagNode>, cur: nat, bit: bool, n: nat)
    requires CanHang(ns, g, ns', cur, bit, n)
    ensures Inv(ns', LeafShape(ns, g, cur, bit, n))
    ensures Grows(ns, g, ns', LeafShape(ns, g, cur, bit, n))
  {
    var g' := LeafShape(ns, g, cur, bit, n);
    forall i: nat | i < |ns'|
      ensures LinkOk(ns', g', i)
    {
      LeafLinks(ns, g, ns', cur, bit, n, i);
    }
    forall i: nat | 0 < i < |ns'|
      ensures NodeOk(ns', g', i)
    {
      if i == |ns| {
        LeafNew(ns, g, ns', cur, bit, n);
      } else {
        LeafOther(ns, g, ns', cur, bit, n, i);
      }
    }
  }

  ghost predicate CanSplit(ns: seq<TagNode>, g: Shape, ns': seq<TagNode>, cur: nat, bit: bool, n: nat, next: nat) {
    && Inv(ns, g) && |ns| < MAX_LB && SplitStep(ns, g, ns', cur, bit, n, next)
    && next != ROOT && Child(ns[cur], bit) == next
    && 0 < n < End(ns, next) - End(ns, cur)
  }

  lemma SplitLinks(ns: seq<TagNode>, g: Shape, ns': seq<TagNode>, cur: nat, bit: bool, n: nat, next: nat, i: nat)
    requires CanSplit(ns, g, ns', cur, bit, n, next) && i < |ns'|
    ensures LinkOk(ns', SplitShape(ns, g, cur, bit, n, next), i)
  {
    assert LinkOk(ns, g, cur);
    if i < |ns| {
      assert LinkOk(ns, g, i);
    }
  }

  lemma SplitNew(ns: seq<TagNode>, g: Shape, ns': seq<TagNode>, cur: nat, bit: bool, n: nat, next: nat)
    requires CanSplit(ns, g, ns', cur, bit, n, next)
    ensures NodeOk(ns', SplitShape(ns, g, cur, bit, n, next), |ns|)
  {
    ParentFacts(ns, g, cur);
    assert LinkOk(ns, g, cur);
    assert NodeOk(ns, g, next);
  }

  lemma SplitNext(ns: seq<TagNode>, g: Shape, ns': seq<TagNode>, cur: nat, bit: bool, n: nat, next: nat)
    requires CanSplit(ns, g, ns', cur, bit, n, next)
    ensures NodeOk(ns', SplitShape(ns, g, cur, bit, n, next), next)
  {
    var g' := SplitShape(ns, g, cur, bit, n, next);
    ParentFacts(ns, g, cur);
    assert LinkOk(ns, g, cur);
    assert NodeOk(ns, g, next);
    assert g'.den[next] == g'.den[|ns|] + (if bit then Range(End(ns', |ns|), End(ns', next)) else {});
  }

  lemma SplitOther(ns: seq<TagNode>, g: Shape, ns': seq<TagNode>, cur: nat, bit: bool, n: nat, next: nat, i: nat)
    requires CanSplit(ns, g, ns', cur, bit, n, next) && 0 < i < |ns| && i != next
    ensures NodeOk(ns', SplitShape(ns, g, cur, bit, n, next), i)
  {
    assert NodeOk(ns, g, i);
    assert NodeOk(ns, g, next);
    assert LinkOk(ns, g, cur);
    assert LinkOk(ns, g, g.up[i]);
  }

  lemma SplitKeepsInv(ns: seq<TagNode>, g: Shape, ns': seq<TagNode>, cur: nat, bit: bool, n: nat, next: nat)
    requires CanSplit(ns, g, ns', cur, bit, n, next)
    ensures Inv(ns', SplitShape(ns, g, cur, bit, n, next))
    ensures Grows(ns, g, ns', SplitShape(ns, g, cur, bit, n, next))
  {
    var g' := SplitShape(ns, g, cur, bit, n, next);
    forall i: nat | i < |ns'|
      ensures LinkOk(ns', g', i)
    {
      SplitLinks(ns, g, ns', cur, bit, n, next, i);
    }
    forall i: nat | 0 < i < |ns'|
      ensures NodeOk(ns', g', i)
    {
      if i == |ns| {
        SplitNew(ns, g, ns', cur, bit, n, next);
      } else if i == next {
        SplitNext(ns, g, ns', cur, bit, n, next);
      } else {
        SplitOther(ns, g, ns', cur, bit, n, next, i);
      }
    }
  }

  lemma LeafKeepsPlain(ns: seq<TagNode>, g: Shape, ns': seq<TagNode>, cur: nat, bit: bool, n: nat)
    requires LeafStep(ns, g, ns', cur, bit, n) && |ns| < MAX_LB
    requires bit ==> n == 1
    ensures Plain(ns, g) ==> Plain(ns', LeafShape(ns, g, cur, bit, n))
  {
    if Plain(ns, g) {
      var g' := LeafShape(ns, g, cur, bit, n);
      forall i: nat | 0 < i < |ns'| && g'.one[i]
        ensures UnitSeg(ns', g', i)
      {
        assert i < |ns| ==> UnitSeg(ns, g, i);
      }
    }
  }

  lemma SplitKeepsPlain(ns: seq<TagNode>, g: Shape, ns': seq<TagNode>, cur: nat, bit: bool, n: nat, next: nat)
    requires CanSplit(ns, g, ns', cur, bit, n, next)
    ensures Plain(ns, g) ==> Plain(ns', SplitShape(ns, g, cur, bit, n, next))
  {
    assert LinkOk(ns, g, cur) && NodeOk(ns, g, next);
    if Plain(ns, g) {
      assert bit ==> UnitSeg(ns, g, next);
      var g' := SplitShape(ns, g, cur, bit, n, next);
      forall i: nat | 0 < i < |ns'| && g'.one[i]
        ensures UnitSeg(ns', g', i)
      {
        assert i < |ns| ==> UnitSeg(ns, g, i);
      }
    }
  }

  lemma NextDiffers(ns: seq<TagNode>, g: Shape, cur: nat, bit: bool, next: nat)
    requires Inv(ns, g) && cur < |ns| && next != ROOT && Child(ns[cur], bit) == next
    ensures next < |ns| && next != cur
  {
    assert LinkOk(ns, g, cur);
    assert NodeOk(ns, g, next);
  }

  lemma SplitFacts(ns: seq<TagNode>, g: Shape, ns': seq<TagNode>, cur: nat, bit: bool, n: nat, next: nat)
    requires CanSplit(ns, g, ns', cur, bit, n, next)
    ensures Inv(ns', SplitShape(ns, g, cur, bit, n, next))
    ensures Grows(ns, g, ns', SplitShape(ns, g, cur, bit, n, next))
    ensures Plain(ns, g) ==> Plain(ns', SplitShape(ns, g, cur, bit, n, next))
  {
    SplitKeepsInv(ns, g, ns', cur, bit, n, next);
    SplitKeepsPlain(ns, g, ns', cur, bit, n, next);
  }

  lemma WidenedBegin(ns: seq<TagNode>, g: Shape, i: nat)
    requires Inv(ns, g) && 0 < i < |ns|
    ensures g.up[i] < |ns| && ns[i].seg.begin <= End(ns, g.up[i]) < End(ns, i)
    ensures g.one[i] ==> End(ns, g.up[i]) in g.den[i] && ns[i].seg.begin in g.den[i]
  {
    assert NodeOk(ns, g, i);
    var start := End(ns, g.up[i]);
    assert g.one[i] ==> start in g.den[i];
  }

  /** What a walker knows about the child it descends to. */
  lemma ChildFacts(ns: seq<TagNode>, g: Shape, cur: nat, bit: bool)
    requires Inv(ns, g) && cur < |ns| && Child(ns[cur], bit) != ROOT
    ensures var next := Child(ns[cur], bit);
      && next < |ns| && g.one[next] == bit && End(ns, cur) < End(ns, next)
      && g.den[next] == g.den[cur] + (if bit then Range(End(ns, cur), End(ns, next)) else {})
      && LastOne(ns, g, next) == (if bit then next else LastOne(ns, g, cur))
      && (!bit ==> ns[next].seg.begin == End(ns, cur))
      && (bit && LastOne(ns, g, cur) == ROOT ==> End(ns, next) == End(ns, cur) + 1)
      && ns[next].seg.begin <= End(ns, cur)
  {
    assert LinkOk(ns, g, cur);
    assert NodeOk(ns, g, Child(ns[cur], bit));
    WidenedBegin(ns, g, Child(ns[cur], bit));
  }

  /** The sign and and-op marks play no part in the structure. */
  ghost predicate SameButMarks(ns: seq<TagNode>, ns': seq<TagNode>) {
    && |ns| == |ns'|
    && forall i: nat {:trigger ns'[i]} :: i < |ns| ==>
         && ns'[i].left == ns[i].left && ns'[i].right == ns[i].right && ns'[i].parent == ns[i].parent
         && ns'[i].seg.begin == ns[i].seg.begin && ns'[i].seg.end == ns[i].seg.end
  }

  lemma MarksKeepInv(ns: seq<TagNode>, g: Shape, ns': seq<TagNode>)
    requires Inv(ns, g) && SameButMarks(ns, ns')
    ensures Inv(ns', g)
    ensures Plain(ns, g) ==> Plain(ns', g)
  {
    forall i: nat | i < |ns'|
      ensures LinkOk(ns', g, i)
    {
      assert LinkOk(ns, g, i);
    }
    forall i: nat | 0 < i < |ns'|
      ensures NodeOk(ns', g, i)
      ensures Plain(ns, g) && g.one[i] ==> UnitSeg(ns', g, i)
    {
      assert NodeOk(ns, g, i);
      assert Plain(ns, g) && g.one[i] ==> UnitSeg(ns, g, i);
    }
  }

  lemma GrowsTrans(ns: seq<TagNode>, g: Shape, ns1: seq<TagNode>, g1: Shape, ns2: seq<TagNode>, g2: Shape)
    requires Grows(ns, g, ns1, g1) && Grows(ns1, g1, ns2, g2)
    ensures Grows(ns, g, ns2, g2)
  {
    forall i: nat | i < |ns|
      ensures End(ns2, i) == End(ns, i) && ns2[i].andOp == ns[i].andOp
    {
      assert End(ns1, i) == End(ns, i) && ns1[i].andOp == ns[i].andOp;
    }
  }
}
