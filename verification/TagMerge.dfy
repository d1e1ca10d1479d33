/**
 The backward walk of TagSet::combine over two labels' parent chains: which segments
 end up on the stack, as lemmas about single steps of that walk.
 */
module TagMerge {
  import opened TagTrie
  import opened TagAdds
  import opened TagPaths

  /** Shape inference has widened the segment of i beyond its structural start. */
  ghost predicate Widened(ns: seq<TagNode>, g: Shape, i: nat)
    requires Inv(ns, g) && i != ROOT && IsLabel(ns, g, i)
  {
    ParentStep(ns, g, i);
    ns[i].seg.begin < End(ns, g.up[i])
  }

  lemma WidenedIsWhole(ns: seq<TagNode>, g: Shape, i: nat)
    requires Inv(ns, g) && i != ROOT && IsLabel(ns, g, i)
    ensures Widened(ns, g, i) ==> g.den[i] == Range(ns[i].seg.begin, ns[i].seg.end)
    ensures !Widened(ns, g, i) ==> g.up[i] < |ns| && ns[i].seg.begin == End(ns, g.up[i])
    ensures ns[i].parent < |ns|
    ensures !Widened(ns, g, i) ==> forall o :: o in g.den[ns[i].parent] ==> o < ns[i].seg.begin
  {
    ParentStep(ns, g, i);
    assert NodeOk(ns, g, i);
  }

  /** Where the segments that a reader of label i sees begin. */
  ghost function Begins(ns: seq<TagNode>, g: Shape, i: nat): set<nat>
    requires Inv(ns, g) && IsLabel(ns, g, i)
    decreases End(ns, i)
  {
    if i == ROOT then {} else
    ParentStep(ns, g, i);
    if Widened(ns, g, i) then {ns[i].seg.begin}
    else Begins(ns, g, ns[i].parent) + {ns[i].seg.begin}
  }

  /** The begin of the segment of label i that holds offset o. */
  ghost function BeginOf(ns: seq<TagNode>, g: Shape, i: nat, o: nat): nat
    requires Inv(ns, g) && IsLabel(ns, g, i) && o in g.den[i]
    decreases End(ns, i)
  {
    ParentStep(ns, g, i);
    if ns[i].seg.begin <= o then ns[i].seg.begin
    else
      WidenedIsWhole(ns, g, i);
      BeginOf(ns, g, ns[i].parent, o)
  }

  lemma {:induction false} BeginsFacts(ns: seq<TagNode>, g: Shape, i: nat, o: nat)
    requires Inv(ns, g) && IsLabel(ns, g, i) && o in g.den[i]
    ensures BeginOf(ns, g, i, o) in Begins(ns, g, i) && BeginOf(ns, g, i, o) <= o
    ensures BeginOf(ns, g, i, o) <= ns[i].seg.begin
    ensures BeginOf(ns, g, i, o) in g.den[i]
    decreases End(ns, i)
  {
    ParentStep(ns, g, i);
    WidenedIsWhole(ns, g, i);
    if !(ns[i].seg.begin <= o) {
      BeginsFacts(ns, g, ns[i].parent, o);
    }
  }

  lemma {:induction false} BeginsBound(ns: seq<TagNode>, g: Shape, i: nat)
    requires Inv(ns, g) && i != ROOT && IsLabel(ns, g, i)
    ensures forall b :: b in Begins(ns, g, i) ==> b <= ns[i].seg.begin && b in g.den[i]
    decreases End(ns, i)
  {
    ParentStep(ns, g, i);
    WidenedIsWhole(ns, g, i);
    if !Widened(ns, g, i) && ns[i].parent != ROOT {
      BeginsBound(ns, g, ns[i].parent);
    }
  }

  /** A segment of the second label that begins at b is not copied by `combine`:
      the first label has a segment there too, and not as its lowest one. */
  ghost predicate Hidden(ns: seq<TagNode>, g: Shape, l1: nat, b: nat)
    requires Inv(ns, g) && IsLabel(ns, g, l1)
  {
    b in Begins(ns, g, l1) && exists c :: c in g.den[l1] && c < b
  }

  /** The set that `combine` gives the union of labels l1 < l2. */
  ghost function Kept(ns: seq<TagNode>, g: Shape, l1: nat, l2: nat): (s: set<nat>)
    requires Inv(ns, g) && IsLabel(ns, g, l1) && IsLabel(ns, g, l2)
    ensures g.den[l1] <= s <= g.den[l1] + g.den[l2]
  {
    g.den[l1] + set o | o in g.den[l2] && !Hidden(ns, g, l1, BeginOf(ns, g, l2, o))
  }

  // ------------------------------------------------------------- the walk's state

  ghost predicate AtLeast(s: set<nat>, m: nat) {
    forall o :: o in s ==> m <= o
  }

  ghost function SegRange(n: TagNode): set<nat> {
    Range(n.seg.begin, n.seg.end)
  }

  ghost predicate AllOnes(ns: seq<TagNode>, g: Shape, st: seq<nat>)
    requires Sized(ns, g)
  {
    forall k: nat :: k < |st| ==> st[k] != ROOT && IsLabel(ns, g, st[k])
  }

  ghost function Cover(ns: seq<TagNode>, g: Shape, st: seq<nat>): set<nat>
    requires Sized(ns, g) && AllOnes(ns, g, st)
  {
    if st == [] then {} else
    Cover(ns, g, st[..|st| - 1]) + SegRange(ns[st[|st| - 1]])
  }

  /** The denoted set has no hole between b and the end of the node's path. */
  ghost predicate Contig(ns: seq<TagNode>, g: Shape, i: nat, b: nat)
    requires Sized(ns, g) && i < |ns|
  {
    forall o: nat :: b <= o < End(ns, i) ==> o in g.den[i]
  }

  ghost predicate Stacked(ns: seq<TagNode>, g: Shape, st: seq<nat>, last: nat)
    requires Sized(ns, g)
  {
    && AllOnes(ns, g, st)
    && (forall k: nat, m: nat :: k < m < |st| ==> ns[st[m]].seg.begin < ns[st[k]].seg.begin)
    && (st == [] ==> last == MAX_LB)
    && (st != [] ==> last == ns[st[|st| - 1]].seg.begin < MAX_LB)
  }

  ghost predicate LowestOrLower(ns: seq<TagNode>, g: Shape, l1: nat, l2: nat, last: nat, st: seq<nat>)
    requires Inv(ns, g) && AllOnes(ns, g, st) && l1 < |ns| && l2 < |ns|
  {
    st != [] ==>
      || AtLeast(g.den[st[|st| - 1]], last)
      || (l1 != ROOT && ns[l1].seg.begin < last)
      || (l2 != ROOT && ns[l2].seg.begin < last)
  }

  /** What holds in every state: the stack never exceeds the union, leaves no holes. */
  ghost predicate WalkInv(ns: seq<TagNode>, g: Shape, a: nat, b: nat, l1: nat, l2: nat, last: nat, st: seq<nat>)
    requires Inv(ns, g) && IsLabel(ns, g, a) && IsLabel(ns, g, b)
  {
    && IsLabel(ns, g, l1) && IsLabel(ns, g, l2)
    && Stacked(ns, g, st, last)
    && g.den[l1] <= g.den[a] && g.den[l2] <= g.den[b]
    && Cover(ns, g, st) <= g.den[a] + g.den[b]
    && (forall k: nat :: k < |st| ==> Contig(ns, g, l2, ns[st[k]].seg.begin))
    && LowestOrLower(ns, g, l1, l2, last, st)
  }

  /** The walker on the first chain still sees every segment of a below `last`. */
  ghost predicate FirstInv(ns: seq<TagNode>, g: Shape, a: nat, l1: nat, last: nat, cover: set<nat>)
    requires Inv(ns, g) && IsLabel(ns, g, a) && IsLabel(ns, g, l1)
  {
    && g.den[a] <= cover + g.den[l1]
    && (forall c :: c in Begins(ns, g, a) && c < last ==> c in Begins(ns, g, l1))
    && (|| (g.den[l1] <= cover && AtLeast(g.den[l1], last))
        || ((l1 != ROOT ==> ns[l1].seg.begin < last) && Begins(ns, g, l1) <= Begins(ns, g, a)))
  }

  ghost predicate SecondLive(ns: seq<TagNode>, g: Shape, a: nat, b: nat, l2: nat, last: nat)
    requires Inv(ns, g) && IsLabel(ns, g, a) && IsLabel(ns, g, b) && IsLabel(ns, g, l2) && g.den[l2] <= g.den[b]
  {
    && (forall o :: o in g.den[l2] ==> BeginOf(ns, g, l2, o) == BeginOf(ns, g, b, o))
    && (l2 != ROOT ==> ns[l2].seg.begin <= last)
    && (l2 != ROOT && ns[l2].seg.begin == last ==> last in Begins(ns, g, a))
  }

  ghost predicate SecondLost(ns: seq<TagNode>, g: Shape, a: nat, b: nat, l1: nat, l2: nat, last: nat)
    requires Inv(ns, g) && IsLabel(ns, g, a) && IsLabel(ns, g, b)
    requires IsLabel(ns, g, l1) && IsLabel(ns, g, l2) && g.den[l2] <= g.den[b]
  {
    && l1 != ROOT
    && AtLeast(g.den[l2], last) && AtLeast(g.den[l2], ns[l1].seg.begin + 1)
    && forall o :: o in g.den[l2] ==> Hidden(ns, g, a, BeginOf(ns, g, b, o))
  }

  ghost predicate SecondInv(ns: seq<TagNode>, g: Shape, a: nat, b: nat, l1: nat, l2: nat, last: nat, cover: set<nat>)
    requires Inv(ns, g) && IsLabel(ns, g, a) && IsLabel(ns, g, b)
    requires IsLabel(ns, g, l1) && IsLabel(ns, g, l2) && g.den[l2] <= g.den[b]
  {
    && (forall o :: o in g.den[b] && !Hidden(ns, g, a, BeginOf(ns, g, b, o)) ==> o in cover || o in g.den[l2])
    && (g.den[l2] <= cover || SecondLive(ns, g, a, b, l2, last) || SecondLost(ns, g, a, b, l1, l2, last))
  }

  /** What holds when all offsets are small enough for the walk's initial bound. */
  ghost predicate ExactInv(ns: seq<TagNode>, g: Shape, a: nat, b: nat, l1: nat, l2: nat, last: nat, st: seq<nat>)
    requires Inv(ns, g) && IsLabel(ns, g, a) && IsLabel(ns, g, b) && WalkInv(ns, g, a, b, l1, l2, last, st)
  {
    && Cover(ns, g, st) <= Kept(ns, g, a, b)
    && FirstInv(ns, g, a, l1, last, Cover(ns, g, st))
    && SecondInv(ns, g, a, b, l1, l2, last, Cover(ns, g, st))
  }

  // ------------------------------------------------------------- single steps

  lemma CoverPush(ns: seq<TagNode>, g: Shape, st: seq<nat>, x: nat)
    requires Inv(ns, g) && AllOnes(ns, g, st) && x != ROOT && IsLabel(ns, g, x)
    ensures AllOnes(ns, g, st + [x])
    ensures Cover(ns, g, st + [x]) == Cover(ns, g, st) + SegRange(ns[x])
  {
    assert (st + [x])[..|st|] == st;
  }

  /** Going to the parent keeps a hole-free tail hole-free. */
  lemma ContigParent(ns: seq<TagNode>, g: Shape, i: nat, b: nat)
    requires Inv(ns, g) && i != ROOT && IsLabel(ns, g, i) && Contig(ns, g, i, b)
    ensures ns[i].parent < |ns| && Contig(ns, g, ns[i].parent, b)
  {
    ParentStep(ns, g, i);
  }

  lemma ContigOwn(ns: seq<TagNode>, g: Shape, i: nat)
    requires Inv(ns, g) && i != ROOT && IsLabel(ns, g, i)
    ensures ns[i].parent < |ns| && Contig(ns, g, ns[i].parent, ns[i].seg.begin)
    ensures forall b: nat :: ns[i].seg.begin <= b ==> Contig(ns, g, i, b)
  {
    ParentStep(ns, g, i);
    WidenedIsWhole(ns, g, i);
  }

  /** Below a segment that starts structurally, the next one on the chain starts lower. */
  lemma ParentBegin(ns: seq<TagNode>, g: Shape, i: nat)
    requires Inv(ns, g) && i != ROOT && IsLabel(ns, g, i)
    ensures ns[i].parent < |ns|
    ensures AtLeast(g.den[i], ns[i].seg.begin)
            || (ns[i].parent != ROOT && ns[ns[i].parent].seg.begin < ns[i].seg.begin)
  {
    ParentStep(ns, g, i);
    WidenedIsWhole(ns, g, i);
    if ns[i].parent != ROOT {
      ParentStep(ns, g, ns[i].parent);
    }
  }

  lemma StackedPush(ns: seq<TagNode>, g: Shape, st: seq<nat>, last: nat, x: nat)
    requires Inv(ns, g) && Stacked(ns, g, st, last)
    requires x != ROOT && IsLabel(ns, g, x) && ns[x].seg.begin < last
    ensures Stacked(ns, g, st + [x], ns[x].seg.begin)
  {
    forall k: nat, m: nat | k < m < |st + [x]|
      ensures ns[(st + [x])[m]].seg.begin < ns[(st + [x])[k]].seg.begin
    {
      assert k < |st| - 1 ==> ns[st[|st| - 1]].seg.begin < ns[st[k]].seg.begin;
    }
  }

  lemma FirstSkipWalk(ns: seq<TagNode>, g: Shape, a: nat, b: nat, l1: nat, l2: nat, last: nat, st: seq<nat>)
    requires Inv(ns, g) && IsLabel(ns, g, a) && IsLabel(ns, g, b) && WalkInv(ns, g, a, b, l1, l2, last, st)
    requires l1 != ROOT && last <= ns[l1].seg.begin
    ensures WalkInv(ns, g, a, b, ns[l1].parent, l2, last, st)
  {
    ParentStep(ns, g, l1);
  }

  lemma FirstPushWalk(ns: seq<TagNode>, g: Shape, a: nat, b: nat, l1: nat, l2: nat, last: nat, st: seq<nat>)
    requires Inv(ns, g) && IsLabel(ns, g, a) && IsLabel(ns, g, b) && WalkInv(ns, g, a, b, l1, l2, last, st)
    requires l1 != ROOT && ns[l2].seg.begin <= ns[l1].seg.begin < last
    ensures WalkInv(ns, g, a, b, ns[l1].parent, l2, ns[l1].seg.begin, st + [l1])
  {
    ParentStep(ns, g, l1);
    ParentBegin(ns, g, l1);
    CoverPush(ns, g, st, l1);
    StackedPush(ns, g, st, last, l1);
    if l2 != ROOT {
      ContigOwn(ns, g, l2);
    }
  }

  lemma SecondSkipWalk(ns: seq<TagNode>, g: Shape, a: nat, b: nat, l1: nat, l2: nat, last: nat, st: seq<nat>)
    requires Inv(ns, g) && IsLabel(ns, g, a) && IsLabel(ns, g, b) && WalkInv(ns, g, a, b, l1, l2, last, st)
    requires l2 != ROOT && last <= ns[l2].seg.begin
    ensures WalkInv(ns, g, a, b, l1, ns[l2].parent, last, st)
  {
    ParentStep(ns, g, l2);
    forall k: nat | k < |st|
      ensures Contig(ns, g, ns[l2].parent, ns[st[k]].seg.begin)
    {
      ContigParent(ns, g, l2, ns[st[k]].seg.begin);
    }
  }

  lemma SecondPushWalk(ns: seq<TagNode>, g: Shape, a: nat, b: nat, l1: nat, l2: nat, last: nat, st: seq<nat>)
    requires Inv(ns, g) && IsLabel(ns, g, a) && IsLabel(ns, g, b) && WalkInv(ns, g, a, b, l1, l2, last, st)
    requires l1 != ROOT && l2 != ROOT && ns[l1].seg.begin < ns[l2].seg.begin < last
    ensures WalkInv(ns, g, a, b, l1, ns[l2].parent, ns[l2].seg.begin, st + [l2])
  {
    ParentStep(ns, g, l2);
    forall k: nat | k < |st|
      ensures Contig(ns, g, ns[l2].parent, ns[st[k]].seg.begin)
    {
      ContigParent(ns, g, l2, ns[st[k]].seg.begin);
    }
    CoverPush(ns, g, st, l2);
    StackedPush(ns, g, st, last, l2);
    ContigOwn(ns, g, l2);
  }

  // ------------------------------------- single steps, exact when offsets are small

  lemma FirstPushFirst(ns: seq<TagNode>, g: Shape, a: nat, l1: nat, last: nat, cover: set<nat>)
    requires Inv(ns, g) && IsLabel(ns, g, a) && l1 != ROOT && IsLabel(ns, g, l1)
    requires FirstInv(ns, g, a, l1, last, cover) && ns[l1].seg.begin < last
    ensures IsLabel(ns, g, ns[l1].parent)
    ensures FirstInv(ns, g, a, ns[l1].parent, ns[l1].seg.begin, cover + SegRange(ns[l1]))
    ensures ns[l1].seg.begin in Begins(ns, g, a)
  {
    ParentStep(ns, g, l1);
    WidenedIsWhole(ns, g, l1);
    var p := ns[l1].parent;
    assert ns[l1].seg.begin in g.den[l1];
    assert ns[l1].seg.begin in Begins(ns, g, l1);
    if p != ROOT {
      ParentStep(ns, g, p);
    }
  }

  lemma FirstSkipFirst(ns: seq<TagNode>, g: Shape, a: nat, l1: nat, last: nat, cover: set<nat>)
    requires Inv(ns, g) && IsLabel(ns, g, a) && l1 != ROOT && IsLabel(ns, g, l1)
    requires FirstInv(ns, g, a, l1, last, cover) && last <= ns[l1].seg.begin
    ensures IsLabel(ns, g, ns[l1].parent)
    ensures FirstInv(ns, g, a, ns[l1].parent, last, cover)
  {
    ParentStep(ns, g, l1);
    WidenedIsWhole(ns, g, l1);
  }

  lemma SecondPushFirst(ns: seq<TagNode>, g: Shape, a: nat, l1: nat, last: nat, cover: set<nat>, last': nat, more: set<nat>)
    requires Inv(ns, g) && IsLabel(ns, g, a) && l1 != ROOT && IsLabel(ns, g, l1)
    requires FirstInv(ns, g, a, l1, last, cover) && ns[l1].seg.begin < last' < last
    ensures FirstInv(ns, g, a, l1, last', cover + more)
  {
    ParentStep(ns, g, l1);
  }

  /** The part of SecondInv about the first chain: a lost second chain ends before l1 moves. */
  lemma FirstMoveSecond(ns: seq<TagNode>, g: Shape, a: nat, b: nat, l1: nat, l2: nat, last: nat, cover: set<nat>,
                        last': nat, more: set<nat>)
    requires Inv(ns, g) && IsLabel(ns, g, a) && IsLabel(ns, g, b)
    requires l1 != ROOT && IsLabel(ns, g, l1) && IsLabel(ns, g, l2) && g.den[l2] <= g.den[b]
    requires SecondInv(ns, g, a, b, l1, l2, last, cover) && ns[l2].seg.begin <= ns[l1].seg.begin
    requires last' == last || (ns[l2].seg.begin <= last' < last && last' in Begins(ns, g, a))
    ensures IsLabel(ns, g, ns[l1].parent)
    ensures SecondInv(ns, g, a, b, ns[l1].parent, l2, last', cover + more)
  {
    ParentStep(ns, g, l1);
    if l2 != ROOT {
      ParentStep(ns, g, l2);
    }
    if SecondLost(ns, g, a, b, l1, l2, last) {
      assert l2 == ROOT;
      assert SecondLive(ns, g, a, b, l2, last');
    }
  }

  lemma BeginOfParent(ns: seq<TagNode>, g: Shape, i: nat)
    requires Inv(ns, g) && i != ROOT && IsLabel(ns, g, i)
    ensures IsLabel(ns, g, ns[i].parent) && g.den[ns[i].parent] <= g.den[i]
    ensures !Widened(ns, g, i) ==>
      forall o :: o in g.den[ns[i].parent] ==> BeginOf(ns, g, i, o) == BeginOf(ns, g, ns[i].parent, o)
    ensures forall o :: o in g.den[i] && o !in g.den[ns[i].parent] ==> BeginOf(ns, g, i, o) == ns[i].seg.begin
    ensures Widened(ns, g, i) ==> forall o :: o in g.den[i] ==> BeginOf(ns, g, i, o) == ns[i].seg.begin
    ensures forall o :: o in SegRange(ns[i]) ==> o in g.den[i] && BeginOf(ns, g, i, o) == ns[i].seg.begin
    ensures !Widened(ns, g, i) && ns[i].parent != ROOT ==> ns[ns[i].parent].seg.begin < ns[i].seg.begin
    ensures Widened(ns, g, i) ==> g.den[i] == SegRange(ns[i])
  {
    ParentStep(ns, g, i);
    WidenedIsWhole(ns, g, i);
    if ns[i].parent != ROOT {
      ParentStep(ns, g, ns[i].parent);
    }
  }

  lemma SecondPushSecond(ns: seq<TagNode>, g: Shape, a: nat, b: nat, l1: nat, l2: nat, last: nat, cover: set<nat>)
    requires Inv(ns, g) && IsLabel(ns, g, a) && IsLabel(ns, g, b)
    requires IsLabel(ns, g, l1) && l2 != ROOT && IsLabel(ns, g, l2) && g.den[l2] <= g.den[b]
    requires SecondInv(ns, g, a, b, l1, l2, last, cover) && ns[l2].seg.begin < last
    ensures IsLabel(ns, g, ns[l2].parent) && g.den[ns[l2].parent] <= g.den[b]
    ensures SecondInv(ns, g, a, b, l1, ns[l2].parent, ns[l2].seg.begin, cover + SegRange(ns[l2]))
  {
    ParentStep(ns, g, l2);
    BeginOfParent(ns, g, l2);
    var p, last', cover' := ns[l2].parent, ns[l2].seg.begin, cover + SegRange(ns[l2]);
    assert !SecondLost(ns, g, a, b, l1, l2, last);
    if !(g.den[p] <= cover') {
      assert SecondLive(ns, g, a, b, p, last');
    }
  }

  lemma HiddenTie(ns: seq<TagNode>, g: Shape, a: nat, b: nat, l1: nat, l2: nat, last: nat)
    requires Inv(ns, g) && IsLabel(ns, g, a) && IsLabel(ns, g, b)
    requires l1 != ROOT && IsLabel(ns, g, l1) && l2 != ROOT && IsLabel(ns, g, l2)
    requires g.den[l1] <= g.den[a] && g.den[l2] <= g.den[b]
    requires SecondLive(ns, g, a, b, l2, last)
    requires ns[l1].seg.begin < ns[l2].seg.begin && last <= ns[l2].seg.begin
    ensures ns[l2].seg.begin == last && Hidden(ns, g, a, last)
  {
    ParentStep(ns, g, l1);
    assert ns[l1].seg.begin in g.den[a];
  }

  lemma SecondSkipSecond(ns: seq<TagNode>, g: Shape, a: nat, b: nat, l1: nat, l2: nat, last: nat, cover: set<nat>)
    requires Inv(ns, g) && IsLabel(ns, g, a) && IsLabel(ns, g, b)
    requires l1 != ROOT && IsLabel(ns, g, l1) && l2 != ROOT && IsLabel(ns, g, l2)
    requires g.den[l1] <= g.den[a] && g.den[l2] <= g.den[b]
    requires SecondInv(ns, g, a, b, l1, l2, last, cover)
    requires ns[l1].seg.begin < ns[l2].seg.begin && last <= ns[l2].seg.begin
    ensures IsLabel(ns, g, ns[l2].parent) && g.den[ns[l2].parent] <= g.den[b]
    ensures SecondInv(ns, g, a, b, l1, ns[l2].parent, last, cover)
  {
    ParentStep(ns, g, l2);
    BeginOfParent(ns, g, l2);
    var p := ns[l2].parent;
    if g.den[l2] <= cover {
    } else if SecondLive(ns, g, a, b, l2, last) {
      HiddenTie(ns, g, a, b, l1, l2, last);
      if Widened(ns, g, l2) {
        assert SecondLost(ns, g, a, b, l1, p, last);
      } else {
        assert SecondLive(ns, g, a, b, p, last);
      }
    } else {
      assert SecondLost(ns, g, a, b, l1, p, last);
    }
  }

  lemma SecondPushKept(ns: seq<TagNode>, g: Shape, a: nat, b: nat, l1: nat, l2: nat, last: nat, cover: set<nat>)
    requires Inv(ns, g) && IsLabel(ns, g, a) && IsLabel(ns, g, b)
    requires l1 != ROOT && IsLabel(ns, g, l1) && l2 != ROOT && IsLabel(ns, g, l2) && g.den[l2] <= g.den[b]
    requires FirstInv(ns, g, a, l1, last, cover) && SecondInv(ns, g, a, b, l1, l2, last, cover)
    requires cover <= Kept(ns, g, a, b)
    requires ns[l1].seg.begin < ns[l2].seg.begin < last
    ensures SegRange(ns[l2]) <= Kept(ns, g, a, b)
  {
    ParentStep(ns, g, l2);
    BeginOfParent(ns, g, l2);
    BeginsBound(ns, g, l1);
    assert !SecondLost(ns, g, a, b, l1, l2, last);
    if !(g.den[l2] <= cover) {
      assert !Hidden(ns, g, a, ns[l2].seg.begin);
    }
  }

  // ------------------------------------------------------------- beginning and end

  lemma WalkStarts(ns: seq<TagNode>, g: Shape, a: nat, b: nat)
    requires Inv(ns, g) && a != ROOT && b != ROOT && IsLabel(ns, g, a) && IsLabel(ns, g, b)
    ensures WalkInv(ns, g, a, b, a, b, MAX_LB, [])
    ensures End(ns, a) <= MAX_LB && End(ns, b) <= MAX_LB ==> ExactInv(ns, g, a, b, a, b, MAX_LB, [])
  {
    ParentStep(ns, g, a);
    ParentStep(ns, g, b);
    if End(ns, a) <= MAX_LB && End(ns, b) <= MAX_LB {
      assert SecondLive(ns, g, a, b, b, MAX_LB);
    }
  }

  lemma WalkEnds(ns: seq<TagNode>, g: Shape, a: nat, b: nat, l1: nat, l2: nat, last: nat, st: seq<nat>)
    requires Inv(ns, g) && IsLabel(ns, g, a) && IsLabel(ns, g, b) && WalkInv(ns, g, a, b, l1, l2, last, st)
    requires ExactInv(ns, g, a, b, l1, l2, last, st)
    requires l1 == ROOT || l1 == l2
    ensures g.den[l2] + Cover(ns, g, st) == Kept(ns, g, a, b)
  {
    forall o | o in g.den[l2]
      ensures o in Kept(ns, g, a, b)
    {
      if l1 == ROOT && o !in Cover(ns, g, st) {
        assert SecondLive(ns, g, a, b, l2, last);
        BeginsFacts(ns, g, l2, o);
        var v := BeginOf(ns, g, b, o);
        assert v <= last;
        if Hidden(ns, g, a, v) {
          var c :| c in g.den[a] && c < v;
          BeginsFacts(ns, g, a, c);
          assert false;
        }
      }
    }
  }

  ghost predicate Small(ns: seq<TagNode>, a: nat, b: nat)
    requires a < |ns| && b < |ns|
  {
    End(ns, a) <= MAX_LB && End(ns, b) <= MAX_LB
  }

  // One iteration of the walk: the four branches of the source's loop.

  lemma WalkPushSecond(ns: seq<TagNode>, g: Shape, a: nat, b: nat, l1: nat, l2: nat, last: nat, st: seq<nat>)
    requires Inv(ns, g) && IsLabel(ns, g, a) && IsLabel(ns, g, b) && WalkInv(ns, g, a, b, l1, l2, last, st)
    requires l1 != ROOT && l2 != ROOT && ns[l1].seg.begin < ns[l2].seg.begin < last
    ensures WalkInv(ns, g, a, b, l1, ns[l2].parent, ns[l2].seg.begin, st + [l2])
    ensures ExactInv(ns, g, a, b, l1, l2, last, st) ==>
      ExactInv(ns, g, a, b, l1, ns[l2].parent, ns[l2].seg.begin, st + [l2])
  {
    SecondPushWalk(ns, g, a, b, l1, l2, last, st);
    if ExactInv(ns, g, a, b, l1, l2, last, st) {
      var cover := Cover(ns, g, st);
      CoverPush(ns, g, st, l2);
      SecondPushFirst(ns, g, a, l1, last, cover, ns[l2].seg.begin, SegRange(ns[l2]));
      SecondPushSecond(ns, g, a, b, l1, l2, last, cover);
      SecondPushKept(ns, g, a, b, l1, l2, last, cover);
    }
  }

  lemma WalkSkipSecond(ns: seq<TagNode>, g: Shape, a: nat, b: nat, l1: nat, l2: nat, last: nat, st: seq<nat>)
    requires Inv(ns, g) && IsLabel(ns, g, a) && IsLabel(ns, g, b) && WalkInv(ns, g, a, b, l1, l2, last, st)
    requires l1 != ROOT && l2 != ROOT && ns[l1].seg.begin < ns[l2].seg.begin && last <= ns[l2].seg.begin
    ensures WalkInv(ns, g, a, b, l1, ns[l2].parent, last, st)
    ensures ExactInv(ns, g, a, b, l1, l2, last, st) ==>
      ExactInv(ns, g, a, b, l1, ns[l2].parent, last, st)
  {
    SecondSkipWalk(ns, g, a, b, l1, l2, last, st);
    if ExactInv(ns, g, a, b, l1, l2, last, st) {
      SecondSkipSecond(ns, g, a, b, l1, l2, last, Cover(ns, g, st));
    }
  }

  lemma WalkPushFirst(ns: seq<TagNode>, g: Shape, a: nat, b: nat, l1: nat, l2: nat, last: nat, st: seq<nat>)
    requires Inv(ns, g) && IsLabel(ns, g, a) && IsLabel(ns, g, b) && WalkInv(ns, g, a, b, l1, l2, last, st)
    requires l1 != ROOT && ns[l2].seg.begin <= ns[l1].seg.begin < last
    ensures WalkInv(ns, g, a, b, ns[l1].parent, l2, ns[l1].seg.begin, st + [l1])
    ensures ExactInv(ns, g, a, b, l1, l2, last, st) ==>
      ExactInv(ns, g, a, b, ns[l1].parent, l2, ns[l1].seg.begin, st + [l1])
  {
    FirstPushWalk(ns, g, a, b, l1, l2, last, st);
    if ExactInv(ns, g, a, b, l1, l2, last, st) {
      var cover := Cover(ns, g, st);
      CoverPush(ns, g, st, l1);
      FirstPushFirst(ns, g, a, l1, last, cover);
      FirstMoveSecond(ns, g, a, b, l1, l2, last, cover, ns[l1].seg.begin, SegRange(ns[l1]));
      OwnSegment(ns, g, l1);
    }
  }

  lemma WalkSkipFirst(ns: seq<TagNode>, g: Shape, a: nat, b: nat, l1: nat, l2: nat, last: nat, st: seq<nat>)
    requires Inv(ns, g) && IsLabel(ns, g, a) && IsLabel(ns, g, b) && WalkInv(ns, g, a, b, l1, l2, last, st)
    requires l1 != ROOT && ns[l2].seg.begin <= ns[l1].seg.begin && last <= ns[l1].seg.begin
    ensures WalkInv(ns, g, a, b, ns[l1].parent, l2, last, st)
    ensures ExactInv(ns, g, a, b, l1, l2, last, st) ==>
      ExactInv(ns, g, a, b, ns[l1].parent, l2, last, st)
  {
    FirstSkipWalk(ns, g, a, b, l1, l2, last, st);
    if ExactInv(ns, g, a, b, l1, l2, last, st) {
      var cover := Cover(ns, g, st);
      FirstSkipFirst(ns, g, a, l1, last, cover);
      FirstMoveSecond(ns, g, a, b, l1, l2, last, cover, last, {});
      assert cover + {} == cover;
    }
  }

  lemma OwnSegment(ns: seq<TagNode>, g: Shape, i: nat)
    requires Inv(ns, g) && i != ROOT && IsLabel(ns, g, i)
    ensures SegRange(ns[i]) <= g.den[i]
  {
    ParentStep(ns, g, i);
  }

  /** What the walk hands over: a base label and a stack of segments to add to it. */
  ghost predicate Handover(ns: seq<TagNode>, g: Shape, st: seq<nat>, base: nat)
    requires Inv(ns, g)
  {
    && IsLabel(ns, g, base) && AllOnes(ns, g, st)
    && (forall k: nat, m: nat :: k < m < |st| ==> ns[st[m]].seg.begin < ns[st[k]].seg.begin)
    && (forall k: nat :: k < |st| ==> Contig(ns, g, base, ns[st[k]].seg.begin))
    && (base == ROOT && st != [] ==> AtLeast(g.den[st[|st| - 1]], ns[st[|st| - 1]].seg.begin))
  }

  // ------------------------------------------------------------- replaying the stack

  /** The segments still stacked, against the state ns0 in which they were collected:
      insertions may have cut them, but never above what the current label reaches. */
  ghost predicate PendingOk(ns0: seq<TagNode>, g0: Shape, ns: seq<TagNode>, g: Shape, st: seq<nat>, cur: nat)
    requires Sized(ns0, g0) && AllOnes(ns0, g0, st) && Sized(ns, g) && |ns0| <= |ns| && cur < |ns|
  {
    && (forall k: nat, m: nat :: k < m < |st| ==> ns0[st[m]].seg.begin < ns0[st[k]].seg.begin)
    && (forall k: nat {:trigger st[k]} :: k < |st| ==>
          && Contig(ns, g, cur, ns0[st[k]].seg.begin)
          && (|| ns[st[k]].seg.begin == ns0[st[k]].seg.begin
              || ns0[st[k]].seg.begin <= ns[st[k]].seg.begin <= End(ns, cur)))
    && (cur == ROOT && st != [] ==> AtLeast(g0.den[st[|st| - 1]], ns0[st[|st| - 1]].seg.begin))
  }

  lemma PendingTop(ns0: seq<TagNode>, g0: Shape, ns: seq<TagNode>, g: Shape, st: seq<nat>, cur: nat)
    requires Inv(ns, g) && Grows(ns0, g0, ns, g) && AllOnes(ns0, g0, st) && cur < |ns| && st != []
    requires PendingOk(ns0, g0, ns, g, st, cur)
    ensures var next := st[|st| - 1];
      && next != ROOT && next < |ns0| && IsLabel(ns, g, next)
      && Contig(ns, g, cur, ns0[next].seg.begin)
      && (ns0[next].seg.begin == ns[next].seg.begin || ns0[next].seg.begin <= ns[next].seg.begin <= End(ns, cur))
      && (cur == ROOT ==> AtLeast(g.den[next], ns[next].seg.begin))
  {
    var next := st[|st| - 1];
    assert IsLabel(ns0, g0, next);
    assert g0.den[next] == g.den[next] && End(ns, next) == End(ns0, next);
  }

  lemma PendingStep(ns0: seq<TagNode>, g0: Shape, ns: seq<TagNode>, g: Shape, ns': seq<TagNode>, g': Shape,
                    st: seq<nat>, cur: nat, cur': nat)
    requires Grows(ns0, g0, ns, g) && Grows(ns, g, ns', g')
    requires AllOnes(ns0, g0, st) && cur < |ns| && cur' < |ns'| && st != [] && cur' != ROOT
    requires PendingOk(ns0, g0, ns, g, st, cur)
    requires BeginsRaised(ns, g, ns', End(ns', cur')) && End(ns, cur) <= End(ns', cur')
    requires g'.den[cur'] == g.den[cur] + Range(ns0[st[|st| - 1]].seg.begin, End(ns, st[|st| - 1]))
    requires End(ns', cur') == End(ns, cur) || End(ns', cur') == End(ns, st[|st| - 1])
    ensures Grows(ns0, g0, ns', g')
    ensures AllOnes(ns0, g0, st[..|st| - 1]) && PendingOk(ns0, g0, ns', g', st[..|st| - 1], cur')
    ensures g'.den[cur'] + Cover(ns0, g0, st[..|st| - 1]) == g.den[cur] + Cover(ns0, g0, st)
  {
    GrowsTrans(ns0, g0, ns, g, ns', g');
    assert End(ns, st[|st| - 1]) == End(ns0, st[|st| - 1]);
    var st' := st[..|st| - 1];
    forall k: nat | k < |st'|
      ensures Contig(ns', g', cur', ns0[st'[k]].seg.begin)
      ensures ns'[st'[k]].seg.begin == ns0[st'[k]].seg.begin
              || ns0[st'[k]].seg.begin <= ns'[st'[k]].seg.begin <= End(ns', cur')
    {
      assert st'[k] == st[k] && IsLabel(ns0, g0, st[k]);
      assert ns0[st[|st| - 1]].seg.begin < ns0[st[k]].seg.begin;
      assert ns'[st[k]].seg.begin == ns[st[k]].seg.begin
             || ns[st[k]].seg.begin <= ns'[st[k]].seg.begin <= End(ns', cur');
    }
  }

  /** What holds between two segments of the replay. */
  ghost predicate ReplayInv(ns0: seq<TagNode>, g0: Shape, ns: seq<TagNode>, g: Shape, stack: seq<nat>, st: seq<nat>, base: nat, cur: nat)
    requires Sized(ns0, g0) && AllOnes(ns0, g0, stack) && base < |ns0|
  {
    && Grows(ns0, g0, ns, g) && IsLabel(ns, g, cur) && st <= stack && AllOnes(ns0, g0, st)
    && g.den[cur] + Cover(ns0, g0, st) == g0.den[base] + Cover(ns0, g0, stack)
    && PendingOk(ns0, g0, ns, g, st, cur)
    && (Plain(ns0, g0) ==> Plain(ns, g))
    && |ns| + 2 * |st| <= |ns0| + 2 * |stack| && AddsWithin(|ns0|, ns, g, g.den[cur])
    && Replayed(ns0, g0, ns, g, stack, |st|, cur)
  }

  lemma ReplayBegins(ns: seq<TagNode>, g: Shape, stack: seq<nat>, base: nat)
    requires Inv(ns, g) && Handover(ns, g, stack, base)
    ensures ReplayInv(ns, g, ns, g, stack, stack, base, base)
  {
    ReplayStarts(ns, g, stack, base);
  }

  lemma ReplayNext(ns0: seq<TagNode>, g0: Shape, ns: seq<TagNode>, g: Shape, ns': seq<TagNode>, g': Shape,
                   stack: seq<nat>, st: seq<nat>, base: nat, cur: nat, cur': nat)
    requires Sized(ns0, g0) && AllOnes(ns0, g0, stack) && base < |ns0| && st != []
    requires ReplayInv(ns0, g0, ns, g, stack, st, base, cur) && Grows(ns, g, ns', g')
    requires cur' != ROOT && IsLabel(ns', g', cur') && (Plain(ns, g) ==> Plain(ns', g')) && |ns'| <= |ns| + 2
    requires AddsWithin(|ns|, ns', g', g'.den[cur'])
    requires End(ns, cur) <= End(ns', cur')
    requires var next := st[|st| - 1];
      && g'.den[cur'] == g.den[cur] + Range(ns0[next].seg.begin, End(ns, next))
      && (End(ns', cur') == End(ns, cur) || End(ns', cur') == End(ns, next)) && End(ns, next) <= End(ns', cur')
      && Adds(ns, g, ns', g', {End(ns, next)}) && SignedBy(ns, ns', cur', ns[next].seg.sign)
    ensures ReplayInv(ns0, g0, ns', g', stack, st[..|st| - 1], base, cur')
  {
    var next := st[|st| - 1];
    AddsRaise(ns, g, ns', g', End(ns, next), End(ns', cur'));
    PendingStep(ns0, g0, ns, g, ns', g', st, cur, cur');
    ReplayStep(ns0, g0, ns, g, ns', g', stack, |st|, cur, cur');
    WithinMore(ns0, ns, g, ns', g', g.den[cur], g'.den[cur']);
  }

  lemma WithinMore(ns0: seq<TagNode>, ns: seq<TagNode>, g: Shape, ns': seq<TagNode>, g': Shape, s: set<nat>, s': set<nat>)
    requires Grows(ns, g, ns', g') && |ns0| <= |ns| && s <= s'
    requires AddsWithin(|ns0|, ns, g, s) && AddsWithin(|ns|, ns', g', s')
    ensures AddsWithin(|ns0|, ns', g', s')
  {
    forall i: nat | |ns0| <= i < |ns'| ensures g'.den[i] <= s' {
      assert i < |ns| ==> g'.den[i] == g.den[i] <= s;
    }
  }

  /** A node that starts its path's first run of ones has a right child already. */
  lemma FirstRunAt(ns: seq<TagNode>, g: Shape, next: nat, z: nat)
    requires Inv(ns, g) && next != ROOT && IsLabel(ns, g, next) && z < |ns|
    requires AtLeast(g.den[next], ns[next].seg.begin)
    requires g.den[z] == {} && End(ns, z) == ns[next].seg.begin
    ensures ns[z].right != ROOT
  {
    ParentStep(ns, g, next);
    var z' := FirstRun(ns, g, next, ns[next].seg.begin);
    PathUnique(ns, g, z, z');
  }

  // ------------------------------------------------------------- runs without inference

  lemma {:induction false} PlainBegins(ns: seq<TagNode>, g: Shape, i: nat)
    requires Inv(ns, g) && Plain(ns, g) && IsLabel(ns, g, i)
    ensures forall o :: o in g.den[i] ==> BeginOf(ns, g, i, o) == o
    decreases End(ns, i)
  {
    if i != ROOT {
      assert UnitSeg(ns, g, i);
      BeginOfParent(ns, g, i);
      ParentStep(ns, g, i);
      PlainBegins(ns, g, ns[i].parent);
    }
  }

  lemma PlainKept(ns: seq<TagNode>, g: Shape, a: nat, b: nat)
    requires Inv(ns, g) && Plain(ns, g) && IsLabel(ns, g, a) && IsLabel(ns, g, b)
    ensures Kept(ns, g, a, b) == g.den[a] + g.den[b]
  {
    PlainBegins(ns, g, b);
    if a != ROOT {
      BeginsBound(ns, g, a);
    }
  }

  lemma LabelEnd(ns: seq<TagNode>, g: Shape, i: nat)
    requires Inv(ns, g) && IsLabel(ns, g, i)
    ensures i != ROOT ==> End(ns, i) > 0 && End(ns, i) - 1 in g.den[i]
    ensures forall o :: o in g.den[i] ==> o < End(ns, i)
  {
    if i != ROOT {
      ParentStep(ns, g, i);
      assert NodeOk(ns, g, i);
    }
  }

  /** A label that denotes part of a union does not reach beyond it. */
  lemma UnionEnd(ns: seq<TagNode>, g: Shape, a: nat, b: nat, r: nat)
    requires Inv(ns, g) && IsLabel(ns, g, a) && IsLabel(ns, g, b) && IsLabel(ns, g, r)
    requires g.den[r] <= g.den[a] + g.den[b]
    ensures End(ns, r) <= End(ns, a) || End(ns, r) <= End(ns, b)
  {
    LabelEnd(ns, g, a);
    LabelEnd(ns, g, b);
    LabelEnd(ns, g, r);
  }

  lemma KeptOfRoot(ns: seq<TagNode>, g: Shape, b: nat)
    requires Inv(ns, g) && IsLabel(ns, g, b)
    ensures Kept(ns, g, ROOT, b) == g.den[b] == Kept(ns, g, b, b)
    ensures Kept(ns, g, b, ROOT) == g.den[b]
  {
  }
}
