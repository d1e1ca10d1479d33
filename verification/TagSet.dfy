/**
 TagSet (runtime/src/tag_set.rs): the label store of the taint tracker.
 A panic of the source (node vector full) is the outcome `Exhausted`.
 */
module TagSets {
  import opened TagTrie
  import opened TagAdds
  import opened TagPaths
  import opened TagMerge
  import opened TagInference
  import opened TagFold
  import opened TagShown
  import opened TagListed

  datatype Outcome = Label(lb: nat) | Exhausted

  datatype Reading = Segments(segs: seq<TagSeg>) | OutOfNodes

  class TagSet {
    var nodes: seq<TagNode>
    ghost var shape: Shape

    ghost predicate Valid()
      reads this
    {
      Inv(nodes, shape)
    }

    /** The offsets a label stands for. */
    ghost function SetOf(lb: nat): set<nat>
      requires Valid() && lb < |nodes|
      reads this
    {
      shape.den[lb]
    }

    constructor ()
      ensures Valid() && Plain(nodes, shape) && |nodes| == 1 && NoSigns(nodes) && NoMarks(nodes)
    {
      nodes := [TagNode(ROOT, ROOT, ROOT, false, TagSeg(false, 0, 0))];
      shape := Shape([ROOT], [false], [{}]);
    }

    /** Hangs a new run of n equal bits under `cur`, where no such child exists yet. */
    method AttachLeaf(cur: nat, bit: bool, n: nat, lastOne: nat) returns (r: Outcome)
      requires Valid() && cur < |nodes| && lastOne == LastOne(nodes, shape, cur)
      requires 0 < n && Child(nodes[cur], bit) == ROOT
      requires bit && lastOne == ROOT ==> n == 1
      modifies this
      ensures Valid() && Grows(old(nodes), old(shape), nodes, shape)
      ensures r.Exhausted? ==> |nodes| == MAX_LB && nodes == old(nodes) && shape == old(shape)
      ensures r.Label? ==>
        && r.lb == |old(nodes)| < |nodes| && shape.one[r.lb] == bit
        && SetOf(r.lb) == GrownDen(old(nodes), old(shape), cur, bit, n)
        && End(nodes, r.lb) == End(nodes, cur) + n
        && LastOne(nodes, shape, r.lb) == (if bit then r.lb else lastOne)
        && nodes[r.lb].seg == TagSeg(false, End(nodes, cur), End(nodes, cur) + n)
      ensures Plain(old(nodes), old(shape)) && (bit ==> n == 1) ==> Plain(nodes, shape)
      ensures r.Label? ==> |nodes| == |old(nodes)| + 1
      ensures Adds(old(nodes), old(shape), nodes, shape, if bit then {End(nodes, cur) + n} else {})
      ensures SignsKept(old(nodes), nodes)
    {
      ghost var ns, g := nodes, shape;
      var newLb := |nodes|;
      if newLb >= MAX_LB {
        NothingAdded(nodes, shape, if bit then {End(nodes, cur) + n} else {});
        return Exhausted;
      }
      var off := nodes[cur].seg.end;
      nodes := nodes + [TagNode(ROOT, ROOT, lastOne, false, TagSeg(false, off, off + n))];
      nodes := nodes[cur := WithChild(nodes[cur], bit, newLb)];
      shape := LeafShape(ns, g, cur, bit, n);
      LeafKeepsInv(ns, g, nodes, cur, bit, n);
      LeafAdds(ns, g, nodes, cur, bit, n);
      if bit ==> n == 1 {
        LeafKeepsPlain(ns, g, nodes, cur, bit, n);
      }
      r := Label(newLb);
    }

    /** Cuts the run of `next`, a child of `cur`, after its first n bits. */
    method SplitRun(cur: nat, bit: bool, n: nat, lastOne: nat, next: nat) returns (r: Outcome)
      requires Valid() && cur < |nodes| && lastOne == LastOne(nodes, shape, cur)
      requires next < |nodes| && next != ROOT && Child(nodes[cur], bit) == next
      requires 0 < n < End(nodes, next) - End(nodes, cur)
      modifies this
      ensures Valid() && Grows(old(nodes), old(shape), nodes, shape)
      ensures r.Exhausted? ==> |nodes| == MAX_LB && nodes == old(nodes) && shape == old(shape)
      ensures r.Label? ==>
        && r.lb == |old(nodes)| < |nodes| && shape.one[r.lb] == bit
        && SetOf(r.lb) == GrownDen(old(nodes), old(shape), cur, bit, n)
        && End(nodes, r.lb) == End(nodes, cur) + n
        && LastOne(nodes, shape, r.lb) == (if bit then r.lb else lastOne)
        && nodes[r.lb].seg == TagSeg(false, End(nodes, cur), End(nodes, cur) + n)
      ensures Plain(old(nodes), old(shape)) ==> Plain(nodes, shape)
      ensures r.Label? ==> |nodes| == |old(nodes)| + 1
      ensures Adds(old(nodes), old(shape), nodes, shape, if bit then {End(nodes, cur) + n} else {})
      ensures SignsKept(old(nodes), nodes)
    {
      ghost var ns, g := nodes, shape;
      var newLb := |nodes|;
      if newLb >= MAX_LB {
        NothingAdded(nodes, shape, if bit then {End(nodes, cur) + n} else {});
        return Exhausted;
      }
      var off := nodes[cur].seg.end;
      NextDiffers(ns, g, cur, bit, next);
      nodes := nodes + [TagNode(ROOT, ROOT, lastOne, false, TagSeg(false, off, off + n))];
      nodes := nodes[cur := WithChild(nodes[cur], bit, newLb)];
      nodes := nodes[newLb := WithChild(nodes[newLb], bit, next)];
      nodes := nodes[next := nodes[next].(parent := if bit then newLb else nodes[next].parent,
                                          seg := nodes[next].seg.(begin := off + n))];
      shape := SplitShape(ns, g, cur, bit, n, next);
      SplitFacts(ns, g, nodes, cur, bit, n, next);
      SplitAdds(ns, g, nodes, cur, bit, n, next);
      r := Label(newLb);
    }

    /** Walks (and if needed creates) the path that appends `num` zeros. */
    method InsertZeros(start: nat, num: nat, lastOne: nat) returns (r: Outcome)
      requires Valid() && start < |nodes| && lastOne == LastOne(nodes, shape, start)
      modifies this
      ensures Valid() && Grows(old(nodes), old(shape), nodes, shape)
      ensures r.Exhausted? ==> |nodes| == MAX_LB
      ensures r.Label? ==>
        && r.lb < |nodes|
        && SetOf(r.lb) == SetOf(start) && End(nodes, r.lb) == End(nodes, start) + num
        && LastOne(nodes, shape, r.lb) == lastOne
      ensures Plain(old(nodes), old(shape)) ==> Plain(nodes, shape)
      ensures |nodes| <= |old(nodes)| + 1 && (|nodes| > |old(nodes)| ==> r == Label(|old(nodes)|))
      ensures Adds(old(nodes), old(shape), nodes, shape, {}) && SignsKept(old(nodes), nodes)
    {
      NothingAdded(nodes, shape, {});
      var cur: nat, n: nat := start, num;
      while n != 0
        invariant nodes == old(nodes) && shape == old(shape)
        invariant cur < |nodes| && lastOne == LastOne(nodes, shape, cur)
        invariant SetOf(cur) == SetOf(start) && End(nodes, cur) + n == End(nodes, start) + num
        decreases n
      {
        var next := nodes[cur].left;
        if next == ROOT {
          r := AttachLeaf(cur, false, n, lastOne);
          return;
        }
        ChildFacts(nodes, shape, cur, false);
        var nextSize := nodes[next].seg.end - nodes[next].seg.begin;
        if nextSize > n {
          r := SplitRun(cur, false, n, lastOne, next);
          return;
        }
        cur, n := next, n - nextSize;
      }
      r := Label(cur);
    }

    /** Follows existing runs of ones as long as they fit into `num`. */
    method WalkOnes(start: nat, num: nat, lastOne: nat) returns (cur: nat, n: nat, last: nat)
      requires Valid() && start < |nodes| && lastOne == LastOne(nodes, shape, start)
      ensures cur < |nodes| && n <= num && last == LastOne(nodes, shape, cur)
      ensures End(nodes, cur) == End(nodes, start) + (num - n)
      ensures SetOf(cur) == SetOf(start) + Range(End(nodes, start), End(nodes, cur))
      ensures n != 0 ==> nodes[cur].right == ROOT
                         || (nodes[cur].right < |nodes| && n < End(nodes, nodes[cur].right) - End(nodes, cur))
      ensures n == num ==> cur == start
      ensures n < num ==> cur != ROOT && shape.one[cur]
      ensures lastOne == ROOT && num != 0 && nodes[start].right != ROOT ==> n < num
    {
      cur, n, last := start, num, lastOne;
      while n != 0
        invariant cur < |nodes| && n <= num && last == LastOne(nodes, shape, cur)
        invariant End(nodes, cur) == End(nodes, start) + (num - n)
        invariant SetOf(cur) == SetOf(start) + Range(End(nodes, start), End(nodes, cur))
        invariant n == num ==> cur == start
        invariant n < num ==> cur != ROOT && shape.one[cur]
      {
        var next := nodes[cur].right;
        if next == ROOT {
          return;
        }
        ChildFacts(nodes, shape, cur, true);
        var lastEnd := nodes[cur].seg.end;
        var nextSize := nodes[next].seg.end - lastEnd;
        if nextSize > n {
          return;
        }
        RangeJoin(SetOf(start), End(nodes, start), lastEnd, lastEnd + nextSize);
        cur, n := next, n - nextSize;
        last := cur;
      }
    }

    /** Walks (and if needed creates) the path that appends `num` ones.  A run of ones
        that is the first one of its path is only ever created one offset long. */
    method InsertOnes(start: nat, num: nat, lastOne: nat) returns (r: Outcome)
      requires Valid() && start < |nodes| && lastOne == LastOne(nodes, shape, start)
      requires lastOne == ROOT ==> num <= 1 || nodes[start].right != ROOT
      modifies this
      ensures Valid() && Grows(old(nodes), old(shape), nodes, shape)
      ensures r.Exhausted? ==> |nodes| == MAX_LB
      ensures r.Label? ==>
        && r.lb < |nodes|
        && SetOf(r.lb) == SetOf(start) + Range(End(nodes, start), End(nodes, start) + num)
        && End(nodes, r.lb) == End(nodes, start) + num
        && (num == 0 ==> r.lb == start) && (num > 0 ==> r.lb != ROOT && shape.one[r.lb])
      ensures Plain(old(nodes), old(shape)) && num <= 1 ==> Plain(nodes, shape)
      ensures num == 1 && |nodes| > |old(nodes)| ==> r.Label? && nodes[r.lb].seg == TagSeg(false, End(nodes, start), End(nodes, start) + 1)
      ensures |nodes| <= |old(nodes)| + 1 && (|nodes| > |old(nodes)| ==> r == Label(|old(nodes)|))
      ensures Adds(old(nodes), old(shape), nodes, shape, {End(nodes, start) + num}) && SignsKept(old(nodes), nodes)
    {
      NothingAdded(nodes, shape, {End(nodes, start) + num});
      var cur, n, last := WalkOnes(start, num, lastOne);
      if n == 0 {
        return Label(cur);
      }
      RangeJoin(SetOf(start), End(nodes, start), End(nodes, cur), End(nodes, cur) + n);
      var next := nodes[cur].right;
      if next == ROOT {
        r := AttachLeaf(cur, true, n, last);
      } else {
        r := SplitRun(cur, true, n, last, next);
      }
    }

    /** The first loop of `combine`: walks both parent chains back towards the root. */
    method Collect(a: nat, b: nat) returns (st: seq<nat>, base: nat)
      requires Valid() && a != ROOT && b != ROOT && IsLabel(nodes, shape, a) && IsLabel(nodes, shape, b)
      ensures Handover(nodes, shape, st, base)
      ensures SetOf(base) + Cover(nodes, shape, st) <= SetOf(a) + SetOf(b)
      ensures Small(nodes, a, b) ==> SetOf(base) + Cover(nodes, shape, st) == Kept(nodes, shape, a, b)
      ensures |st| <= End(nodes, a) + End(nodes, b)
      ensures Shown(nodes, shape, a, b, st)
    {
      var l1, l2, last := a, b, MAX_LB;
      st := [];
      CollectBegins(nodes, shape, a, b);
      while l1 > 0 && l1 != l2
        invariant CollectInv(nodes, shape, a, b, l1, l2, last, st)
        decreases End(nodes, l1) + End(nodes, l2)
      {
        var b1 := nodes[l1].seg.begin;
        var b2 := nodes[l2].seg.begin;
        if b1 < b2 {
          CollectSecond(nodes, shape, a, b, l1, l2, last, st);
          if b2 < last {
            st := st + [l2];
            last := b2;
          }
          l2 := nodes[l2].parent;
        } else {
          CollectFirst(nodes, shape, a, b, l1, l2, last, st);
          if b1 < last {
            st := st + [l1];
            last := b1;
          }
          l1 := nodes[l1].parent;
        }
      }
      base := if l1 > 0 then l1 else l2;
      CollectEnds(nodes, shape, a, b, l1, l2, last, st);
    }

    /** The body of the second loop of `combine`, up to the sign: adds segment `next` to `cur`.
        `was` is where that segment began before earlier insertions may have cut it. */
    method AddSegment(cur: nat, next: nat, ghost was: nat) returns (r: Outcome)
      requires Valid() && IsLabel(nodes, shape, cur) && next != ROOT && IsLabel(nodes, shape, next)
      requires was == nodes[next].seg.begin || was <= nodes[next].seg.begin <= End(nodes, cur)
      requires Contig(nodes, shape, cur, was)
      requires cur == ROOT ==> AtLeast(SetOf(next), nodes[next].seg.begin)
      modifies this
      ensures Valid() && Grows(old(nodes), old(shape), nodes, shape)
      ensures r.Exhausted? ==> |nodes| == MAX_LB
      ensures r.Label? ==>
        && r.lb != ROOT && IsLabel(nodes, shape, r.lb)
        && SetOf(r.lb) == SetOf(cur) + Range(was, End(nodes, next))
        && (End(nodes, r.lb) == End(nodes, cur) || End(nodes, r.lb) == End(nodes, next))
        && End(nodes, cur) <= End(nodes, r.lb)
        && End(nodes, next) <= End(nodes, r.lb)
      ensures Plain(old(nodes), old(shape)) ==> Plain(nodes, shape)
      ensures |nodes| <= |old(nodes)| + 2 && (r.Label? ==> AddsWithin(|old(nodes)|, nodes, shape, SetOf(r.lb)))
      ensures Adds(old(nodes), old(shape), nodes, shape, {End(nodes, next)}) && SignsKept(old(nodes), nodes)
    {
      var curEnd := nodes[cur].seg.end;
      var nextSeg := nodes[next].seg;
      NothingAdded(nodes, shape, {nextSeg.end});
      SegNonEmpty(nodes, shape, next);
      assert Plain(nodes, shape) ==> UnitSeg(nodes, shape, next);
      if curEnd >= nextSeg.begin {
        if nextSeg.end > curEnd {
          if cur == ROOT {
            FirstRunAt(nodes, shape, next, ROOT);
          }
          r := InsertOnes(cur, nextSeg.end - curEnd, cur);
        } else {
          r := Label(cur);
        }
      } else {
        r := AddAfterGap(cur, next);
      }
    }

    method AddAfterGap(cur: nat, next: nat) returns (r: Outcome)
      requires Valid() && IsLabel(nodes, shape, cur) && next != ROOT && IsLabel(nodes, shape, next)
      requires End(nodes, cur) < nodes[next].seg.begin
      requires cur == ROOT ==> AtLeast(SetOf(next), nodes[next].seg.begin)
      modifies this
      ensures Valid() && Grows(old(nodes), old(shape), nodes, shape)
      ensures r.Exhausted? ==> |nodes| == MAX_LB
      ensures r.Label? ==>
        && r.lb != ROOT && IsLabel(nodes, shape, r.lb)
        && SetOf(r.lb) == SetOf(cur) + Range(old(nodes)[next].seg.begin, End(nodes, next))
        && End(nodes, r.lb) == End(nodes, next)
        && End(nodes, next) <= End(nodes, r.lb)
      ensures Plain(old(nodes), old(shape)) ==> Plain(nodes, shape)
      ensures |nodes| <= |old(nodes)| + 2 && (r.Label? ==> AddsWithin(|old(nodes)|, nodes, shape, SetOf(r.lb)))
      ensures Adds(old(nodes), old(shape), nodes, shape, {End(nodes, next)}) && SignsKept(old(nodes), nodes)
    {
      var nextSeg := nodes[next].seg;
      SegNonEmpty(nodes, shape, next);
      assert Plain(nodes, shape) ==> UnitSeg(nodes, shape, next);
      var lastLb := cur;
      var z := InsertZeros(cur, nextSeg.begin - nodes[cur].seg.end, lastLb);
      AddsMore(old(nodes), old(shape), nodes, shape, {}, {nextSeg.end});
      if z.Exhausted? {
        return Exhausted;
      }
      SegStays(old(nodes), old(shape), nodes, shape, next);
      if cur == ROOT {
        FirstRunAt(nodes, shape, next, z.lb);
      }
      ghost var ns1, g1 := nodes, shape;
      assert End(nodes, z.lb) == nextSeg.begin && SetOf(z.lb) == old(SetOf(cur));
      r := InsertOnes(z.lb, nextSeg.end - nextSeg.begin, lastLb);
      assert End(nodes, z.lb) == nextSeg.begin && SetOf(z.lb) == old(SetOf(cur));
      AddsTrans(old(nodes), old(shape), ns1, g1, nodes, shape, {nextSeg.end}, {nextSeg.end});
      assert {nextSeg.end} + {nextSeg.end} == {nextSeg.end};
      SignsTrans(old(nodes), ns1, nodes);
    }

    /** The body of the second loop of `combine`. */
    method AddSigned(cur: nat, next: nat, ghost was: nat) returns (r: Outcome)
      requires Valid() && IsLabel(nodes, shape, cur) && next != ROOT && IsLabel(nodes, shape, next)
      requires was == nodes[next].seg.begin || was <= nodes[next].seg.begin <= End(nodes, cur)
      requires Contig(nodes, shape, cur, was)
      requires cur == ROOT ==> AtLeast(SetOf(next), nodes[next].seg.begin)
      modifies this
      ensures Valid() && Grows(old(nodes), old(shape), nodes, shape)
      ensures r.Exhausted? ==> |nodes| == MAX_LB
      ensures r.Label? ==>
        && r.lb != ROOT && IsLabel(nodes, shape, r.lb)
        && SetOf(r.lb) == SetOf(cur) + Range(was, End(nodes, next))
        && (End(nodes, r.lb) == End(nodes, cur) || End(nodes, r.lb) == End(nodes, next))
        && End(nodes, cur) <= End(nodes, r.lb)
        && End(nodes, next) <= End(nodes, r.lb)
        && SignedBy(old(nodes), nodes, r.lb, old(nodes)[next].seg.sign)
      ensures Plain(old(nodes), old(shape)) ==> Plain(nodes, shape)
      ensures |nodes| <= |old(nodes)| + 2 && (r.Label? ==> AddsWithin(|old(nodes)|, nodes, shape, SetOf(r.lb)))
      ensures Adds(old(nodes), old(shape), nodes, shape, {End(nodes, next)}) && SignsHold(old(nodes), nodes)
    {
      var sign := nodes[next].seg.sign;
      r := AddSegment(cur, next, was);
      ghost var ns1 := nodes;
      KeptHold(old(nodes), nodes);
      if r.Label? && sign {
        MarkSign(r.lb);
        AddsMarks(ns1, shape, nodes, {});
        AddsTrans(old(nodes), old(shape), ns1, shape, nodes, shape, {End(nodes, next)}, {});
        assert {End(nodes, next)} + {} == {End(nodes, next)};
      }
      if r.Label? {
        SignedAfter(old(nodes), ns1, nodes, r.lb, sign);
        MarkHold(old(nodes), nodes, r.lb, sign);
      }
    }

    /** The second loop of `combine`: adds the stacked segments to the base label, lowest first. */
    method Replay(stack: seq<nat>, base: nat) returns (r: Outcome)
      requires Valid() && Handover(nodes, shape, stack, base)
      modifies this
      ensures Valid() && Grows(old(nodes), old(shape), nodes, shape)
      ensures r.Exhausted? ==> |nodes| == MAX_LB
      ensures r.Label? ==>
        && IsLabel(nodes, shape, r.lb)
        && SetOf(r.lb) == SetOf(base) + old(Cover(nodes, shape, stack))
      ensures Plain(old(nodes), old(shape)) ==> Plain(nodes, shape)
      ensures |nodes| <= |old(nodes)| + 2 * |stack| && (r.Label? ==> AddsWithin(|old(nodes)|, nodes, shape, SetOf(r.lb)))
      ensures r.Label? ==> Replayed(old(nodes), old(shape), nodes, shape, stack, 0, r.lb)
      ensures SignsHold(old(nodes), nodes)
    {
      var st, cur := stack, base;
      ghost var ns0, g0 := nodes, shape;
      ReplayBegins(nodes, shape, stack, base);
      while st != []
        invariant Valid() && ReplayInv(ns0, g0, nodes, shape, stack, st, base, cur) && SignsHold(ns0, nodes)
        decreases |st|
      {
        ghost var ns1 := nodes;
        var added := ReplayOne(stack, st, base, cur, ns0, g0);
        HoldTrans(ns0, ns1, nodes);
        if added.Exhausted? {
          return Exhausted;
        }
        cur, st := added.lb, st[..|st| - 1];
      }
      r := Label(cur);
    }

    method ReplayOne(stack: seq<nat>, st: seq<nat>, ghost base: nat, cur: nat, ghost ns0: seq<TagNode>, ghost g0: Shape)
      returns (r: Outcome)
      requires Valid() && Sized(ns0, g0) && AllOnes(ns0, g0, stack) && base < |ns0| && st != []
      requires ReplayInv(ns0, g0, nodes, shape, stack, st, base, cur)
      modifies this
      ensures Valid() && Grows(ns0, g0, nodes, shape)
      ensures r.Exhausted? ==> |nodes| == MAX_LB && (Plain(ns0, g0) ==> Plain(nodes, shape))
      ensures |nodes| <= |ns0| + 2 * |stack| && SignsHold(old(nodes), nodes)
      ensures r.Label? ==> ReplayInv(ns0, g0, nodes, shape, stack, st[..|st| - 1], base, r.lb)
    {
      var next := st[|st| - 1];
      ghost var ns1, g1 := nodes, shape;
      PendingTop(ns0, g0, ns1, g1, st, cur);
      r := AddSigned(cur, next, ns0[next].seg.begin);
      GrowsTrans(ns0, g0, ns1, g1, nodes, shape);
      if r.Label? {
        ReplayNext(ns0, g0, ns1, g1, nodes, shape, stack, st, base, cur, r.lb);
      }
    }

    method MarkSign(lb: nat)
      requires Valid() && lb < |nodes|
      modifies this
      ensures Valid() && Grows(old(nodes), old(shape), nodes, shape) && shape == old(shape)
      ensures SameButMarks(old(nodes), nodes)
      ensures nodes[lb].seg.sign
      ensures forall i: nat :: i < |nodes| && i != lb ==> nodes[i] == old(nodes)[i]
      ensures nodes[lb] == old(nodes)[lb].(seg := old(nodes)[lb].seg.(sign := true))
      ensures Plain(old(nodes), old(shape)) ==> Plain(nodes, shape)
    {
      nodes := nodes[lb := nodes[lb].(seg := nodes[lb].seg.(sign := true))];
      MarksKeepInv(old(nodes), shape, nodes);
    }

    method Insert(offset: nat) returns (r: Outcome)
      requires Valid()
      modifies this
      ensures Valid() && Grows(old(nodes), old(shape), nodes, shape)
      ensures r.Exhausted? ==> |nodes| == MAX_LB
      ensures r.Label? ==>
        && r.lb != ROOT && IsLabel(nodes, shape, r.lb)
        && SetOf(r.lb) == {offset} && End(nodes, r.lb) == offset + 1
      ensures Plain(old(nodes), old(shape)) ==> Plain(nodes, shape)
      ensures |nodes| <= |old(nodes)| + 2 && (r.Label? ==> AddsWithin(|old(nodes)|, nodes, shape, SetOf(r.lb)))
      ensures Adds(old(nodes), old(shape), nodes, shape, {offset + 1}) && SignsHold(old(nodes), nodes)
    {
      var z := InsertZeros(ROOT, offset, ROOT);
      KeptHold(old(nodes), nodes);
      AddsMore(old(nodes), old(shape), nodes, shape, {}, {offset + 1});
      if z.Exhausted? {
        return Exhausted;
      }
      ghost var ns1, g1 := nodes, shape;
      r := InsertOnes(z.lb, 1, ROOT);
      KeptHold(ns1, nodes);
      HoldTrans(old(nodes), ns1, nodes);
      AddsTrans(old(nodes), old(shape), ns1, g1, nodes, shape, {offset + 1}, {offset + 1});
      assert {offset + 1} + {offset + 1} == {offset + 1};
      assert Range(offset, offset + 1) == {offset};
    }

    /** The label of the union of two labels.  `Kept` says exactly which offsets of the
        higher label survive; without shape inference they all do. */
    method Combine(a: nat, b: nat) returns (r: Outcome)
      requires Valid() && IsLabel(nodes, shape, a) && IsLabel(nodes, shape, b)
      modifies this
      ensures Valid() && Grows(old(nodes), old(shape), nodes, shape)
      ensures r.Exhausted? ==> |nodes| == MAX_LB
      ensures r.Label? ==>
        && IsLabel(nodes, shape, r.lb)
        && SetOf(r.lb) <= SetOf(a) + SetOf(b)
        && (End(nodes, r.lb) <= End(nodes, a) || End(nodes, r.lb) <= End(nodes, b))
        && (old(Small(nodes, a, b)) ==>
              && (a <= b ==> SetOf(r.lb) == old(Kept(nodes, shape, a, b)))
              && (b <= a ==> SetOf(r.lb) == old(Kept(nodes, shape, b, a))))
      ensures Plain(old(nodes), old(shape)) ==> Plain(nodes, shape)
      ensures Plain(old(nodes), old(shape)) && old(Small(nodes, a, b)) && r.Label? ==>
        SetOf(r.lb) == SetOf(a) + SetOf(b)
      ensures a == b || a == ROOT || b == ROOT ==>
        nodes == old(nodes) && shape == old(shape) && r == Label(if a == ROOT then b else a)
      ensures |nodes| <= |old(nodes)| + 2 * (End(nodes, a) + End(nodes, b)) && SignsHold(old(nodes), nodes)
      ensures r.Label? ==> AddsWithin(|old(nodes)|, nodes, shape, SetOf(r.lb))
      ensures r.Label? ==>
        && (a <= b ==> Combined(old(nodes), old(shape), nodes, shape, a, b, r.lb))
        && (b <= a ==> Combined(old(nodes), old(shape), nodes, shape, b, a, r.lb))
    {
      if a == ROOT {
        KeptOfRoot(nodes, shape, b);
        NothingCombined(nodes, shape, a, b, b);
        return Label(b);
      }
      if b == ROOT || a == b {
        KeptOfRoot(nodes, shape, a);
        NothingCombined(nodes, shape, b, a, a);
        return Label(a);
      }
      if a <= b {
        r := CombineOrdered(a, b);
      } else {
        r := CombineOrdered(b, a);
      }
    }

    /** Two different labels, in the order of their indices. */
    method CombineOrdered(l1: nat, l2: nat) returns (r: Outcome)
      requires Valid() && ROOT != l1 < l2 && IsLabel(nodes, shape, l1) && IsLabel(nodes, shape, l2)
      modifies this
      ensures Valid() && Grows(old(nodes), old(shape), nodes, shape)
      ensures r.Exhausted? ==> |nodes| == MAX_LB
      ensures r.Label? ==>
        && IsLabel(nodes, shape, r.lb)
        && SetOf(r.lb) <= SetOf(l1) + SetOf(l2)
        && (End(nodes, r.lb) <= End(nodes, l1) || End(nodes, r.lb) <= End(nodes, l2))
        && (old(Small(nodes, l1, l2)) ==> SetOf(r.lb) == old(Kept(nodes, shape, l1, l2)))
        && AddsWithin(|old(nodes)|, nodes, shape, SetOf(r.lb))
        && Combined(old(nodes), old(shape), nodes, shape, l1, l2, r.lb)
      ensures Plain(old(nodes), old(shape)) ==> Plain(nodes, shape) && Kept(old(nodes), old(shape), l1, l2) == SetOf(l1) + SetOf(l2)
      ensures |nodes| <= |old(nodes)| + 2 * (End(nodes, l1) + End(nodes, l2)) && SignsHold(old(nodes), nodes)
    {
      var st, base := Collect(l1, l2);
      if Plain(nodes, shape) {
        PlainKept(nodes, shape, l1, l2);
      }
      r := Replay(st, base);
      if r.Label? {
        UnionEnd(nodes, shape, l1, l2, r.lb);
        ReplayedIsCombined(old(nodes), old(shape), nodes, shape, l1, l2, st, r.lb);
      }
    }

    method SetSign(lb: nat)
      requires Valid() && lb < |nodes|
      modifies this
      ensures Valid() && Grows(old(nodes), old(shape), nodes, shape) && shape == old(shape)
      ensures SameButMarks(old(nodes), nodes) && nodes[lb].seg.sign && SignsStay(old(nodes), nodes)
      ensures forall i: nat :: i < |nodes| && i != lb ==> nodes[i] == old(nodes)[i]
      ensures nodes[lb] == old(nodes)[lb].(seg := old(nodes)[lb].seg.(sign := true))
      ensures Plain(old(nodes), old(shape)) ==> Plain(nodes, shape)
    {
      MarkSign(lb);
    }

    /** Marks a label as operand of a bitwise and: the next reader splits its shape. */
    method CombineAnd(lb: nat)
      requires Valid() && lb < |nodes|
      modifies this
      ensures Valid() && shape == old(shape) && SameButMarks(old(nodes), nodes)
      ensures nodes[lb].andOp
      ensures forall i: nat :: i < |nodes| ==> nodes[i].seg == old(nodes)[i].seg
      ensures SignsHold(old(nodes), nodes)
      ensures forall i: nat :: i < |nodes| && i != lb ==> nodes[i] == old(nodes)[i]
      ensures Plain(old(nodes), old(shape)) ==> Plain(nodes, shape)
    {
      nodes := nodes[lb := nodes[lb].(andOp := true)];
      MarksKeepInv(old(nodes), shape, nodes);
    }

    /** Rewrites where the segment of a label begins. */
    method SetBegin(lb: nat, b: nat)
      requires Valid() && lb != ROOT && IsLabel(nodes, shape, lb) && MayBegin(nodes, shape, lb, b)
      modifies this
      ensures Valid() && Grows(old(nodes), old(shape), nodes, shape) && shape == old(shape)
      ensures nodes == old(nodes)[lb := WithBegin(old(nodes)[lb], b)] && SignsHold(old(nodes), nodes)
    {
      BeginKeepsInv(nodes, shape, lb, b);
      nodes := nodes[lb := WithBegin(nodes[lb], b)];
    }

    /** Inserts the missing unit nodes between p and lb, whose paths differ by ones only. */
    method SplitUnits(lb: nat, p: nat, ghost b: nat) returns (ok: bool)
      requires Valid() && GapFree(nodes, shape, lb, p, b)
      modifies this
      ensures Valid() && Grows(old(nodes), old(shape), nodes, shape)
      ensures !ok ==> |nodes| == MAX_LB
      ensures SignsKept(old(nodes), nodes)
      ensures ok ==> SplitInv(old(nodes), old(shape), nodes, shape, lb, p, b, lb)
    {
      var cur := p;
      ghost var ns0, g0 := nodes, shape;
      SplitBegins(nodes, shape, lb, p, b);
      while cur != lb
        invariant Valid() && SplitInv(ns0, g0, nodes, shape, lb, p, b, cur)
        decreases End(nodes, lb) - End(nodes, cur)
      {
        ghost var ns1, g1, cur1 := nodes, shape, cur;
        if End(nodes, cur) == End(nodes, lb) {
          PathUnique(nodes, shape, cur, lb);
        }
        RangeJoin({}, b, End(nodes, cur), End(nodes, cur) + 1);
        var r := InsertOnes(cur, 1, cur);
        GrowsTrans(ns0, g0, ns1, g1, nodes, shape);
        SignsTrans(ns0, ns1, nodes);
        if r.Exhausted? {
          return false;
        }
        SplitAdvances(ns0, g0, ns1, g1, nodes, shape, lb, p, b, cur1, r.lb);
        cur := r.lb;
      }
      ok := true;
    }

    /** Breaks a widened segment up: its last offset becomes a segment of its own, right above its parent's. */
    method SplitAndOp(lb: nat) returns (ok: bool)
      requires Valid() && IsLabel(nodes, shape, lb)
      modifies this
      ensures Valid() && Grows(old(nodes), old(shape), nodes, shape)
      ensures !ok ==> |nodes| == MAX_LB
      ensures ok && old(Breaks(nodes, lb)) ==> Broken(old(nodes), old(shape), nodes, shape, lb)
      ensures SignsHold(old(nodes), nodes)
      ensures !old(Breaks(nodes, lb)) ==> ok && nodes == old(nodes) && shape == old(shape)
      ensures Plain(old(nodes), old(shape)) ==> ok && nodes == old(nodes) && shape == old(shape)
    {
      var seg := nodes[lb].seg;
      ok := true;
      assert lb != ROOT && Plain(nodes, shape) ==> UnitSeg(nodes, shape, lb);
      if seg.end - seg.begin > 1 {
        assert lb != ROOT;
        var p := nodes[lb].parent;
        ParentStep(nodes, shape, lb);
        if p != ROOT && nodes[p].seg.begin >= seg.begin {
          GuardMeansWidened(nodes, shape, lb);
          SegNonEmpty(nodes, shape, p);
          ok := SplitUnits(lb, p, seg.begin);
          KeptHold(old(nodes), nodes);
          if !ok {
            return;
          }
          ghost var ns1 := nodes;
          SplitEnds(old(nodes), old(shape), nodes, shape, lb, p, seg.begin);
          ParentTouches(nodes, shape, lb, seg.begin);
          SetBegin(lb, seg.end - 1);
          HoldTrans(old(nodes), ns1, nodes);
          GrowsTrans(old(nodes), old(shape), ns1, shape, nodes, shape);
          BrokenUp(old(nodes), old(shape), ns1, shape, nodes, lb);
        }
      }
    }

    /** One iteration of `find`. */
    method ReadOne(label0: nat, lb: nat, last: nat, tags: seq<TagSeg>, ghost all: seq<TagSeg>, ghost exact: bool)
      returns (ok: bool, next: nat, last': nat, tags': seq<TagSeg>)
      requires Valid() && IsLabel(nodes, shape, label0) && lb != ROOT && ReadInv(nodes, shape, label0, lb, last, tags)
      requires exact ==> ListInv(nodes, shape, all, lb, last, tags)
      modifies this
      ensures Valid() && Grows(old(nodes), old(shape), nodes, shape)
      ensures !ok ==> |nodes| == MAX_LB
      ensures ok ==> ReadInv(nodes, shape, label0, next, last', tags') && End(nodes, next) < End(nodes, lb)
      ensures ok && exact ==> ListInv(nodes, shape, all, next, last', tags')
      ensures Plain(old(nodes), old(shape)) || !old(nodes[lb].andOp) ==> ok && nodes == old(nodes) && shape == old(shape)
      ensures SignsHold(old(nodes), nodes)
    {
      next, last', tags' := lb, last, tags;
      if nodes[lb].andOp {
        ok := SplitAndOp(lb);
        if !ok {
          return;
        }
        if exact && old(Breaks(nodes, lb)) {
          ListKept(old(nodes), old(shape), nodes, shape, all, lb, last, tags);
        }
      }
      ok := true;
      var t := nodes[lb].seg;
      ParentLower(nodes, shape, lb);
      if exact {
        ListStep(nodes, shape, all, lb, last, tags);
      }
      if t.begin < last {
        ReadPush(nodes, shape, label0, lb, last, tags);
        tags' := tags + [t];
        last' := t.begin;
      } else {
        ReadSkip(nodes, shape, label0, lb, last, tags);
      }
      next := nodes[lb].parent;
    }

    /** The loop of `find`: segments highest first. */
    method FindTags(label0: nat) returns (ok: bool, tags: seq<TagSeg>, ghost last0: nat)
      requires Valid() && IsLabel(nodes, shape, label0)
      modifies this
      ensures Valid() && Grows(old(nodes), old(shape), nodes, shape)
      ensures !ok ==> |nodes| == MAX_LB
      ensures ok ==> ReadInv(nodes, shape, label0, ROOT, last0, tags)
      ensures ok && old(InReach(nodes, label0, MAX_LB)) ==> Reversed(tags) == Listed(old(nodes), old(shape), label0)
      ensures Plain(old(nodes), old(shape)) || NoMarks(old(nodes)) ==> ok && nodes == old(nodes) && shape == old(shape)
      ensures SignsHold(old(nodes), nodes)
    {
      var lb: nat, last: nat := label0, MAX_LB;
      ok, tags, last0 := true, [], MAX_LB;
      ghost var ns0, g0 := nodes, shape;
      ghost var all, exact := Listed(nodes, shape, label0), InReach(nodes, label0, MAX_LB);
      ReadStarts(nodes, shape, label0);
      if exact {
        ListStarts(nodes, shape, label0);
      }
      while lb > 0
        invariant Valid() && Grows(ns0, g0, nodes, shape)
        invariant IsLabel(nodes, shape, label0) && ReadInv(nodes, shape, label0, lb, last, tags)
        invariant exact ==> ListInv(nodes, shape, all, lb, last, tags)
        invariant Plain(ns0, g0) || NoMarks(ns0) ==> nodes == ns0 && shape == g0
        invariant SignsHold(ns0, nodes)
        invariant ok
        decreases End(nodes, lb)
      {
        ghost var ns1, g1 := nodes, shape;
        ok, lb, last, tags := ReadOne(label0, lb, last, tags, all, exact);
        GrowsTrans(ns0, g0, ns1, g1, nodes, shape);
        HoldTrans(ns0, ns1, nodes);
        if !ok {
          return;
        }
      }
      last0 := last;
      if exact {
        ListEnds(nodes, shape, all, last, tags);
      }
    }

    /** The segments of a label, lowest first: exactly what `Listed` says. */
    method Find(label0: nat) returns (r: Reading)
      requires Valid() && IsLabel(nodes, shape, label0)
      modifies this
      ensures Valid() && Grows(old(nodes), old(shape), nodes, shape)
      ensures r.OutOfNodes? ==> |nodes| == MAX_LB
      ensures r.Segments? ==>
        && Ascending(r.segs)
        && (forall o: nat :: Covers(r.segs, o) ==> o in SetOf(label0))
        && (End(nodes, label0) <= MAX_LB ==> forall o: nat :: o in SetOf(label0) ==> Covers(r.segs, o))
        && (old(InReach(nodes, label0, MAX_LB)) ==> r.segs == Listed(old(nodes), old(shape), label0))
        && (old(OneSegment(nodes, shape, label0)) ==> r.segs == [old(nodes[label0].seg)])
        && (End(nodes, label0) <= MAX_LB ==> SignsRead(old(nodes), label0, r.segs))
      ensures Plain(old(nodes), old(shape)) ==> r.Segments? && nodes == old(nodes) && shape == old(shape)
      ensures NoMarks(old(nodes)) && End(nodes, label0) <= MAX_LB ==>
        && nodes == old(nodes) && shape == old(shape)
        && r == Segments(Visible(nodes, shape, label0))
      ensures SignsHold(old(nodes), nodes)
    {
      var ok, tags, last := FindTags(label0);
      if !ok {
        return OutOfNodes;
      }
      ReadEnds(nodes, shape, label0, last, tags);
      ListedFacts(old(nodes), old(shape), label0);
      r := Segments(Reversed(tags));
    }

    /** The label of the `len` consecutive offsets from l1's on, as one segment. */
    method Group(l1: nat, len: nat) returns (r: Outcome)
      requires Valid() && l1 != ROOT && IsLabel(nodes, shape, l1) && nodes[l1].parent == ROOT && 1 < len
      modifies this
      ensures Valid() && Grows(old(nodes), old(shape), nodes, shape)
      ensures r.Exhausted? ==> |nodes| == MAX_LB
      ensures r.Label? ==>
        && r.lb != ROOT && IsLabel(nodes, shape, r.lb)
        && nodes[r.lb].seg.begin == old(nodes)[l1].seg.begin
        && End(nodes, r.lb) == old(nodes)[l1].seg.begin + len
        && SetOf(r.lb) == SegRange(nodes[r.lb])
      ensures |nodes| <= |old(nodes)| + 1 && SignsHold(old(nodes), nodes)
    {
      ghost var b := nodes[l1].seg.begin;
      SingleOffset(nodes, shape, l1);
      GroupSet(b, len);
      r := InsertOnes(l1, len - 1, l1);
      KeptHold(old(nodes), nodes);
      if r.Label? {
        ghost var ns1 := nodes;
        LowKept(old(nodes), old(shape), nodes, shape, {b + len}, l1);
        SegNonEmpty(nodes, shape, l1);
        SetBegin(r.lb, nodes[l1].seg.begin);
        HoldTrans(old(nodes), ns1, nodes);
        GrowsTrans(old(nodes), old(shape), ns1, shape, nodes, shape);
      }
    }

    /** Groups the labels of the first and last of `len` consecutive bytes into one variable. */
    method InferShape(l1: nat, l2: nat, len: nat) returns (fired: bool, r: Outcome)
      requires Valid() && l1 != ROOT && IsLabel(nodes, shape, l1) && IsLabel(nodes, shape, l2)
      modifies this
      ensures Valid() && Grows(old(nodes), old(shape), nodes, shape)
      ensures fired == ShapeOf(old(nodes), l1, l2, len)
      ensures !fired ==> nodes == old(nodes) && shape == old(shape)
      ensures fired && r.Exhausted? ==> |nodes| == MAX_LB
      ensures fired && r.Label? ==>
        && r.lb != ROOT && IsLabel(nodes, shape, r.lb)
        && SetOf(r.lb) == Range(old(nodes)[l1].seg.begin, old(nodes)[l1].seg.begin + len) == SegRange(nodes[r.lb])
        && End(nodes, r.lb) == End(nodes, l2)
      ensures |nodes| <= |old(nodes)| + 1 && SignsHold(old(nodes), nodes)
    {
      r := Label(ROOT);
      if len != 2 && len != 4 && len != 8 {
        return false, r;
      }
      if nodes[l1].parent == ROOT && nodes[l2].parent == ROOT && nodes[l1].seg.begin + len == nodes[l2].seg.end {
        fired := true;
        r := Group(l1, len);
      } else {
        fired := false;
      }
    }

    /** Shape inference for an arithmetic operation on a `len`-byte operand.
        `len - 1` wraps around for len == 0, and the climb then ends at the root. */
    method InferShape2(lb: nat, len: nat)
      requires Valid() && IsLabel(nodes, shape, lb) && len < 0x1_0000_0000_0000_0000
      modifies this
      ensures Valid() && Grows(old(nodes), old(shape), nodes, shape) && shape == old(shape)
      ensures nodes == if old(Widens(nodes, shape, lb, len))
        then old(nodes)[lb := WithBegin(old(nodes)[lb], End(nodes, lb) - len)] else old(nodes)
      ensures SignsHold(old(nodes), nodes)
    {
      if lb == ROOT || nodes[lb].seg.begin + 1 < nodes[lb].seg.end {
        return;
      }
      SegNonEmpty(nodes, shape, lb);
      var cur: nat := lb;
      var steps: nat := if len == 0 then 0xFFFF_FFFF_FFFF_FFFF else len - 1;
      var k := 0;
      LabelEnd(nodes, shape, lb);
      while k < steps
        invariant nodes == old(nodes) && shape == old(shape)
        invariant 0 <= k <= steps && cur != ROOT && IsLabel(nodes, shape, cur)
        invariant Climbed(nodes, shape, lb, cur, k)
      {
        ClimbStep(nodes, shape, lb, cur, k);
        cur := nodes[cur].parent;
        if cur == ROOT {
          return;
        }
        k := k + 1;
      }
      if len > 0 {
        ClimbEnds(nodes, shape, lb, cur, len);
      }
      if nodes[cur].parent == ROOT {
        SingleOffset(nodes, shape, cur);
        if nodes[cur].seg.begin + len == nodes[lb].seg.end {
          SetBegin(lb, nodes[cur].seg.begin);
        }
      }
    }

    /** The label of the bytes of one load. */
    method CombineN(lbs: seq<nat>, infer: bool) returns (r: Outcome, ghost tr: seq<FoldState>)
      requires Valid() && AllLabels(nodes, shape, lbs)
      modifies this
      ensures Valid() && Grows(old(nodes), old(shape), nodes, shape)
      ensures r.Exhausted? ==> |nodes| == MAX_LB
      ensures r.Label? ==> IsLabel(nodes, shape, r.lb) && (old(AllSmall(nodes, lbs)) ==> End(nodes, r.lb) <= MAX_LB)
      ensures r.Label? && infer && old(GroupFires(nodes, lbs)) ==>
        var b := old(nodes)[lbs[FirstNonRoot(lbs)]].seg.begin;
        r.lb != ROOT && SetOf(r.lb) == Range(b, b + |lbs|) == SegRange(nodes[r.lb])
      ensures r.Label? && !(infer && old(GroupFires(nodes, lbs))) ==>
        SetOf(r.lb) <= old(UnionOf(shape.den, lbs))
      ensures r.Label? && !(infer && old(GroupFires(nodes, lbs))) && old(AllSmall(nodes, lbs)) ==>
        && Gathers(old(shape.den), lbs, SetOf(r.lb))
        && var k := FirstNonRoot(lbs);
           if k == |lbs| then r.lb == ROOT && nodes == old(nodes)
           else |tr| == |lbs| - k && FoldsTo(tr, lbs, k + 1, old(FoldState(nodes, shape, lbs[k])), FoldState(nodes, shape, r.lb))
      ensures Plain(old(nodes), old(shape)) && !(infer && old(GroupFires(nodes, lbs))) ==> Plain(nodes, shape)
      ensures Plain(old(nodes), old(shape)) && !(infer && old(GroupFires(nodes, lbs)))
              && old(AllSmall(nodes, lbs)) && r.Label? ==>
        SetOf(r.lb) == old(UnionOf(shape.den, lbs))
      ensures forall lb :: lbs != [] && AllAre(lbs, lb) ==> nodes == old(nodes) && shape == old(shape) && r == Label(lb)
      ensures infer && old(GroupFires(nodes, lbs)) ==> |nodes| <= |old(nodes)| + 1
      ensures SignsHold(old(nodes), nodes)
    {
      tr := [];
      var k := SkipRoots(lbs);
      if k == |lbs| {
        assert lbs[..k] == lbs;
        return Label(ROOT), tr;
      }
      var cur := lbs[k];
      UnionPush(shape.den, lbs, k);
      if infer && k + 1 < |lbs| {
        SelfNeverGroups(nodes, shape, cur, |lbs|);
        var fired, lb := InferShape(cur, lbs[|lbs| - 1], |lbs|);
        if fired {
          return lb, tr;
        }
      }
      r, tr := CombineGathers(lbs, k + 1, cur);
    }

    /** The fold, and that it gathers the labels. */
    method CombineGathers(lbs: seq<nat>, from: nat, first: nat) returns (r: Outcome, ghost tr: seq<FoldState>)
      requires Valid() && AllLabels(nodes, shape, lbs) && 0 < from <= |lbs| && first == lbs[from - 1]
      requires SetOf(first) == UnionOf(shape.den, lbs[..from])
      modifies this
      ensures Valid() && Grows(old(nodes), old(shape), nodes, shape)
      ensures r.Exhausted? ==> |nodes| == MAX_LB
      ensures r.Label? ==> IsLabel(nodes, shape, r.lb) && SetOf(r.lb) <= old(UnionOf(shape.den, lbs))
      ensures Plain(old(nodes), old(shape)) ==> Plain(nodes, shape)
      ensures old(AllSmall(nodes, lbs)) && r.Label? ==>
        && End(nodes, r.lb) <= MAX_LB
        && (Plain(old(nodes), old(shape)) ==> SetOf(r.lb) == old(UnionOf(shape.den, lbs)))
        && |tr| == |lbs| - from + 1 && Gathers(old(shape.den), lbs, SetOf(r.lb))
        && FoldsTo(tr, lbs, from, old(FoldState(nodes, shape, first)), FoldState(nodes, shape, r.lb))
      ensures AllAre(lbs, first) ==> nodes == old(nodes) && shape == old(shape) && r == Label(first)
      ensures SignsHold(old(nodes), nodes)
    {
      ghost var f0 := FoldState(nodes, shape, first);
      ghost var small, plain := AllSmall(nodes, lbs), Plain(nodes, shape);
      r, tr := CombineRest(lbs, from, first);
      if r.Label? {
        ProgressEnds(f0, tr, lbs, from, FoldState(nodes, shape, r.lb), small, plain);
        if small {
          FoldGathers(tr, lbs, from, f0, FoldState(nodes, shape, r.lb));
        }
      }
    }

    method SkipRoots(lbs: seq<nat>) returns (k: nat)
      requires Valid() && AllLabels(nodes, shape, lbs)
      ensures k == FirstNonRoot(lbs) <= |lbs|
      ensures UnionOf(shape.den, lbs[..k]) == {}
    {
      k := 0;
      while k < |lbs| && lbs[k] == ROOT
        invariant k <= |lbs| && forall j: nat :: j < k ==> lbs[j] == ROOT
        invariant UnionOf(shape.den, lbs[..k]) == {}
      {
        UnionPush(shape.den, lbs, k);
        k := k + 1;
      }
    }

    /** `combine` as the fold over a load sees it. */
    method CombineBounded(a: nat, b: nat) returns (r: Outcome)
      requires Valid() && IsLabel(nodes, shape, a) && IsLabel(nodes, shape, b)
      modifies this
      ensures Valid() && Grows(old(nodes), old(shape), nodes, shape)
      ensures r.Exhausted? ==> |nodes| == MAX_LB
      ensures r.Label? ==> IsLabel(nodes, shape, r.lb) && SetOf(r.lb) <= SetOf(a) + SetOf(b)
      ensures Plain(old(nodes), old(shape)) ==> Plain(nodes, shape)
      ensures r.Label? && End(nodes, a) <= MAX_LB && End(nodes, b) <= MAX_LB ==>
        && End(nodes, r.lb) <= MAX_LB && SetOf(r.lb) == old(KeptOf(nodes, shape, a, b))
        && (Plain(old(nodes), old(shape)) ==> SetOf(r.lb) == SetOf(a) + SetOf(b))
      ensures a == b ==> nodes == old(nodes) && shape == old(shape) && r == Label(a)
      ensures SignsHold(old(nodes), nodes)
    {
      r := Combine(a, b);
    }

    /** One step of that fold. */
    method CombineNext(lbs: seq<nat>, from: nat, k: nat, cur: nat, ghost f0: FoldState, ghost tr: seq<FoldState>,
                       ghost small: bool, ghost plain: bool)
      returns (r: Outcome)
      requires Valid() && k < |lbs|
      requires Progress(f0, tr, lbs, from, k, FoldState(nodes, shape, cur), small, plain)
      modifies this
      ensures Valid() && Grows(f0.ns, f0.g, nodes, shape)
      ensures r.Exhausted? ==> |nodes| == MAX_LB
      ensures r.Label? ==>
        var f := FoldState(nodes, shape, r.lb); Progress(f0, tr + [f], lbs, from, k + 1, f, small, plain)
      ensures plain ==> Plain(nodes, shape)
      ensures r.Exhausted? ==> !AllAre(lbs, f0.cur)
      ensures SignsHold(old(nodes), nodes)
    {
      ghost var f := FoldState(nodes, shape, cur);
      ProgressBounds(f0, tr, lbs, from, k, f, small, plain);
      UnionPush(f0.g.den, lbs, k);
      assert IsLabel(nodes, shape, lbs[k]) && SetOf(lbs[k]) == f0.g.den[lbs[k]];
      r := CombineBounded(cur, lbs[k]);
      GrowsTrans(f0.ns, f0.g, f.ns, f.g, nodes, shape);
      if r.Label? {
        ProgressStep(f0, tr, lbs, from, k, f, FoldState(nodes, shape, r.lb), small, plain);
      }
    }

    /** Folds `combine` over lbs[from..], starting from a label of the labels before. The trace
        holds the store and the label after each step. */
    method CombineRest(lbs: seq<nat>, from: nat, first: nat) returns (r: Outcome, ghost tr: seq<FoldState>)
      requires Valid() && AllLabels(nodes, shape, lbs) && from <= |lbs| && IsLabel(nodes, shape, first)
      requires SetOf(first) == UnionOf(shape.den, lbs[..from])
      modifies this
      ensures Valid() && Grows(old(nodes), old(shape), nodes, shape)
      ensures r.Exhausted? ==> |nodes| == MAX_LB
      ensures r.Label? ==>
        Progress(old(FoldState(nodes, shape, first)), tr, lbs, from, |lbs|, FoldState(nodes, shape, r.lb),
                 old(AllSmall(nodes, lbs) && End(nodes, first) <= MAX_LB), old(Plain(nodes, shape)))
      ensures Plain(old(nodes), old(shape)) ==> Plain(nodes, shape)
      ensures AllAre(lbs, first) ==> r.Label?
      ensures SignsHold(old(nodes), nodes)
    {
      var cur: nat, k: nat := first, from;
      ghost var f0 := FoldState(nodes, shape, first);
      ghost var small, plain := AllSmall(nodes, lbs) && End(nodes, first) <= MAX_LB, Plain(nodes, shape);
      tr := [f0];
      ProgressBegins(lbs, from, f0, small, plain);
      while k < |lbs|
        invariant Valid() && k <= |lbs|
        invariant Progress(f0, tr, lbs, from, k, FoldState(nodes, shape, cur), small, plain)
        invariant SignsHold(f0.ns, nodes)
      {
        ghost var ns1 := nodes;
        var c := CombineNext(lbs, from, k, cur, f0, tr, small, plain);
        HoldTrans(f0.ns, ns1, nodes);
        if c.Exhausted? {
          return Exhausted, tr;
        }
        cur, k := c.lb, k + 1;
        tr := tr + [FoldState(nodes, shape, cur)];
      }
      ProgressEnds(f0, tr, lbs, from, FoldState(nodes, shape, cur), small, plain);
      r := Label(cur);
    }
  }
}
