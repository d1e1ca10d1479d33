/**
 What insertions leave alone in the label store: an older label keeps its parent and its
 segment unless a new label cuts it, new labels end only where the caller asked, and marks stay
 where they are.
 */
module TagAdds {
  import opened TagTrie

  /** A node from n on ends a run of ones at e. */
  ghost predicate CutBy(n: nat, ns: seq<TagNode>, g: Shape, e: nat)
    requires Sized(ns, g)
  {
    exists j: nat :: n <= j < |ns| && g.one[j] && End(ns, j) == e
  }

  /** Label i begins where it did or at the end of a new label; its parent is the same or new. */
  ghost predicate OldKept(ns: seq<TagNode>, ns': seq<TagNode>, g': Shape, i: nat)
    requires Sized(ns', g') && i < |ns| <= |ns'|
  {
    && (|| ns'[i].seg.begin == ns[i].seg.begin
        || (ns[i].seg.begin <= ns'[i].seg.begin && CutBy(|ns|, ns', g', ns'[i].seg.begin)))
    && (ns'[i].parent == ns[i].parent || |ns| <= ns'[i].parent < |ns'|)
  }

  ghost predicate NewOk(ns: seq<TagNode>, g: Shape, ends: set<nat>, j: nat)
    requires Sized(ns, g) && j < |ns|
  {
    !ns[j].andOp && (g.one[j] ==> End(ns, j) in ends)
  }

  /** Only new labels, all of which end at one of the ends, change anything for older ones. */
  ghost predicate Adds(ns: seq<TagNode>, g: Shape, ns': seq<TagNode>, g': Shape, ends: set<nat>) {
    && Grows(ns, g, ns', g')
    && (forall i: nat {:trigger OldKept(ns, ns', g', i)} :: i < |ns| && g.one[i] ==> OldKept(ns, ns', g', i))
    && (forall j: nat {:trigger NewOk(ns', g', ends, j)} :: |ns| <= j < |ns'| ==> NewOk(ns', g', ends, j))
  }

  lemma AddsMarks(ns: seq<TagNode>, g: Shape, ns': seq<TagNode>, ends: set<nat>)
    requires Sized(ns, g) && Grows(ns, g, ns', g) && SameButMarks(ns, ns')
    ensures Adds(ns, g, ns', g, ends)
  {
    forall i: nat | i < |ns| && g.one[i] ensures OldKept(ns, ns', g, i) {
      assert ns'[i].parent == ns[i].parent;
    }
  }

  lemma LeafAdds(ns: seq<TagNode>, g: Shape, ns': seq<TagNode>, cur: nat, bit: bool, n: nat)
    requires CanHang(ns, g, ns', cur, bit, n) && Grows(ns, g, ns', LeafShape(ns, g, cur, bit, n))
    ensures Adds(ns, g, ns', LeafShape(ns, g, cur, bit, n), if bit then {End(ns, cur) + n} else {})
    ensures SignsKept(ns, ns')
  {
    var g' := LeafShape(ns, g, cur, bit, n);
    forall i: nat | i < |ns'| ensures SignKept(ns, ns', i) {
    }
    forall i: nat | i < |ns| && g.one[i] ensures OldKept(ns, ns', g', i) {
    }
  }

  lemma SplitAdds(ns: seq<TagNode>, g: Shape, ns': seq<TagNode>, cur: nat, bit: bool, n: nat, next: nat)
    requires CanSplit(ns, g, ns', cur, bit, n, next) && Grows(ns, g, ns', SplitShape(ns, g, cur, bit, n, next))
    ensures Adds(ns, g, ns', SplitShape(ns, g, cur, bit, n, next), if bit then {End(ns, cur) + n} else {})
    ensures SignsKept(ns, ns')
  {
    var g' := SplitShape(ns, g, cur, bit, n, next);
    assert LinkOk(ns, g, cur);
    WidenedBegin(ns, g, next);
    forall i: nat | i < |ns'| ensures SignKept(ns, ns', i) {
    }
    forall i: nat | i < |ns| && g.one[i] ensures OldKept(ns, ns', g', i) {
      if i == next {
        assert g'.one[|ns|] && End(ns', |ns|) == ns'[i].seg.begin;
      }
    }
  }

  lemma AddsMore(ns: seq<TagNode>, g: Shape, ns': seq<TagNode>, g': Shape, ends: set<nat>, ends': set<nat>)
    requires Adds(ns, g, ns', g', ends) && ends <= ends'
    ensures Adds(ns, g, ns', g', ends')
  {
    forall j: nat | |ns| <= j < |ns'| ensures NewOk(ns', g', ends', j) {
      assert NewOk(ns', g', ends, j);
    }
  }

  lemma AddsTrans(ns: seq<TagNode>, g: Shape, ns1: seq<TagNode>, g1: Shape, ns2: seq<TagNode>, g2: Shape, e1: set<nat>, e2: set<nat>)
    requires Adds(ns, g, ns1, g1, e1) && Adds(ns1, g1, ns2, g2, e2)
    ensures Adds(ns, g, ns2, g2, e1 + e2)
  {
    GrowsTrans(ns, g, ns1, g1, ns2, g2);
    forall i: nat | i < |ns| && g.one[i] ensures OldKept(ns, ns2, g2, i) {
      OldTrans(ns, g, ns1, g1, ns2, g2, e1, e2, i);
    }
    forall j: nat | |ns| <= j < |ns2| ensures NewOk(ns2, g2, e1 + e2, j) {
      if j < |ns1| {
        assert NewOk(ns1, g1, e1, j);
        assert ns2[j].andOp == ns1[j].andOp && End(ns2, j) == End(ns1, j);
      } else {
        assert NewOk(ns2, g2, e2, j);
      }
    }
  }

  lemma OldTrans(ns: seq<TagNode>, g: Shape, ns1: seq<TagNode>, g1: Shape, ns2: seq<TagNode>, g2: Shape, e1: set<nat>, e2: set<nat>, i: nat)
    requires Adds(ns, g, ns1, g1, e1) && Adds(ns1, g1, ns2, g2, e2) && i < |ns| && g.one[i]
    ensures OldKept(ns, ns2, g2, i)
  {
    assert OldKept(ns, ns1, g1, i) && OldKept(ns1, ns2, g2, i);
    var b1, b2 := ns1[i].seg.begin, ns2[i].seg.begin;
    if b2 != b1 {
      CutLater(|ns|, |ns1|, ns2, g2, b2);
    } else if b1 != ns[i].seg.begin {
      CutStays(|ns|, ns1, g1, ns2, g2, b1);
    }
  }

  lemma CutStays(n: nat, ns: seq<TagNode>, g: Shape, ns': seq<TagNode>, g': Shape, e: nat)
    requires Grows(ns, g, ns', g') && CutBy(n, ns, g, e)
    ensures CutBy(n, ns', g', e)
  {
    var j: nat :| n <= j < |ns| && g.one[j] && End(ns, j) == e;
    assert g'.one[j] && End(ns', j) == e;
  }

  lemma CutLater(n: nat, m: nat, ns: seq<TagNode>, g: Shape, e: nat)
    requires Sized(ns, g) && n <= m && CutBy(m, ns, g, e)
    ensures CutBy(n, ns, g, e)
  {
    var j: nat :| m <= j < |ns| && g.one[j] && End(ns, j) == e;
  }

  /** Labels below all the ends keep their segment and their parent. */
  lemma LowKept(ns: seq<TagNode>, g: Shape, ns': seq<TagNode>, g': Shape, ends: set<nat>, i: nat)
    requires Adds(ns, g, ns', g', ends) && Inv(ns', g') && 0 < i < |ns| && g.one[i]
    requires forall e :: e in ends ==> End(ns, i) <= e
    ensures ns'[i].seg.begin == ns[i].seg.begin && ns'[i].parent == ns[i].parent
  {
    assert OldKept(ns, ns', g', i);
    assert NodeOk(ns', g', i);
    assert End(ns', i) == End(ns, i);
    forall j: nat | |ns| <= j < |ns'| && g'.one[j] ensures End(ns, i) <= End(ns', j) {
      assert NewOk(ns', g', ends, j);
    }
  }

  lemma AddsRaise(ns: seq<TagNode>, g: Shape, ns': seq<TagNode>, g': Shape, e: nat, end: nat)
    requires Adds(ns, g, ns', g', {e}) && e <= end
    ensures BeginsRaised(ns, g, ns', end)
  {
    forall i: nat | i < |ns| && g.one[i]
      ensures ns'[i].seg.begin == ns[i].seg.begin || ns[i].seg.begin <= ns'[i].seg.begin <= end
    {
      assert OldKept(ns, ns', g', i);
      if ns'[i].seg.begin != ns[i].seg.begin {
        var j: nat :| |ns| <= j < |ns'| && g'.one[j] && End(ns', j) == ns'[i].seg.begin;
        assert NewOk(ns', g', {e}, j);
      }
    }
  }

  /** With no new labels every segment stays. */
  lemma SegStays(ns: seq<TagNode>, g: Shape, ns': seq<TagNode>, g': Shape, i: nat)
    requires Adds(ns, g, ns', g', {}) && SignsKept(ns, ns') && Inv(ns', g') && 0 < i < |ns| && g.one[i]
    ensures ns'[i].seg == ns[i].seg
  {
    LowKept(ns, g, ns', g', {}, i);
    assert SignKept(ns, ns', i);
    assert End(ns', i) == End(ns, i);
  }

  // ------------------------------------------------------------- sign marks

  ghost predicate SignKept(ns: seq<TagNode>, ns': seq<TagNode>, i: nat)
    requires i < |ns'|
  {
    ns'[i].seg.sign == (i < |ns| && ns[i].seg.sign)
  }

  /** No node gains or loses a sign, and new ones have none. */
  ghost predicate SignsKept(ns: seq<TagNode>, ns': seq<TagNode>) {
    |ns| <= |ns'| && forall i: nat {:trigger SignKept(ns, ns', i)} :: i < |ns'| ==> SignKept(ns, ns', i)
  }

  lemma SignsTrans(ns: seq<TagNode>, ns1: seq<TagNode>, ns2: seq<TagNode>)
    requires SignsKept(ns, ns1) && SignsKept(ns1, ns2)
    ensures SignsKept(ns, ns2)
  {
    forall i: nat | i < |ns2| ensures SignKept(ns, ns2, i) {
      assert SignKept(ns1, ns2, i);
      assert i < |ns1| ==> SignKept(ns, ns1, i);
    }
  }

  lemma NothingAdded(ns: seq<TagNode>, g: Shape, ends: set<nat>)
    requires Sized(ns, g)
    ensures Adds(ns, g, ns, g, ends) && SignsKept(ns, ns)
  {
    forall i: nat | i < |ns| ensures SignKept(ns, ns, i) {
    }
  }

  ghost predicate NoSigns(ns: seq<TagNode>) {
    forall i: nat {:trigger ns[i].seg.sign} :: i < |ns| ==> !ns[i].seg.sign
  }

  /** No sign is lost, and none appears in a store without signs. */
  ghost predicate SignsHold(ns: seq<TagNode>, ns': seq<TagNode>) {
    SignsStay(ns, ns') && (NoSigns(ns) ==> NoSigns(ns'))
  }

  ghost predicate SignsStay(ns: seq<TagNode>, ns': seq<TagNode>) {
    |ns| <= |ns'| && forall i: nat {:trigger ns'[i].seg.sign} :: i < |ns| && ns[i].seg.sign ==> ns'[i].seg.sign
  }

  lemma KeptHold(ns: seq<TagNode>, ns': seq<TagNode>)
    requires SignsKept(ns, ns')
    ensures SignsHold(ns, ns')
  {
    forall i: nat | i < |ns'| ensures SignKept(ns, ns', i) {
    }
    forall i: nat | i < |ns'| && NoSigns(ns) ensures !ns'[i].seg.sign {
      assert SignKept(ns, ns', i);
    }
    forall i: nat | i < |ns| && ns[i].seg.sign ensures ns'[i].seg.sign {
      assert SignKept(ns, ns', i);
    }
  }

  lemma HoldTrans(ns: seq<TagNode>, ns1: seq<TagNode>, ns2: seq<TagNode>)
    requires SignsHold(ns, ns1) && SignsHold(ns1, ns2)
    ensures SignsHold(ns, ns2)
  {
    forall i: nat | i < |ns| && ns[i].seg.sign ensures ns2[i].seg.sign {
      assert ns1[i].seg.sign;
    }
  }

  lemma MarkHold(ns: seq<TagNode>, ns': seq<TagNode>, lb: nat, sign: bool)
    requires SignedBy(ns, ns', lb, sign) && (NoSigns(ns) ==> !sign)
    ensures SignsHold(ns, ns')
  {
  }

  /** The same, except that node lb is signed if `sign` says so. */
  ghost predicate SignedBy(ns: seq<TagNode>, ns': seq<TagNode>, lb: nat, sign: bool) {
    && |ns| <= |ns'| && lb < |ns'|
    && forall i: nat {:trigger ns'[i].seg.sign} :: i < |ns'| ==>
         ns'[i].seg.sign == ((i < |ns| && ns[i].seg.sign) || (i == lb && sign))
  }

  lemma SignedAfter(ns: seq<TagNode>, ns1: seq<TagNode>, ns2: seq<TagNode>, lb: nat, sign: bool)
    requires SignsKept(ns, ns1) && |ns2| == |ns1| && lb < |ns1|
    requires if sign then ns2 == ns1[lb := ns1[lb].(seg := ns1[lb].seg.(sign := true))] else ns2 == ns1
    ensures SignedBy(ns, ns2, lb, sign)
  {
    forall i: nat | i < |ns2| ensures ns2[i].seg.sign == ((i < |ns| && ns[i].seg.sign) || (i == lb && sign)) {
      assert SignKept(ns, ns1, i);
    }
  }

  // ------------------------------------------------------------- a stack of segments

  ghost predicate Indices(ns: seq<TagNode>, stack: seq<nat>) {
    forall k: nat :: k < |stack| ==> stack[k] < |ns|
  }

  ghost function StackEnds(ns: seq<TagNode>, stack: seq<nat>): (s: set<nat>)
    requires Indices(ns, stack)
    ensures forall k: nat :: k < |stack| ==> End(ns, stack[k]) in s
    ensures forall e :: e in s ==> exists k: nat :: k < |stack| && End(ns, stack[k]) == e
  {
    set k: nat | k < |stack| :: End(ns, stack[k])
  }

  ghost predicate SomeSigned(ns: seq<TagNode>, stack: seq<nat>)
    requires Indices(ns, stack)
  {
    exists k: nat :: k < |stack| && ns[stack[k]].seg.sign
  }

  /** After the segments above index n of the stack have been added: new labels end only where
      stacked segments end; signs stay, and there are new ones only if a stacked segment has one;
      the label of the last segment has that segment's sign. */
  ghost predicate Replayed(ns0: seq<TagNode>, g0: Shape, ns: seq<TagNode>, g: Shape, stack: seq<nat>, n: nat, cur: nat)
    requires Indices(ns0, stack)
  {
    && n <= |stack| && cur < |ns| && Adds(ns0, g0, ns, g, StackEnds(ns0, stack))
    && (forall i: nat {:trigger ns0[i].seg.sign} :: i < |ns0| && ns0[i].seg.sign ==> ns[i].seg.sign)
    && (!SomeSigned(ns0, stack) ==> SignsKept(ns0, ns))
    && (n < |stack| && ns0[stack[n]].seg.sign ==> ns[cur].seg.sign)
  }

  lemma ReplayStarts(ns: seq<TagNode>, g: Shape, stack: seq<nat>, cur: nat)
    requires Sized(ns, g) && Indices(ns, stack) && cur < |ns|
    ensures Replayed(ns, g, ns, g, stack, |stack|, cur)
  {
    NothingAdded(ns, g, StackEnds(ns, stack));
  }

  lemma ReplayStep(ns0: seq<TagNode>, g0: Shape, ns: seq<TagNode>, g: Shape, ns': seq<TagNode>, g': Shape,
                   stack: seq<nat>, n: nat, cur: nat, cur': nat)
    requires Indices(ns0, stack) && Replayed(ns0, g0, ns, g, stack, n, cur) && n > 0
    requires Adds(ns, g, ns', g', {End(ns, stack[n - 1])}) && SignedBy(ns, ns', cur', ns[stack[n - 1]].seg.sign)
    ensures Replayed(ns0, g0, ns', g', stack, n - 1, cur')
  {
    var next, ends := stack[n - 1], StackEnds(ns0, stack);
    assert End(ns, next) == End(ns0, next);
    AddsTrans(ns0, g0, ns, g, ns', g', ends, {End(ns, next)});
    assert ends + {End(ns, next)} == ends;
    if !SomeSigned(ns0, stack) {
      assert !ns0[next].seg.sign;
      assert SignKept(ns0, ns, next);
      forall i: nat | i < |ns'| ensures SignKept(ns0, ns', i) {
        assert i < |ns| ==> SignKept(ns0, ns, i);
      }
    }
    forall i: nat | i < |ns0| && ns0[i].seg.sign ensures ns'[i].seg.sign {
      assert ns[i].seg.sign;
    }
  }
}
