/**
 Whole runs of the label store, seen only through what a caller gets back: labels, and
 the segments read from them after the last operation.
 */
module TagRuns {
  import opened TagTrie
  import opened TagPaths
  import opened TagMerge
  import opened TagInference
  import opened TagFold
  import opened TagAdds
  import opened TagListed
  import opened TagSets

  // ------------------------------------------------------- runs without inference

  /** Operands are the positions of earlier operations of the run. */
  datatype Op =
    | InsertOp(offset: nat)
    | CombineOp(i: nat, j: nat)
    | CombineNOp(args: seq<nat>)
    | FindOp(i: nat)

  ghost predicate OpOk(op: Op, k: nat) {
    match op
    case InsertOp(offset) => offset < MAX_LB
    case CombineOp(i, j) => i < k && j < k
    case CombineNOp(args) => Below(args, k)
    case FindOp(i) => i < k
  }

  ghost predicate RunOk(ops: seq<Op>) {
    forall k: nat {:trigger ops[k]} :: k < |ops| ==> OpOk(ops[k], k)
  }

  /** The offsets an operation's label must denote, given those of the operations before. */
  ghost function Effect(op: Op, m: seq<set<nat>>): set<nat>
    requires OpOk(op, |m|)
  {
    match op
    case InsertOp(offset) => {offset}
    case CombineOp(i, j) => m[i] + m[j]
    case CombineNOp(args) => UnionOf(m, args)
    case FindOp(i) => m[i]
  }

  ghost function Meaning(ops: seq<Op>): (m: seq<set<nat>>)
    requires RunOk(ops)
    ensures |m| == |ops|
  {
    if ops == [] then [] else
    assert forall k: nat :: k < |ops| - 1 ==> ops[..|ops| - 1][k] == ops[k];
    var m := Meaning(ops[..|ops| - 1]);
    m + [Effect(ops[|ops| - 1], m)]
  }

  lemma MeaningStep(ops: seq<Op>, k: nat)
    requires RunOk(ops) && k < |ops|
    ensures RunOk(ops[..k]) && RunOk(ops[..k + 1])
    ensures OpOk(ops[k], k)
    ensures Meaning(ops[..k + 1]) == Meaning(ops[..k]) + [Effect(ops[k], Meaning(ops[..k]))]
  {
    assert forall j: nat :: j < k ==> ops[..k][j] == ops[j];
    assert forall j: nat :: j < k + 1 ==> ops[..k + 1][j] == ops[j];
    assert ops[..k + 1][..k] == ops[..k];
  }

  ghost predicate LabelsOk(ns: seq<TagNode>, g: Shape, labels: seq<nat>, m: seq<set<nat>>)
    requires Sized(ns, g)
  {
    && |labels| == |m|
    && forall k: nat {:trigger labels[k]} {:trigger m[k]} :: k < |labels| ==>
         && IsLabel(ns, g, labels[k]) && End(ns, labels[k]) <= MAX_LB && g.den[labels[k]] == m[k]
  }

  function Select(labels: seq<nat>, args: seq<nat>): (r: seq<nat>)
    requires Below(args, |labels|)
    ensures |r| == |args| && forall k: nat :: k < |args| ==> r[k] == labels[args[k]]
  {
    seq(|args|, k requires 0 <= k < |args| => labels[args[k]])
  }

  lemma {:induction false} SelectUnion(ns: seq<TagNode>, g: Shape, labels: seq<nat>, m: seq<set<nat>>, args: seq<nat>)
    requires Sized(ns, g) && LabelsOk(ns, g, labels, m) && Below(args, |labels|)
    ensures AllLabels(ns, g, Select(labels, args)) && AllSmall(ns, Select(labels, args))
    ensures UnionOf(g.den, Select(labels, args)) == UnionOf(m, args)
  {
    if args != [] {
      var init := args[..|args| - 1];
      SelectUnion(ns, g, labels, m, init);
      assert Select(labels, args)[..|args| - 1] == Select(labels, init);
    }
  }

  method Step(ts: TagSet, op: Op, labels: seq<nat>, ghost m: seq<set<nat>>) returns (r: Outcome)
    requires ts.Valid() && Plain(ts.nodes, ts.shape) && LabelsOk(ts.nodes, ts.shape, labels, m)
    requires OpOk(op, |labels|)
    modifies ts
    ensures ts.Valid() && Plain(ts.nodes, ts.shape) && LabelsOk(ts.nodes, ts.shape, labels, m)
    ensures r.Exhausted? ==> |ts.nodes| == MAX_LB
    ensures r.Label? ==>
      && IsLabel(ts.nodes, ts.shape, r.lb) && End(ts.nodes, r.lb) <= MAX_LB
      && ts.SetOf(r.lb) == Effect(op, m)
  {
    ghost var ns, g := ts.nodes, ts.shape;
    match op
    case InsertOp(offset) =>
      r := ts.Insert(offset);
      LabelsKept(ns, g, ts.nodes, ts.shape, labels, m);
    case CombineOp(i, j) =>
      assert IsLabel(ns, g, labels[i]) && IsLabel(ns, g, labels[j]);
      r := ts.CombineBounded(labels[i], labels[j]);
      LabelsKept(ns, g, ts.nodes, ts.shape, labels, m);
    case CombineNOp(args) =>
      SelectUnion(ns, g, labels, m, args);
      var c, _ := ts.CombineN(Select(labels, args), false);
      r := c;
      LabelsKept(ns, g, ts.nodes, ts.shape, labels, m);
    case FindOp(i) =>
      assert IsLabel(ns, g, labels[i]);
      var _ := ReadLabel(ts, labels[i]);
      r := Label(labels[i]);
  }

  lemma LabelsKept(ns: seq<TagNode>, g: Shape, ns': seq<TagNode>, g': Shape, labels: seq<nat>, m: seq<set<nat>>)
    requires Grows(ns, g, ns', g') && LabelsOk(ns, g, labels, m)
    ensures LabelsOk(ns', g', labels, m)
  {
    forall k: nat | k < |labels|
      ensures IsLabel(ns', g', labels[k]) && End(ns', labels[k]) <= MAX_LB && g'.den[labels[k]] == m[k]
    {
      assert IsLabel(ns, g, labels[k]) && g.den[labels[k]] == m[k];
    }
  }

  ghost predicate Reads(segs: seq<TagSeg>, s: set<nat>) {
    && Ascending(segs)
    && forall o: nat :: Covers(segs, o) <==> o in s
  }

  /** For every run without inference, what the caller reads from each label after the last
      operation is exactly the meaning of the operation that issued it, in sorted disjoint
      segments; and two labels are the same number exactly when they mean the same set.
      The run stops early only when the store is full. */
  method Run(ops: seq<Op>) returns (labels: seq<nat>, read: seq<seq<TagSeg>>, numNodes: nat)
    requires RunOk(ops)
    ensures |labels| == |read| <= |ops|
    ensures |labels| < |ops| ==> numNodes == MAX_LB
    ensures forall k: nat :: k < |labels| ==> Reads(read[k], Meaning(ops)[k])
    ensures forall k: nat, j: nat :: k < |labels| && j < |labels| ==>
      (labels[k] == labels[j] <==> Meaning(ops)[k] == Meaning(ops)[j])
  {
    var ts := new TagSet();
    labels := [];
    ghost var m := [];
    var k: nat := 0;
    while k < |ops|
      invariant fresh(ts) && ts.Valid() && Plain(ts.nodes, ts.shape)
      invariant k == |labels| <= |ops| && RunOk(ops[..k]) && m == Meaning(ops[..k])
      invariant LabelsOk(ts.nodes, ts.shape, labels, m)
    {
      MeaningStep(ops, k);
      var r := Step(ts, ops[k], labels, m);
      if r.Exhausted? {
        break;
      }
      m := m + [Effect(ops[k], m)];
      labels := labels + [r.lb];
      k := k + 1;
    }
    numNodes := |ts.nodes|;
    MeaningPrefix(ops, |labels|);
    read := ReadAll(ts, labels, m);
    forall k: nat, j: nat | k < |labels| && j < |labels| && m[k] == m[j]
      ensures labels[k] == labels[j]
    {
      TagPathsUnique(ts.nodes, ts.shape, labels, m, k, j);
    }
  }

  lemma {:induction false} MeaningPrefix(ops: seq<Op>, k: nat)
    requires RunOk(ops) && k <= |ops|
    ensures RunOk(ops[..k]) && Meaning(ops[..k]) == Meaning(ops)[..k]
    decreases |ops| - k
  {
    assert forall j: nat :: j < k ==> ops[..k][j] == ops[j];
    if k < |ops| {
      MeaningStep(ops, k);
      MeaningPrefix(ops, k + 1);
    } else {
      assert ops[..k] == ops;
    }
  }

  lemma TagPathsUnique(ns: seq<TagNode>, g: Shape, labels: seq<nat>, m: seq<set<nat>>, k: nat, j: nat)
    requires Inv(ns, g) && LabelsOk(ns, g, labels, m) && k < |labels| && j < |labels| && m[k] == m[j]
    ensures labels[k] == labels[j]
  {
    assert IsLabel(ns, g, labels[k]) && IsLabel(ns, g, labels[j]);
    LabelUnique(ns, g, labels[k], labels[j]);
  }

  method ReadAll(ts: TagSet, labels: seq<nat>, ghost m: seq<set<nat>>) returns (read: seq<seq<TagSeg>>)
    requires ts.Valid() && Plain(ts.nodes, ts.shape) && LabelsOk(ts.nodes, ts.shape, labels, m)
    modifies ts
    ensures ts.nodes == old(ts.nodes) && ts.shape == old(ts.shape)
    ensures |read| == |labels| && forall k: nat :: k < |read| ==> Reads(read[k], m[k])
  {
    read := [];
    var k: nat := 0;
    while k < |labels|
      invariant ts.nodes == old(ts.nodes) && ts.shape == old(ts.shape)
      invariant k == |read| <= |labels|
      invariant forall j: nat :: j < k ==> Reads(read[j], m[j])
    {
      assert IsLabel(ts.nodes, ts.shape, labels[k]) && ts.SetOf(labels[k]) == m[k];
      var r := ReadLabel(ts, labels[k]);
      read := read + [r.segs];
      k := k + 1;
    }
  }

  // ------------------------------------------------------- runs of all operations

  datatype AnyOp =
    | AnyInsert(offset: nat)
    | AnyCombine(i: nat, j: nat)
    | AnyCombineN(args: seq<nat>, infer: bool)
    | AnyInfer(i: nat, len: nat)
    | AnyAnd(i: nat)
    | AnySign(i: nat)
    | AnyFind(i: nat)

  ghost predicate AnyOk(op: AnyOp, k: nat) {
    match op
    case AnyInsert(offset) => offset < MAX_LB
    case AnyCombine(i, j) => i < k && j < k
    case AnyCombineN(args, _) => Below(args, k)
    case AnyInfer(i, len) => i < k && len < 0x1_0000_0000_0000_0000
    case AnyAnd(i) => i < k
    case AnySign(i) => i < k
    case AnyFind(i) => i < k
  }

  /** Operations that issue no label of their own but hand back their operand. */
  ghost predicate SameLabel(op: AnyOp) {
    op.AnyInfer? || op.AnyAnd? || op.AnySign? || op.AnyFind?
  }

  /** The condition for `combine_n` to form a group, by the sets alone: 2, 4 or 8 operands, of
      which the first tainted one denotes b alone and the last one the offset that far above. */
  ghost predicate GroupAt(args: seq<nat>, before: seq<set<nat>>, k: nat, b: nat)
    requires Below(args, |before|)
  {
    var n := |args|;
    && k + 1 < n && (n == 2 || n == 4 || n == 8)
    && (forall j: nat :: j < k ==> before[args[j]] == {})
    && before[args[k]] == {b} && before[args[n - 1]] == {b + n - 1}
  }

  ghost predicate Groups(args: seq<nat>, before: seq<set<nat>>)
    requires Below(args, |before|)
  {
    exists k: nat, b: nat :: GroupAt(args, before, k, b)
  }

  /** A group denotes the range between the two; otherwise the operands are gathered. */
  ghost predicate LoadEffect(args: seq<nat>, infer: bool, s: set<nat>, before: seq<set<nat>>)
    requires Below(args, |before|)
  {
    if infer && Groups(args, before) then forall k: nat, b: nat :: GroupAt(args, before, k, b) ==> s == Range(b, b + |args|)
    else Gathers(before, args, s)
  }

  /** What an operation may denote, given the sets and the labels issued before. */
  ghost predicate AnyEffect(op: AnyOp, s: set<nat>, before: seq<set<nat>>, labels: seq<nat>) {
    match op
    case AnyInsert(offset) => s == {offset}
    case AnyCombine(i, j) =>
      && i < |before| && j < |before| && i < |labels| && j < |labels|
      && Gathers(before, [i, j], s)
      && (labels[i] <= labels[j] ==> before[i] <= s) && (labels[j] <= labels[i] ==> before[j] <= s)
    case AnyCombineN(args, infer) =>
      Below(args, |before|) && LoadEffect(args, infer, s, before)
    case AnyInfer(i, _) => i < |before| && s == before[i]
    case AnyAnd(i) => i < |before| && s == before[i]
    case AnySign(i) => i < |before| && s == before[i]
    case AnyFind(i) => i < |before| && s == before[i]
  }

  /** The store after `infer_shape2`. */
  ghost function Inferred(ns: seq<TagNode>, lb: nat, len: nat, widens: bool): seq<TagNode> {
    if widens && lb < |ns| && len <= End(ns, lb) then ns[lb := WithBegin(ns[lb], End(ns, lb) - len)] else ns
  }

  method AnyStep(ts: TagSet, op: AnyOp, labels: seq<nat>, ghost m: seq<set<nat>>) returns (r: Outcome, segs: seq<TagSeg>)
    requires ts.Valid() && LabelsOk(ts.nodes, ts.shape, labels, m) && AnyOk(op, |labels|)
    modifies ts
    ensures ts.Valid() && LabelsOk(ts.nodes, ts.shape, labels, m)
    ensures r.Exhausted? ==> |ts.nodes| == MAX_LB
    ensures r.Label? ==> IsLabel(ts.nodes, ts.shape, r.lb) && End(ts.nodes, r.lb) <= MAX_LB
    ensures r.Label? ==> AnyEffect(op, ts.SetOf(r.lb), m, labels)
    ensures r.Label? && SameLabel(op) ==> r.lb == labels[op.i]
    ensures r.Label? && op.AnyFind? ==> Reads(segs, ts.SetOf(r.lb)) && r.lb < |old(ts.nodes)| && SignsRead(old(ts.nodes), r.lb, segs)
    ensures if op.AnySign? then SignsStay(old(ts.nodes), ts.nodes) && r.Label? && ts.nodes[r.lb].seg.sign
      else SignsHold(old(ts.nodes), ts.nodes)
    ensures op.AnyInfer? ==>
      ts.nodes == Inferred(old(ts.nodes), labels[op.i], op.len, old(Widens(ts.nodes, ts.shape, labels[op.i], op.len)))
    ensures op.AnyAnd? ==> r.Label? && ts.nodes[r.lb].andOp
  {
    ghost var ns, g := ts.nodes, ts.shape;
    segs := [];
    match op
    case AnyInsert(offset) =>
      r := ts.Insert(offset);
      LabelsKept(ns, g, ts.nodes, ts.shape, labels, m);
    case AnyCombine(i, j) =>
      r := CombineStep(ts, i, j, labels, m);
    case AnyCombineN(args, infer) =>
      r := CombineNStep(ts, args, infer, labels, m);
    case AnyInfer(i, len) =>
      assert IsLabel(ns, g, labels[i]);
      ts.InferShape2(labels[i], len);
      LabelsKept(ns, g, ts.nodes, ts.shape, labels, m);
      r := Label(labels[i]);
    case AnyAnd(i) =>
      assert IsLabel(ns, g, labels[i]);
      ts.CombineAnd(labels[i]);
      r := Label(labels[i]);
    case AnySign(i) =>
      assert IsLabel(ns, g, labels[i]);
      ts.SetSign(labels[i]);
      LabelsKept(ns, g, ts.nodes, ts.shape, labels, m);
      r := Label(labels[i]);
    case AnyFind(i) =>
      assert IsLabel(ns, g, labels[i]);
      var reading := ReadLabel(ts, labels[i]);
      LabelsKept(ns, g, ts.nodes, ts.shape, labels, m);
      if reading.Segments? {
        segs := reading.segs;
        r := Label(labels[i]);
      } else {
        r := Exhausted;
      }
  }

  method CombineStep(ts: TagSet, i: nat, j: nat, labels: seq<nat>, ghost m: seq<set<nat>>) returns (r: Outcome)
    requires ts.Valid() && LabelsOk(ts.nodes, ts.shape, labels, m) && i < |labels| && j < |labels|
    modifies ts
    ensures ts.Valid() && LabelsOk(ts.nodes, ts.shape, labels, m)
    ensures r.Exhausted? ==> |ts.nodes| == MAX_LB
    ensures r.Label? ==> IsLabel(ts.nodes, ts.shape, r.lb) && End(ts.nodes, r.lb) <= MAX_LB
    ensures r.Label? ==> AnyEffect(AnyCombine(i, j), ts.SetOf(r.lb), m, labels)
    ensures SignsHold(old(ts.nodes), ts.nodes)
  {
    ghost var ns, g := ts.nodes, ts.shape;
    assert IsLabel(ns, g, labels[i]) && IsLabel(ns, g, labels[j]);
    assert g.den[labels[i]] == m[i] && g.den[labels[j]] == m[j];
    r := ts.Combine(labels[i], labels[j]);
    LabelsKept(ns, g, ts.nodes, ts.shape, labels, m);
    if r.Label? {
      PairGathers(ns, g, labels, m, i, j);
    }
  }

  lemma PairGathers(ns: seq<TagNode>, g: Shape, labels: seq<nat>, m: seq<set<nat>>, i: nat, j: nat)
    requires Inv(ns, g) && LabelsOk(ns, g, labels, m) && i < |labels| && j < |labels|
    ensures Gathers(m, [i, j], KeptOf(ns, g, labels[i], labels[j]))
  {
    assert IsLabel(ns, g, labels[i]) && IsLabel(ns, g, labels[j]);
    var args := [i, j];
    UnionPush(m, args, 0);
    UnionPush(m, args, 1);
    assert args[..0] == [] && args[..1] == [i] && args[..2] == [i, j];
    assert UnionOf(m, [i, j]) == m[i] + m[j];
    forall o: nat | o in UnionOf(m, [i, j]) && Undisturbed(m, [i, j], o) ensures o in KeptOf(ns, g, labels[i], labels[j]) {
      forall x: nat | x <= o && x in m[i] && x in m[j] ensures !(Range(x, o + 1) <= m[i] + m[j]) {
        assert x in m[[i, j][0]] && x in m[[i, j][1]];
        assert Shared(m, [i, j], x);
      }
      ApartIsKept(ns, g, labels[i], labels[j], o);
    }
  }

  method CombineNStep(ts: TagSet, args: seq<nat>, infer: bool, labels: seq<nat>, ghost m: seq<set<nat>>) returns (r: Outcome)
    requires ts.Valid() && LabelsOk(ts.nodes, ts.shape, labels, m) && Below(args, |labels|)
    modifies ts
    ensures ts.Valid() && LabelsOk(ts.nodes, ts.shape, labels, m)
    ensures r.Exhausted? ==> |ts.nodes| == MAX_LB
    ensures r.Label? ==> IsLabel(ts.nodes, ts.shape, r.lb) && End(ts.nodes, r.lb) <= MAX_LB
    ensures r.Label? ==> AnyEffect(AnyCombineN(args, infer), ts.SetOf(r.lb), m, labels)
    ensures SignsHold(old(ts.nodes), ts.nodes)
  {
    ghost var ns, g := ts.nodes, ts.shape;
    var lbs := Select(labels, args);
    SelectUnion(ns, g, labels, m, args);
    GroupsIffFires(ns, g, labels, m, args);
    var c, _ := ts.CombineN(lbs, infer);
    r := c;
    LabelsKept(ns, g, ts.nodes, ts.shape, labels, m);
    if r.Label? {
      if infer && GroupFires(ns, lbs) {
        FiredMeansGrouped(ns, g, labels, m, args);
      } else {
        SelectGathers(ns, g, labels, m, args, ts.SetOf(r.lb));
      }
    }
  }

  lemma SelectGathers(ns: seq<TagNode>, g: Shape, labels: seq<nat>, m: seq<set<nat>>, args: seq<nat>, s: set<nat>)
    requires Sized(ns, g) && LabelsOk(ns, g, labels, m) && Below(args, |labels|)
    requires Below(Select(labels, args), |g.den|) && Gathers(g.den, Select(labels, args), s)
    ensures Gathers(m, args, s)
  {
    var lbs := Select(labels, args);
    SelectUnion(ns, g, labels, m, args);
    forall k: nat | k < |args| ensures g.den[lbs[k]] == m[args[k]] {
      assert lbs[k] == labels[args[k]];
    }
    forall x: nat ensures Shared(g.den, lbs, x) ==> Shared(m, args, x) {
      if Shared(g.den, lbs, x) {
        var i: nat, j: nat :| i < j < |lbs| && x in g.den[lbs[i]] && x in g.den[lbs[j]];
        assert x in m[args[i]] && x in m[args[j]];
      }
    }
    forall o: nat | o in UnionOf(m, args) && Undisturbed(m, args, o) ensures o in s {
      assert Undisturbed(g.den, lbs, o);
    }
  }

  /** Where a fired group lies. */
  lemma FiredMeansGrouped(ns: seq<TagNode>, g: Shape, labels: seq<nat>, m: seq<set<nat>>, args: seq<nat>)
    requires Inv(ns, g) && LabelsOk(ns, g, labels, m) && Below(args, |labels|) && GroupFires(ns, Select(labels, args))
    ensures var lbs := Select(labels, args);
      var k, b := FirstNonRoot(lbs), ns[lbs[FirstNonRoot(lbs)]].seg.begin;
      && GroupAt(args, m, k, b)
      && forall k': nat, b': nat :: GroupAt(args, m, k', b') ==> b' == b
  {
    var lbs := Select(labels, args);
    var k, n := FirstNonRoot(lbs), |args|;
    var l1, l2 := lbs[k], lbs[n - 1];
    assert IsLabel(ns, g, labels[args[k]]) && IsLabel(ns, g, labels[args[n - 1]]);
    SingleOffset(ns, g, l1);
    var b := ns[l1].seg.begin;
    LastIsTainted(ns, g, l2, b + n);
    SingleOffset(ns, g, l2);
    assert m[args[k]] == {b} && m[args[n - 1]] == {b + n - 1};
    forall j: nat | j < k ensures m[args[j]] == {} {
      assert lbs[j] == ROOT && lbs[j] == labels[args[j]];
      assert g.den[labels[args[j]]] == m[args[j]];
    }
    forall k': nat, b': nat | GroupAt(args, m, k', b') ensures b' == b {
      assert b + n - 1 in m[args[n - 1]];
    }
  }

  lemma GroupsIffFires(ns: seq<TagNode>, g: Shape, labels: seq<nat>, m: seq<set<nat>>, args: seq<nat>)
    requires Inv(ns, g) && LabelsOk(ns, g, labels, m) && Below(args, |labels|)
    ensures Groups(args, m) <==> GroupFires(ns, Select(labels, args))
  {
    var lbs := Select(labels, args);
    if Groups(args, m) {
      var k: nat, b: nat :| GroupAt(args, m, k, b);
      var n := |args|;
      forall j: nat | j < n ensures IsLabel(ns, g, lbs[j]) && g.den[lbs[j]] == m[args[j]] {
        assert lbs[j] == labels[args[j]];
      }
      forall j: nat | j < k ensures lbs[j] == ROOT {
        EmptyIsRoot(ns, g, lbs[j]);
      }
      assert lbs[k] != ROOT && lbs[n - 1] != ROOT by {
        assert b in g.den[lbs[k]] && b + n - 1 in g.den[lbs[n - 1]];
      }
      assert FirstNonRoot(lbs) == k;
      SingleLabel(ns, g, lbs[k], b);
      SingleLabel(ns, g, lbs[n - 1], b + n - 1);
    }
    if GroupFires(ns, lbs) {
      FiredMeansGrouped(ns, g, labels, m, args);
    }
  }

  lemma EmptyIsRoot(ns: seq<TagNode>, g: Shape, lb: nat)
    requires Inv(ns, g) && IsLabel(ns, g, lb) && g.den[lb] == {}
    ensures lb == ROOT
  {
    if lb != ROOT {
      ParentStep(ns, g, lb);
    }
  }

  /** The guard of `infer_shape` never holds of the untainted label as the last one. */
  lemma LastIsTainted(ns: seq<TagNode>, g: Shape, l2: nat, end: nat)
    requires Inv(ns, g) && IsLabel(ns, g, l2) && End(ns, l2) == end && 0 < end
    ensures l2 != ROOT
  {
  }

  ghost predicate AllRead(read: seq<seq<TagSeg>>, m: seq<set<nat>>) {
    |read| <= |m| && forall k: nat :: k < |read| ==> Reads(read[k], m[k])
  }

  /** `find`, as a run sees it. */
  method ReadLabel(ts: TagSet, lb: nat) returns (reading: Reading)
    requires ts.Valid() && IsLabel(ts.nodes, ts.shape, lb) && End(ts.nodes, lb) <= MAX_LB
    modifies ts
    ensures ts.Valid() && Grows(old(ts.nodes), old(ts.shape), ts.nodes, ts.shape) && SignsHold(old(ts.nodes), ts.nodes)
    ensures reading.OutOfNodes? ==> |ts.nodes| == MAX_LB
    ensures reading.Segments? ==> Reads(reading.segs, ts.SetOf(lb)) && SignsRead(old(ts.nodes), lb, reading.segs)
    ensures Plain(old(ts.nodes), old(ts.shape)) ==> reading.Segments? && ts.nodes == old(ts.nodes) && ts.shape == old(ts.shape)
  {
    reading := ts.Find(lb);
  }

  /** Reads labels in order until one of them exhausts the store. */
  method ReadMany(ts: TagSet, ops: seq<AnyOp>, labels: seq<nat>, ghost m: seq<set<nat>>) returns (read: seq<seq<TagSeg>>)
    requires ts.Valid() && LabelsOk(ts.nodes, ts.shape, labels, m) && SignOk(ts.nodes, ops, labels)
    modifies ts
    ensures ts.Valid() && LabelsOk(ts.nodes, ts.shape, labels, m) && AllRead(read, m)
    ensures |read| < |labels| ==> |ts.nodes| == MAX_LB
    ensures |old(ts.nodes)| <= |ts.nodes|
    ensures forall k: nat :: k < |read| ==> SignsSeen(ops, labels, |labels|, labels[k], read[k])
  {
    read := [];
    while |read| < |labels|
      invariant |old(ts.nodes)| <= |ts.nodes| && SignOk(ts.nodes, ops, labels)
      invariant ts.Valid() && LabelsOk(ts.nodes, ts.shape, labels, m) && AllRead(read, m)
      invariant |read| <= |labels|
      invariant forall k: nat :: k < |read| ==> SignsSeen(ops, labels, |labels|, labels[k], read[k])
    {
      var k := |read|;
      assert IsLabel(ts.nodes, ts.shape, labels[k]) && ts.SetOf(labels[k]) == m[k];
      ghost var ns, g := ts.nodes, ts.shape;
      var reading := ReadLabel(ts, labels[k]);
      LabelsKept(ns, g, ts.nodes, ts.shape, labels, m);
      if reading.OutOfNodes? {
        return;
      }
      SignsAreSeen(ns, ops, labels, labels[k], reading.segs);
      SignOkStays(ns, ts.nodes, ops, labels);
      read := read + [reading.segs];
    }
  }

  // ------------------------------------------------------- signs in a run

  /** None of the first n operations sets a sign. */
  ghost predicate NoSignOps(ops: seq<AnyOp>, n: nat) {
    forall q: nat :: q < n && q < |ops| ==> !ops[q].AnySign?
  }

  /** Which signs the store has: those that were set, and none if none was. */
  ghost predicate SignOk(ns: seq<TagNode>, ops: seq<AnyOp>, labels: seq<nat>) {
    && |labels| <= |ops| && (NoSignOps(ops, |labels|) ==> NoSigns(ns))
    && forall q: nat {:trigger labels[q]} :: q < |labels| && ops[q].AnySign? ==> labels[q] < |ns| && ns[labels[q]].seg.sign
  }

  /** What the first n operations mean for the signs read from a label: the highest segment has
      one if the label's sign was set, and no segment has one if no sign was set at all. */
  ghost predicate SignsSeen(ops: seq<AnyOp>, labels: seq<nat>, n: nat, lb: nat, segs: seq<TagSeg>)
    requires n <= |labels| <= |ops|
  {
    && (NoSignOps(ops, n) ==> Unsigned(segs))
    && forall q: nat :: q < n && ops[q].AnySign? && labels[q] == lb != ROOT ==> segs != [] && segs[|segs| - 1].sign
  }

  lemma SignsAreSeen(ns: seq<TagNode>, ops: seq<AnyOp>, labels: seq<nat>, lb: nat, segs: seq<TagSeg>)
    requires SignOk(ns, ops, labels) && lb < |ns| && SignsRead(ns, lb, segs)
    ensures SignsSeen(ops, labels, |labels|, lb, segs)
  {
  }

  lemma SignOkStays(ns: seq<TagNode>, ns': seq<TagNode>, ops: seq<AnyOp>, labels: seq<nat>)
    requires SignOk(ns, ops, labels) && SignsHold(ns, ns')
    ensures SignOk(ns', ops, labels)
  {
    forall q: nat | q < |labels| && ops[q].AnySign? ensures labels[q] < |ns'| && ns'[labels[q]].seg.sign {
      assert ns[labels[q]].seg.sign;
    }
  }

  /** Every `find` of the run saw the signs set before it. */
  ghost predicate FoundSigns(ops: seq<AnyOp>, labels: seq<nat>, found: seq<seq<TagSeg>>) {
    && |found| == |labels| <= |ops|
    && forall k: nat {:trigger found[k]} :: k < |found| && ops[k].AnyFind? ==> SignsSeen(ops, labels, k, labels[k], found[k])
  }

  lemma SignPush(ns: seq<TagNode>, ns': seq<TagNode>, ops: seq<AnyOp>, labels: seq<nat>, found: seq<seq<TagSeg>>, lb: nat, segs: seq<TagSeg>)
    requires SignOk(ns, ops, labels) && FoundSigns(ops, labels, found) && |labels| < |ops| && lb < |ns'|
    requires var op := ops[|labels|];
      && (if op.AnySign? then SignsStay(ns, ns') && ns'[lb].seg.sign else SignsHold(ns, ns'))
      && (op.AnyFind? ==> lb < |ns| && SignsRead(ns, lb, segs))
    ensures SignOk(ns', ops, labels + [lb]) && FoundSigns(ops, labels + [lb], found + [segs])
  {
    var n, labels', found' := |labels|, labels + [lb], found + [segs];
    forall q: nat | q < |labels'| && ops[q].AnySign? ensures labels'[q] < |ns'| && ns'[labels'[q]].seg.sign {
      if q < n {
        assert labels'[q] == labels[q] && ns[labels[q]].seg.sign;
      }
    }
    if ops[n].AnyFind? {
      SignsAreSeen(ns, ops, labels, lb, segs);
    }
    forall k: nat | k < |found'| && ops[k].AnyFind? ensures SignsSeen(ops, labels', k, labels'[k], found'[k]) {
      if k < n {
        assert SignsSeen(ops, labels, k, labels[k], found[k]);
        assert found'[k] == found[k];
      }
      forall q: nat | q < k && ops[q].AnySign? && labels'[q] == labels'[k] != ROOT
        ensures found'[k] != [] && found'[k][|found'[k]| - 1].sign
      {
        assert labels'[q] == labels[q];
      }
    }
  }

  /** For every run of all operations in any order, shape inference, and-op marks and reads at
      any point included, there are sets m such that: what is read from a label after the last
      operation, or by a `find` on the way, covers exactly its set; labels are equal exactly when
      their sets are; each operation denotes what AnyEffect allows; the operations that issue
      no label hand their operand's back; and signs are read where they were set. The run stops early only when the store is full. */
  method RunAny(ops: seq<AnyOp>)
    returns (labels: seq<nat>, found: seq<seq<TagSeg>>, read: seq<seq<TagSeg>>, numNodes: nat, ghost m: seq<set<nat>>)
    requires forall k: nat :: k < |ops| ==> AnyOk(ops[k], k)
    ensures |read| <= |labels| == |found| == |m| <= |ops|
    ensures |read| < |ops| ==> numNodes == MAX_LB
    ensures AllRead(read, m) && FoundOk(ops, found, m)
    ensures forall k: nat, j: nat :: k < |labels| && j < |labels| ==> (labels[k] == labels[j] <==> m[k] == m[j])
    ensures MeaningOk(ops, m, labels)
    ensures HandedBack(ops, labels)
    ensures FoundSigns(ops, labels, found) && forall k: nat :: k < |read| ==> SignsSeen(ops, labels, |labels|, labels[k], read[k])
  {
    var ts := new TagSet();
    labels, found, m := [], [], [];
    while |labels| < |ops|
      invariant fresh(ts) && ts.Valid() && RunState(ts.nodes, ts.shape, ops, labels, found, m)
      invariant SignOk(ts.nodes, ops, labels) && FoundSigns(ops, labels, found)
    {
      ghost var ns := ts.nodes;
      var r, segs := AnyStep(ts, ops[|labels|], labels, m);
      if r.Exhausted? {
        SignOkStays(ns, ts.nodes, ops, labels);
        break;
      }
      SignPush(ns, ts.nodes, ops, labels, found, r.lb, segs);
      RunPush(ts.nodes, ts.shape, ops, labels, found, m, r.lb, segs);
      m := m + [ts.SetOf(r.lb)];
      labels, found := labels + [r.lb], found + [segs];
    }
    read := ReadMany(ts, ops, labels, m);
    numNodes := |ts.nodes|;
    LabelsIff(ts.nodes, ts.shape, labels, m);
  }

  /** What holds between two operations of a run. */
  ghost predicate RunState(ns: seq<TagNode>, g: Shape, ops: seq<AnyOp>, labels: seq<nat>, found: seq<seq<TagSeg>>, m: seq<set<nat>>)
    requires Sized(ns, g)
  {
    && |found| == |labels| == |m| <= |ops|
    && LabelsOk(ns, g, labels, m) && MeaningOk(ops, m, labels) && FoundOk(ops, found, m) && HandedBack(ops, labels)
  }

  ghost predicate HandedBack(ops: seq<AnyOp>, labels: seq<nat>) {
    && |labels| <= |ops|
    && forall k: nat :: k < |labels| && SameLabel(ops[k]) ==> ops[k].i < k && labels[k] == labels[ops[k].i]
  }

  lemma RunPush(ns: seq<TagNode>, g: Shape, ops: seq<AnyOp>, labels: seq<nat>, found: seq<seq<TagSeg>>, m: seq<set<nat>>,
                lb: nat, segs: seq<TagSeg>)
    requires Sized(ns, g) && |labels| < |ops| && AnyOk(ops[|labels|], |labels|)
    requires LabelsOk(ns, g, labels, m) && |found| == |labels| && MeaningOk(ops, m, labels) && FoundOk(ops, found, m)
    requires HandedBack(ops, labels) && IsLabel(ns, g, lb) && End(ns, lb) <= MAX_LB
    requires var op := ops[|labels|];
      && AnyEffect(op, g.den[lb], m, labels) && (SameLabel(op) ==> lb == labels[op.i])
      && (op.AnyFind? ==> Reads(segs, g.den[lb]))
    ensures RunState(ns, g, ops, labels + [lb], found + [segs], m + [g.den[lb]])
  {
    MeaningPush(ops, m, m + [g.den[lb]], labels, labels + [lb]);
  }

  lemma LabelsIff(ns: seq<TagNode>, g: Shape, labels: seq<nat>, m: seq<set<nat>>)
    requires Inv(ns, g) && LabelsOk(ns, g, labels, m)
    ensures forall k: nat, j: nat :: k < |labels| && j < |labels| ==> (labels[k] == labels[j] <==> m[k] == m[j])
  {
    forall k: nat, j: nat | k < |labels| && j < |labels|
      ensures labels[k] == labels[j] <==> m[k] == m[j]
    {
      assert g.den[labels[k]] == m[k] && g.den[labels[j]] == m[j];
      if m[k] == m[j] {
        TagPathsUnique(ns, g, labels, m, k, j);
      }
    }
  }

  /** Every `find` of the run returned the set of its label. */
  ghost predicate FoundOk(ops: seq<AnyOp>, found: seq<seq<TagSeg>>, m: seq<set<nat>>) {
    && |found| == |m| <= |ops|
    && forall k: nat :: k < |found| && ops[k].AnyFind? ==> Reads(found[k], m[k])
  }

  /** What the contracts of the operations say about the sets issued so far. */
  ghost predicate MeaningOk(ops: seq<AnyOp>, m: seq<set<nat>>, labels: seq<nat>) {
    && |m| == |labels| <= |ops|
    && forall k: nat {:trigger m[k]} {:trigger ops[k]} :: k < |m| ==> AnyEffect(ops[k], m[k], m[..k], labels[..k])
  }

  lemma MeaningPush(ops: seq<AnyOp>, m: seq<set<nat>>, m': seq<set<nat>>, labels: seq<nat>, labels': seq<nat>)
    requires MeaningOk(ops, m, labels) && |m| < |ops| && |m'| == |m| + 1 == |labels'| && m <= m' && labels <= labels'
    requires AnyEffect(ops[|m|], m'[|m|], m, labels)
    ensures MeaningOk(ops, m', labels')
  {
    forall k: nat | k < |m'|
      ensures AnyEffect(ops[k], m'[k], m'[..k], labels'[..k])
    {
      if k < |m| {
        assert AnyEffect(ops[k], m[k], m[..k], labels[..k]);
        assert m'[..k] == m[..k] && labels'[..k] == labels[..k];
      } else {
        assert m'[..k] == m && labels'[..k] == labels;
      }
    }
  }

  // ------------------------------------------------------- loading a word

  /** Loading 2, 4 or 8 consecutive tainted bytes groups them: the label denotes exactly
      those offsets, in any state of the store, and is read back as one segment unless it
      carries an and-op mark. */
  method LoadWord(ts: TagSet, b: nat, len: nat) returns (r: Outcome, segs: seq<TagSeg>)
    requires ts.Valid() && (len == 2 || len == 4 || len == 8) && b + len <= MAX_LB
    modifies ts
    ensures ts.Valid() && Grows(old(ts.nodes), old(ts.shape), ts.nodes, ts.shape)
    ensures r.Exhausted? ==> |ts.nodes| == MAX_LB
    ensures r.Label? ==>
      && IsLabel(ts.nodes, ts.shape, r.lb) && Reads(segs, Range(b, b + len))
      && (!ts.nodes[r.lb].andOp ==> |segs| == 1 && OneRange(segs[0], b, len))
  {
    segs := [];
    var ok, lbs := InsertBytes(ts, b, len);
    if !ok {
      return Exhausted, segs;
    }
    BytesFire(ts.nodes, ts.shape, lbs, b);
    ghost var ns, g := ts.nodes, ts.shape;
    var c, _ := ts.CombineN(lbs, true);
    r := c;
    GrowsTrans(old(ts.nodes), old(ts.shape), ns, g, ts.nodes, ts.shape);
    if r.Label? {
      ghost var ns', g' := ts.nodes, ts.shape;
      var reading := ReadGroup(ts, r.lb, b, len);
      GrowsTrans(old(ts.nodes), old(ts.shape), ns', g', ts.nodes, ts.shape);
      if reading.OutOfNodes? {
        return Exhausted, segs;
      }
      segs := reading.segs;
    }
  }

  /** Inference for an arithmetic operation, as a reader sees it: a label that widens and carries no
      and-op mark is listed as one segment of len offsets. */
  method InferAndRead(ts: TagSet, lb: nat, len: nat) returns (reading: Reading)
    requires ts.Valid() && IsLabel(ts.nodes, ts.shape, lb) && len < 0x1_0000_0000_0000_0000
    modifies ts
    ensures ts.Valid() && Grows(old(ts.nodes), old(ts.shape), ts.nodes, ts.shape)
    ensures reading.OutOfNodes? ==> |ts.nodes| == MAX_LB
    ensures reading.Segments? && End(ts.nodes, lb) <= MAX_LB ==> Reads(reading.segs, ts.SetOf(lb))
    ensures old(Widens(ts.nodes, ts.shape, lb, len)) && !old(ts.nodes[lb].andOp) && End(ts.nodes, lb) <= MAX_LB && reading.Segments? ==>
      |reading.segs| == 1 && OneRange(reading.segs[0], End(ts.nodes, lb) - len, len)
  {
    ghost var s := ts.SetOf(lb);
    ts.InferShape2(lb, len);
    ghost var ns, g := ts.nodes, ts.shape;
    reading := ts.Find(lb);
    GrowsTrans(old(ts.nodes), old(ts.shape), ns, g, ts.nodes, ts.shape);
  }

  method InsertBytes(ts: TagSet, b: nat, len: nat) returns (ok: bool, lbs: seq<nat>)
    requires ts.Valid()
    modifies ts
    ensures ts.Valid() && Grows(old(ts.nodes), old(ts.shape), ts.nodes, ts.shape)
    ensures !ok ==> |ts.nodes| == MAX_LB
    ensures ok ==> |lbs| == len && Bytes(ts.nodes, ts.shape, lbs, b)
  {
    lbs := [];
    while |lbs| < len
      invariant ts.Valid() && Grows(old(ts.nodes), old(ts.shape), ts.nodes, ts.shape)
      invariant |lbs| <= len && Bytes(ts.nodes, ts.shape, lbs, b)
    {
      ghost var ns, g := ts.nodes, ts.shape;
      var byte := ts.Insert(b + |lbs|);
      GrowsTrans(old(ts.nodes), old(ts.shape), ns, g, ts.nodes, ts.shape);
      if byte.Exhausted? {
        return false, lbs;
      }
      BytesKept(ns, g, ts.nodes, ts.shape, lbs, b);
      lbs := lbs + [byte.lb];
    }
    ok := true;
  }

  method ReadGroup(ts: TagSet, lb: nat, b: nat, len: nat) returns (reading: Reading)
    requires ts.Valid() && lb != ROOT && IsLabel(ts.nodes, ts.shape, lb) && 0 < len && b + len <= MAX_LB
    requires ts.SetOf(lb) == Range(b, b + len) == SegRange(ts.nodes[lb])
    modifies ts
    ensures ts.Valid() && Grows(old(ts.nodes), old(ts.shape), ts.nodes, ts.shape)
    ensures reading.OutOfNodes? ==> |ts.nodes| == MAX_LB
    ensures reading.Segments? ==> Reads(reading.segs, Range(b, b + len))
    ensures reading.Segments? && !ts.nodes[lb].andOp ==> |reading.segs| == 1 && OneRange(reading.segs[0], b, len)
  {
    RangeEnds(ts.nodes[lb].seg, b, len);
    assert End(ts.nodes, lb) <= MAX_LB;
    ghost var s := ts.SetOf(lb);
    reading := ts.Find(lb);
    assert ts.SetOf(lb) == s;
  }

  ghost predicate OneRange(s: TagSeg, b: nat, len: nat) {
    s.begin == b && s.end == b + len
  }

  lemma RangeEnds(s: TagSeg, b: nat, len: nat)
    requires 0 < len && Range(s.begin, s.end) == Range(b, b + len)
    ensures OneRange(s, b, len)
  {
    assert b in Range(s.begin, s.end) && b + len - 1 in Range(s.begin, s.end);
    assert s.begin in Range(b, b + len) && s.end - 1 in Range(b, b + len);
  }

  /** lbs are the labels of the single offsets b, b + 1, ... */
  ghost predicate Bytes(ns: seq<TagNode>, g: Shape, lbs: seq<nat>, b: nat)
    requires Sized(ns, g)
  {
    forall k: nat {:trigger lbs[k]} :: k < |lbs| ==>
      && lbs[k] != ROOT && IsLabel(ns, g, lbs[k]) && g.den[lbs[k]] == {b + k} && End(ns, lbs[k]) == b + k + 1
  }

  lemma BytesKept(ns: seq<TagNode>, g: Shape, ns': seq<TagNode>, g': Shape, lbs: seq<nat>, b: nat)
    requires Grows(ns, g, ns', g') && Bytes(ns, g, lbs, b)
    ensures Bytes(ns', g', lbs, b)
  {
  }

  lemma BytesFire(ns: seq<TagNode>, g: Shape, lbs: seq<nat>, b: nat)
    requires Inv(ns, g) && Bytes(ns, g, lbs, b) && (|lbs| == 2 || |lbs| == 4 || |lbs| == 8)
    ensures AllLabels(ns, g, lbs) && GroupFires(ns, lbs)
    ensures FirstNonRoot(lbs) == 0 && ns[lbs[0]].seg.begin == b
  {
    var first, last := lbs[0], lbs[|lbs| - 1];
    SingleLabel(ns, g, first, b);
    SingleLabel(ns, g, last, b + |lbs| - 1);
    assert FirstNonRoot(lbs) == 0;
  }

  lemma SingleLabel(ns: seq<TagNode>, g: Shape, lb: nat, o: nat)
    requires Inv(ns, g) && lb != ROOT && IsLabel(ns, g, lb) && g.den[lb] == {o}
    ensures ns[lb].parent == ROOT && ns[lb].seg.begin == o && End(ns, lb) == o + 1
  {
    ParentStep(ns, g, lb);
    var p := ns[lb].parent;
    assert End(ns, g.up[lb]) in g.den[lb];
    if p != ROOT {
      ParentStep(ns, g, p);
      assert false;
    } else {
      SingleOffset(ns, g, lb);
    }
  }
}
