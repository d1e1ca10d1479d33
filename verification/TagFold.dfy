/**
 `combine`, folded over the labels of a load: exactly what each step keeps, and which offsets
 survive the whole fold whatever inference has done to the store.
 */
module TagFold {
  import opened TagTrie
  import opened TagPaths
  import opened TagMerge
  import opened TagInference

  /** What `combine` of two labels denotes, in either order. */
  ghost function KeptOf(ns: seq<TagNode>, g: Shape, a: nat, b: nat): (s: set<nat>)
    requires Inv(ns, g) && IsLabel(ns, g, a) && IsLabel(ns, g, b)
    ensures s <= g.den[a] + g.den[b]
  {
    if a <= b then Kept(ns, g, a, b) else Kept(ns, g, b, a)
  }

  // ------------------------------------------------------------- offsets that survive

  /** The segment that holds o reaches from its begin to o without a hole. */
  lemma {:induction false} BeginReaches(ns: seq<TagNode>, g: Shape, i: nat, o: nat)
    requires Inv(ns, g) && IsLabel(ns, g, i) && o in g.den[i]
    ensures BeginOf(ns, g, i, o) <= o && Range(BeginOf(ns, g, i, o), o + 1) <= g.den[i]
    decreases End(ns, i)
  {
    ParentStep(ns, g, i);
    WidenedIsWhole(ns, g, i);
    if ns[i].seg.begin > o {
      BeginReaches(ns, g, ns[i].parent, o);
    }
  }

  /** No offset that s and t share is joined to o by offsets of theirs. */
  ghost predicate Apart(s: set<nat>, t: set<nat>, o: nat) {
    forall x: nat :: x <= o && x in s && x in t ==> !(Range(x, o + 1) <= s + t)
  }

  /** An offset with no shared one joined to it survives `combine`. */
  lemma ApartIsKept(ns: seq<TagNode>, g: Shape, a: nat, b: nat, o: nat)
    requires Inv(ns, g) && IsLabel(ns, g, a) && IsLabel(ns, g, b)
    requires o in g.den[a] + g.den[b] && Apart(g.den[a], g.den[b], o)
    ensures o in KeptOf(ns, g, a, b)
  {
    var l1, l2 := if a <= b then a else b, if a <= b then b else a;
    if o !in g.den[l1] {
      BeginReaches(ns, g, l2, o);
      var at := BeginOf(ns, g, l2, o);
      assert Range(at, o + 1) <= g.den[a] + g.den[b];
      assert at in g.den[l2];
      if l1 != ROOT {
        BeginsBound(ns, g, l1);
      }
      assert !Hidden(ns, g, l1, at);
    }
  }

  /** Two of the listed sets have x. */
  ghost predicate Shared(den: seq<set<nat>>, lbs: seq<nat>, x: nat)
    requires Below(lbs, |den|)
  {
    exists i: nat, j: nat :: i < j < |lbs| && x in den[lbs[i]] && x in den[lbs[j]]
  }

  predicate Below(lbs: seq<nat>, n: nat) {
    forall k: nat :: k < |lbs| ==> lbs[k] < n
  }

  /** No shared offset is joined to o by offsets of the union. */
  ghost predicate Undisturbed(den: seq<set<nat>>, lbs: seq<nat>, o: nat)
    requires Below(lbs, |den|)
  {
    forall x: nat :: x <= o && Shared(den, lbs, x) ==> !(Range(x, o + 1) <= UnionOf(den, lbs))
  }

  /** s is the union of the listed sets, except for offsets that a shared one may hide. */
  ghost predicate Gathers(den: seq<set<nat>>, lbs: seq<nat>, s: set<nat>)
    requires Below(lbs, |den|)
  {
    && s <= UnionOf(den, lbs)
    && forall o: nat :: o in UnionOf(den, lbs) && Undisturbed(den, lbs, o) ==> o in s
  }

  /** Disjoint sets give their exact union. */
  lemma DisjointGathers(den: seq<set<nat>>, lbs: seq<nat>, s: set<nat>)
    requires Below(lbs, |den|) && Gathers(den, lbs, s) && forall x: nat :: !Shared(den, lbs, x)
    ensures s == UnionOf(den, lbs)
  {
    forall o: nat | o in UnionOf(den, lbs) ensures o in s {
      assert Undisturbed(den, lbs, o);
    }
  }

  lemma {:induction false} InUnion(den: seq<set<nat>>, lbs: seq<nat>, x: nat)
    requires Below(lbs, |den|)
    ensures x in UnionOf(den, lbs) <==> exists i: nat :: i < |lbs| && x in den[lbs[i]]
  {
    if lbs != [] {
      var init := lbs[..|lbs| - 1];
      InUnion(den, init, x);
      if i: nat :| i < |init| && x in den[init[i]] {
        assert x in den[lbs[i]];
      }
      if i: nat :| i < |lbs| && x in den[lbs[i]] {
        assert i < |init| ==> x in den[init[i]];
      }
    }
  }

  // ------------------------------------------------------------- the fold

  /** The store and the label combined so far. */
  datatype FoldState = FoldState(ns: seq<TagNode>, g: Shape, cur: nat)

  ghost predicate FoldOk(f: FoldState, lbs: seq<nat>) {
    Inv(f.ns, f.g) && IsLabel(f.ns, f.g, f.cur) && AllLabels(f.ns, f.g, lbs)
  }

  ghost predicate FoldNext(f: FoldState, lb: nat, f': FoldState) {
    && Inv(f.ns, f.g) && IsLabel(f.ns, f.g, f.cur) && IsLabel(f.ns, f.g, lb)
    && Grows(f.ns, f.g, f'.ns, f'.g) && f'.cur < |f'.ns|
    && f'.g.den[f'.cur] == KeptOf(f.ns, f.g, f.cur, lb)
  }

  /** Each state has combined one more of the labels from index `from` on. */
  ghost predicate IsFold(tr: seq<FoldState>, lbs: seq<nat>, from: nat) {
    && 0 < |tr| <= |lbs| - from + 1
    && forall k: nat :: k < |tr| ==> FoldAt(tr, lbs, from, k)
  }

  ghost predicate FoldAt(tr: seq<FoldState>, lbs: seq<nat>, from: nat, k: nat)
    requires k < |tr| <= |lbs| - from + 1
  {
    FoldOk(tr[k], lbs) && (k > 0 ==> FoldNext(tr[k - 1], lbs[from + k - 1], tr[k]))
  }

  /** The fold starts from f and has come to f'. */
  ghost predicate FoldsTo(tr: seq<FoldState>, lbs: seq<nat>, from: nat, f: FoldState, f': FoldState) {
    IsFold(tr, lbs, from) && tr[0] == f && tr[|tr| - 1] == f'
  }

  lemma LabelsStay(ns: seq<TagNode>, g: Shape, ns': seq<TagNode>, g': Shape, lbs: seq<nat>)
    requires Grows(ns, g, ns', g') && AllLabels(ns, g, lbs)
    ensures AllLabels(ns', g', lbs)
  {
  }

  lemma FoldStarts(lbs: seq<nat>, from: nat, f: FoldState)
    requires from <= |lbs| && FoldOk(f, lbs)
    ensures FoldsTo([f], lbs, from, f, f)
  {
  }

  lemma FoldPush(tr: seq<FoldState>, lbs: seq<nat>, from: nat, f: FoldState, f': FoldState, f'': FoldState)
    requires FoldsTo(tr, lbs, from, f, f') && from + |tr| <= |lbs|
    requires FoldOk(f'', lbs) && FoldNext(f', lbs[from + |tr| - 1], f'')
    ensures FoldsTo(tr + [f''], lbs, from, f, f'')
  {
    var more := tr + [f''];
    forall k: nat | k < |more| ensures FoldAt(more, lbs, from, k) {
      if k < |tr| {
        assert FoldAt(tr, lbs, from, k) && more[k] == tr[k];
      }
      assert k > 0 ==> more[k - 1] == tr[k - 1];
    }
  }

  /** What the label combined so far denotes, when the labels denote what den says. */
  ghost predicate Within(den: seq<set<nat>>, lbs: seq<nat>, n: nat, f: FoldState)
    requires Below(lbs, |den|)
  {
    && n <= |lbs| && den <= f.g.den
    && f.cur < |f.g.den| && f.g.den[f.cur] <= UnionOf(den, lbs[..n])
  }

  lemma NextWithin(den: seq<set<nat>>, lbs: seq<nat>, n: nat, f: FoldState, f': FoldState)
    requires Below(lbs, |den|) && n < |lbs| && Within(den, lbs, n, f) && FoldNext(f, lbs[n], f')
    ensures Within(den, lbs, n + 1, f')
  {
    UnionPush(den, lbs, n);
    assert f.g.den[lbs[n]] == den[lbs[n]];
  }

  /** o is in the label combined so far if one of the first n labels has it. */
  ghost predicate KeepsIt(den: seq<set<nat>>, lbs: seq<nat>, n: nat, f: FoldState, o: nat)
    requires Below(lbs, |den|) && n <= |lbs|
  {
    o in UnionOf(den, lbs[..n]) ==> f.cur < |f.g.den| && o in f.g.den[f.cur]
  }

  lemma NextKeeps(den: seq<set<nat>>, lbs: seq<nat>, n: nat, f: FoldState, f': FoldState, o: nat)
    requires Below(lbs, |den|) && n < |lbs| && Within(den, lbs, n, f) && FoldNext(f, lbs[n], f')
    requires Undisturbed(den, lbs, o) && KeepsIt(den, lbs, n, f, o)
    ensures KeepsIt(den, lbs, n + 1, f', o)
  {
    UnionPush(den, lbs, n);
    assert f.g.den[lbs[n]] == den[lbs[n]];
    if o in UnionOf(den, lbs[..n + 1]) {
      FoldApart(den, lbs, n, f.g.den[f.cur], o);
      ApartIsKept(f.ns, f.g, f.cur, lbs[n], o);
    }
  }

  lemma FoldStep(tr: seq<FoldState>, lbs: seq<nat>, from: nat, k: nat)
    requires IsFold(tr, lbs, from) && 0 < k < |tr|
    ensures FoldNext(tr[k - 1], lbs[from + k - 1], tr[k])
  {
    assert FoldAt(tr, lbs, from, k);
  }

  lemma {:induction false} FoldWithin(tr: seq<FoldState>, den: seq<set<nat>>, lbs: seq<nat>, from: nat, k: nat)
    requires IsFold(tr, lbs, from) && k < |tr| && Below(lbs, |den|) && Within(den, lbs, from, tr[0])
    ensures Within(den, lbs, from + k, tr[k])
  {
    if k > 0 {
      FoldWithin(tr, den, lbs, from, k - 1);
      FoldStep(tr, lbs, from, k);
      NextWithin(den, lbs, from + k - 1, tr[k - 1], tr[k]);
    }
  }

  /** An offset of the first labels that no shared one can hide is still there. */
  lemma {:induction false} FoldKeeps(tr: seq<FoldState>, den: seq<set<nat>>, lbs: seq<nat>, from: nat, k: nat, o: nat)
    requires IsFold(tr, lbs, from) && k < |tr| && Below(lbs, |den|) && Within(den, lbs, from, tr[0])
    requires KeepsIt(den, lbs, from, tr[0], o) && Undisturbed(den, lbs, o)
    ensures KeepsIt(den, lbs, from + k, tr[k], o)
  {
    if k > 0 {
      FoldKeeps(tr, den, lbs, from, k - 1, o);
      FoldWithin(tr, den, lbs, from, k - 1);
      FoldStep(tr, lbs, from, k);
      NextKeeps(den, lbs, from + k - 1, tr[k - 1], tr[k], o);
    }
  }

  lemma FoldApart(den: seq<set<nat>>, lbs: seq<nat>, n: nat, c: set<nat>, o: nat)
    requires Below(lbs, |den|) && n < |lbs| && c <= UnionOf(den, lbs[..n]) && Undisturbed(den, lbs, o)
    ensures Apart(c, den[lbs[n]], o)
  {
    forall x: nat | x <= o && x in c && x in den[lbs[n]] ensures !(Range(x, o + 1) <= c + den[lbs[n]]) {
      InUnion(den, lbs[..n], x);
      var i: nat :| i < n && x in den[lbs[..n][i]];
      assert lbs[..n][i] == lbs[i];
      assert Shared(den, lbs, x);
      forall y: nat | y in c + den[lbs[n]] ensures y in UnionOf(den, lbs) {
        InUnion(den, lbs[..n], y);
        InUnion(den, lbs, y);
        if y in c {
          var j: nat :| j < n && y in den[lbs[..n][j]];
          assert lbs[..n][j] == lbs[j];
        }
      }
    }
  }

  /** A complete fold gathers the labels. */
  lemma FoldGathers(tr: seq<FoldState>, lbs: seq<nat>, from: nat, f: FoldState, f': FoldState)
    requires FoldsTo(tr, lbs, from, f, f') && from <= |lbs| && |tr| == |lbs| - from + 1 && Below(lbs, |f.g.den|)
    requires f.cur < |f.g.den| && f.g.den[f.cur] == UnionOf(f.g.den, lbs[..from])
    ensures f'.cur < |f'.g.den| && Gathers(f.g.den, lbs, f'.g.den[f'.cur])
  {
    var k: nat, den := |tr| - 1, f.g.den;
    assert lbs[..from + k] == lbs;
    FoldWithin(tr, den, lbs, from, k);
    forall o: nat | o in UnionOf(den, lbs) && Undisturbed(den, lbs, o) ensures o in f'.g.den[f'.cur] {
      FoldKeeps(tr, den, lbs, from, k, o);
    }
  }

  /** After combining the first k labels: the bounds, and for small offsets the trace. */
  ghost predicate Bounds(f0: FoldState, tr: seq<FoldState>, lbs: seq<nat>, from: nat, k: nat, f: FoldState, small: bool, plain: bool) {
    && FoldOk(f0, lbs) && (small ==> AllSmall(f0.ns, lbs))
    && from <= k <= |lbs| && |tr| == k - from + 1
    && Folded(f0.ns, f0.g, f.ns, f.g, lbs, k, f.cur, small, plain)
    && (small ==> FoldsTo(tr, lbs, from, f0, f))
    && (AllAre(lbs, f0.cur) ==> f == f0)
  }

  /** The bounds hold of every state of the trace. */
  ghost predicate Progress(f0: FoldState, tr: seq<FoldState>, lbs: seq<nat>, from: nat, k: nat, f: FoldState, small: bool, plain: bool) {
    && from <= k <= |lbs| && |tr| == k - from + 1 && tr[0] == f0 && tr[|tr| - 1] == f
    && forall j: nat {:trigger BoundsAt(tr, lbs, from, j, small, plain)} :: j < |tr| ==> BoundsAt(tr, lbs, from, j, small, plain)
  }

  ghost predicate BoundsAt(tr: seq<FoldState>, lbs: seq<nat>, from: nat, j: nat, small: bool, plain: bool)
    requires j < |tr|
  {
    Bounds(tr[0], tr[..j + 1], lbs, from, from + j, tr[j], small, plain)
  }

  lemma ProgressBegins(lbs: seq<nat>, from: nat, f: FoldState, small: bool, plain: bool)
    requires from <= |lbs| && FoldOk(f, lbs) && f.g.den[f.cur] == UnionOf(f.g.den, lbs[..from])
    requires small ==> AllSmall(f.ns, lbs) && End(f.ns, f.cur) <= MAX_LB
    requires plain ==> Plain(f.ns, f.g)
    ensures Progress(f, [f], lbs, from, from, f, small, plain)
  {
    FoldStarts(lbs, from, f);
    assert [f][..1] == [f];
    assert BoundsAt([f], lbs, from, 0, small, plain);
  }

  lemma ProgressBounds(f0: FoldState, tr: seq<FoldState>, lbs: seq<nat>, from: nat, k: nat, f: FoldState, small: bool, plain: bool)
    requires Progress(f0, tr, lbs, from, k, f, small, plain)
    ensures Bounds(f0, tr, lbs, from, k, f, small, plain)
  {
    var j: nat := |tr| - 1;
    assert BoundsAt(tr, lbs, from, j, small, plain);
    assert tr[..j + 1] == tr;
  }

  lemma ProgressStep(f0: FoldState, tr: seq<FoldState>, lbs: seq<nat>, from: nat, k: nat,
                     f: FoldState, f': FoldState, small: bool, plain: bool)
    requires FoldOk(f0, lbs) && k < |lbs| && Progress(f0, tr, lbs, from, k, f, small, plain) && Inv(f'.ns, f'.g)
    requires Folded(f0.ns, f0.g, f'.ns, f'.g, lbs, k + 1, f'.cur, small, plain) && (small ==> FoldNext(f, lbs[k], f'))
    requires f.cur == lbs[k] ==> f' == f
    ensures Progress(f0, tr + [f'], lbs, from, k + 1, f', small, plain)
  {
    var more := tr + [f'];
    ProgressBounds(f0, tr, lbs, from, k, f, small, plain);
    BoundsStep(f0, tr, lbs, from, k, f, f', small, plain);
    forall j: nat | j < |more| ensures BoundsAt(more, lbs, from, j, small, plain) {
      if j < |tr| {
        assert BoundsAt(tr, lbs, from, j, small, plain);
        assert more[..j + 1] == tr[..j + 1] && more[j] == tr[j];
      } else {
        assert more[..j + 1] == more;
      }
    }
  }

  lemma BoundsStep(f0: FoldState, tr: seq<FoldState>, lbs: seq<nat>, from: nat, k: nat,
                   f: FoldState, f': FoldState, small: bool, plain: bool)
    requires k < |lbs| && Bounds(f0, tr, lbs, from, k, f, small, plain) && Inv(f'.ns, f'.g)
    requires Folded(f0.ns, f0.g, f'.ns, f'.g, lbs, k + 1, f'.cur, small, plain) && (small ==> FoldNext(f, lbs[k], f'))
    requires f.cur == lbs[k] ==> f' == f
    ensures Bounds(f0, tr + [f'], lbs, from, k + 1, f', small, plain)
  {
    LabelsStay(f0.ns, f0.g, f'.ns, f'.g, lbs);
    if small {
      FoldPush(tr, lbs, from, f0, f, f');
    }
  }

  lemma ProgressEnds(f0: FoldState, tr: seq<FoldState>, lbs: seq<nat>, from: nat, f: FoldState, small: bool, plain: bool)
    requires FoldOk(f0, lbs) && Progress(f0, tr, lbs, from, |lbs|, f, small, plain)
    ensures Grows(f0.ns, f0.g, f.ns, f.g) && IsLabel(f.ns, f.g, f.cur) && f.g.den[f.cur] <= UnionOf(f0.g.den, lbs)
    ensures plain ==> Plain(f.ns, f.g)
    ensures small ==> End(f.ns, f.cur) <= MAX_LB && |tr| == |lbs| - from + 1 && FoldsTo(tr, lbs, from, f0, f)
    ensures small && plain ==> f.g.den[f.cur] == UnionOf(f0.g.den, lbs)
    ensures AllAre(lbs, f0.cur) ==> f == f0
  {
    ProgressBounds(f0, tr, lbs, from, |lbs|, f, small, plain);
    assert lbs[..|lbs|] == lbs;
  }
}
