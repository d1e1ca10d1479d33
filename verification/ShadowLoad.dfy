/**
 DFSanFunction::loadShadow (DFSanPass.cc): the code it emits to unite the shadows of the bytes of
 a load, run against the label store.
 */
module ShadowLoad {
  import opened TagTrie
  import opened TagInference
  import opened TagFold
  import opened TagSets

  /** Two adjacent 32-bit shadows, loaded as one little-endian word. */
  function Wide(lo: nat, hi: nat): nat {
    lo + hi * 0x1_0000_0000
  }

  /** (w << 32) | (w >> 32) on 64-bit words. */
  function Rotated(w: nat): nat {
    (w % 0x1_0000_0000) * 0x1_0000_0000 + (w / 0x1_0000_0000) % 0x1_0000_0000
  }

  ghost predicate Words(ls: seq<nat>) {
    forall k: nat :: k < |ls| ==> ls[k] < 0x1_0000_0000
  }

  /** A word is its own rotation exactly when its two shadows are equal. */
  lemma RotationTest(lo: nat, hi: nat)
    requires lo < 0x1_0000_0000 && hi < 0x1_0000_0000
    ensures Rotated(Wide(lo, hi)) == Wide(lo, hi) <==> lo == hi
  {
  }

  lemma WideInjective(a: nat, b: nat, c: nat, d: nat)
    requires a < 0x1_0000_0000 && b < 0x1_0000_0000 && c < 0x1_0000_0000 && d < 0x1_0000_0000
    ensures Wide(a, b) == Wide(c, d) <==> a == c && b == d
  {
  }

  /** The first test: the word equals its rotation. */
  method HalvesEqual(lo: nat, hi: nat) returns (eq: bool)
    requires lo < 0x1_0000_0000 && hi < 0x1_0000_0000
    ensures eq <==> lo == hi
  {
    RotationTest(lo, hi);
    eq := Wide(lo, hi) == Rotated(Wide(lo, hi));
  }

  /** The later tests: the next word equals the first. */
  method WordsEqual(a: nat, b: nat, c: nat, d: nat) returns (eq: bool)
    requires a < 0x1_0000_0000 && b < 0x1_0000_0000 && c < 0x1_0000_0000 && d < 0x1_0000_0000
    ensures eq <==> a == c && b == d
  {
    WideInjective(a, b, c, d);
    eq := Wide(a, b) == Wide(c, d);
  }

  /** The chain of wide compares reaches the tail exactly when all shadows are equal. */
  method AllEqual(ls: seq<nat>) returns (eq: bool)
    requires Words(ls) && |ls| >= 2 && |ls| % 2 == 0
    ensures eq <==> AllAre(ls, ls[0])
  {
    eq := HalvesEqual(ls[0], ls[1]);
    if !eq {
      return;
    }
    var ofs: nat := 2;
    while ofs != |ls|
      invariant 2 <= ofs <= |ls| && ofs % 2 == 0
      invariant forall k: nat :: k < ofs ==> ls[k] == ls[0]
      decreases |ls| - ofs
    {
      eq := WordsEqual(ls[0], ls[1], ls[ofs], ls[ofs + 1]);
      if !eq {
        return;
      }
      ofs := ofs + 2;
    }
    eq := true;
  }

  /** The label of a load. The fast path is taken only for equal shadows; it then returns what the
      call of __dfsan_union_load would have returned and, like that call, leaves the store alone. */
  method LoadShadow(ts: TagSet, ls: seq<nat>, avoidNewBlocks: bool) returns (r: Outcome, fast: bool)
    requires ts.Valid() && AllLabels(ts.nodes, ts.shape, ls) && Words(ls)
    modifies ts
    ensures ts.Valid() && Grows(old(ts.nodes), old(ts.shape), ts.nodes, ts.shape)
    ensures fast <==> |ls| >= 2 && !avoidNewBlocks && |ls| % 2 == 0 && AllAre(ls, ls[0])
    ensures |ls| == 0 ==> r == Label(ROOT) && ts.nodes == old(ts.nodes)
    ensures |ls| > 0 && AllAre(ls, ls[0]) ==> r == Label(ls[0]) && ts.nodes == old(ts.nodes) && ts.shape == old(ts.shape)
    ensures r.Exhausted? ==> |ts.nodes| == MAX_LB
    ensures r.Label? ==> IsLabel(ts.nodes, ts.shape, r.lb)
    ensures r.Label? && old(GroupFires(ts.nodes, ls)) ==>
      var b := old(ts.nodes)[ls[FirstNonRoot(ls)]].seg.begin;
      ts.SetOf(r.lb) == Range(b, b + |ls|)
    ensures r.Label? && !old(GroupFires(ts.nodes, ls)) ==> ts.SetOf(r.lb) <= old(UnionOf(ts.shape.den, ls))
    ensures r.Label? && !old(GroupFires(ts.nodes, ls)) && old(AllSmall(ts.nodes, ls)) ==>
      Gathers(old(ts.shape.den), ls, ts.SetOf(r.lb))
    ensures Plain(old(ts.nodes), old(ts.shape)) && !old(GroupFires(ts.nodes, ls)) && old(AllSmall(ts.nodes, ls)) && r.Label? ==>
      ts.SetOf(r.lb) == old(UnionOf(ts.shape.den, ls))
  {
    fast := false;
    if |ls| == 0 {
      return Label(ROOT), false;
    }
    if |ls| == 1 {
      SameLabels(ts.nodes, ts.shape, ls, ls[0]);
      return Label(ls[0]), false;
    }
    if !avoidNewBlocks && |ls| % 2 == 0 {
      fast := AllEqual(ls);
      if fast {
        SameLabels(ts.nodes, ts.shape, ls, ls[0]);
        return Label(ls[0]), true;
      }
    }
    var c, _ := ts.CombineN(ls, true);
    r := c;
  }

  /** Equal labels are never grouped, and their union is what each denotes. */
  lemma SameLabels(ns: seq<TagNode>, g: Shape, ls: seq<nat>, lb: nat)
    requires Inv(ns, g) && AllLabels(ns, g, ls) && |ls| > 0 && AllAre(ls, lb)
    ensures !GroupFires(ns, ls) && UnionOf(g.den, ls) == g.den[lb]
  {
    assert ls[0] == lb;
    if FirstNonRoot(ls) < |ls| {
      SelfNeverGroups(ns, g, lb, |ls|);
    }
    SameUnion(g.den, ls, lb);
  }

  lemma {:induction false} SameUnion(den: seq<set<nat>>, ls: seq<nat>, lb: nat)
    requires |ls| > 0 && AllAre(ls, lb) && lb < |den|
    ensures (forall k: nat :: k < |ls| ==> ls[k] < |den|) && UnionOf(den, ls) == den[lb]
  {
    if |ls| > 1 {
      SameUnion(den, ls[..|ls| - 1], lb);
    } else {
      assert ls[..0] == [];
    }
  }
}
