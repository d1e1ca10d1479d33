/**
 The pass state of one function: combineShadows, combineOperandShadows and loadShadow of
 DFSanPass.cc, with the tables they keep and the dominator tree they consult and update.
 */
module ShadowPass {
  import opened ShadowCombine
  import opened ShadowRuns
  import opened ShadowSplit
  import opened ShadowChain

  datatype Answer = Found(v: nat) | NotFound

  /** The value combineShadows finds for v1 and v2 in block at without emitting code: by the zero and
      equality shortcuts, then by the elements, then in the cache. */
  ghost function Known(elems: map<nat, set<nat>>, cache: Cache, doms: seq<set<nat>>, v1: nat, v2: nat, at: nat): Answer
    requires at < |doms|
  {
    if v1 == 0 then Found(v2)
    else if v2 == 0 || v1 == v2 then Found(v1)
    else if v1 in elems && v2 in elems && elems[v2] <= elems[v1] then Found(v1)
    else if v1 in elems && v2 in elems && elems[v1] <= elems[v2] then Found(v2)
    else if v1 in elems && v2 !in elems && v2 in elems[v1] then Found(v1)
    else if v2 in elems && v1 !in elems && v1 in elems[v2] then Found(v2)
    else if Key(v1, v2) in cache && cache[Key(v1, v2)].block in doms[at] then Found(cache[Key(v1, v2)].shadow)
    else NotFound
  }

  /** A recorded union is known from then on. */
  lemma KnownAfter(elems: map<nat, set<nat>>, cache: Cache, doms: seq<set<nat>>, v1: nat, v2: nat, at: nat, r: nat,
                   elems': map<nat, set<nat>>, cache': Cache, doms': seq<set<nat>>, pos: nat)
    requires at < |doms| && pos < |doms'| && pos in doms'[pos] && Known(elems, cache, doms, v1, v2, at) == NotFound
    requires r != v1 && r != v2 && cache' == cache[Key(v1, v2) := Cached(pos, r)]
    requires elems' == elems[r := Elems(elems, v1) + Elems(elems, v2)]
    ensures Known(elems', cache', doms', v1, v2, pos) == Found(r) == Known(elems', cache', doms', v2, v1, pos)
  {
  }

  class DFSanFunction {
    const avoidNewBlocks: bool
    var defs: seq<Def>
    var doms: seq<set<nat>>
    var elems: map<nat, set<nat>>
    var cache: Cache
    ghost var edges: Edges            // the control-flow graph

    ghost predicate Valid()
      reads this
    {
      && WellFormed(defs, doms) && ElementsOk(defs, elems) && CacheOk(defs, cache)
      && Blocks(edges, |doms|) && DominatorsOf(edges, doms)
    }

    constructor (doms: seq<set<nat>>, ghost edges: Edges, avoidNewBlocks: bool)
      requires Dominance(doms) && Blocks(edges, |doms|) && DominatorsOf(edges, doms)
      ensures Valid() && this.doms == doms && this.edges == edges && defs == [Def(ZeroShadow, 0)]
      ensures elems == map[] && cache == map[] && this.avoidNewBlocks == avoidNewBlocks
    {
      this.edges := edges;
      this.avoidNewBlocks := avoidNewBlocks;
      this.doms := doms;
      defs := [Def(ZeroShadow, 0)];
      elems := map[];
      cache := map[];
    }

    /** A shadow the pass obtains elsewhere: an argument, a load, a phi. */
    method AddBase(block: nat) returns (v: nat)
      requires Valid() && block < |doms|
      modifies this`defs
      ensures Valid() && v == old(|defs|) && defs == old(defs) + [Def(Base, block)]
      ensures Available(defs, doms, v, block)
    {
      v := |defs|;
      WellFormedAppend(defs, doms, Def(Base, block));
      TablesStay(defs, Def(Base, block), elems, cache);
      defs := defs + [Def(Base, block)];
    }

    /** Unites two values that are available in block at. The result is available in block pos,
        where the insertion point ends up. */
    method CombineShadows(v1: nat, v2: nat, at: nat) returns (r: nat, pos: nat)
      requires Valid() && Available(defs, doms, v1, at) && Available(defs, doms, v2, at)
      modifies this
      ensures Valid() && Extends(old(defs), old(doms), defs, doms)
      ensures pos < |doms| && old(doms)[at] <= doms[pos]
      ensures IsUnion(defs, r, v1, v2) && Available(defs, doms, r, pos)
      ensures UnionOnEveryPath(r, v1, v2, pos)
      ensures old(Known(elems, cache, doms, v1, v2, at)).Found? ==> unchanged(this) && pos == at
      ensures Known(elems, cache, doms, v1, v2, pos) == Found(r)
      ensures old(Known(elems, cache, doms, v1, v2, at)).NotFound? ==> Known(elems, cache, doms, v2, v1, pos) == Found(r)
    {
      r, pos := FindOrEmit(v1, v2, at);
      CarriesUnion(r, v1, v2, pos);
    }

    /** Whenever control reaches block b, r carries what v1 and v2 carry at that moment. */
    ghost predicate UnionOnEveryPath(r: nat, v1: nat, v2: nat, b: nat)
      requires OperandsBefore(defs) && r < |defs| && v1 < |defs| && v2 < |defs|
      reads this
    {
      forall inputs: Inputs, p: seq<nat> | LeadsTo(edges, p, b) ::
        Value(defs, inputs, p, r) == Value(defs, inputs, p, v1) + Value(defs, inputs, p, v2)
    }

    lemma CarriesUnion(r: nat, v1: nat, v2: nat, b: nat)
      requires Valid() && IsUnion(defs, r, v1, v2)
      requires Available(defs, doms, r, b) && Available(defs, doms, v1, b) && Available(defs, doms, v2, b)
      ensures UnionOnEveryPath(r, v1, v2, b)
    {
      forall inputs: Inputs, p: seq<nat> | LeadsTo(edges, p, b)
        ensures Value(defs, inputs, p, r) == Value(defs, inputs, p, v1) + Value(defs, inputs, p, v2)
      {
        UnionAtRunTime(edges, doms, defs, inputs, p, r, v1, v2);
      }
    }

    /** The shortcuts, the cache, and the emission of a new union. */
    method FindOrEmit(v1: nat, v2: nat, at: nat) returns (r: nat, pos: nat)
      requires Valid() && Available(defs, doms, v1, at) && Available(defs, doms, v2, at)
      modifies this
      ensures Valid() && Extends(old(defs), old(doms), defs, doms)
      ensures pos < |doms| && old(doms)[at] <= doms[pos]
      ensures IsUnion(defs, r, v1, v2) && Available(defs, doms, r, pos)
      ensures old(Known(elems, cache, doms, v1, v2, at)).Found? ==> unchanged(this) && pos == at
      ensures Known(elems, cache, doms, v1, v2, pos) == Found(r)
      ensures old(Known(elems, cache, doms, v1, v2, at)).NotFound? ==> Known(elems, cache, doms, v2, v1, pos) == Found(r)
    {
      pos := at;
      Trivial(defs, v1);
      Trivial(defs, v2);
      if v1 == 0 {
        return v2, pos;
      }
      if v2 == 0 {
        return v1, pos;
      }
      if v1 == v2 {
        return v1, pos;
      }
      var found, v := FromElements(v1, v2);
      if found {
        return v, pos;
      }
      var key := Key(v1, v2);
      if key in cache && cache[key].block in doms[at] {
        r := cache[key].shadow;
        assert IsUnion(defs, r, key.0, key.1);
        UnionCommutes(defs, r, key.0, key.1);
        return r, pos;
      }
      r, pos := Emit(v1, v2, at);
      KnownAfter(old(elems), old(cache), old(doms), v1, v2, at, r, elems, cache, doms, pos);
    }

    /** The tests on ShadowElements. */
    method FromElements(v1: nat, v2: nat) returns (found: bool, v: nat)
      requires Valid() && v1 < |defs| && v2 < |defs|
      ensures found ==> (v == v1 || v == v2) && IsUnion(defs, v, v1, v2)
      ensures v1 != 0 && v2 != 0 && v1 != v2 ==> forall at: nat :: at < |doms| ==>
        if found then Known(elems, cache, doms, v1, v2, at) == Found(v)
        else Known(elems, cache, doms, v1, v2, at) ==
             if Key(v1, v2) in cache && cache[Key(v1, v2)].block in doms[at] then Found(cache[Key(v1, v2)].shadow) else NotFound
    {
      if v1 in elems && v2 in elems {
        assert ElementsOf(defs, v1, elems[v1]) && ElementsOf(defs, v2, elems[v2]);
        if elems[v2] <= elems[v1] {
          Includes(defs, v1, elems[v1], v2, elems[v2]);
          return true, v1;
        } else if elems[v1] <= elems[v2] {
          Includes(defs, v2, elems[v2], v1, elems[v1]);
          return true, v2;
        }
      } else if v1 in elems {
        assert ElementsOf(defs, v1, elems[v1]);
        if v2 in elems[v1] {
          Counts(defs, v1, elems[v1], v2);
          return true, v1;
        }
      } else if v2 in elems {
        assert ElementsOf(defs, v2, elems[v2]);
        if v1 in elems[v2] {
          Counts(defs, v2, elems[v2], v1);
          return true, v2;
        }
      }
      return false, 0;
    }

    /** Emits the union and records it. */
    method Emit(v1: nat, v2: nat, at: nat) returns (r: nat, pos: nat)
      requires Valid() && Available(defs, doms, v1, at) && Available(defs, doms, v2, at)
      modifies this
      ensures Valid() && Extends(old(defs), old(doms), defs, doms)
      ensures pos < |doms| && old(doms)[at] <= doms[pos]
      ensures IsUnion(defs, r, v1, v2) && Available(defs, doms, r, pos)
      ensures Recorded(old(defs), old(elems), old(cache), v1, v2, r, pos)
      ensures if avoidNewBlocks then pos == at && doms == old(doms) && edges == old(edges)
        else pos == |old(doms)| + 1 && doms == Split(old(doms), at) && edges == SplitEdges(old(edges), at, |old(doms)|)
    {
      pos := at;
      if !avoidNewBlocks {
        WellFormedSplit(defs, doms, at);
        SplitExact(edges, doms, at);
        pos := |doms| + 1;
        edges := SplitEdges(edges, at, |doms|);
        doms := Split(doms, at);
      }
      r := Record(v1, v2, pos);
    }

    /** The one new definition, and its entries in the two tables. */
    ghost predicate Recorded(defs0: seq<Def>, elems0: map<nat, set<nat>>, cache0: Cache, v1: nat, v2: nat, r: nat, pos: nat)
      reads this
    {
      && r == |defs0| && defs == defs0 + [Def(Union(v1, v2), pos)]
      && cache == cache0[Key(v1, v2) := Cached(pos, r)]
      && elems == elems0[r := Elems(elems0, v1) + Elems(elems0, v2)]
    }

    method Record(v1: nat, v2: nat, pos: nat) returns (r: nat)
      requires Valid() && Available(defs, doms, v1, pos) && Available(defs, doms, v2, pos)
      modifies this`defs, this`elems, this`cache
      ensures Valid() && old(defs) <= defs
      ensures IsUnion(defs, r, v1, v2) && Available(defs, doms, r, pos)
      ensures Recorded(old(defs), old(elems), old(cache), v1, v2, r, pos)
    {
      var d := Def(Union(v1, v2), pos);
      r := |defs|;
      AppendUnion(defs, d);
      WellFormedAppend(defs, doms, d);
      TablesStay(defs, d, elems, cache);
      ElemsOfValue(defs + [d], elems, v1);
      ElemsOfValue(defs + [d], elems, v2);
      UnionElements(defs + [d], r, v1, v2, Elems(elems, v1), Elems(elems, v2));
      UnionCommutes(defs + [d], r, v1, v2);
      defs := defs + [d];
      cache := cache[Key(v1, v2) := Cached(pos, r)];
      elems := elems[r := Elems(elems, v1) + Elems(elems, v2)];
    }

    /** combineOperandShadows: the shadow of an instruction is the union of its operands'. */
    method CombineOperandShadows(ops: seq<nat>, at: nat) returns (r: nat, pos: nat)
      requires Valid() && at < |doms| && forall i :: 0 <= i < |ops| ==> Available(defs, doms, ops[i], at)
      modifies this
      ensures Valid() && Extends(old(defs), old(doms), defs, doms)
      ensures pos < |doms| && old(doms)[at] <= doms[pos] && Available(defs, doms, r, pos)
      ensures UnionOfAll(defs, r, ops)
      ensures AllOnEveryPath(r, ops, pos)
    {
      r, pos := FoldOperands(ops, at);
      forall i | 0 <= i < |ops| ensures Available(defs, doms, ops[i], pos) {
        assert old(Available(defs, doms, ops[i], at));
      }
      CarriesAll(r, ops, pos);
    }

    /** Whenever control reaches block b, r carries what the listed values together carry then. */
    ghost predicate AllOnEveryPath(r: nat, ops: seq<nat>, b: nat)
      requires OperandsBefore(defs) && r < |defs| && forall i :: 0 <= i < |ops| ==> ops[i] < |defs|
      reads this
    {
      forall inputs: Inputs, p: seq<nat> | LeadsTo(edges, p, b) ::
        Value(defs, inputs, p, r) == ValueAll(defs, inputs, p, ops)
    }

    lemma CarriesAll(r: nat, ops: seq<nat>, b: nat)
      requires Valid() && UnionOfAll(defs, r, ops) && Available(defs, doms, r, b)
      requires forall i :: 0 <= i < |ops| ==> Available(defs, doms, ops[i], b)
      ensures AllOnEveryPath(r, ops, b)
    {
      forall inputs: Inputs, p: seq<nat> | LeadsTo(edges, p, b)
        ensures Value(defs, inputs, p, r) == ValueAll(defs, inputs, p, ops)
      {
        UpToDate(edges, doms, defs, inputs, p, r);
        AllUpToDate(edges, doms, defs, inputs, p, ops);
        assert Eval(defs, Latest(defs, inputs, p), r) == EvalAll(defs, Latest(defs, inputs, p), ops);
      }
    }

    /** The loop over the operands. */
    method FoldOperands(ops: seq<nat>, at: nat) returns (r: nat, pos: nat)
      requires Valid() && at < |doms| && forall i :: 0 <= i < |ops| ==> Available(defs, doms, ops[i], at)
      modifies this
      ensures Valid() && Extends(old(defs), old(doms), defs, doms)
      ensures pos < |doms| && old(doms)[at] <= doms[pos] && Available(defs, doms, r, pos)
      ensures UnionOfAll(defs, r, ops)
    {
      pos := at;
      if |ops| == 0 {
        return 0, pos;
      }
      r := ops[0];
      var i: nat := 1;
      OneOperand(defs, ops[0]);
      assert ops[..1] == [ops[0]];
      while i < |ops|
        invariant Valid() && Extends(old(defs), old(doms), defs, doms)
        invariant 1 <= i <= |ops| && pos < |doms| && old(doms)[at] <= doms[pos] && Available(defs, doms, r, pos)
        invariant UnionOfAll(defs, r, ops[..i])
      {
        ghost var ds, ms := defs, doms;
        var acc := r;
        assert old(Available(defs, doms, ops[i], at));
        r, pos := CombineShadows(acc, ops[i], pos);
        ExtendsTrans(old(defs), old(doms), ds, ms, defs, doms);
        AnotherOperand(ds, defs, acc, ops, i, r);
        i := i + 1;
      }
      assert ops[..i] == ops;
    }

    /** loadShadow: the shadow of size bytes, available where the insertion point ends up. What
        was available stays available, and the dominator tree fits the graph with the new blocks. */
    method LoadShadow(size: nat, at: nat) returns (v: nat, pos: nat)
      requires Valid() && at < |doms|
      modifies this`defs, this`doms, this`edges
      ensures Valid() && Extends(old(defs), old(doms), defs, doms)
      ensures pos < |doms| && old(doms)[at] <= doms[pos] && Available(defs, doms, v, pos)
      ensures size == 0 ==> v == 0 && defs == old(defs)
      ensures size > 0 ==> v == old(|defs|) && defs == old(defs) + [Def(Base, pos)]
      ensures edges == if size >= 2 && !avoidNewBlocks && size % 2 == 0
        then ChainEdges(old(edges), at, old(|doms|), size / 2 - 1) else old(edges)
    {
      pos := at;
      if size == 0 {
        return 0, pos;
      }
      if size >= 2 && !avoidNewBlocks && size % 2 == 0 {
        pos := AddCompares(size, at);
      }
      v := AddBase(pos);
    }

    /** The head is split and the blocks of the wide compares are added. */
    method AddCompares(size: nat, at: nat) returns (tail: nat)
      requires Valid() && at < |doms| && size >= 2 && size % 2 == 0
      modifies this`doms, this`edges
      ensures Valid() && Extends(defs, old(doms), defs, doms)
      ensures tail < |doms| && old(doms)[at] <= doms[tail]
      ensures edges == ChainEdges(old(edges), at, old(|doms|), size / 2 - 1)
    {
      ghost var k := size / 2 - 1;
      ChainExact(edges, doms, at, k);
      ChainExtends(defs, doms, at, k);
      WellFormedChain(defs, doms, at, k);
      tail := LinkCompares(size, at);
    }

    /** The graph is incomplete until the last branch is fixed up, so the loop does not keep
        Valid(). */
    method LinkCompares(size: nat, at: nat) returns (tail: nat)
      requires at < |doms| && size >= 2 && size % 2 == 0
      modifies this`doms, this`edges
      ensures tail == old(|doms|) + 1 && doms == ChainDoms(old(doms), at, size / 2 - 1)
      ensures edges == ChainEdges(old(edges), at, old(|doms|), size / 2 - 1)
    {
      var fallback := |doms|;
      tail := fallback + 1;
      doms := Split(doms, at);
      edges := Building(edges, at, fallback, 0);
      var last, ofs := at, 2;
      ghost var k: nat := 0;
      while ofs != size
        invariant ofs == 2 * k + 2 <= size && last == Link(at, fallback, k)
        invariant doms == ChainDoms(old(doms), at, k) && edges == Building(old(edges), at, fallback, k)
        decreases size - ofs
      {
        var next := |doms|;
        doms := Below(doms, last);
        edges := edges + {(last, next), (next, fallback)};
        last, ofs, k := next, ofs + 2, k + 1;
      }
      edges := edges + {(last, tail), (fallback, tail)};
    }
  }
}
