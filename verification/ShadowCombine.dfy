/**
 DFSanFunction::combineShadows (DFSanPass.cc): emits code that unites two shadow values, unless
 an existing value already is that union and is available at the insertion point.

 A value is an index into the list of definitions; a block is an index into the list of
 dominator sets.
 */
module ShadowCombine {

  datatype Inst =
    | ZeroShadow
    | Base                     // an argument, a load or any other value the pass did not combine
    | Union(a: nat, b: nat)    // a checked union call, or the compare, call and phi

  datatype Def = Def(inst: Inst, home: nat)

  /** What each base value carries. */
  type Env = nat -> set<nat>

  // ------------------------------------------------------------- what emitted code computes

  /** __dfsan_union on unequal labels. */
  ghost function UnionFn(x: set<nat>, y: set<nat>): set<nat> {
    if x == {} then y else if y == {} then x else x + y
  }

  ghost predicate OperandsBefore(ds: seq<Def>) {
    forall v: nat {:trigger ds[v]} :: v < |ds| && ds[v].inst.Union? ==> ds[v].inst.a < v && ds[v].inst.b < v
  }

  /** The offsets a value carries when the base values carry those of env. */
  ghost function Eval(ds: seq<Def>, env: Env, v: nat): set<nat>
    requires OperandsBefore(ds) && v < |ds|
  {
    match ds[v].inst
    case ZeroShadow => {}
    case Base => env(v)
    case Union(a, b) =>
      if Eval(ds, env, a) != Eval(ds, env, b) then UnionFn(Eval(ds, env, a), Eval(ds, env, b)) else Eval(ds, env, a)
  }

  lemma EvalUnion(ds: seq<Def>, env: Env, v: nat)
    requires OperandsBefore(ds) && v < |ds| && ds[v].inst.Union?
    ensures Eval(ds, env, v) == Eval(ds, env, ds[v].inst.a) + Eval(ds, env, ds[v].inst.b)
  {
  }

  lemma {:induction false} EvalLonger(ds: seq<Def>, ds': seq<Def>, env: Env, v: nat)
    requires OperandsBefore(ds) && OperandsBefore(ds') && ds <= ds' && v < |ds|
    ensures Eval(ds', env, v) == Eval(ds, env, v)
    decreases v
  {
    if ds[v].inst.Union? {
      EvalLonger(ds, ds', env, ds[v].inst.a);
      EvalLonger(ds, ds', env, ds[v].inst.b);
    }
  }

  // ------------------------------------------------------------- dominance

  /** doms[b] is the set of blocks that dominate b: a partial order. */
  ghost predicate Dominance(doms: seq<set<nat>>) {
    && (forall b: nat :: b < |doms| ==> b in doms[b])
    && (forall a: nat, b: nat {:trigger a in doms[b]} :: b < |doms| && a in doms[b] ==> a < |doms| && doms[a] <= doms[b])
    && (forall a: nat, b: nat :: b < |doms| && a < |doms| && a in doms[b] && b in doms[a] ==> a == b)
  }

  /** SplitBlockAndInsertIfThen: the blocks below head move below the new tail. */
  function Split(doms: seq<set<nat>>, head: nat): (r: seq<set<nat>>)
    requires head < |doms|
    ensures |r| == |doms| + 2 && r[|doms|] == doms[head] + {|doms|} && r[|doms| + 1] == doms[head] + {|doms| + 1}
    ensures forall b: nat :: b < |doms| ==>
      r[b] == if head in doms[b] && b != head then doms[b] + {|doms| + 1} else doms[b]
  {
    var tail := |doms| + 1;
    seq(|doms|, b requires 0 <= b < |doms| => if head in doms[b] && b != head then doms[b] + {tail} else doms[b])
      + [doms[head] + {|doms|}, doms[head] + {tail}]
  }

  lemma SplitMember(doms: seq<set<nat>>, head: nat, a: nat, b: nat)
    requires Dominance(doms) && head < |doms| && b < |doms| + 2
    ensures a in Split(doms, head)[b] <==>
      if b < |doms| then a in doms[b] || (a == |doms| + 1 && head in doms[b] && b != head)
      else a in doms[head] || a == b
    ensures b < |doms| && a in doms[b] ==> a < |doms|
    ensures a in doms[head] ==> a < |doms|
  {
    var n := |doms|;
    if b < n {
      assert b in doms[b];
    }
  }

  lemma SplitOrder(doms: seq<set<nat>>, head: nat, a: nat, b: nat, x: nat)
    requires Dominance(doms) && head < |doms| && b < |doms| + 2 && a in Split(doms, head)[b]
    ensures a < |doms| + 2
    ensures x in Split(doms, head)[a] ==> x in Split(doms, head)[b]
  {
    var n := |doms|;
    SplitMember(doms, head, a, b);
    SplitMember(doms, head, x, a);
    SplitMember(doms, head, x, b);
    var c := if b < n then b else head;
    if a < n {
      assert a in doms[c] && doms[a] <= doms[c];
      assert c == head && head in doms[a] ==> a == head;
    } else if b < n {
      assert doms[head] <= doms[b];
    }
  }

  lemma SplitDominance(doms: seq<set<nat>>, head: nat)
    requires Dominance(doms) && head < |doms|
    ensures Dominance(Split(doms, head))
  {
    var n, r := |doms|, Split(doms, head);
    forall b: nat | b < |r| ensures b in r[b] {
      SplitMember(doms, head, b, b);
    }
    forall a: nat, b: nat | b < |r| && a in r[b] ensures a < |r| && r[a] <= r[b] {
      SplitOrder(doms, head, a, b, 0);
      forall x: nat | x in r[a] ensures x in r[b] {
        SplitOrder(doms, head, a, b, x);
      }
    }
    forall a: nat, b: nat | b < |r| && a < |r| && a in r[b] && b in r[a] ensures a == b {
      SplitMember(doms, head, a, b);
      SplitMember(doms, head, b, a);
    }
  }

  // ------------------------------------------------------------- the invariant

  /** Code in block b may use v. */
  ghost predicate Available(ds: seq<Def>, doms: seq<set<nat>>, v: nat, b: nat) {
    v < |ds| && b < |doms| && (v == 0 || ds[v].home in doms[b])
  }

  /** Every operand is available where it is used. */
  ghost predicate WellFormed(ds: seq<Def>, doms: seq<set<nat>>) {
    && 0 < |ds| && ds[0].inst == ZeroShadow && OperandsBefore(ds) && Dominance(doms)
    && (forall v: nat {:trigger ds[v]} :: v < |ds| ==> ds[v].home < |doms|)
    && (forall v: nat {:trigger ds[v]} :: v < |ds| && ds[v].inst.Union? ==>
        Available(ds, doms, ds[v].inst.a, ds[v].home) && Available(ds, doms, ds[v].inst.b, ds[v].home))
  }

  /** x is carried by some element. */
  ghost predicate Carried(ds: seq<Def>, env: Env, es: set<nat>, x: nat)
    requires OperandsBefore(ds) && forall e :: e in es ==> e < |ds|
  {
    exists e :: e in es && x in Eval(ds, env, e)
  }

  /** ShadowElements[v]: v carries what its elements carry. */
  ghost predicate ElementsOf(ds: seq<Def>, v: nat, es: set<nat>)
    requires OperandsBefore(ds)
  {
    && v < |ds| && (forall e :: e in es ==> e < |ds|)
    && forall env: Env, x: nat {:trigger Carried(ds, env, es, x)} :: x in Eval(ds, env, v) <==> Carried(ds, env, es, x)
  }

  /** r carries the union of a and b, whatever the base shadows carry. */
  ghost predicate IsUnion(ds: seq<Def>, r: nat, a: nat, b: nat)
    requires OperandsBefore(ds)
  {
    r < |ds| && a < |ds| && b < |ds|
    && forall env: Env :: Eval(ds, env, r) == Eval(ds, env, a) + Eval(ds, env, b)
  }

  datatype Cached = Cached(block: nat, shadow: nat)

  type Cache = map<(nat, nat), Cached>

  ghost predicate CacheOk(ds: seq<Def>, cache: Cache)
    requires OperandsBefore(ds)
  {
    forall k {:trigger cache[k]} :: k in cache ==>
      IsUnion(ds, cache[k].shadow, k.0, k.1) && ds[cache[k].shadow].home == cache[k].block
  }

  ghost predicate ElementsOk(ds: seq<Def>, elems: map<nat, set<nat>>)
    requires OperandsBefore(ds)
  {
    forall v {:trigger elems[v]} :: v in elems ==> ElementsOf(ds, v, elems[v])
  }

  // ------------------------------------------------------------- the shortcuts

  /** A value whose elements include those of the other already is the union. */
  lemma Includes(ds: seq<Def>, v: nat, vs: set<nat>, w: nat, ws: set<nat>)
    requires OperandsBefore(ds) && ElementsOf(ds, v, vs) && ElementsOf(ds, w, ws) && ws <= vs
    ensures IsUnion(ds, v, v, w) && IsUnion(ds, v, w, v)
  {
    forall env: Env ensures Eval(ds, env, w) <= Eval(ds, env, v) {
      forall x: nat | x in Eval(ds, env, w) ensures x in Eval(ds, env, v) {
        assert Carried(ds, env, ws, x);
        assert Carried(ds, env, vs, x);
      }
    }
  }

  lemma Counts(ds: seq<Def>, v: nat, vs: set<nat>, w: nat)
    requires OperandsBefore(ds) && ElementsOf(ds, v, vs) && w in vs
    ensures IsUnion(ds, v, v, w) && IsUnion(ds, v, w, v)
  {
    forall env: Env ensures Eval(ds, env, w) <= Eval(ds, env, v) {
      forall x: nat | x in Eval(ds, env, w) ensures x in Eval(ds, env, v) {
        assert Carried(ds, env, vs, x);
      }
    }
  }

  lemma Trivial(ds: seq<Def>, v: nat)
    requires OperandsBefore(ds) && v < |ds| && 0 < |ds| && ds[0].inst == ZeroShadow
    ensures IsUnion(ds, v, v, 0) && IsUnion(ds, v, 0, v) && IsUnion(ds, v, v, v)
  {
    forall env: Env ensures Eval(ds, env, 0) == {} {
    }
  }

  // ------------------------------------------------------------- emitting a union

  lemma AppendUnion(ds: seq<Def>, d: Def)
    requires OperandsBefore(ds) && d.inst.Union? && d.inst.a < |ds| && d.inst.b < |ds|
    ensures OperandsBefore(ds + [d]) && IsUnion(ds + [d], |ds|, d.inst.a, d.inst.b)
  {
    var es := ds + [d];
    forall v: nat | v < |es| && es[v].inst.Union? ensures es[v].inst.a < v && es[v].inst.b < v {
      if v < |ds| {
        assert es[v] == ds[v];
      }
    }
    forall env: Env ensures Eval(es, env, |ds|) == Eval(es, env, d.inst.a) + Eval(es, env, d.inst.b) {
      EvalUnion(es, env, |ds|);
    }
  }

  lemma IsUnionStays(ds: seq<Def>, d: Def, r: nat, a: nat, b: nat)
    requires OperandsBefore(ds) && OperandsBefore(ds + [d]) && IsUnion(ds, r, a, b)
    ensures IsUnion(ds + [d], r, a, b)
  {
    forall env: Env ensures Eval(ds + [d], env, r) == Eval(ds + [d], env, a) + Eval(ds + [d], env, b) {
      EvalLonger(ds, ds + [d], env, r);
      EvalLonger(ds, ds + [d], env, a);
      EvalLonger(ds, ds + [d], env, b);
      assert Eval(ds, env, r) == Eval(ds, env, a) + Eval(ds, env, b);
    }
  }

  lemma CarriedStays(ds: seq<Def>, d: Def, env: Env, es: set<nat>, x: nat)
    requires OperandsBefore(ds) && OperandsBefore(ds + [d]) && forall e :: e in es ==> e < |ds|
    ensures Carried(ds + [d], env, es, x) <==> Carried(ds, env, es, x)
  {
    forall e | e in es ensures Eval(ds + [d], env, e) == Eval(ds, env, e) {
      EvalLonger(ds, ds + [d], env, e);
    }
  }

  lemma ElementsOfStays(ds: seq<Def>, d: Def, v: nat, es: set<nat>)
    requires OperandsBefore(ds) && OperandsBefore(ds + [d]) && ElementsOf(ds, v, es)
    ensures ElementsOf(ds + [d], v, es)
  {
    forall env: Env, x: nat ensures x in Eval(ds + [d], env, v) <==> Carried(ds + [d], env, es, x) {
      CarriedStays(ds, d, env, es, x);
      EvalLonger(ds, ds + [d], env, v);
    }
  }

  /** The elements of a value, or the value itself if it was never combined. */
  function Elems(elems: map<nat, set<nat>>, v: nat): set<nat> {
    if v in elems then elems[v] else {v}
  }

  lemma ElemsOfValue(ds: seq<Def>, elems: map<nat, set<nat>>, v: nat)
    requires OperandsBefore(ds) && ElementsOk(ds, elems) && v < |ds|
    ensures ElementsOf(ds, v, Elems(elems, v))
  {
    if v in elems {
      assert ElementsOf(ds, v, elems[v]);
    }
  }

  /** UnionElems of a new union. */
  lemma UnionElements(ds: seq<Def>, r: nat, a: nat, b: nat, es: set<nat>, fs: set<nat>)
    requires OperandsBefore(ds) && IsUnion(ds, r, a, b) && ElementsOf(ds, a, es) && ElementsOf(ds, b, fs)
    ensures ElementsOf(ds, r, es + fs)
  {
    forall env: Env, x: nat ensures x in Eval(ds, env, r) <==> Carried(ds, env, es + fs, x) {
      assert Eval(ds, env, r) == Eval(ds, env, a) + Eval(ds, env, b);
      assert x in Eval(ds, env, a) <==> Carried(ds, env, es, x);
      assert x in Eval(ds, env, b) <==> Carried(ds, env, fs, x);
    }
  }

  // ------------------------------------------------------------- keeping the invariant

  /** Definitions stay, and no block loses a dominator. */
  ghost predicate Extends(ds: seq<Def>, doms: seq<set<nat>>, ds': seq<Def>, doms': seq<set<nat>>) {
    ds <= ds' && |doms| <= |doms'| && forall b: nat {:trigger doms'[b]} :: b < |doms| ==> doms[b] <= doms'[b]
  }

  lemma AvailableStays(ds: seq<Def>, doms: seq<set<nat>>, ds': seq<Def>, doms': seq<set<nat>>, v: nat, b: nat)
    requires Extends(ds, doms, ds', doms') && Available(ds, doms, v, b)
    ensures Available(ds', doms', v, b)
  {
    assert doms[b] <= doms'[b];
  }

  lemma ExtendsTrans(ds: seq<Def>, doms: seq<set<nat>>, ds1: seq<Def>, doms1: seq<set<nat>>, ds2: seq<Def>, doms2: seq<set<nat>>)
    requires Extends(ds, doms, ds1, doms1) && Extends(ds1, doms1, ds2, doms2)
    ensures Extends(ds, doms, ds2, doms2)
  {
    forall b: nat | b < |doms| ensures doms[b] <= doms2[b] {
      assert doms[b] <= doms1[b] <= doms2[b];
    }
  }

  lemma WellFormedAppend(ds: seq<Def>, doms: seq<set<nat>>, d: Def)
    requires WellFormed(ds, doms) && d.home < |doms|
    requires d.inst.Union? ==> Available(ds, doms, d.inst.a, d.home) && Available(ds, doms, d.inst.b, d.home)
    ensures WellFormed(ds + [d], doms)
  {
    var es := ds + [d];
    forall v: nat | v < |es|
      ensures es[v].home < |doms|
      ensures es[v].inst.Union? ==> es[v].inst.a < v && es[v].inst.b < v
      ensures es[v].inst.Union? ==> Available(es, doms, es[v].inst.a, es[v].home) && Available(es, doms, es[v].inst.b, es[v].home)
    {
      if v < |ds| {
        assert es[v] == ds[v];
      }
    }
  }

  lemma WellFormedSplit(ds: seq<Def>, doms: seq<set<nat>>, head: nat)
    requires WellFormed(ds, doms) && head < |doms|
    ensures WellFormed(ds, Split(doms, head)) && Extends(ds, doms, ds, Split(doms, head))
  {
    var r := Split(doms, head);
    SplitDominance(doms, head);
    forall v: nat | v < |ds| && ds[v].inst.Union?
      ensures Available(ds, r, ds[v].inst.a, ds[v].home) && Available(ds, r, ds[v].inst.b, ds[v].home)
    {
      AvailableStays(ds, doms, ds, r, ds[v].inst.a, ds[v].home);
      AvailableStays(ds, doms, ds, r, ds[v].inst.b, ds[v].home);
    }
  }

  lemma TablesStay(ds: seq<Def>, d: Def, elems: map<nat, set<nat>>, cache: Cache)
    requires OperandsBefore(ds) && OperandsBefore(ds + [d]) && ElementsOk(ds, elems) && CacheOk(ds, cache)
    ensures ElementsOk(ds + [d], elems) && CacheOk(ds + [d], cache)
  {
    forall v | v in elems ensures ElementsOf(ds + [d], v, elems[v]) {
      ElementsOfStays(ds, d, v, elems[v]);
    }
    forall k | k in cache
      ensures IsUnion(ds + [d], cache[k].shadow, k.0, k.1) && (ds + [d])[cache[k].shadow].home == cache[k].block
    {
      IsUnionStays(ds, d, cache[k].shadow, k.0, k.1);
    }
  }

  function Key(v1: nat, v2: nat): (nat, nat) {
    if v1 > v2 then (v2, v1) else (v1, v2)
  }

  lemma UnionCommutes(ds: seq<Def>, r: nat, a: nat, b: nat)
    requires OperandsBefore(ds) && IsUnion(ds, r, a, b)
    ensures IsUnion(ds, r, b, a)
  {
    forall env: Env ensures Eval(ds, env, r) == Eval(ds, env, b) + Eval(ds, env, a) {
      assert Eval(ds, env, r) == Eval(ds, env, a) + Eval(ds, env, b);
    }
  }

  /** r carries what the listed values carry together. */
  ghost predicate UnionOfAll(ds: seq<Def>, r: nat, ops: seq<nat>)
    requires OperandsBefore(ds)
  {
    && r < |ds| && (forall i :: 0 <= i < |ops| ==> ops[i] < |ds|)
    && forall env: Env :: Eval(ds, env, r) == EvalAll(ds, env, ops)
  }

  ghost function EvalAll(ds: seq<Def>, env: Env, ops: seq<nat>): set<nat>
    requires OperandsBefore(ds) && forall i :: 0 <= i < |ops| ==> ops[i] < |ds|
  {
    if ops == [] then {} else EvalAll(ds, env, ops[..|ops| - 1]) + Eval(ds, env, ops[|ops| - 1])
  }

  lemma OneOperand(ds: seq<Def>, v: nat)
    requires OperandsBefore(ds) && v < |ds|
    ensures UnionOfAll(ds, v, [v])
  {
    forall env: Env ensures EvalAll(ds, env, [v]) == Eval(ds, env, v) {
      assert [v][..0] == [];
    }
  }

  lemma {:induction false} EvalAllLonger(ds: seq<Def>, ds': seq<Def>, env: Env, ops: seq<nat>)
    requires OperandsBefore(ds) && OperandsBefore(ds') && ds <= ds' && forall i :: 0 <= i < |ops| ==> ops[i] < |ds|
    ensures EvalAll(ds', env, ops) == EvalAll(ds, env, ops)
  {
    if ops != [] {
      EvalAllLonger(ds, ds', env, ops[..|ops| - 1]);
      EvalLonger(ds, ds', env, ops[|ops| - 1]);
    }
  }

  lemma AnotherOperand(ds: seq<Def>, ds': seq<Def>, acc: nat, ops: seq<nat>, i: nat, r: nat)
    requires OperandsBefore(ds) && OperandsBefore(ds') && ds <= ds'
    requires i < |ops| && ops[i] < |ds| && UnionOfAll(ds, acc, ops[..i]) && IsUnion(ds', r, acc, ops[i])
    ensures UnionOfAll(ds', r, ops[..i + 1])
  {
    var longer := ops[..i + 1];
    assert longer[..i] == ops[..i];
    forall j | 0 <= j < |longer| ensures longer[j] < |ds'| {
      assert j < i ==> longer[j] == ops[..i][j];
    }
    forall env: Env ensures Eval(ds', env, r) == EvalAll(ds', env, longer) {
      assert Eval(ds', env, r) == Eval(ds', env, acc) + Eval(ds', env, ops[i]);
      EvalLonger(ds, ds', env, acc);
      assert Eval(ds, env, acc) == EvalAll(ds, env, ops[..i]);
      EvalAllLonger(ds, ds', env, ops[..i]);
    }
  }
}
