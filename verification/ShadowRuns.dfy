/**
 What the emitted code computes along an execution path, where loops execute definitions again
 and again: a value that dominates the current block is up to date.
 */
module ShadowRuns {
  import opened ShadowCombine

  type Edges = set<(nat, nat)>

  /** A path from the entry block. */
  ghost predicate IsPath(edges: Edges, p: seq<nat>) {
    && p != [] && p[0] == 0
    && forall i :: 0 <= i < |p| - 1 ==> (p[i], p[i + 1]) in edges
  }

  ghost predicate LeadsTo(edges: Edges, p: seq<nat>, b: nat) {
    IsPath(edges, p) && p[|p| - 1] == b
  }

  ghost predicate OnEveryPath(edges: Edges, a: nat, b: nat) {
    forall p: seq<nat> :: LeadsTo(edges, p, b) ==> a in p
  }

  ghost predicate ExactAt(edges: Edges, doms: seq<set<nat>>, b: nat) {
    b < |doms| && forall a: nat :: a in doms[b] <==> OnEveryPath(edges, a, b)
  }

  /** doms is the dominance relation of the graph on its reachable blocks. */
  ghost predicate DominatorsOf(edges: Edges, doms: seq<set<nat>>) {
    forall p: seq<nat> {:trigger IsPath(edges, p)} :: IsPath(edges, p) ==> ExactAt(edges, doms, p[|p| - 1])
  }

  /** The last time path p is in block b. */
  ghost function LastIndex(p: seq<nat>, b: nat): (t: nat)
    requires b in p
    ensures t < |p| && p[t] == b && forall s :: t < s < |p| ==> p[s] != b
  {
    if p[|p| - 1] == b then |p| - 1 else LastIndex(p[..|p| - 1], b)
  }

  /** What base values carry at each time. */
  type Inputs = (nat, nat) -> set<nat>

  /** The value of v at the end of path p: a definition computes whenever its block executes,
      from what its operands carry then. */
  ghost function Value(ds: seq<Def>, inputs: Inputs, p: seq<nat>, v: nat): set<nat>
    requires OperandsBefore(ds) && v < |ds|
    decreases v
  {
    if ds[v].home !in p then {}
    else
      var t := LastIndex(p, ds[v].home);
      match ds[v].inst
      case ZeroShadow => {}
      case Base => inputs(t, v)
      case Union(a, b) =>
        var x, y := Value(ds, inputs, p[..t + 1], a), Value(ds, inputs, p[..t + 1], b);
        if x != y then UnionFn(x, y) else x
  }

  /** The latest value of every base value. */
  ghost function Latest(ds: seq<Def>, inputs: Inputs, p: seq<nat>): Env {
    (v: nat) => if v < |ds| && ds[v].home in p then inputs(LastIndex(p, ds[v].home), v) else {}
  }

  lemma PrefixPath(edges: Edges, p: seq<nat>, t: nat)
    requires IsPath(edges, p) && t < |p|
    ensures IsPath(edges, p[..t + 1]) && LeadsTo(edges, p[..t + 1], p[t])
  {
    var q := p[..t + 1];
    forall i | 0 <= i < |q| - 1 ensures (q[i], q[i + 1]) in edges {
      assert (p[i], p[i + 1]) in edges;
    }
  }

  lemma DominatorOnPath(edges: Edges, doms: seq<set<nat>>, p: seq<nat>, a: nat)
    requires DominatorsOf(edges, doms) && IsPath(edges, p)
    ensures p[|p| - 1] < |doms| && (a in doms[p[|p| - 1]] ==> a in p)
  {
    var b := p[|p| - 1];
    assert ExactAt(edges, doms, b) && LeadsTo(edges, p, b);
  }

  /** If g dominates h and h dominates the end of p, then g does not execute after the last h. */
  lemma NotLater(edges: Edges, doms: seq<set<nat>>, p: seq<nat>, g: nat, h: nat, s: nat)
    requires DominatorsOf(edges, doms) && Dominance(doms) && IsPath(edges, p)
    requires h < |doms| && g in doms[h] && p[|p| - 1] < |doms| && h in doms[p[|p| - 1]] && h in p
    requires LastIndex(p, h) < s < |p|
    ensures p[s] != g
  {
    DominatorOnPath(edges, doms, p, h);
    assert OnEveryPath(edges, h, p[|p| - 1]);
    if p[s] == g {
      PrefixPath(edges, p, s);
      var q := p[..s + 1];
      assert q[|q| - 1] == g && g != h;
      DominatorOnPath(edges, doms, q, h);
      assert h !in doms[g];
      assert !OnEveryPath(edges, h, g);
      var w: seq<nat> :| LeadsTo(edges, w, g) && h !in w;
      Detour(edges, p, w, s, h);
      assert false;
    }
  }

  /** A path to p[s] that avoids h, continued along p, avoids h. */
  lemma Detour(edges: Edges, p: seq<nat>, w: seq<nat>, s: nat, h: nat)
    requires IsPath(edges, p) && s < |p| && LeadsTo(edges, w, p[s]) && h !in w
    requires forall i :: s < i < |p| ==> p[i] != h
    ensures LeadsTo(edges, w + p[s + 1..], p[|p| - 1]) && h !in w + p[s + 1..]
  {
    var r := w + p[s + 1..];
    forall i | 0 <= i < |r| - 1 ensures (r[i], r[i + 1]) in edges {
      if i + 1 < |w| {
        assert (w[i], w[i + 1]) in edges;
      } else {
        var j := i - |w| + 1 + s;
        assert r[i] == p[j] && r[i + 1] == p[j + 1];
        assert (p[j], p[j + 1]) in edges;
      }
    }
  }

  lemma LastOfPrefix(p: seq<nat>, t: nat, g: nat)
    requires t < |p| && g in p[..t + 1] && forall s :: t < s < |p| ==> p[s] != g
    ensures g in p && LastIndex(p[..t + 1], g) == LastIndex(p, g)
  {
    var q := p[..t + 1];
    var i := LastIndex(q, g);
    assert p[i] == g;
    var j := LastIndex(p, g);
    assert j <= t && q[j] == g;
  }

  /** What u carries has not changed since the last execution of h. */
  lemma {:induction false} LatestAgrees(
      edges: Edges, doms: seq<set<nat>>, ds: seq<Def>, inputs: Inputs, p: seq<nat>, h: nat, u: nat)
    requires DominatorsOf(edges, doms) && WellFormed(ds, doms) && IsPath(edges, p)
    requires p[|p| - 1] < |doms| && h in doms[p[|p| - 1]] && h in p && Available(ds, doms, u, h)
    ensures var q := p[..LastIndex(p, h) + 1];
      Eval(ds, Latest(ds, inputs, q), u) == Eval(ds, Latest(ds, inputs, p), u)
    decreases u
  {
    var t := LastIndex(p, h);
    var q := p[..t + 1];
    PrefixPath(edges, p, t);
    match ds[u].inst
    case ZeroShadow =>
    case Base =>
      var g := ds[u].home;
      DominatorOnPath(edges, doms, q, g);
      forall s | t < s < |p| ensures p[s] != g {
        NotLater(edges, doms, p, g, h, s);
      }
      LastOfPrefix(p, t, g);
    case Union(a, b) =>
      OperandAvailable(ds, doms, u, a, h);
      OperandAvailable(ds, doms, u, b, h);
      LatestAgrees(edges, doms, ds, inputs, p, h, a);
      LatestAgrees(edges, doms, ds, inputs, p, h, b);
  }

  lemma OperandAvailable(ds: seq<Def>, doms: seq<set<nat>>, u: nat, a: nat, h: nat)
    requires WellFormed(ds, doms) && Available(ds, doms, u, h) && ds[u].inst.Union?
    requires a == ds[u].inst.a || a == ds[u].inst.b
    ensures Available(ds, doms, a, h)
  {
    assert Available(ds, doms, a, ds[u].home);
    assert ds[u].home in doms[h] && doms[ds[u].home] <= doms[h];
  }

  /** A value that is available at the end of a path is up to date there, however often the
      definitions it depends on have executed. */
  lemma {:induction false} UpToDate(
      edges: Edges, doms: seq<set<nat>>, ds: seq<Def>, inputs: Inputs, p: seq<nat>, v: nat)
    requires DominatorsOf(edges, doms) && WellFormed(ds, doms) && IsPath(edges, p)
    requires Available(ds, doms, v, p[|p| - 1])
    ensures Value(ds, inputs, p, v) == Eval(ds, Latest(ds, inputs, p), v)
    decreases v
  {
    if !ds[v].inst.ZeroShadow? {
      var h := ds[v].home;
      DominatorOnPath(edges, doms, p, h);
      if ds[v].inst.Union? {
        var a, b, q := ds[v].inst.a, ds[v].inst.b, p[..LastIndex(p, h) + 1];
        PrefixPath(edges, p, LastIndex(p, h));
        assert Available(ds, doms, a, h) && Available(ds, doms, b, h);
        UpToDate(edges, doms, ds, inputs, q, a);
        UpToDate(edges, doms, ds, inputs, q, b);
        LatestAgrees(edges, doms, ds, inputs, p, h, a);
        LatestAgrees(edges, doms, ds, inputs, p, h, b);
      }
    }
  }

  /** So the result of combineShadows carries, at run time and on every path, the union of what
      its operands carry at that moment. */
  lemma UnionAtRunTime(
      edges: Edges, doms: seq<set<nat>>, ds: seq<Def>, inputs: Inputs, p: seq<nat>, r: nat, a: nat, b: nat)
    requires DominatorsOf(edges, doms) && WellFormed(ds, doms) && IsPath(edges, p) && IsUnion(ds, r, a, b)
    requires var at := p[|p| - 1]; Available(ds, doms, r, at) && Available(ds, doms, a, at) && Available(ds, doms, b, at)
    ensures Value(ds, inputs, p, r) == Value(ds, inputs, p, a) + Value(ds, inputs, p, b)
  {
    var env := Latest(ds, inputs, p);
    UpToDate(edges, doms, ds, inputs, p, r);
    UpToDate(edges, doms, ds, inputs, p, a);
    UpToDate(edges, doms, ds, inputs, p, b);
    assert Eval(ds, env, r) == Eval(ds, env, a) + Eval(ds, env, b);
  }

  ghost function ValueAll(ds: seq<Def>, inputs: Inputs, p: seq<nat>, ops: seq<nat>): set<nat>
    requires OperandsBefore(ds) && forall i :: 0 <= i < |ops| ==> ops[i] < |ds|
  {
    if ops == [] then {} else ValueAll(ds, inputs, p, ops[..|ops| - 1]) + Value(ds, inputs, p, ops[|ops| - 1])
  }

  /** The same for a list of available values. */
  lemma {:induction false} AllUpToDate(
      edges: Edges, doms: seq<set<nat>>, ds: seq<Def>, inputs: Inputs, p: seq<nat>, ops: seq<nat>)
    requires DominatorsOf(edges, doms) && WellFormed(ds, doms) && IsPath(edges, p)
    requires forall i :: 0 <= i < |ops| ==> ops[i] < |ds| && Available(ds, doms, ops[i], p[|p| - 1])
    ensures ValueAll(ds, inputs, p, ops) == EvalAll(ds, Latest(ds, inputs, p), ops)
  {
    if ops != [] {
      AllUpToDate(edges, doms, ds, inputs, p, ops[..|ops| - 1]);
      UpToDate(edges, doms, ds, inputs, p, ops[|ops| - 1]);
    }
  }
}
