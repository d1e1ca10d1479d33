/**
 has_new on several threads (fuzzer/src/branches.rs): the read phase and the write phase of
 different threads may interleave, so a write may store a stale byte.
 */
module CoverageRaces {
  import opened Coverage

  datatype Action =
    | Read(thread: nat, path: seq<Edge>)
    | WriteBack(thread: nat)

  /** pending[t] is what thread t has read and not yet written; empty when it is idle. */
  datatype State = State(bytes: seq<Byte>, pending: seq<seq<Write>>, density: nat, seen: set<Edge>)

  ghost predicate Enabled(s: State, a: Action) {
    match a
    case Read(t, path) => t < |s.pending| && s.pending[t] == [] && PathIn(path, |s.bytes|) && Ascending(path)
    case WriteBack(t) => t < |s.pending| && s.pending[t] != [] && InMap(s.pending[t], |s.bytes|)
  }

  ghost function Step(s: State, a: Action): State
    requires Enabled(s, a)
  {
    match a
    case Read(t, path) =>
      s.(pending := s.pending[t := Plan(s.bytes, path)],
         density := s.density + NewEdges(s.bytes, path),
         seen := s.seen + Pairs(path))
    case WriteBack(t) =>
      s.(bytes := Apply(s.bytes, s.pending[t]), pending := s.pending[t := []])
  }

  ghost predicate ValidRun(s: State, run: seq<Action>)
    decreases |run|
  {
    run == [] || (Enabled(s, run[0]) && ValidRun(Step(s, run[0]), run[1..]))
  }

  ghost function After(s: State, run: seq<Action>): State
    requires ValidRun(s, run)
    decreases |run|
  {
    if run == [] then s else After(Step(s, run[0]), run[1..])
  }

  ghost predicate Initial(s: State) {
    && (forall i :: 0 <= i < |s.bytes| ==> s.bytes[i] == Full())
    && (forall t :: 0 <= t < |s.pending| ==> s.pending[t] == [])
    && s.density == 0 && s.seen == {}
  }

  // ------------------------------------------------------------- the invariant

  /** A planned byte clears only seen pairs, and at least one. */
  ghost predicate WriteOk(w: Write, n: nat, seen: set<Edge>) {
    w.0 < n && w.1 != Full() && forall k: nat :: k < 8 && k !in w.1 ==> (w.0, k) in seen
  }

  ghost predicate WritesOk(ws: seq<Write>, n: nat, seen: set<Edge>) {
    && (forall i :: 0 <= i < |ws| ==> WriteOk(ws[i], n, seen))
    && forall i, j :: 0 <= i < j < |ws| ==> ws[i].0 < ws[j].0
  }

  /** How many writes would touch a byte for the first time. */
  ghost function Claims(bytes: seq<Byte>, ws: seq<Write>): nat {
    if ws == [] then 0
    else Claims(bytes, ws[..|ws| - 1])
         + if ws[|ws| - 1].0 < |bytes| && bytes[ws[|ws| - 1].0] == Full() then 1 else 0
  }

  ghost function AllClaims(bytes: seq<Byte>, pending: seq<seq<Write>>): nat {
    if pending == [] then 0
    else AllClaims(bytes, pending[..|pending| - 1]) + Claims(bytes, pending[|pending| - 1])
  }

  ghost predicate Inv(s: State) {
    && Sound(s.bytes, s.seen)
    && (forall t {:trigger s.pending[t]} :: 0 <= t < |s.pending| ==> WritesOk(s.pending[t], |s.bytes|, s.seen))
    && Touched(s.bytes) + AllClaims(s.bytes, s.pending) <= s.density
  }

  lemma {:induction false} ClaimsShrink(bytes: seq<Byte>, bytes': seq<Byte>, ws: seq<Write>)
    requires |bytes'| == |bytes| && forall i :: 0 <= i < |bytes| && bytes[i] != Full() ==> bytes'[i] != Full()
    ensures Claims(bytes', ws) <= Claims(bytes, ws)
  {
    if ws != [] {
      ClaimsShrink(bytes, bytes', ws[..|ws| - 1]);
    }
  }

  lemma {:induction false} AllClaimsShrink(bytes: seq<Byte>, bytes': seq<Byte>, pending: seq<seq<Write>>)
    requires |bytes'| == |bytes| && forall i :: 0 <= i < |bytes| && bytes[i] != Full() ==> bytes'[i] != Full()
    ensures AllClaims(bytes', pending) <= AllClaims(bytes, pending)
  {
    if pending != [] {
      AllClaimsShrink(bytes, bytes', pending[..|pending| - 1]);
      ClaimsShrink(bytes, bytes', pending[|pending| - 1]);
    }
  }

  lemma {:induction false} AllClaimsUpdate(bytes: seq<Byte>, pending: seq<seq<Write>>, t: nat, ws: seq<Write>)
    requires t < |pending|
    ensures AllClaims(bytes, pending[t := ws]) + Claims(bytes, pending[t]) == AllClaims(bytes, pending) + Claims(bytes, ws)
  {
    var n := |pending| - 1;
    if t == n {
      assert pending[t := ws][..n] == pending[..n];
    } else {
      assert pending[t := ws][..n] == pending[..n][t := ws];
      AllClaimsUpdate(bytes, pending[..n], t, ws);
    }
  }

  lemma ClaimsSnoc(bytes: seq<Byte>, ws: seq<Write>, w: Write)
    ensures Claims(bytes, ws + [w]) == Claims(bytes, ws) + if w.0 < |bytes| && bytes[w.0] == Full() then 1 else 0
  {
    assert (ws + [w])[..|ws|] == ws;
  }

  /** The edges a read counts as new are the bytes its plan would be first to touch. */
  lemma {:induction false} PlanClaims(bytes: seq<Byte>, path: seq<Edge>)
    requires PathIn(path, |bytes|)
    ensures Claims(bytes, Plan(bytes, path)) == NewEdges(bytes, path)
  {
    if path != [] {
      var init, e := path[..|path| - 1], path[|path| - 1];
      PlanClaims(bytes, init);
      InFull(e.1);
      if e.1 in bytes[e.0] {
        ClaimsSnoc(bytes, Plan(bytes, init), (e.0, bytes[e.0] - {e.1}));
      } else {
        assert Plan(bytes, path) == Plan(bytes, init);
      }
    }
  }

  lemma InFull(k: nat)
    requires k < 8
    ensures k in Full()
  {
  }

  lemma {:induction false} ApplyAt(bytes: seq<Byte>, ws: seq<Write>, seen: set<Edge>, i: nat)
    requires WritesOk(ws, |bytes|, seen) && i < |bytes|
    ensures InMap(ws, |bytes|)
    ensures Apply(bytes, ws)[i] == bytes[i] || (exists j :: 0 <= j < |ws| && ws[j] == (i, Apply(bytes, ws)[i]))
    ensures (forall j :: 0 <= j < |ws| ==> ws[j].0 != i) ==> Apply(bytes, ws)[i] == bytes[i]
  {
    assert forall j :: 0 <= j < |ws| ==> WriteOk(ws[j], |bytes|, seen);
    if ws != [] {
      var init, w := ws[..|ws| - 1], ws[|ws| - 1];
      ApplyAt(bytes, init, seen, i);
      assert forall j :: 0 <= j < |init| ==> init[j] == ws[j];
    }
  }

  lemma {:induction false} ApplyTouches(bytes: seq<Byte>, ws: seq<Write>, seen: set<Edge>)
    requires WritesOk(ws, |bytes|, seen)
    ensures InMap(ws, |bytes|)
    ensures Touched(Apply(bytes, ws)) == Touched(bytes) + Claims(bytes, ws)
  {
    assert forall j :: 0 <= j < |ws| ==> WriteOk(ws[j], |bytes|, seen);
    if ws != [] {
      var init, w := ws[..|ws| - 1], ws[|ws| - 1];
      assert forall j :: 0 <= j < |init| ==> init[j] == ws[j];
      ApplyTouches(bytes, init, seen);
      ApplyAt(bytes, init, seen, w.0);
      TouchedUpdate(Apply(bytes, init), w.0, w.1);
    }
  }

  // ------------------------------------------------------------- every step keeps it

  lemma MoreSeen(s: State, seen: set<Edge>)
    requires Inv(s)
    ensures Sound(s.bytes, s.seen + seen)
    ensures forall t :: 0 <= t < |s.pending| ==> WritesOk(s.pending[t], |s.bytes|, s.seen + seen)
  {
    forall t | 0 <= t < |s.pending| ensures WritesOk(s.pending[t], |s.bytes|, s.seen + seen) {
      forall i | 0 <= i < |s.pending[t]| ensures WriteOk(s.pending[t][i], |s.bytes|, s.seen + seen) {
        assert WriteOk(s.pending[t][i], |s.bytes|, s.seen);
      }
    }
  }

  lemma PlanOk(bytes: seq<Byte>, path: seq<Edge>, seen: set<Edge>)
    requires PathIn(path, |bytes|) && Ascending(path) && Sound(bytes, seen)
    ensures WritesOk(Plan(bytes, path), |bytes|, seen + Pairs(path))
  {
    var ws := Plan(bytes, path);
    forall i | 0 <= i < |ws| ensures WriteOk(ws[i], |bytes|, seen + Pairs(path)) {
      PlanEntries(bytes, path, ws[i]);
      var j :| 0 <= j < |path| && path[j].1 in bytes[path[j].0] && ws[i] == (path[j].0, bytes[path[j].0] - {path[j].1});
      PlannedOk(bytes, path, seen, j);
    }
    PlanAscending(bytes, path, |bytes|);
  }

  lemma PlannedOk(bytes: seq<Byte>, path: seq<Edge>, seen: set<Edge>, j: nat)
    requires PathIn(path, |bytes|) && Sound(bytes, seen) && j < |path|
    ensures WriteOk((path[j].0, bytes[path[j].0] - {path[j].1}), |bytes|, seen + Pairs(path))
  {
    var e, b := path[j], bytes[path[j].0] - {path[j].1};
    InFull(e.1);
    assert e.1 !in b;
    forall k: nat | k < 8 && k !in b ensures (e.0, k) in seen + Pairs(path) {
      if k == e.1 {
        assert e == (e.0, k);
      } else {
        assert Cleared(bytes, (e.0, k));
      }
    }
  }

  lemma {:induction false} PlanAscending(bytes: seq<Byte>, path: seq<Edge>, m: nat)
    requires PathIn(path, |bytes|) && Ascending(path) && forall i :: 0 <= i < |path| ==> path[i].0 < m
    ensures forall i :: 0 <= i < |Plan(bytes, path)| ==> Plan(bytes, path)[i].0 < m
    ensures forall i, j :: 0 <= i < j < |Plan(bytes, path)| ==> Plan(bytes, path)[i].0 < Plan(bytes, path)[j].0
  {
    if path != [] {
      var init := path[..|path| - 1];
      assert forall i :: 0 <= i < |init| ==> init[i] == path[i];
      PlanAscending(bytes, init, path[|path| - 1].0);
    }
  }

  lemma ReadStep(s: State, t: nat, path: seq<Edge>)
    requires Inv(s) && Enabled(s, Read(t, path))
    ensures Inv(Step(s, Read(t, path)))
  {
    MoreSeen(s, Pairs(path));
    PlanOk(s.bytes, path, s.seen);
    PlanClaims(s.bytes, path);
    AllClaimsUpdate(s.bytes, s.pending, t, Plan(s.bytes, path));
    assert Claims(s.bytes, s.pending[t]) == 0;
  }

  lemma WriteStep(s: State, t: nat)
    requires Inv(s) && Enabled(s, WriteBack(t))
    ensures Inv(Step(s, WriteBack(t)))
  {
    var ws := s.pending[t];
    var r := Apply(s.bytes, ws);
    assert WritesOk(ws, |s.bytes|, s.seen);
    forall e: Edge | Cleared(r, e) ensures e in s.seen {
      ApplyAt(s.bytes, ws, s.seen, e.0);
      assert e == (e.0, e.1);
      if r[e.0] == s.bytes[e.0] {
        assert Cleared(s.bytes, e);
      } else {
        var j :| 0 <= j < |ws| && ws[j] == (e.0, r[e.0]);
        assert WriteOk(ws[j], |s.bytes|, s.seen);
      }
    }
    TouchedStays(s, t);
    ApplyTouches(s.bytes, ws, s.seen);
    AllClaimsUpdate(s.bytes, s.pending, t, []);
    AllClaimsShrink(s.bytes, r, s.pending[t := []]);
  }

  lemma {:induction false} RunKeepsInv(s: State, run: seq<Action>)
    requires Inv(s) && ValidRun(s, run)
    ensures Inv(After(s, run))
    decreases |run|
  {
    if run != [] {
      match run[0] {
        case Read(t, path) => ReadStep(s, t, path);
        case WriteBack(t) => WriteStep(s, t);
      }
      RunKeepsInv(Step(s, run[0]), run[1..]);
    }
  }

  lemma {:induction false} NothingClaimed(bytes: seq<Byte>, pending: seq<seq<Write>>)
    requires forall t :: 0 <= t < |pending| ==> pending[t] == []
    ensures AllClaims(bytes, pending) == 0
  {
    if pending != [] {
      NothingClaimed(bytes, pending[..|pending| - 1]);
    }
  }

  /** In every interleaving a cleared bit was really seen, a path with an unseen pair is reported,
      and density never falls below the number of touched edges. */
  lemma EveryInterleaving(s: State, run: seq<Action>, path: seq<Edge>, e: Edge)
    requires Initial(s) && ValidRun(s, run)
    ensures var r := After(s, run);
      && Sound(r.bytes, r.seen) && Touched(r.bytes) <= r.density
      && (PathIn(path, |r.bytes|) && e in path && e !in r.seen ==>
          PathIn(path, |r.bytes|) && (e.0, r.bytes[e.0] - {e.1}) in Plan(r.bytes, path))
  {
    FreshMap(s.bytes);
    NothingClaimed(s.bytes, s.pending);
    RunKeepsInv(s, run);
    var r := After(s, run);
    if PathIn(path, |r.bytes|) && e in path && e !in r.seen {
      UnseenIsPlanned(r.bytes, path, r.seen, e);
    }
  }

  /** No planned byte still has a bit that is cleared by now. */
  ghost predicate UpToDate(bytes: seq<Byte>, ws: seq<Write>) {
    forall j, k: nat :: 0 <= j < |ws| && k < 8 && k in ws[j].1 ==> ws[j].0 < |bytes| && k in bytes[ws[j].0]
  }

  /** A write phase forgets no seen pair exactly if what it read is still up to date. */
  lemma WriteForgetsIff(s: State, t: nat)
    requires Inv(s) && Enabled(s, WriteBack(t))
    ensures UpToDate(s.bytes, s.pending[t]) <==>
      forall e: Edge :: Cleared(s.bytes, e) ==> Cleared(Step(s, WriteBack(t)).bytes, e)
  {
    var ws := s.pending[t];
    var r := Apply(s.bytes, ws);
    assert WritesOk(ws, |s.bytes|, s.seen);
    if UpToDate(s.bytes, ws) {
      forall e: Edge | Cleared(s.bytes, e) ensures Cleared(r, e) {
        ApplyAt(s.bytes, ws, s.seen, e.0);
      }
    }
    if forall e: Edge :: Cleared(s.bytes, e) ==> Cleared(r, e) {
      forall j, k: nat | 0 <= j < |ws| && k < 8 && k in ws[j].1
        ensures ws[j].0 < |s.bytes| && k in s.bytes[ws[j].0]
      {
        assert WriteOk(ws[j], |s.bytes|, s.seen);
        WrittenByte(s.bytes, ws, s.seen, j);
        var e := (ws[j].0, k);
        assert !Cleared(r, e);
      }
    }
  }

  lemma {:induction false} WrittenByte(bytes: seq<Byte>, ws: seq<Write>, seen: set<Edge>, j: nat)
    requires WritesOk(ws, |bytes|, seen) && j < |ws|
    ensures InMap(ws, |bytes|) && ws[j].0 < |bytes| && Apply(bytes, ws)[ws[j].0] == ws[j].1
  {
    assert forall i :: 0 <= i < |ws| ==> WriteOk(ws[i], |bytes|, seen);
    var init := ws[..|ws| - 1];
    assert forall i :: 0 <= i < |init| ==> init[i] == ws[i];
    if j < |init| {
      WrittenByte(bytes, init, seen, j);
    }
  }

  // ------------------------------------------------------------- when the map stays exact

  ghost predicate ReadsOfOthers(run: seq<Action>, t: nat) {
    forall i :: 0 <= i < |run| ==> run[i].Read? && run[i].thread != t
  }

  lemma PlanUpToDate(bytes: seq<Byte>, path: seq<Edge>)
    requires PathIn(path, |bytes|)
    ensures UpToDate(bytes, Plan(bytes, path))
  {
    var ws := Plan(bytes, path);
    forall j, k: nat | 0 <= j < |ws| && k < 8 && k in ws[j].1 ensures ws[j].0 < |bytes| && k in bytes[ws[j].0] {
      PlanEntries(bytes, path, ws[j]);
    }
  }

  /** A write phase is up to date if no thread wrote since its read phase. */
  lemma {:induction false} QuietMeansUpToDate(s: State, t: nat, run: seq<Action>)
    requires ValidRun(s, run) && ReadsOfOthers(run, t) && t < |s.pending| && UpToDate(s.bytes, s.pending[t])
    ensures var r := After(s, run); t < |r.pending| && r.pending[t] == s.pending[t] && UpToDate(r.bytes, r.pending[t])
    decreases |run|
  {
    if run != [] {
      var rest := run[1..];
      forall i | 0 <= i < |rest| ensures rest[i].Read? && rest[i].thread != t {
        assert rest[i] == run[i + 1];
      }
      assert run[0].Read? && run[0].thread != t;
      QuietMeansUpToDate(Step(s, run[0]), t, rest);
    }
  }

  /** So a read phase that only other reads follow leaves a write phase that forgets nothing. */
  lemma QuietRead(s: State, t: nat, path: seq<Edge>, run: seq<Action>)
    requires Enabled(s, Read(t, path)) && ValidRun(Step(s, Read(t, path)), run) && ReadsOfOthers(run, t)
    ensures var r := After(Step(s, Read(t, path)), run); t < |r.pending| && UpToDate(r.bytes, r.pending[t])
  {
    PlanUpToDate(s.bytes, path);
    QuietMeansUpToDate(Step(s, Read(t, path)), t, run);
  }

  /** Every write phase of the run is up to date. */
  ghost predicate AllUpToDate(s: State, run: seq<Action>)
    requires ValidRun(s, run)
    decreases |run|
  {
    run == [] ||
    (&& (run[0].WriteBack? ==> UpToDate(s.bytes, s.pending[run[0].thread]))
     && AllUpToDate(Step(s, run[0]), run[1..]))
  }

  /** Thread t has planned to clear the pair. */
  ghost predicate Owed(s: State, t: nat, e: Edge) {
    t < |s.pending| && exists j :: 0 <= j < |s.pending[t]| && s.pending[t][j].0 == e.0 && e.1 !in s.pending[t][j].1
  }

  /** Every seen pair is cleared or about to be. */
  ghost predicate Settled(s: State, e: Edge) {
    Cleared(s.bytes, e) || exists t: nat :: Owed(s, t, e)
  }

  ghost predicate AllSettled(s: State) {
    forall e: Edge {:trigger Settled(s, e)} :: e in s.seen ==> Settled(s, e)
  }

  lemma ReadSettles(s: State, t: nat, path: seq<Edge>, e: Edge)
    requires AllSettled(s) && Enabled(s, Read(t, path)) && e in s.seen + Pairs(path)
    ensures Settled(Step(s, Read(t, path)), e)
  {
    var r := Step(s, Read(t, path));
    if e in path {
      if e.1 in s.bytes[e.0] {
        var w := (e.0, s.bytes[e.0] - {e.1});
        PlanEntries(s.bytes, path, w);
        var i :| 0 <= i < |path| && path[i] == e;
        assert w in Plan(s.bytes, path);
        var j :| 0 <= j < |r.pending[t]| && r.pending[t][j] == w;
        assert Owed(r, t, e);
      } else {
        assert Cleared(r.bytes, e);
      }
    } else {
      assert Settled(s, e);
      if !Cleared(s.bytes, e) {
        var u: nat :| Owed(s, u, e);
        assert u != t && r.pending[u] == s.pending[u];
        assert Owed(r, u, e);
      }
    }
  }

  lemma WriteSettles(s: State, t: nat, e: Edge)
    requires Inv(s) && AllSettled(s) && Enabled(s, WriteBack(t)) && UpToDate(s.bytes, s.pending[t]) && e in s.seen
    requires e.0 < |s.bytes| && e.1 < 8
    ensures Settled(Step(s, WriteBack(t)), e)
  {
    var r := Step(s, WriteBack(t));
    assert Settled(s, e);
    WriteForgetsIff(s, t);
    if Cleared(s.bytes, e) {
      assert Cleared(r.bytes, e);
    } else {
      var u: nat :| Owed(s, u, e);
      if u == t {
        var j :| 0 <= j < |s.pending[t]| && s.pending[t][j].0 == e.0 && e.1 !in s.pending[t][j].1;
        WrittenByte(s.bytes, s.pending[t], s.seen, j);
        assert Cleared(r.bytes, e);
      } else {
        assert r.pending[u] == s.pending[u];
        assert Owed(r, u, e);
      }
    }
  }

  ghost predicate SeenInMap(s: State) {
    forall e: Edge :: e in s.seen ==> e.0 < |s.bytes| && e.1 < 8
  }

  lemma {:induction false} RunSettles(s: State, run: seq<Action>)
    requires Inv(s) && SeenInMap(s) && AllSettled(s) && ValidRun(s, run) && AllUpToDate(s, run)
    ensures Inv(After(s, run)) && AllSettled(After(s, run))
    decreases |run|
  {
    if run != [] {
      var r := Step(s, run[0]);
      match run[0] {
        case Read(t, path) =>
          ReadStep(s, t, path);
          forall e: Edge | e in r.seen ensures Settled(r, e) {
            ReadSettles(s, t, path, e);
          }
        case WriteBack(t) =>
          WriteStep(s, t);
          forall e: Edge | e in r.seen ensures Settled(r, e) {
            WriteSettles(s, t, e);
          }
      }
      RunSettles(r, run[1..]);
    }
  }

  ghost predicate Quiet(s: State) {
    forall t :: 0 <= t < |s.pending| ==> s.pending[t] == []
  }

  lemma InitialInv(s: State)
    requires Initial(s)
    ensures Inv(s) && SeenInMap(s) && AllSettled(s) && Slack(s) == 0
  {
    FreshMap(s.bytes);
    NothingClaimed(s.bytes, s.pending);
  }

  /** If every write phase of a run is up to date, the map holds exactly the seen pairs once all
      threads are idle. */
  lemma ExactIfUpToDate(s: State, run: seq<Action>)
    requires Initial(s) && ValidRun(s, run) && AllUpToDate(s, run) && Quiet(After(s, run))
    ensures Exact(After(s, run).bytes, After(s, run).seen)
  {
    InitialInv(s);
    RunSettles(s, run);
    var r := After(s, run);
    forall e: Edge | e in r.seen ensures Cleared(r.bytes, e) {
      assert Settled(r, e);
    }
  }

  // ------------------------------------------------------------- when density is exact

  /** What density counts beyond the touched bytes and those that pending plans will touch. */
  ghost function Slack(s: State): int {
    s.density - Touched(s.bytes) - AllClaims(s.bytes, s.pending)
  }

  /** The write of ws touches a byte for the first time that ws' plans to touch too. */
  ghost predicate Meets(bytes: seq<Byte>, ws: seq<Write>, ws': seq<Write>) {
    exists i, j :: 0 <= i < |ws| && 0 <= j < |ws'| && ws[i].0 == ws'[j].0 < |bytes| && bytes[ws[i].0] == Full()
  }

  /** Another pending plan writes a byte that thread t is the first to touch. */
  ghost predicate Collides(s: State, t: nat) {
    t < |s.pending| && exists u: nat :: u < |s.pending| && u != t && Meets(s.bytes, s.pending[t], s.pending[u])
  }

  /** The two byte maps differ in whether some planned byte is untouched. */
  ghost predicate LosesClaim(bytes: seq<Byte>, bytes': seq<Byte>, ws: seq<Write>) {
    exists j :: 0 <= j < |ws| && ws[j].0 < |bytes| && |bytes'| == |bytes| && bytes[ws[j].0] == Full() && bytes'[ws[j].0] != Full()
  }

  lemma {:induction false} ClaimsShrinkIff(bytes: seq<Byte>, bytes': seq<Byte>, ws: seq<Write>)
    requires |bytes'| == |bytes| && forall i :: 0 <= i < |bytes| && bytes[i] != Full() ==> bytes'[i] != Full()
    ensures Claims(bytes', ws) < Claims(bytes, ws) <==> LosesClaim(bytes, bytes', ws)
  {
    ClaimsShrink(bytes, bytes', ws);
    if ws != [] {
      var init := ws[..|ws| - 1];
      ClaimsShrinkIff(bytes, bytes', init);
      ClaimsShrink(bytes, bytes', init);
      assert forall j :: 0 <= j < |init| ==> init[j] == ws[j];
    }
  }

  lemma {:induction false} AllClaimsShrinkIff(bytes: seq<Byte>, bytes': seq<Byte>, pending: seq<seq<Write>>)
    requires |bytes'| == |bytes| && forall i :: 0 <= i < |bytes| && bytes[i] != Full() ==> bytes'[i] != Full()
    ensures AllClaims(bytes', pending) < AllClaims(bytes, pending)
      <==> exists u: nat :: u < |pending| && LosesClaim(bytes, bytes', pending[u])
  {
    if pending != [] {
      var n := |pending| - 1;
      AllClaimsShrinkIff(bytes, bytes', pending[..n]);
      AllClaimsShrink(bytes, bytes', pending[..n]);
      ClaimsShrinkIff(bytes, bytes', pending[n]);
      ClaimsShrink(bytes, bytes', pending[n]);
      assert forall u: nat :: u < n ==> pending[..n][u] == pending[u];
    }
  }

  /** Reading counts exactly what it will touch. */
  lemma ReadKeepsSlack(s: State, t: nat, path: seq<Edge>)
    requires Enabled(s, Read(t, path))
    ensures Slack(Step(s, Read(t, path))) == Slack(s)
  {
    PlanClaims(s.bytes, path);
    AllClaimsUpdate(s.bytes, s.pending, t, Plan(s.bytes, path));
    assert Claims(s.bytes, s.pending[t]) == 0;
  }

  /** Writing never lowers the slack, and raises it exactly on a collision. */
  lemma WriteSlack(s: State, t: nat)
    requires Inv(s) && Enabled(s, WriteBack(t))
    ensures Slack(Step(s, WriteBack(t))) >= Slack(s)
    ensures Slack(Step(s, WriteBack(t))) > Slack(s) <==> Collides(s, t)
  {
    var ws, rest := s.pending[t], s.pending[t := []];
    var r := Apply(s.bytes, ws);
    assert WritesOk(ws, |s.bytes|, s.seen);
    TouchedStays(s, t);
    ApplyTouches(s.bytes, ws, s.seen);
    AllClaimsUpdate(s.bytes, s.pending, t, []);
    AllClaimsShrink(s.bytes, r, rest);
    AllClaimsShrinkIff(s.bytes, r, rest);
    forall u: nat | u < |rest| ensures LosesClaim(s.bytes, r, rest[u]) <==> u != t && Meets(s.bytes, ws, s.pending[u]) {
      if u != t {
        LosesIffMeets(s.bytes, ws, s.seen, s.pending[u]);
      }
    }
  }

  lemma TouchedStays(s: State, t: nat)
    requires Inv(s) && Enabled(s, WriteBack(t))
    ensures var r := Apply(s.bytes, s.pending[t]);
      forall i :: 0 <= i < |s.bytes| && s.bytes[i] != Full() ==> r[i] != Full()
  {
    var ws := s.pending[t];
    var r := Apply(s.bytes, ws);
    assert WritesOk(ws, |s.bytes|, s.seen);
    forall i | 0 <= i < |s.bytes| && s.bytes[i] != Full() ensures r[i] != Full() {
      ApplyAt(s.bytes, ws, s.seen, i);
      if r[i] != s.bytes[i] {
        var j :| 0 <= j < |ws| && ws[j] == (i, r[i]);
        assert WriteOk(ws[j], |s.bytes|, s.seen);
      }
    }
  }

  lemma LosesIffMeets(bytes: seq<Byte>, ws: seq<Write>, seen: set<Edge>, other: seq<Write>)
    requires WritesOk(ws, |bytes|, seen)
    ensures InMap(ws, |bytes|) && (LosesClaim(bytes, Apply(bytes, ws), other) <==> Meets(bytes, ws, other))
  {
    assert forall i :: 0 <= i < |ws| ==> WriteOk(ws[i], |bytes|, seen);
    var r := Apply(bytes, ws);
    if LosesClaim(bytes, r, other) {
      var j :| 0 <= j < |other| && other[j].0 < |bytes| && bytes[other[j].0] == Full() && r[other[j].0] != Full();
      ApplyAt(bytes, ws, seen, other[j].0);
      var i :| 0 <= i < |ws| && ws[i] == (other[j].0, r[other[j].0]);
      assert Meets(bytes, ws, other);
    }
    if Meets(bytes, ws, other) {
      var i, j :| 0 <= i < |ws| && 0 <= j < |other| && ws[i].0 == other[j].0 < |bytes| && bytes[ws[i].0] == Full();
      WrittenByte(bytes, ws, seen, i);
      assert LosesClaim(bytes, r, other);
    }
  }

  /** Some write phase of the run collides. */
  ghost predicate CollidesDuring(s: State, run: seq<Action>)
    requires ValidRun(s, run)
    decreases |run|
  {
    run != [] && ((run[0].WriteBack? && Collides(s, run[0].thread)) || CollidesDuring(Step(s, run[0]), run[1..]))
  }

  lemma {:induction false} RunSlack(s: State, run: seq<Action>)
    requires Inv(s) && ValidRun(s, run)
    ensures Slack(After(s, run)) >= Slack(s)
    ensures Slack(After(s, run)) > Slack(s) <==> CollidesDuring(s, run)
    decreases |run|
  {
    if run != [] {
      match run[0] {
        case Read(t, path) =>
          ReadStep(s, t, path);
          ReadKeepsSlack(s, t, path);
        case WriteBack(t) =>
          WriteStep(s, t);
          WriteSlack(s, t);
      }
      RunSlack(Step(s, run[0]), run[1..]);
    }
  }

  /** Once all threads are idle, density is the number of touched edges if and only if no write
      phase of the run was first to touch a byte that another thread had planned to touch. */
  lemma DensityExactIff(s: State, run: seq<Action>)
    requires Initial(s) && ValidRun(s, run) && Quiet(After(s, run))
    ensures After(s, run).density == Touched(After(s, run).bytes) <==> !CollidesDuring(s, run)
  {
    InitialInv(s);
    RunSlack(s, run);
    NothingClaimed(After(s, run).bytes, After(s, run).pending);
  }

  lemma RunCons(s: State, a: Action, rest: seq<Action>)
    requires Enabled(s, a) && ValidRun(Step(s, a), rest)
    ensures ValidRun(s, [a] + rest) && After(s, [a] + rest) == After(Step(s, a), rest)
  {
    assert ([a] + rest)[1..] == rest;
  }

  /** What a read of one pair of an untouched byte plans. */
  lemma PlanOne(k: nat)
    requires k < 8
    ensures PathIn([(0, k)], 1) && Plan([Full()], [(0, k)]) == [(0, Full() - {k})] && NewEdges([Full()], [(0, k)]) == 1
  {
    var path := [(0, k)];
    assert path[..0] == [];
    InFull(k);
  }

  lemma ApplyOne(b: Byte, c: Byte)
    ensures InMap([(0, c)], 1) && Apply([b], [(0, c)]) == [c]
  {
    var ws := [(0, c)];
    assert ws[..0] == [];
  }

  /** Interleaving can undo a cleared bit and count an edge twice: two threads read the same byte,
      and the second write restores the bit that the first one cleared. */
  lemma LostUpdate() returns (s: State, run: seq<Action>)
    ensures Initial(s) && ValidRun(s, run)
    ensures var r := After(s, run);
      (0, 0) in r.seen && !Cleared(r.bytes, (0, 0)) && Touched(r.bytes) < r.density
  {
    s := State([Full()], [[], []], 0, {});
    var w0, w1 := [(0, Full() - {0})], [(0, Full() - {1})];
    var s1 := State([Full()], [w0, []], 1, {(0, 0)});
    var s2 := State([Full()], [w0, w1], 2, {(0, 0), (0, 1)});
    var s3 := State([Full() - {0}], [[], w1], 2, {(0, 0), (0, 1)});
    var s4 := State([Full() - {1}], [[], []], 2, {(0, 0), (0, 1)});
    PlanOne(0);
    PlanOne(1);
    assert Pairs([(0, 0)]) == {(0, 0)} && Pairs([(0, 1)]) == {(0, 1)};
    assert Step(s, Read(0, [(0, 0)])) == s1;
    assert Step(s1, Read(1, [(0, 1)])) == s2;
    ApplyOne(Full(), Full() - {0});
    ApplyOne(Full() - {0}, Full() - {1});
    assert Step(s2, WriteBack(0)) == s3;
    assert Step(s3, WriteBack(1)) == s4;
    RunCons(s3, WriteBack(1), []);
    RunCons(s2, WriteBack(0), [WriteBack(1)] + []);
    RunCons(s1, Read(1, [(0, 1)]), [WriteBack(0)] + ([WriteBack(1)] + []));
    run := [Read(0, [(0, 0)])] + ([Read(1, [(0, 1)])] + ([WriteBack(0)] + ([WriteBack(1)] + [])));
    RunCons(s, Read(0, [(0, 0)]), run[1..]);
    assert run == [Read(0, [(0, 0)])] + run[1..];
    assert run[1..] == [Read(1, [(0, 1)])] + ([WriteBack(0)] + ([WriteBack(1)] + []));
    TouchedOne(Full() - {1});
  }

  lemma TouchedOne(b: Byte)
    ensures Touched([b]) <= 1
  {
    assert [b][..0] == [];
  }
}
