/**
 The edit script of two basic blocks (FunctionDifferenceEngine::runBlockDiff in
 tools/llvm-diff-parmesan/DifferenceEngine.cpp), for a fixed relation `same` that says
 which left and right instructions match.
 */
module BlockDiff {

  datatype Change = Match | Left | Right

  datatype DiffEntry = DiffEntry(cost: nat, path: seq<Change>)

  const LEFT_COST: nat := 2
  const RIGHT_COST: nat := 2

  // ------------------------------------------------------------- edit scripts

  function Cost(path: seq<Change>): nat {
    if path == [] then 0
    else Cost(path[..|path| - 1]) + (match path[|path| - 1] case Match => 0 case Left => LEFT_COST case Right => RIGHT_COST)
  }

  /** path turns the first i left instructions into the first j right ones. */
  ghost predicate Aligns(same: (nat, nat) -> bool, path: seq<Change>, i: nat, j: nat) {
    if path == [] then i == 0 && j == 0
    else
      var init := path[..|path| - 1];
      match path[|path| - 1]
      case Match => i > 0 && j > 0 && same(i - 1, j - 1) && Aligns(same, init, i - 1, j - 1)
      case Left => i > 0 && Aligns(same, init, i - 1, j)
      case Right => j > 0 && Aligns(same, init, i, j - 1)
  }

  /** The cost the table holds: a match is taken whenever there is one. */
  ghost function Best(same: (nat, nat) -> bool, i: nat, j: nat): nat {
    if i == 0 then RIGHT_COST * j
    else if j == 0 then LEFT_COST * i
    else if same(i - 1, j - 1) then Best(same, i - 1, j - 1)
    else if Best(same, i - 1, j) <= Best(same, i, j - 1) then Best(same, i - 1, j) + LEFT_COST
    else Best(same, i, j - 1) + RIGHT_COST
  }

  /** The script the table stands for, by plain recursion: a match is taken whenever there is one,
      and of two equally cheap edits the one that drops a left instruction last. */
  ghost function Script(same: (nat, nat) -> bool, i: nat, j: nat): seq<Change> {
    if i == 0 && j == 0 then []
    else if j == 0 then Script(same, i - 1, j) + [Left]
    else if i == 0 then Script(same, i, j - 1) + [Right]
    else if same(i - 1, j - 1) then Script(same, i - 1, j - 1) + [Match]
    else if Best(same, i - 1, j) <= Best(same, i, j - 1) then Script(same, i - 1, j) + [Left]
    else Script(same, i, j - 1) + [Right]
  }

  /** The last step of the script, and where the rest of it ends. */
  lemma LastStep(same: (nat, nat) -> bool, i: nat, j: nat) returns (c: Change, i': nat, j': nat)
    requires i + j > 0
    ensures Script(same, i, j) == Script(same, i', j') + [c]
    ensures Best(same, i, j) == Best(same, i', j') + if c == Match then 0 else 2
    ensures match c
      case Match => i' + 1 == i && j' + 1 == j && same(i', j')
      case Left => i' + 1 == i && j' == j
      case Right => i' == i && j' + 1 == j
  {
    if j == 0 || (i > 0 && !same(i - 1, j - 1) && Best(same, i - 1, j) <= Best(same, i, j - 1)) {
      c, i', j' := Left, i - 1, j;
    } else if i == 0 || !same(i - 1, j - 1) {
      c, i', j' := Right, i, j - 1;
    } else {
      c, i', j' := Match, i - 1, j - 1;
    }
  }

  /** It is an edit script of the cost the table holds. */
  lemma {:induction false} ScriptAligns(same: (nat, nat) -> bool, i: nat, j: nat)
    ensures Aligns(same, Script(same, i, j), i, j) && Cost(Script(same, i, j)) == Best(same, i, j)
    decreases i + j
  {
    if i + j > 0 {
      var c, i', j' := LastStep(same, i, j);
      ScriptAligns(same, i', j');
      Extend(same, Script(same, i', j'), c, i', j');
    }
  }

  lemma Extend(same: (nat, nat) -> bool, path: seq<Change>, c: Change, i: nat, j: nat)
    requires Aligns(same, path, i, j)
    ensures c == Left ==> Aligns(same, path + [c], i + 1, j)
    ensures c == Right ==> Aligns(same, path + [c], i, j + 1)
    ensures c == Match && same(i, j) ==> Aligns(same, path + [c], i + 1, j + 1)
    ensures Cost(path + [c]) == Cost(path) + if c == Match then 0 else 2
  {
    assert (path + [c])[..|path|] == path;
  }

  /** Neighbouring entries of the table differ by at most one edit. */
  lemma {:induction false} Neighbours(same: (nat, nat) -> bool, i: nat, j: nat)
    ensures Best(same, i, j) <= Best(same, i + 1, j) + 2 && Best(same, i + 1, j) <= Best(same, i, j) + 2
    ensures Best(same, i, j) <= Best(same, i, j + 1) + 2 && Best(same, i, j + 1) <= Best(same, i, j) + 2
    decreases i + j
  {
    if i > 0 {
      Neighbours(same, i - 1, j);
    }
    if j > 0 {
      Neighbours(same, i, j - 1);
    }
  }

  /** Taking a match is never worse than any edit: the greedy table is optimal. */
  lemma {:induction false} BestIsLeast(same: (nat, nat) -> bool, path: seq<Change>, i: nat, j: nat)
    requires Aligns(same, path, i, j)
    ensures Best(same, i, j) <= Cost(path)
    decreases |path|
  {
    if path != [] {
      var init := path[..|path| - 1];
      match path[|path| - 1]
      case Match => BestIsLeast(same, init, i - 1, j - 1);
      case Left =>
        BestIsLeast(same, init, i - 1, j);
        Neighbours(same, i - 1, j);
      case Right =>
        BestIsLeast(same, init, i, j - 1);
        Neighbours(same, i, j - 1);
    }
  }

  ghost predicate Optimal(same: (nat, nat) -> bool, path: seq<Change>, i: nat, j: nat) {
    && Aligns(same, path, i, j)
    && forall other :: Aligns(same, other, i, j) ==> Cost(path) <= Cost(other)
  }

  // ------------------------------------------------------------- filling the table

  ghost predicate EntryOk(same: (nat, nat) -> bool, e: DiffEntry, i: nat, j: nat) {
    e.cost == Best(same, i, j) && e.path == Script(same, i, j)
  }

  /** The row of the table for j right instructions. */
  ghost predicate RowOk(same: (nat, nat) -> bool, row: seq<DiffEntry>, j: nat) {
    forall k: nat {:trigger EntryOk(same, row[k], k, j)} :: k < |row| ==> EntryOk(same, row[k], k, j)
  }

  lemma RowEntry(same: (nat, nat) -> bool, row: seq<DiffEntry>, k: nat, j: nat)
    requires RowOk(same, row, j) && k < |row|
    ensures row[k].path == Script(same, k, j)
  {
    assert EntryOk(same, row[k], k, j);
  }

  /** The first column: delete everything. */
  method FirstColumn(same: (nat, nat) -> bool, cur: array<DiffEntry>)
    modifies cur
    ensures RowOk(same, cur[..], 0)
  {
    var i := 0;
    while i < cur.Length
      invariant 0 <= i <= cur.Length
      invariant forall k: nat :: k < i ==> EntryOk(same, cur[k], k, 0)
    {
      var path := [];
      var j := 0;
      while j != i
        invariant 0 <= j <= i && path == Script(same, j, 0)
        invariant forall k: nat :: k < i ==> EntryOk(same, cur[k], k, 0)
      {
        path := path + [Left];
        j := j + 1;
      }
      cur[i] := DiffEntry(i * LEFT_COST, path);
      i := i + 1;
    }
  }

  function Push(e: DiffEntry, c: Change): DiffEntry {
    DiffEntry(e.cost + (match c case Match => 0 case Left => LEFT_COST case Right => RIGHT_COST), e.path + [c])
  }

  /** One row of the table, from the row for j right instructions to the one for j + 1. */
  method NextRow(same: (nat, nat) -> bool, cur: array<DiffEntry>, next: array<DiffEntry>, j: nat)
    requires cur.Length == next.Length > 0 && cur != next
    requires RowOk(same, cur[..], j)
    modifies next
    ensures RowOk(same, next[..], j + 1)
  {
    assert forall k: nat :: k < cur.Length ==> EntryOk(same, cur[..][k], k, j);
    next[0] := Push(cur[0], Right);
    var index := 1;
    while index < next.Length
      invariant 1 <= index <= next.Length
      invariant forall k: nat :: k < cur.Length ==> EntryOk(same, cur[k], k, j)
      invariant forall k: nat :: k < index ==> EntryOk(same, next[k], k, j + 1)
    {
      if same(index - 1, j) {
        next[index] := Push(cur[index - 1], Match);
      } else if next[index - 1].cost <= cur[index].cost {
        next[index] := Push(next[index - 1], Left);
      } else {
        next[index] := Push(cur[index], Right);
      }
      index := index + 1;
    }
  }

  /** The edit script the table ends with is the cheapest of all edit scripts. */
  method BlockPath(same: (nat, nat) -> bool, nl: nat, nr: nat) returns (path: seq<Change>)
    ensures path == Script(same, nl, nr)
    ensures Optimal(same, path, nl, nr)
    ensures Cost(path) == Best(same, nl, nr)
  {
    var cur := new DiffEntry[nl + 1](_ => DiffEntry(0, []));
    var next := new DiffEntry[nl + 1](_ => DiffEntry(0, []));
    FirstColumn(same, cur);
    var j := 0;
    while j < nr
      invariant 0 <= j <= nr && cur.Length == next.Length == nl + 1 && cur != next
      invariant fresh(cur) && fresh(next)
      invariant RowOk(same, cur[..], j)
    {
      NextRow(same, cur, next, j);
      cur, next := next, cur;
      j := j + 1;
    }
    path := cur[nl].path;
    RowEntry(same, cur[..], nl, nr);
    ScriptIsOptimal(same, nl, nr);
  }

  lemma ScriptIsOptimal(same: (nat, nat) -> bool, i: nat, j: nat)
    ensures Optimal(same, Script(same, i, j), i, j) && Cost(Script(same, i, j)) == Best(same, i, j)
  {
    ScriptAligns(same, i, j);
    forall other | Aligns(same, other, i, j)
      ensures Best(same, i, j) <= Cost(other)
    {
      BestIsLeast(same, other, i, j);
    }
  }

  // ------------------------------------------------------------- walking the script

  /** What the walk does with the instructions: unify a pair, or report one side alone. */
  datatype Event = Unify(l: nat, r: nat) | OnlyLeft(l: nat) | OnlyRight(r: nat)

  /** `Underflow` stands for popping an empty path. */
  datatype Outcome = Walked(events: seq<Event>, diff: seq<Event>) | Underflow

  function Lefts(events: seq<Event>): seq<nat> {
    if events == [] then []
    else
      var init := Lefts(events[..|events| - 1]);
      var e := events[|events| - 1];
      if e.OnlyRight? then init else init + [e.l]
  }

  function Rights(events: seq<Event>): seq<nat> {
    if events == [] then []
    else
      var init := Rights(events[..|events| - 1]);
      var e := events[|events| - 1];
      if e.OnlyLeft? then init else init + [e.r]
  }

  function UpTo(n: nat): (s: seq<nat>)
    ensures |s| == n && forall k: nat :: k < n ==> s[k] == k
  {
    seq(n, k => k)
  }

  ghost predicate AllSame(same: (nat, nat) -> bool, events: seq<Event>) {
    forall k: nat :: k < |events| && events[k].Unify? ==> same(events[k].l, events[k].r)
  }

  /** The events handle the first i left and j right instructions once each, in order. */
  ghost predicate Handles(same: (nat, nat) -> bool, events: seq<Event>, i: nat, j: nat) {
    Lefts(events) == UpTo(i) && Rights(events) == UpTo(j) && AllSame(same, events)
  }

  /** How many instructions are reported without a partner. */
  function Unmatched(events: seq<Event>): nat {
    if events == [] then 0
    else Unmatched(events[..|events| - 1]) + if events[|events| - 1].Unify? then 0 else 1
  }

  function PathOf(events: seq<Event>): seq<Change> {
    if events == [] then []
    else
      PathOf(events[..|events| - 1]) + [Kind(events[|events| - 1])]
  }

  function Kind(e: Event): Change {
    match e
    case Unify(_, _) => Match
    case OnlyLeft(_) => Left
    case OnlyRight(_) => Right
  }

  /** The last event handles the last instruction of its side or sides. */
  lemma LastHandled(same: (nat, nat) -> bool, events: seq<Event>, i: nat, j: nat)
    requires Handles(same, events, i, j) && events != []
    ensures var init, e := events[..|events| - 1], events[|events| - 1];
      && (!e.OnlyRight? ==> i > 0 && e.l == i - 1) && (!e.OnlyLeft? ==> j > 0 && e.r == j - 1)
      && (e.Unify? ==> same(e.l, e.r))
      && Lefts(init) == UpTo(if e.OnlyRight? then i else i - 1)
      && Rights(init) == UpTo(if e.OnlyLeft? then j else j - 1)
      && AllSame(same, init)
  {
    var init, e := events[..|events| - 1], events[|events| - 1];
    if !e.OnlyRight? {
      assert Lefts(events)[..i - 1] == Lefts(init) && Lefts(events)[i - 1] == e.l;
    }
    if !e.OnlyLeft? {
      assert Rights(events)[..j - 1] == Rights(init) && Rights(events)[j - 1] == e.r;
    }
  }

  /** Any way of handling the two blocks is an edit script of twice its unmatched instructions. */
  lemma {:induction false} HandlesIsScript(same: (nat, nat) -> bool, events: seq<Event>, i: nat, j: nat)
    requires Handles(same, events, i, j)
    ensures Aligns(same, PathOf(events), i, j) && Cost(PathOf(events)) == 2 * Unmatched(events)
    decreases |events|
  {
    if events != [] {
      LastHandled(same, events, i, j);
      var init, e := events[..|events| - 1], events[|events| - 1];
      var i', j' := if e.OnlyRight? then i else i - 1, if e.OnlyLeft? then j else j - 1;
      HandlesIsScript(same, init, i', j');
      Extend(same, PathOf(init), Kind(e), i', j');
    }
  }

  lemma PathOfPush(events: seq<Event>, e: Event)
    ensures PathOf(events + [e])
         == PathOf(events) + [Kind(e)]
    ensures e.Unify? ==> Cost(PathOf(events + [e])) == Cost(PathOf(events))
  {
    assert (events + [e])[..|events|] == events;
    var p := PathOf(events);
    assert (p + [Match])[..|p|] == p;
  }

  lemma EventsPush(events: seq<Event>, e: Event)
    ensures Lefts(events + [e]) == Lefts(events) + (if e.OnlyRight? then [] else [e.l])
    ensures Rights(events + [e]) == Rights(events) + (if e.OnlyLeft? then [] else [e.r])
  {
    assert (events + [e])[..|events|] == events;
  }

  lemma UpToPush(n: nat)
    ensures UpTo(n + 1) == UpTo(n) + [n]
  {
  }

  lemma HandlesMore(same: (nat, nat) -> bool, events: seq<Event>, i: nat, j: nat, e: Event)
    requires Handles(same, events, i, j)
    requires e == OnlyLeft(i) || e == OnlyRight(j) || (e == Unify(i, j) && same(i, j))
    ensures Handles(same, events + [e], if e.OnlyRight? then i else i + 1, if e.OnlyLeft? then j else j + 1)
  {
    EventsPush(events, e);
    UpToPush(i);
    UpToPush(j);
  }

  /** A script splits at any point into two scripts. */
  lemma {:induction false} AlignsPrefix(same: (nat, nat) -> bool, path: seq<Change>, n: nat, i: nat, j: nat)
    returns (i': nat, j': nat)
    requires Aligns(same, path, i, j) && n <= |path|
    ensures i' <= i && j' <= j && Aligns(same, path[..n], i', j')
    decreases |path|
  {
    if n == |path| {
      assert path[..n] == path;
      i', j' := i, j;
    } else {
      var init := path[..|path| - 1];
      assert init[..n] == path[..n];
      match path[|path| - 1]
      case Match => i', j' := AlignsPrefix(same, init, n, i - 1, j - 1);
      case Left => i', j' := AlignsPrefix(same, init, n, i - 1, j);
      case Right => i', j' := AlignsPrefix(same, init, n, i, j - 1);
    }
  }

  /** A script determines how many instructions it consumes. */
  lemma {:induction false} AlignsUnique(same: (nat, nat) -> bool, path: seq<Change>, i: nat, j: nat, i': nat, j': nat)
    requires Aligns(same, path, i, j) && Aligns(same, path, i', j')
    ensures i == i' && j == j'
    decreases |path|
  {
    if path != [] {
      var init := path[..|path| - 1];
      match path[|path| - 1]
      case Match => AlignsUnique(same, init, i - 1, j - 1, i' - 1, j' - 1);
      case Left => AlignsUnique(same, init, i - 1, j, i' - 1, j');
      case Right => AlignsUnique(same, init, i, j - 1, i', j' - 1);
    }
  }

  /** What is left of the blocks from i and j on has equal length and matches pairwise. */
  ghost predicate TailsMatch(same: (nat, nat) -> bool, i: nat, j: nat, nl: nat, nr: nat) {
    && i <= nl && j <= nr && nl - i == nr - j
    && forall l: nat, r: nat {:trigger same(l, r)} :: i <= l < nl && r - j == l - i ==> same(l, r)
  }

  /** Drops trailing matches.  The tails behind the shortened script have equal length and
      match pairwise; a script of nothing but matches is popped until it underflows. */
  method DropTrailing(same: (nat, nat) -> bool, path0: seq<Change>, nl: nat, nr: nat)
    returns (ok: bool, path: seq<Change>, ghost i: nat, ghost j: nat)
    requires Aligns(same, path0, nl, nr)
    ensures ok <==> exists k: nat :: k < |path0| && path0[k] != Match
    ensures ok ==> Aligns(same, path, i, j) && path != [] && path[|path| - 1] != Match && path <= path0
    ensures ok ==> TailsMatch(same, i, j, nl, nr) && Cost(path) == Cost(path0) && path0 == path + Matches(nl - i)
    ensures !ok ==> nl == nr && forall k: nat :: k < nl ==> same(k, k)
  {
    path, i, j := path0, nl, nr;
    assert path0 == path + Matches(0);
    while true
      invariant Dropped(same, path0, path, i, j, nl, nr)
      decreases |path|
    {
      if path == [] {
        return false, path, i, j;
      }
      if path[|path| - 1] != Match {
        assert path0[|path| - 1] == path[|path| - 1];
        return true, path, i, j;
      }
      DropOne(same, path0, path, i, j, nl, nr);
      i, j := i - 1, j - 1;
      path := path[..|path| - 1];
    }
  }

  /** path is path0 without some trailing matches, and ends at i and j. */
  ghost predicate Dropped(same: (nat, nat) -> bool, path0: seq<Change>, path: seq<Change>, i: nat, j: nat, nl: nat, nr: nat) {
    && Aligns(same, path, i, j) && TailsMatch(same, i, j, nl, nr)
    && Cost(path) == Cost(path0) && path0 == path + Matches(nl - i)
  }

  lemma DropOne(same: (nat, nat) -> bool, path0: seq<Change>, path: seq<Change>, i: nat, j: nat, nl: nat, nr: nat)
    requires Dropped(same, path0, path, i, j, nl, nr) && path != [] && path[|path| - 1] == Match
    ensures i > 0 && j > 0 && Dropped(same, path0, path[..|path| - 1], i - 1, j - 1, nl, nr)
  {
    MatchesCons(nl - i);
    assert path == path[..|path| - 1] + [Match];
  }

  ghost function Matches(n: nat): (r: seq<Change>)
    ensures |r| == n && forall k :: 0 <= k < n ==> r[k] == Match
  {
    if n == 0 then [] else Matches(n - 1) + [Match]
  }

  lemma {:induction false} MatchesCons(n: nat)
    ensures Matches(n + 1) == [Match] + Matches(n)
  {
    if n > 0 {
      MatchesCons(n - 1);
    }
  }

  /** Walks the shortened script and then the tails. The diff shows only what lies between the
      leading and the trailing matches. */
  method Walk(same: (nat, nat) -> bool, path: seq<Change>, nl: nat, nr: nat, ghost i: nat, ghost j: nat)
    returns (events: seq<Event>, diff: seq<Event>)
    requires Aligns(same, path, i, j) && TailsMatch(same, i, j, nl, nr)
    requires path != [] && path[|path| - 1] != Match
    ensures Handles(same, events, nl, nr) && PathOf(events) == path + Matches(nl - i)
    ensures Trims(events, diff)
  {
    var li: nat, ri: nat;
    ghost var lead: nat;
    events, diff, li, ri, lead := WalkScript(same, path, nl, nr, i, j);
    TailBegins(same, path, events, diff, lead, li, ri);
    while li != nl
      invariant i <= li <= nl && j <= ri <= nr && nl - li == nr - ri
      invariant TailInv(same, path, events, diff, lead, li - i, li, ri)
      decreases nl - li
    {
      assert ri < nr && same(li, ri);
      TailStep(same, path, events, diff, lead, li - i, li, ri);
      events := events + [Unify(li, ri)];
      li, ri := li + 1, ri + 1;
    }
    TrimmedWalk(events, diff, path, lead, nl - i);
  }

  /** After the script and k pairs of the tails. */
  ghost predicate TailInv(same: (nat, nat) -> bool, path: seq<Change>, events: seq<Event>, diff: seq<Event>,
                          lead: nat, k: nat, li: nat, ri: nat) {
    && Handles(same, events, li, ri) && PathOf(events) == path + Matches(k)
    && lead <= |path| <= |events| && events[lead..|path|] == diff
  }

  lemma TailBegins(same: (nat, nat) -> bool, path: seq<Change>, events: seq<Event>, diff: seq<Event>, lead: nat, li: nat, ri: nat)
    requires Handles(same, events, li, ri) && PathOf(events) == path
    requires lead <= |path| == |events| && events[lead..] == diff
    ensures TailInv(same, path, events, diff, lead, 0, li, ri)
  {
    assert path + Matches(0) == path && events[lead..|path|] == diff;
  }

  lemma TailStep(same: (nat, nat) -> bool, path: seq<Change>, events: seq<Event>, diff: seq<Event>,
                 lead: nat, k: nat, li: nat, ri: nat)
    requires TailInv(same, path, events, diff, lead, k, li, ri) && same(li, ri)
    ensures TailInv(same, path, events + [Unify(li, ri)], diff, lead, k + 1, li + 1, ri + 1)
  {
    PathOfPush(events, Unify(li, ri));
    HandlesMore(same, events, li, ri, Unify(li, ri));
    assert path + Matches(k) + [Match] == path + Matches(k + 1);
    assert (events + [Unify(li, ri)])[lead..|path|] == events[lead..|path|];
  }

  ghost predicate AllUnify(events: seq<Event>) {
    forall k: nat :: k < |events| ==> events[k].Unify?
  }

  ghost predicate Trimmed(events: seq<Event>, lead: seq<Event>, diff: seq<Event>, tail: seq<Event>) {
    && events == lead + diff + tail && AllUnify(lead) && AllUnify(tail)
    && diff != [] && !diff[0].Unify? && !diff[|diff| - 1].Unify?
  }

  /** diff is what is left of the events without leading and trailing matches. */
  ghost predicate Trims(events: seq<Event>, diff: seq<Event>) {
    exists lead: seq<Event>, tail: seq<Event> :: Trimmed(events, lead, diff, tail)
  }

  lemma TrimmedWalk(events: seq<Event>, diff: seq<Event>, path: seq<Change>, lead: nat, tail: nat)
    requires PathOf(events) == path + Matches(tail) && path != [] && path[|path| - 1] != Match
    requires lead < |path| <= |events| && events[lead..|path|] == diff
    requires path[lead] != Match && forall k: nat :: k < lead ==> path[k] == Match
    ensures Trims(events, diff)
  {
    PathOfAt(events);
    TrimmedBy(events, diff, path, Matches(tail), lead);
  }

  lemma TrimmedBy(events: seq<Event>, diff: seq<Event>, path: seq<Change>, tail: seq<Change>, lead: nat)
    requires |events| == |path| + |tail| && forall k: nat :: k < |events| ==> Kind(events[k]) == (path + tail)[k]
    requires path != [] && path[|path| - 1] != Match && forall k: nat :: k < |tail| ==> tail[k] == Match
    requires lead < |path| && events[lead..|path|] == diff
    requires path[lead] != Match && forall k: nat :: k < lead ==> path[k] == Match
    ensures Trims(events, diff)
  {
    var n := |path|;
    var before, after := events[..lead], events[n..];
    forall k: nat | k < |after| ensures after[k].Unify? {
      assert Kind(events[n + k]) == tail[k];
    }
    forall k: nat | k < lead ensures before[k].Unify? {
      assert Kind(events[k]) == path[k];
    }
    assert Kind(events[lead]) == path[lead] && Kind(events[n - 1]) == path[n - 1];
    assert events == before + diff + after;
    assert Trimmed(events, before, diff, after);
  }

  /** That leaves only one possibility. */
  lemma TrimsOnce(events: seq<Event>, diff: seq<Event>, diff': seq<Event>)
    requires Trims(events, diff) && Trims(events, diff')
    ensures diff == diff'
  {
    var lead, tail :| Trimmed(events, lead, diff, tail);
    var lead', tail' :| Trimmed(events, lead', diff', tail');
    TrimBounds(events, lead, diff, tail, lead', diff', tail');
    TrimBounds(events, lead', diff', tail', lead, diff, tail);
    var n := |lead| + |diff|;
    assert diff == events[|lead|..n] && diff' == events[|lead|..n];
  }

  lemma TrimBounds(events: seq<Event>, lead: seq<Event>, diff: seq<Event>, tail: seq<Event>,
                   lead': seq<Event>, diff': seq<Event>, tail': seq<Event>)
    requires Trimmed(events, lead, diff, tail) && Trimmed(events, lead', diff', tail')
    ensures |lead'| <= |lead| && |lead| + |diff| <= |lead'| + |diff'|
  {
    var n, n' := |lead| + |diff|, |lead'| + |diff'|;
    assert events[|lead|] == diff[0] && events[n - 1] == diff[|diff| - 1];
    assert forall k: nat :: k < |lead'| ==> events[k] == lead'[k];
    assert forall k: nat :: n' <= k < |events| ==> events[k] == tail'[k - n'];
  }

  lemma {:induction false} PathOfAt(events: seq<Event>)
    ensures |PathOf(events)| == |events| && forall k: nat :: k < |events| ==> PathOf(events)[k] == Kind(events[k])
  {
    if events != [] {
      PathOfAt(events[..|events| - 1]);
    }
  }

  function EventOf(c: Change, li: nat, ri: nat): Event {
    match c case Match => Unify(li, ri) case Left => OnlyLeft(li) case Right => OnlyRight(ri)
  }

  /** After n steps of the script, of which the first `lead` are not part of the diff. */
  ghost predicate DiffInv(same: (nat, nat) -> bool, path: seq<Change>, n: nat, events: seq<Event>, diff: seq<Event>,
                          lead: nat, li: nat, ri: nat) {
    && lead <= n <= |path| && |events| == n && events[lead..] == diff
    && ScriptInv(same, path, n, events, li, ri)
  }

  function AfterLeft(c: Change, li: nat): nat { if c == Right then li else li + 1 }

  function AfterRight(c: Change, ri: nat): nat { if c == Left then ri else ri + 1 }

  lemma DiffStep(same: (nat, nat) -> bool, path: seq<Change>, n: nat, events: seq<Event>, diff: seq<Event>,
                 lead: nat, li: nat, ri: nat, i: nat, j: nat)
    requires n < |path| && Aligns(same, path, i, j) && DiffInv(same, path, n, events, diff, lead, li, ri)
    ensures var c := path[n]; var e := EventOf(c, li, ri);
      && (c != Right ==> li < i) && (c != Left ==> ri < j)
      && DiffInv(same, path, n + 1, events + [e], diff + [e], lead, AfterLeft(c, li), AfterRight(c, ri))
  {
    ScriptStep(same, path, n, events, li, ri, i, j);
    var e := EventOf(path[n], li, ri);
    assert (events + [e])[lead..] == diff + [e];
  }

  /** Leading matches are unified without becoming part of the diff. */
  method SkipLeading(same: (nat, nat) -> bool, path: seq<Change>, nl: nat, nr: nat, ghost i: nat, ghost j: nat)
    returns (events: seq<Event>, li: nat, ri: nat, n: nat)
    requires Aligns(same, path, i, j) && i <= nl && j <= nr
    ensures DiffInv(same, path, n, events, [], n, li, ri)
    ensures (n < |path| ==> path[n] != Match) && forall k: nat :: k < n ==> path[k] == Match
  {
    events, li, ri, n := [], 0, 0, 0;
    while n < |path| && path[n] == Match
      invariant DiffInv(same, path, n, events, [], n, li, ri)
      invariant forall k: nat :: k < n ==> path[k] == Match
    {
      ScriptStep(same, path, n, events, li, ri, i, j);
      assert li < nl && ri < nr;
      events := events + [Unify(li, ri)];
      li, ri, n := li + 1, ri + 1, n + 1;
    }
  }

  /** The leading matches, then the rest of the script, which is the diff. */
  method WalkScript(same: (nat, nat) -> bool, path: seq<Change>, nl: nat, nr: nat, ghost i: nat, ghost j: nat)
    returns (events: seq<Event>, diff: seq<Event>, li: nat, ri: nat, ghost lead: nat)
    requires Aligns(same, path, i, j) && i <= nl && j <= nr
    ensures li == i && ri == j && Handles(same, events, li, ri) && PathOf(events) == path
    ensures lead <= |path| == |events| && events[lead..] == diff
    ensures (lead < |path| ==> path[lead] != Match) && forall k: nat :: k < lead ==> path[k] == Match
  {
    var n: nat;
    events, li, ri, n := SkipLeading(same, path, nl, nr, i, j);
    lead, diff := n, [];
    while n < |path|
      invariant DiffInv(same, path, n, events, diff, lead, li, ri)
    {
      DiffStep(same, path, n, events, diff, lead, li, ri, i, j);
      var e := EventOf(path[n], li, ri);
      events, diff := events + [e], diff + [e];
      match path[n] {
        case Match =>
          assert li < nl && ri < nr;
          li, ri := li + 1, ri + 1;
        case Left =>
          assert li < nl;
          li := li + 1;
        case Right =>
          assert ri < nr;
          ri := ri + 1;
      }
      n := n + 1;
    }
    assert path[..n] == path;
    AlignsUnique(same, path, i, j, li, ri);
  }

  ghost predicate ScriptInv(same: (nat, nat) -> bool, path: seq<Change>, n: nat, events: seq<Event>, li: nat, ri: nat)
    requires n <= |path|
  {
    Aligns(same, path[..n], li, ri) && Handles(same, events, li, ri) && PathOf(events) == path[..n]
  }

  lemma ScriptStep(same: (nat, nat) -> bool, path: seq<Change>, n: nat, events: seq<Event>, li: nat, ri: nat, i: nat, j: nat)
    requires n < |path| && Aligns(same, path, i, j) && ScriptInv(same, path, n, events, li, ri)
    ensures path[n] == Match ==> li < i && ri < j && ScriptInv(same, path, n + 1, events + [Unify(li, ri)], li + 1, ri + 1)
    ensures path[n] == Left ==> li < i && ScriptInv(same, path, n + 1, events + [OnlyLeft(li)], li + 1, ri)
    ensures path[n] == Right ==> ri < j && ScriptInv(same, path, n + 1, events + [OnlyRight(ri)], li, ri + 1)
  {
    var i', j' := AlignsPrefix(same, path, n + 1, i, j);
    StepFits(same, path, n, li, ri, i', j');
    assert path[..n + 1] == path[..n] + [path[n]];
    var e := match path[n] case Match => Unify(li, ri) case Left => OnlyLeft(li) case Right => OnlyRight(ri);
    HandlesMore(same, events, li, ri, e);
    PathOfPush(events, e);
  }

  lemma StepFits(same: (nat, nat) -> bool, path: seq<Change>, n: nat, li: nat, ri: nat, i': nat, j': nat)
    requires n < |path| && Aligns(same, path[..n], li, ri) && Aligns(same, path[..n + 1], i', j')
    ensures path[n] == Match ==> i' == li + 1 && j' == ri + 1 && same(li, ri)
    ensures path[n] == Left ==> i' == li + 1 && j' == ri
    ensures path[n] == Right ==> i' == li && j' == ri + 1
  {
    assert path[..n + 1][..n] == path[..n];
    match path[n]
    case Match => AlignsUnique(same, path[..n], li, ri, i' - 1, j' - 1);
    case Left => AlignsUnique(same, path[..n], li, ri, i' - 1, j');
    case Right => AlignsUnique(same, path[..n], li, ri, i', j' - 1);
  }

  /** runBlockDiff: every instruction of both blocks is handled exactly once and in order,
      only matching ones are unified, and no script reports fewer unmatched instructions.
      It underflows exactly on blocks that match instruction by instruction. */
  method RunBlockDiff(same: (nat, nat) -> bool, nl: nat, nr: nat) returns (r: Outcome)
    ensures r.Underflow? <==> nl == nr && forall k: nat :: k < nl ==> same(k, k)
    ensures r.Walked? ==> Handles(same, r.events, nl, nr)
    ensures r.Walked? ==> PathOf(r.events) == Script(same, nl, nr) && Trims(r.events, r.diff)
    ensures r.Walked? ==> forall other :: Handles(same, other, nl, nr) ==> Unmatched(r.events) <= Unmatched(other)
  {
    var path := BlockPath(same, nl, nr);
    var ok, short, i, j := DropTrailing(same, path, nl, nr);
    if ok {
      MatchesOnlyIffZero(path);
      if nl == nr && forall k: nat :: k < nl ==> same(k, k) {
        Diagonal(same, nl);
      }
      var events, diff := Walk(same, short, nl, nr, i, j);
      HandlesIsScript(same, events, nl, nr);
      forall other | Handles(same, other, nl, nr)
        ensures Unmatched(events) <= Unmatched(other)
      {
        HandlesIsScript(same, other, nl, nr);
        BestIsLeast(same, PathOf(other), nl, nr);
      }
      r := Walked(events, diff);
    } else {
      r := Underflow;
    }
  }

  lemma {:induction false} MatchesOnlyIffZero(path: seq<Change>)
    ensures Cost(path) == 0 <==> forall k: nat :: k < |path| ==> path[k] == Match
    decreases |path|
  {
    if path != [] {
      var init := path[..|path| - 1];
      MatchesOnlyIffZero(init);
      assert forall k: nat :: k < |init| ==> init[k] == path[k];
    }
  }

  lemma {:induction false} Diagonal(same: (nat, nat) -> bool, n: nat)
    requires forall k: nat :: k < n ==> same(k, k)
    ensures Best(same, n, n) == 0
  {
    if n > 0 {
      Diagonal(same, n - 1);
    }
  }

  /** A terminator ends its block and is the same as no other instruction. */
  ghost predicate Terminated(same: (nat, nat) -> bool, nl: nat, nr: nat) {
    && 0 < nl && 0 < nr
    && forall i: nat, j: nat :: i < nl && j < nr && same(i, j) ==> (i == nl - 1 <==> j == nr - 1)
  }

  /** The diff of one pair of blocks: the instructions are compared index by index, and only a
      mismatch starts runBlockDiff. For a fixed relation runBlockDiff therefore never pops from an
      empty path, and whichever way is taken the fewest instructions stay unmatched. */
  method DiffBlocks(same: (nat, nat) -> bool, nl: nat, nr: nat) returns (r: Outcome)
    requires Terminated(same, nl, nr)
    ensures r.Walked?
    ensures Handles(same, r.events, nl, nr)
    ensures if Unmatched(r.events) == 0 then r.diff == [] else PathOf(r.events) == Script(same, nl, nr) && Trims(r.events, r.diff)
    ensures forall other :: Handles(same, other, nl, nr) ==> Unmatched(r.events) <= Unmatched(other)
    ensures Unmatched(r.events) == 0 <==> nl == nr && forall k: nat :: k < nl ==> same(k, k)
  {
    var k := 0;
    while k < nl
      invariant k <= nl && (if k < nl then k < nr else nl == nr)
      invariant forall i: nat :: i < k ==> same(i, i)
    {
      if !same(k, k) {
        r := RunBlockDiff(same, nl, nr);
        UnmatchedNothing(same, r.events, nl, nr);
        return;
      }
      k := k + 1;
    }
    var events := UnifyAll(same, nl);
    r := Walked(events, []);
  }

  /** The second loop of the block diff: every pair is unified for good. */
  method UnifyAll(same: (nat, nat) -> bool, n: nat) returns (events: seq<Event>)
    requires forall k: nat :: k < n ==> same(k, k)
    ensures Handles(same, events, n, n) && Unmatched(events) == 0
  {
    events := [];
    for k := 0 to n
      invariant Handles(same, events, k, k) && Unmatched(events) == 0
    {
      HandlesMore(same, events, k, k, Unify(k, k));
      events := events + [Unify(k, k)];
    }
  }

  /** Nothing stays unmatched only if the blocks match index by index. */
  lemma {:induction false} UnmatchedNothing(same: (nat, nat) -> bool, events: seq<Event>, i: nat, j: nat)
    requires Handles(same, events, i, j)
    ensures Unmatched(events) == 0 ==> i == j && forall k: nat :: k < i ==> same(k, k)
    decreases |events|
  {
    if events != [] && Unmatched(events) == 0 {
      LastHandled(same, events, i, j);
      UnmatchedNothing(same, events[..|events| - 1], i - 1, j - 1);
    }
  }
}
