/**
 merge_offsets (fuzzer/src/mut_input/offsets.rs) and the search states of a conditional statement
 (fuzzer/src/cond_stmt/cond_state.rs), which decide the bytes to mutate next.
 */
module CondStates {
  import opened TagTrie
  import opened TagInference
  import opened OffsetLens

  // ------------------------------------------------------------- merging two lists

  /** Some segment of v starts where a starts and reaches at least as far. */
  ghost predicate Stands(v: seq<TagSeg>, a: TagSeg) {
    exists k :: 0 <= k < |v| && v[k].begin == a.begin && v[k].end >= a.end
  }

  ghost predicate StandsTo(v: seq<TagSeg>, u: seq<TagSeg>, n: nat)
    requires n <= |u|
  {
    forall i :: 0 <= i < n ==> Stands(v, u[i])
  }

  ghost predicate Drawn(v: seq<TagSeg>, v1: seq<TagSeg>, v2: seq<TagSeg>) {
    forall k :: 0 <= k < |v| ==> v[k] in v1 || v[k] in v2
  }

  ghost predicate Increasing(v: seq<TagSeg>) {
    forall i, j :: 0 <= i < j < |v| ==> v[i].begin < v[j].begin
  }

  /** A segment comes from the second list only if the first has none that begins there and reaches
      as far. */
  ghost predicate FirstPreferred(v: seq<TagSeg>, v1: seq<TagSeg>) {
    forall k :: 0 <= k < |v| ==> v[k] in v1 || Longer(v[k], v1)
  }

  ghost predicate Longer(s: TagSeg, u: seq<TagSeg>) {
    forall i :: 0 <= i < |u| && u[i].begin == s.begin ==> u[i].end < s.end
  }

  /** What a merged list is made of. */
  ghost predicate Merged(v: seq<TagSeg>, v1: seq<TagSeg>, v2: seq<TagSeg>) {
    && Drawn(v, v1, v2) && StandsTo(v, v1, |v1|) && StandsTo(v, v2, |v2|)
    && (Increasing(v1) && Increasing(v2) ==> Increasing(v) && FirstPreferred(v, v1))
  }

  lemma StandsSnoc(v: seq<TagSeg>, s: TagSeg, u: seq<TagSeg>, n: nat)
    requires n <= |u| && StandsTo(v, u, n)
    ensures StandsTo(v + [s], u, n)
    ensures n < |u| && s.begin == u[n].begin && s.end >= u[n].end ==> StandsTo(v + [s], u, n + 1)
  {
    var w := v + [s];
    forall i | 0 <= i < n ensures Stands(w, u[i]) {
      assert Stands(v, u[i]);
      var k :| 0 <= k < |v| && v[k].begin == u[i].begin && v[k].end >= u[i].end;
      assert w[k] == v[k];
    }
    if n < |u| && s.begin == u[n].begin && s.end >= u[n].end {
      assert w[|v|] == s;
      assert Stands(w, u[n]);
    }
  }

  /** The last segment of v starts before the i-th of u. */
  ghost predicate Below(v: seq<TagSeg>, u: seq<TagSeg>, i: nat) {
    forall k :: 0 <= k < |v| && i < |u| ==> v[k].begin < u[i].begin
  }

  lemma BelowSnoc(v: seq<TagSeg>, s: TagSeg, u: seq<TagSeg>, i: nat, j: nat)
    requires Below(v, u, i) && i <= j && Increasing(u) && (j < |u| ==> s.begin < u[j].begin)
    ensures Below(v + [s], u, j)
  {
    var w := v + [s];
    forall k | 0 <= k < |w| && j < |u| ensures w[k].begin < u[j].begin {
      if k < |v| {
        assert w[k] == v[k];
        assert i < j ==> u[i].begin < u[j].begin;
      }
    }
  }

  /** The loop invariant: v is the merge of the first i and the first j segments. */
  ghost predicate Merging(v: seq<TagSeg>, v1: seq<TagSeg>, i: nat, v2: seq<TagSeg>, j: nat)
    requires i <= |v1| && j <= |v2|
  {
    && Drawn(v, v1, v2) && StandsTo(v, v1, i) && StandsTo(v, v2, j)
    && (Increasing(v1) && Increasing(v2) ==>
          Increasing(v) && Below(v, v1, i) && Below(v, v2, j) && FirstPreferred(v, v1))
  }

  /** s is the i-th segment of u, or one that starts with it and reaches further; or it comes before. */
  ghost predicate Advances(s: TagSeg, u: seq<TagSeg>, i: nat, i': nat) {
    && i <= i' <= |u| && i' <= i + 1
    && (i' == i + 1 ==> s.begin == u[i].begin && s.end >= u[i].end)
    && (i' == i < |u| ==> s.begin < u[i].begin)
  }

  lemma MergeStep(v: seq<TagSeg>, s: TagSeg, v1: seq<TagSeg>, i: nat, i': nat, v2: seq<TagSeg>, j: nat, j': nat)
    requires i <= |v1| && j <= |v2| && Merging(v, v1, i, v2, j)
    requires Advances(s, v1, i, i') && Advances(s, v2, j, j') && (i' > i || j' > j) && (s in v1 || s in v2)
    requires s in v1 || (i < |v1| && v1[i].begin == s.begin ==> v1[i].end < s.end)
    ensures Merging(v + [s], v1, i', v2, j')
  {
    StandsSnoc(v, s, v1, i);
    StandsSnoc(v, s, v2, j);
    if Increasing(v1) && Increasing(v2) {
      IncreasingSnoc(v, s, v1, i, i', v2, j, j');
      AdvanceBelow(v, s, v1, i, i');
      AdvanceBelow(v, s, v2, j, j');
      if s !in v1 {
        NoneAsLong(v, s, v1, i, i');
      }
      forall k | 0 <= k < |v + [s]| ensures (v + [s])[k] in v1 || Longer((v + [s])[k], v1) {
        assert k < |v| ==> (v + [s])[k] == v[k];
      }
    }
  }

  lemma NoneAsLong(v: seq<TagSeg>, s: TagSeg, v1: seq<TagSeg>, i: nat, i': nat)
    requires i <= |v1| && StandsTo(v, v1, i) && Increasing(v + [s]) && Increasing(v1) && Advances(s, v1, i, i')
    requires i < |v1| && v1[i].begin == s.begin ==> v1[i].end < s.end
    ensures Longer(s, v1)
  {
    var w := v + [s];
    forall m | 0 <= m < i ensures v1[m].begin < s.begin {
      assert Stands(v, v1[m]);
      var k :| 0 <= k < |v| && v[k].begin == v1[m].begin && v[k].end >= v1[m].end;
      assert w[k].begin < w[|v|].begin;
    }
    forall m | i < m < |v1| ensures s.begin < v1[m].begin {
      assert v1[i].begin < v1[m].begin;
    }
  }

  lemma AdvanceBelow(v: seq<TagSeg>, s: TagSeg, u: seq<TagSeg>, i: nat, i': nat)
    requires Below(v, u, i) && Advances(s, u, i, i') && Increasing(u)
    ensures Below(v + [s], u, i')
  {
    assert i < i' < |u| ==> u[i].begin < u[i'].begin;
    BelowSnoc(v, s, u, i, i');
  }

  lemma IncreasingSnoc(v: seq<TagSeg>, s: TagSeg, v1: seq<TagSeg>, i: nat, i': nat, v2: seq<TagSeg>, j: nat, j': nat)
    requires Increasing(v) && Below(v, v1, i) && Below(v, v2, j)
    requires Advances(s, v1, i, i') && Advances(s, v2, j, j') && (i' > i || j' > j)
    ensures Increasing(v + [s])
  {
    forall k | 0 <= k < |v| ensures v[k].begin < s.begin {
      if i' > i {
        assert v[k].begin < v1[i].begin;
      } else {
        assert v[k].begin < v2[j].begin;
      }
    }
  }

  method MergeOffsets(v1: seq<TagSeg>, v2: seq<TagSeg>) returns (v: seq<TagSeg>)
    ensures Merged(v, v1, v2)
  {
    if |v1| == 0 {
      MergedWithNothing(v1, v2);
      return v2;
    }
    if |v2| == 0 {
      MergedWithNothing(v2, v1);
      return v1;
    }
    v := [];
    var i: nat, j: nat := 0, 0;
    while i < |v1| || j < |v2|
      invariant i <= |v1| && j <= |v2| && Merging(v, v1, i, v2, j)
      decreases |v1| - i + |v2| - j
    {
      var s, di, dj := Next(v1, i, v2, j);
      MergeStep(v, s, v1, i, i + di, v2, j, j + dj);
      v := v + [s];
      i, j := i + di, j + dj;
    }
    MergingDone(v, v1, v2);
  }

  /** The segment one iteration of the three loops pushes, and how far the two iterators move. */
  method Next(v1: seq<TagSeg>, i: nat, v2: seq<TagSeg>, j: nat) returns (s: TagSeg, di: nat, dj: nat)
    requires i <= |v1| && j <= |v2| && (i < |v1| || j < |v2|)
    ensures Advances(s, v1, i, i + di) && Advances(s, v2, j, j + dj) && di + dj > 0
    ensures s in v1 || s in v2
    ensures s in v1 || (i < |v1| && v1[i].begin == s.begin ==> v1[i].end < s.end)
  {
    if i < |v1| && j < |v2| {
      if v1[i].begin == v2[j].begin {
        return if v1[i].end >= v2[j].end then v1[i] else v2[j], 1, 1;
      } else if v1[i].begin < v2[j].begin {
        return v1[i], 1, 0;
      } else {
        return v2[j], 0, 1;
      }
    } else if i < |v1| {
      return v1[i], 1, 0;
    } else {
      return v2[j], 0, 1;
    }
  }

  lemma MergedWithNothing(none: seq<TagSeg>, u: seq<TagSeg>)
    requires none == []
    ensures Merged(u, none, u) && Merged(u, u, none)
  {
    assert forall k :: 0 <= k < |u| ==> Longer(u[k], none);
    forall i | 0 <= i < |u| ensures Stands(u, u[i]) {
    }
  }

  lemma MergingDone(v: seq<TagSeg>, v1: seq<TagSeg>, v2: seq<TagSeg>)
    requires Merging(v, v1, |v1|, v2, |v2|)
    ensures Merged(v, v1, v2)
  {
  }

  /** A merged list covers exactly the union. */
  lemma MergedCovers(v: seq<TagSeg>, v1: seq<TagSeg>, v2: seq<TagSeg>, x: nat)
    requires Merged(v, v1, v2)
    ensures Covers(v, x) <==> Covers(v1, x) || Covers(v2, x)
  {
    if Covers(v, x) {
      var k: nat :| k < |v| && v[k].begin <= x < v[k].end;
      if v[k] in v1 {
        var i :| 0 <= i < |v1| && v1[i] == v[k];
      } else {
        var i :| 0 <= i < |v2| && v2[i] == v[k];
      }
    }
    if Covers(v1, x) {
      StandsCovers(v, v1, x);
    }
    if Covers(v2, x) {
      StandsCovers(v, v2, x);
    }
  }

  lemma StandsCovers(v: seq<TagSeg>, u: seq<TagSeg>, x: nat)
    requires StandsTo(v, u, |u|) && Covers(u, x)
    ensures Covers(v, x)
  {
    var i: nat :| i < |u| && u[i].begin <= x < u[i].end;
    assert Stands(v, u[i]);
    var k :| 0 <= k < |v| && v[k].begin == u[i].begin && v[k].end >= u[i].end;
    var n: nat := k;
    assert v[n].begin <= x < v[n].end;
  }

  /** Segments of the two lists overlap only where they start together. */
  ghost predicate Compatible(v1: seq<TagSeg>, v2: seq<TagSeg>) {
    forall i, j :: 0 <= i < |v1| && 0 <= j < |v2| && Overlap(v1[i], v2[j]) ==> v1[i].begin == v2[j].begin
  }

  /** Merging two lists of find's shape gives a list without overlaps, and so a lawful lens,
      exactly if they are compatible. */
  lemma MergedApartIff(v: seq<TagSeg>, v1: seq<TagSeg>, v2: seq<TagSeg>)
    requires Merged(v, v1, v2) && Ascending(v1) && Ascending(v2)
    ensures Apart(v) <==> Compatible(v1, v2)
  {
    FindIsApart(v1);
    FindIsApart(v2);
    assert Increasing(v) by {
      AscendingIncreases(v1);
      AscendingIncreases(v2);
    }
    if Compatible(v1, v2) {
      forall p, q | 0 <= p < q < |v| ensures !Overlap(v[p], v[q]) {
        CompatiblePair(v1, v2, v[p], v[q]);
      }
    }
    if Apart(v) {
      forall i, j | 0 <= i < |v1| && 0 <= j < |v2| && Overlap(v1[i], v2[j]) ensures v1[i].begin == v2[j].begin {
        assert Stands(v, v1[i]) && Stands(v, v2[j]);
        var p :| 0 <= p < |v| && v[p].begin == v1[i].begin && v[p].end >= v1[i].end;
        var q :| 0 <= q < |v| && v[q].begin == v2[j].begin && v[q].end >= v2[j].end;
        assert Overlap(v[p], v[q]) && Overlap(v[q], v[p]);
        assert p == q;
      }
    }
  }

  lemma AscendingIncreases(u: seq<TagSeg>)
    requires Ascending(u)
    ensures Increasing(u)
  {
    forall i, j | 0 <= i < j < |u| ensures u[i].begin < u[j].begin {
      assert u[i].begin < u[i].end <= u[j].begin;
    }
  }

  lemma CompatiblePair(v1: seq<TagSeg>, v2: seq<TagSeg>, s: TagSeg, t: TagSeg)
    requires Apart(v1) && Apart(v2) && Compatible(v1, v2) && s.begin < t.begin
    requires (s in v1 || s in v2) && (t in v1 || t in v2)
    ensures !Overlap(s, t)
  {
    if s in v1 && t in v1 {
      SamePair(v1, s, t);
    } else if s in v2 && t in v2 {
      SamePair(v2, s, t);
    } else if s in v1 {
      var i :| 0 <= i < |v1| && v1[i] == s;
      var j :| 0 <= j < |v2| && v2[j] == t;
      var shared := Overlap(v1[i], v2[j]);
    } else {
      var i :| 0 <= i < |v1| && v1[i] == t;
      var j :| 0 <= j < |v2| && v2[j] == s;
      var shared := Overlap(v1[i], v2[j]);
    }
  }

  lemma SamePair(u: seq<TagSeg>, s: TagSeg, t: TagSeg)
    requires Apart(u) && s in u && t in u && s.begin < t.begin
    ensures !Overlap(s, t)
  {
    var i :| 0 <= i < |u| && u[i] == s;
    var j :| 0 <= j < |u| && u[j] == t;
    if i < j {
      assert !Overlap(u[i], u[j]);
    } else {
      assert !Overlap(u[j], u[i]);
    }
  }

  /** Two lists of find's shape that do not merge into a lens. */
  lemma IncompatibleLists() returns (v1: seq<TagSeg>, v2: seq<TagSeg>)
    ensures Ascending(v1) && Ascending(v2) && !Compatible(v1, v2)
  {
    v1, v2 := [TagSeg(false, 0, 4)], [TagSeg(false, 2, 6)];
    assert Overlap(v1[0], v2[0]);
  }

  // ------------------------------------------------------------- the states of a conditional

  datatype CondState = Offset | OffsetOpt | OffsetAll | OffsetAllEnd | OneByte | Unsolvable | Deterministic | Timeout

  /** How many more calls of next_state can change the state. */
  function Rank(s: CondState): nat {
    match s
    case Offset => 4
    case OneByte => 4
    case OffsetOpt => 3
    case OffsetAll => 2
    case Deterministic => 1
    case _ => 0
  }

  /** The order of the search: first the active offsets, then the optional ones, then both merged,
      then the deterministic stage; without optional offsets straight to the last, and a
      one-byte conditional without them is given up. */
  ghost predicate Follows(s: CondState, someOpt: bool, s': CondState) {
    match s
    case Offset => s' == if someOpt then OffsetOpt else Deterministic
    case OneByte => s' == if someOpt then OffsetOpt else Unsolvable
    case OffsetOpt => s' == OffsetAll
    case OffsetAll => s' == Deterministic
    case Deterministic => s' == OffsetAllEnd
    case _ => s' == s
  }

  datatype Action = Next | GiveUp | TimeOut

  class CondStmt {
    var state: CondState
    var offsets: seq<TagSeg>
    var offsetsOpt: seq<TagSeg>

    ghost predicate Involved(x: nat)
      reads this
    {
      Covers(offsets, x) || Covers(offsetsOpt, x)
    }

    /** The active offsets cover every byte the conditional depends on. */
    ghost predicate AllActive()
      reads this
    {
      forall x: nat :: Involved(x) ==> Covers(offsets, x)
    }

    ghost predicate Valid()
      reads this
    {
      state == OffsetAll || state == Deterministic || state == OffsetAllEnd ==> AllActive()
    }

    constructor (offsets: seq<TagSeg>, offsetsOpt: seq<TagSeg>, oneByte: bool)
      ensures Valid() && this.offsets == offsets && this.offsetsOpt == offsetsOpt
      ensures state == if oneByte then OneByte else Offset
    {
      this.offsets, this.offsetsOpt := offsets, offsetsOpt;
      state := if oneByte then OneByte else Offset;
    }

    method NextState()
      requires Valid()
      modifies this
      ensures Valid()
      ensures forall x: nat :: Involved(x) == old(Involved(x))
      ensures if old(Rank(state)) == 0 then unchanged(this) else Rank(state) < old(Rank(state))
      ensures Follows(old(state), |old(offsetsOpt)| > 0, state)
      ensures state == OffsetOpt ==> offsets == old(offsetsOpt) && offsetsOpt == old(offsets)
      ensures state == OffsetAll ==> Merged(offsets, old(offsets), old(offsetsOpt)) && offsetsOpt == old(offsetsOpt)
      ensures state != OffsetOpt && state != OffsetAll ==> offsets == old(offsets) && offsetsOpt == old(offsetsOpt)
    {
      match state {
        case Offset =>
          if |offsetsOpt| > 0 {
            ToOffsetsOpt();
          } else {
            state := Deterministic;
          }
        case OneByte =>
          if |offsetsOpt| > 0 {
            ToOffsetsOpt();
          } else {
            state := Unsolvable;
          }
        case OffsetOpt => ToOffsetsAll();
        case OffsetAll => state := Deterministic;
        case Deterministic => state := OffsetAllEnd;
        case _ =>
      }
    }

    method ToOffsetsOpt()
      modifies this
      ensures state == OffsetOpt && offsets == old(offsetsOpt) && offsetsOpt == old(offsets)
    {
      state := OffsetOpt;
      offsets, offsetsOpt := offsetsOpt, offsets;
    }

    method ToOffsetsAll()
      modifies this
      ensures state == OffsetAll && offsetsOpt == old(offsetsOpt) && Merged(offsets, old(offsets), offsetsOpt)
      ensures AllActive() && forall x: nat :: Involved(x) == old(Involved(x))
    {
      state := OffsetAll;
      ghost var before := offsets;
      offsets := MergeOffsets(offsets, offsetsOpt);
      forall x: nat ensures Covers(offsets, x) <==> Covers(before, x) || Covers(offsetsOpt, x) {
        MergedCovers(offsets, before, offsetsOpt, x);
      }
    }

    /** In every run the bytes involved stay the same, and the deterministic search starts only
        when all of them are active. */
    method Run(actions: seq<Action>)
      requires Valid()
      modifies this
      ensures Valid() && forall x: nat :: Involved(x) == old(Involved(x))
      ensures state == Deterministic ==> AllActive()
    {
      var i: nat := 0;
      while i < |actions|
        invariant i <= |actions| && Valid() && forall x: nat :: Involved(x) == old(Involved(x))
      {
        match actions[i] {
          case Next => NextState();
          case GiveUp => state := Unsolvable;
          case TimeOut => state := Timeout;
        }
        i := i + 1;
      }
    }

    /** A whole search without interruption, from a conditional with optional offsets: each stage
        has its own active offsets, so every byte is active in one of the first two stages, and all
        of them are from the third on. */
    method Stages() returns (first: seq<TagSeg>, second: seq<TagSeg>, third: seq<TagSeg>)
      requires Valid() && (state == Offset || state == OneByte) && offsetsOpt != []
      modifies this
      ensures first == old(offsets) && second == old(offsetsOpt) && Merged(third, second, first)
      ensures offsets == third && offsetsOpt == first && state == OffsetAllEnd
      ensures forall x: nat :: Covers(third, x) <==> old(Involved(x))
    {
      first := offsets;
      NextState();
      second := offsets;
      NextState();
      third := offsets;
      forall x: nat ensures Covers(third, x) <==> old(Involved(x)) {
        MergedCovers(third, second, first, x);
      }
      NextState();
      NextState();
    }
  }
}
