/**
 The mutable view of an input through a list of offset segments (fuzzer/src/mut_input): `from`
 reads the bytes of the segments, `write_to_input` puts them back.
 */
module OffsetLens {
  import opened TagTrie
  import opened TagInference

  // ------------------------------------------------------------- the bytes a list names, in order

  function Span(b: nat, e: nat): seq<nat>
    decreases e
  {
    if e <= b then [] else Span(b, e - 1) + [e - 1]
  }

  /** The bytes of the first n segments. */
  function FlatTo(segs: seq<TagSeg>, n: nat): seq<nat>
    requires n <= |segs|
  {
    if n == 0 then [] else FlatTo(segs, n - 1) + Span(segs[n - 1].begin, segs[n - 1].end)
  }

  function Flat(segs: seq<TagSeg>): seq<nat> {
    FlatTo(segs, |segs|)
  }

  lemma {:induction false} SpanAt(b: nat, e: nat)
    ensures |Span(b, e)| == if e <= b then 0 else e - b
    ensures forall k :: 0 <= k < |Span(b, e)| ==> Span(b, e)[k] == b + k
    decreases e
  {
    if b < e {
      SpanAt(b, e - 1);
    }
  }

  /** One of the first n segments holds x. */
  ghost predicate CoversTo(segs: seq<TagSeg>, n: nat, x: nat)
    requires n <= |segs|
  {
    exists k: nat :: k < n && segs[k].begin <= x < segs[k].end
  }

  lemma {:induction false} FlatToCovers(segs: seq<TagSeg>, n: nat, x: nat)
    requires n <= |segs|
    ensures x in FlatTo(segs, n) <==> CoversTo(segs, n, x)
  {
    if n > 0 {
      FlatToCovers(segs, n - 1, x);
      InSpan(segs[n - 1].begin, segs[n - 1].end, x);
    }
  }

  lemma FlatCovers(segs: seq<TagSeg>, x: nat)
    ensures x in Flat(segs) <==> Covers(segs, x)
  {
    FlatToCovers(segs, |segs|, x);
  }

  lemma InSpan(b: nat, e: nat, x: nat)
    ensures x in Span(b, e) <==> b <= x < e
  {
    SpanAt(b, e);
    if b <= x < e {
      assert Span(b, e)[x - b] == x;
    }
  }

  // ------------------------------------------------------------- get and put on index lists

  function ByteAt(input: seq<nat>, i: nat): nat {
    if i < |input| then input[i] else 0
  }

  function Get(idx: seq<nat>, input: seq<nat>): (v: seq<nat>)
    ensures |v| == |idx| && forall k :: 0 <= k < |idx| ==> v[k] == ByteAt(input, idx[k])
  {
    if idx == [] then [] else Get(idx[..|idx| - 1], input) + [ByteAt(input, idx[|idx| - 1])]
  }

  ghost predicate InBuf(idx: seq<nat>, n: nat) {
    forall k :: 0 <= k < |idx| ==> idx[k] < n
  }

  function Put(idx: seq<nat>, v: seq<nat>, buf: seq<nat>): (r: seq<nat>)
    requires |v| == |idx| && InBuf(idx, |buf|)
    ensures |r| == |buf|
  {
    if idx == [] then buf
    else Put(idx[..|idx| - 1], v[..|idx| - 1], buf)[idx[|idx| - 1] := v[|idx| - 1]]
  }

  lemma GetAppend(i: seq<nat>, j: seq<nat>, input: seq<nat>)
    ensures Get(i + j, input) == Get(i, input) + Get(j, input)
  {
  }

  lemma {:induction false} PutAppend(i: seq<nat>, v: seq<nat>, j: seq<nat>, w: seq<nat>, buf: seq<nat>)
    requires |v| == |i| && |w| == |j| && InBuf(i, |buf|) && InBuf(j, |buf|)
    ensures InBuf(i + j, |buf|) && Put(i + j, v + w, buf) == Put(j, w, Put(i, v, buf))
  {
    if j == [] {
      assert i + j == i && v + w == v;
    } else {
      var n := |j| - 1;
      assert (i + j)[..|i + j| - 1] == i + j[..n] && (v + w)[..|i + j| - 1] == v + w[..n];
      PutAppend(i, v, j[..n], w[..n], buf);
    }
  }

  /** Bytes outside the list are untouched. */
  lemma {:induction false} PutFrame(idx: seq<nat>, v: seq<nat>, buf: seq<nat>, x: nat)
    requires |v| == |idx| && InBuf(idx, |buf|) && x < |buf| && x !in idx
    ensures Put(idx, v, buf)[x] == buf[x]
  {
    if idx != [] {
      PutFrame(idx[..|idx| - 1], v[..|idx| - 1], buf, x);
    }
  }

  /** The last write to a byte wins. */
  lemma {:induction false} PutAt(idx: seq<nat>, v: seq<nat>, buf: seq<nat>, k: nat)
    requires |v| == |idx| && InBuf(idx, |buf|) && k < |idx| && forall j :: k < j < |idx| ==> idx[j] != idx[k]
    ensures Put(idx, v, buf)[idx[k]] == v[k]
  {
    if k < |idx| - 1 {
      PutAt(idx[..|idx| - 1], v[..|idx| - 1], buf, k);
    }
  }

  ghost predicate NoRepeats(idx: seq<nat>) {
    forall i, j :: 0 <= i < j < |idx| ==> idx[i] != idx[j]
  }

  ghost function LastOf(idx: seq<nat>, x: nat): (k: nat)
    requires x in idx
    ensures k < |idx| && idx[k] == x && forall j :: k < j < |idx| ==> idx[j] != x
  {
    if idx[|idx| - 1] == x then |idx| - 1 else LastOf(idx[..|idx| - 1], x)
  }

  // ------------------------------------------------------------- the laws

  /** Writing back what was read changes nothing. */
  lemma GetPut(idx: seq<nat>, buf: seq<nat>)
    requires InBuf(idx, |buf|)
    ensures Put(idx, Get(idx, buf), buf) == buf
  {
    forall x | 0 <= x < |buf| ensures Put(idx, Get(idx, buf), buf)[x] == buf[x] {
      if x in idx {
        PutAt(idx, Get(idx, buf), buf, LastOf(idx, x));
      } else {
        PutFrame(idx, Get(idx, buf), buf, x);
      }
    }
  }

  /** The last value written is the one that stays. */
  lemma PutPut(idx: seq<nat>, v: seq<nat>, w: seq<nat>, buf: seq<nat>)
    requires |v| == |idx| && |w| == |idx| && InBuf(idx, |buf|)
    ensures Put(idx, w, Put(idx, v, buf)) == Put(idx, w, buf)
  {
    var once := Put(idx, v, buf);
    forall x | 0 <= x < |buf| ensures Put(idx, w, once)[x] == Put(idx, w, buf)[x] {
      if x in idx {
        PutAt(idx, w, once, LastOf(idx, x));
        PutAt(idx, w, buf, LastOf(idx, x));
      } else {
        PutFrame(idx, w, once, x);
        PutFrame(idx, w, buf, x);
        PutFrame(idx, v, buf, x);
      }
    }
  }

  lemma PutGet(idx: seq<nat>, v: seq<nat>, buf: seq<nat>)
    requires |v| == |idx| && InBuf(idx, |buf|) && NoRepeats(idx)
    ensures Get(idx, Put(idx, v, buf)) == v
  {
    forall k | 0 <= k < |idx| ensures Put(idx, v, buf)[idx[k]] == v[k] {
      PutAt(idx, v, buf, k);
    }
  }

  ghost predicate GivesBack(idx: seq<nat>, v: seq<nat>, buf: seq<nat>) {
    |v| == |idx| && InBuf(idx, |buf|) ==> Get(idx, Put(idx, v, buf)) == v
  }

  /** Every value comes back exactly if no byte is named twice. */
  lemma PutGetIff(idx: seq<nat>, buf: seq<nat>)
    requires InBuf(idx, |buf|)
    ensures (forall v: seq<nat> :: GivesBack(idx, v, buf)) <==> NoRepeats(idx)
  {
    if NoRepeats(idx) {
      forall v: seq<nat> ensures GivesBack(idx, v, buf) {
        if |v| == |idx| {
          PutGet(idx, v, buf);
        }
      }
    } else {
      var i, j :| 0 <= i < j < |idx| && idx[i] == idx[j];
      var v := Marked(|idx|, i);
      var k := LastOf(idx, idx[i]);
      PutAt(idx, v, buf, k);
      assert k != i;
      assert Get(idx, Put(idx, v, buf))[i] == v[k] != v[i];
      assert !GivesBack(idx, v, buf);
    }
  }

  /** All zeros but one. */
  function Marked(n: nat, i: nat): (v: seq<nat>)
    ensures |v| == n && forall k :: 0 <= k < n ==> v[k] == if k == i then 1 else 0
  {
    if n == 0 then [] else Marked(n - 1, i) + [if n - 1 == i then 1 else 0]
  }

  // ------------------------------------------------------------- segments

  /** Two segments share a byte. */
  ghost predicate Overlap(s: TagSeg, t: TagSeg) {
    s.begin < s.end && t.begin < t.end && s.begin < t.end && t.begin < s.end
  }

  ghost predicate Apart(segs: seq<TagSeg>) {
    forall i, j :: 0 <= i < j < |segs| ==> !Overlap(segs[i], segs[j])
  }

  lemma FindIsApart(segs: seq<TagSeg>)
    requires Ascending(segs)
    ensures Apart(segs)
  {
    forall i, j | 0 <= i < j < |segs| ensures !Overlap(segs[i], segs[j]) {
      assert segs[i].end <= segs[j].begin;
    }
  }

  lemma SpanNoRepeats(b: nat, e: nat)
    ensures NoRepeats(Span(b, e))
  {
    SpanAt(b, e);
  }

  lemma JoinNoRepeats(p: seq<nat>, q: seq<nat>)
    ensures NoRepeats(p + q) <==> NoRepeats(p) && NoRepeats(q) && forall x :: x in p ==> x !in q
  {
    var r := p + q;
    if NoRepeats(r) {
      forall i, j | 0 <= i < j < |p| ensures p[i] != p[j] {
        assert r[i] != r[j];
      }
      forall i, j | 0 <= i < j < |q| ensures q[i] != q[j] {
        assert r[|p| + i] != r[|p| + j];
      }
      forall x | x in p ensures x !in q {
        var i :| 0 <= i < |p| && p[i] == x;
        forall j | 0 <= j < |q| ensures q[j] != x {
          assert r[i] != r[|p| + j];
        }
      }
    }
    if NoRepeats(p) && NoRepeats(q) && forall x :: x in p ==> x !in q {
      forall i, j | 0 <= i < j < |r| ensures r[i] != r[j] {
        if i < |p| <= j {
          assert p[i] in p && q[j - |p|] in q;
        }
      }
    }
  }

  ghost predicate ApartTo(segs: seq<TagSeg>, n: nat)
    requires n <= |segs|
  {
    forall i, j :: 0 <= i < j < n ==> !Overlap(segs[i], segs[j])
  }

  lemma {:induction false} ApartToIff(segs: seq<TagSeg>, n: nat)
    requires n <= |segs|
    ensures NoRepeats(FlatTo(segs, n)) <==> ApartTo(segs, n)
  {
    if n > 0 {
      var s := segs[n - 1];
      ApartToIff(segs, n - 1);
      SpanNoRepeats(s.begin, s.end);
      JoinNoRepeats(FlatTo(segs, n - 1), Span(s.begin, s.end));
      SharedIff(segs, n - 1, s);
    }
  }

  lemma SharedIff(segs: seq<TagSeg>, n: nat, s: TagSeg)
    requires n <= |segs|
    ensures (forall x :: x in FlatTo(segs, n) ==> x !in Span(s.begin, s.end)) <==> forall i :: 0 <= i < n ==> !Overlap(segs[i], s)
  {
    if i :| 0 <= i < n && Overlap(segs[i], s) {
      var x := if segs[i].begin < s.begin then s.begin else segs[i].begin;
      assert CoversTo(segs, n, x);
      FlatToCovers(segs, n, x);
      InSpan(s.begin, s.end, x);
    }
    if x :| x in FlatTo(segs, n) && x in Span(s.begin, s.end) {
      FlatToCovers(segs, n, x);
      InSpan(s.begin, s.end, x);
      var k: nat :| k < n && segs[k].begin <= x < segs[k].end;
      assert Overlap(segs[k], s);
    }
  }

  /** A list names no byte twice exactly if its segments do not overlap. */
  lemma ApartIff(segs: seq<TagSeg>)
    ensures NoRepeats(Flat(segs)) <==> Apart(segs)
  {
    ApartToIff(segs, |segs|);
  }
}
