/**
 MutInput (fuzzer/src/mut_input/mut_input.rs) and set_bytes_by_offsets (rw.rs) as a lens on the
 input: the value holds the bytes of the segments one after another.
 */
module MutInputs {
  import opened TagTrie
  import opened TagInference
  import opened OffsetLens

  datatype InputMeta = InputMeta(sign: bool, offset: nat, size: nat)

  datatype Written = Buffer(buf: seq<nat>) | Panic

  /** What the source can slice: an end before its begin panics. */
  ghost predicate Ordered(segs: seq<TagSeg>) {
    forall i :: 0 <= i < |segs| ==> segs[i].begin <= segs[i].end
  }

  function Zeros(n: nat): (z: seq<nat>)
    ensures |z| == n && forall k :: 0 <= k < n ==> z[k] == 0
  {
    if n == 0 then [] else Zeros(n - 1) + [0]
  }

  // ------------------------------------------------------------- reading

  /** The three ways `from` builds the bytes of one segment. */
  method CutOut(input: seq<nat>, b: nat, e: nat) returns (v: seq<nat>)
    requires b < e
    ensures v == Get(Span(b, e), input) && |v| == e - b
  {
    var len := |input|;
    if e <= len {
      v := input[b..e];
    } else if b >= len {
      v := Zeros(e - b);
    } else {
      v := input[b..len] + Zeros(e - len);
    }
    SpanReads(v, input, b, e);
  }

  lemma SpanReads(v: seq<nat>, input: seq<nat>, b: nat, e: nat)
    requires b <= e && |v| == e - b && forall k: nat :: k < |v| ==> v[k] == ByteAt(input, b + k)
    ensures v == Get(Span(b, e), input)
  {
    SpanAt(b, e);
  }

  predicate WordSize(len: nat) {
    len == 1 || len == 2 || len == 4 || len == 8
  }

  function Repeat(m: InputMeta, n: nat): (r: seq<InputMeta>)
    ensures |r| == n && forall k :: 0 <= k < n ==> r[k] == m
  {
    if n == 0 then [] else Repeat(m, n - 1) + [m]
  }

  /** The entries of one segment whose bytes start at position at of the value. */
  function MetaOf(sign: bool, at: nat, len: nat): seq<InputMeta> {
    if WordSize(len) then [InputMeta(sign, at, len)] else Repeat(InputMeta(sign, at, 1), len)
  }

  ghost function MetasTo(segs: seq<TagSeg>, n: nat): seq<InputMeta>
    requires n <= |segs|
  {
    if n == 0 then []
    else if segs[n - 1].begin < segs[n - 1].end then
      MetasTo(segs, n - 1) + MetaOf(segs[n - 1].sign, |FlatTo(segs, n - 1)|, segs[n - 1].end - segs[n - 1].begin)
    else MetasTo(segs, n - 1)
  }

  ghost function Metas(segs: seq<TagSeg>): seq<InputMeta> {
    MetasTo(segs, |segs|)
  }

  class MutInput {
    var value: seq<nat>
    var meta: seq<InputMeta>

    constructor ()
      ensures value == [] && meta == []
    {
      value, meta := [], [];
    }

    method Push(ele: seq<nat>, sign: bool)
      modifies this
      ensures value == old(value) + ele
      ensures meta == old(meta) + MetaOf(sign, old(|value|), |ele|)
    {
      if |ele| != 1 && |ele| != 2 && |ele| != 4 && |ele| != 8 {
        var i: nat := 0;
        while i < |ele|
          invariant i <= |ele| && value == old(value)
          invariant meta == old(meta) + Repeat(InputMeta(sign, |value|, 1), i)
        {
          meta := meta + [InputMeta(sign, |value|, 1)];
          i := i + 1;
        }
      } else {
        meta := meta + [InputMeta(sign, |value|, |ele|)];
      }
      value := value + ele;
    }

    /** Writes the value into the input, extended with zeros up to the end of the last segment. */
    method WriteToInput(offsets: seq<TagSeg>, input: seq<nat>) returns (r: Written)
      requires Ordered(offsets)
      ensures r.Panic? <==> |value| < |Flat(offsets)| || !InBuf(Flat(offsets), |Extended(offsets, input)|)
      ensures r.Buffer? ==> r.buf == Put(Flat(offsets), value[..|Flat(offsets)|], Extended(offsets, input))
    {
      var buf := input;
      if |offsets| > 0 {
        var extLen := offsets[|offsets| - 1].end;
        if extLen > |buf| {
          buf := buf + Zeros(extLen - |buf|);
        }
      }
      r := SetBytes(offsets, value, buf);
    }
  }

  ghost function Extended(offsets: seq<TagSeg>, input: seq<nat>): seq<nat> {
    if offsets != [] && offsets[|offsets| - 1].end > |input|
    then input + Zeros(offsets[|offsets| - 1].end - |input|) else input
  }

  lemma FromStep(offsets: seq<TagSeg>, i: nat, input: seq<nat>)
    requires Ordered(offsets) && i < |offsets|
    ensures var b, e := offsets[i].begin, offsets[i].end;
      |Span(b, e)| == e - b
      && Get(FlatTo(offsets, i + 1), input) == Get(FlatTo(offsets, i), input) + Get(Span(b, e), input)
  {
    GetAppend(FlatTo(offsets, i), Span(offsets[i].begin, offsets[i].end), input);
    SpanAt(offsets[i].begin, offsets[i].end);
  }

  method From(offsets: seq<TagSeg>, input: seq<nat>) returns (m: MutInput)
    requires Ordered(offsets)
    ensures fresh(m) && m.value == Get(Flat(offsets), input) && m.meta == Metas(offsets)
  {
    m := new MutInput();
    var i: nat := 0;
    while i < |offsets|
      invariant i <= |offsets| && fresh(m)
      invariant m.value == Get(FlatTo(offsets, i), input) && m.meta == MetasTo(offsets, i)
    {
      var off := offsets[i];
      FromStep(offsets, i, input);
      if off.begin != off.end {
        var ele := CutOut(input, off.begin, off.end);
        m.Push(ele, off.sign);
      }
      i := i + 1;
    }
  }

  // ------------------------------------------------------------- writing

  /** A slice overwritten. */
  function Splice(buf: seq<nat>, b: nat, e: nat, v: seq<nat>): (r: seq<nat>)
    requires b <= e <= |buf| && |v| == e - b
    ensures |r| == |buf|
    ensures forall x :: 0 <= x < |buf| ==> r[x] == if b <= x < e then v[x - b] else buf[x]
  {
    buf[..b] + v + buf[e..]
  }

  lemma {:induction false} PutSpan(b: nat, e: nat, v: seq<nat>, buf: seq<nat>)
    requires b <= e <= |buf| && |v| == e - b
    ensures InBuf(Span(b, e), |buf|) && |Span(b, e)| == e - b
    ensures Put(Span(b, e), v, buf) == Splice(buf, b, e, v)
    decreases e
  {
    SpanAt(b, e);
    if b < e {
      var n := e - b - 1;
      PutSpan(b, e - 1, v[..n], buf);
      assert Span(b, e)[..n] == Span(b, e - 1);
    }
  }

  method SetBytes(offsets: seq<TagSeg>, bytes: seq<nat>, input: seq<nat>) returns (r: Written)
    requires Ordered(offsets)
    ensures r.Panic? <==> |bytes| < |Flat(offsets)| || !InBuf(Flat(offsets), |input|)
    ensures r.Buffer? ==> r.buf == Put(Flat(offsets), bytes[..|Flat(offsets)|], input)
  {
    var buf := input;
    var c0: nat, c1: nat := 0, 0;
    var i: nat := 0;
    while i < |offsets|
      invariant i <= |offsets| && c1 <= |bytes|
      invariant DoneSo(offsets, i, bytes, c1, input, buf)
    {
      var off := offsets[i];
      SpanAt(off.begin, off.end);
      if off.begin < off.end {
        c0 := c1;
        c1 := c0 + (off.end - off.begin);
        if off.end > |buf| || c1 > |bytes| {
          Stuck(offsets, i, |input|, |bytes|);
          return Panic;
        }
        SetStep(offsets, i, bytes, c0, c1, input, buf);
        buf := Splice(buf, off.begin, off.end, bytes[c0..c1]);
      } else {
        assert FlatTo(offsets, i + 1) == FlatTo(offsets, i);
      }
      i := i + 1;
    }
    r := Buffer(buf);
  }

  /** The bytes of the first n segments are in place. */
  ghost predicate DoneSo(segs: seq<TagSeg>, n: nat, bytes: seq<nat>, c: nat, input: seq<nat>, buf: seq<nat>)
    requires n <= |segs|
  {
    && c == |FlatTo(segs, n)| <= |bytes| && InBuf(FlatTo(segs, n), |input|)
    && buf == Put(FlatTo(segs, n), bytes[..c], input)
  }

  lemma SetStep(offsets: seq<TagSeg>, i: nat, bytes: seq<nat>, c0: nat, c1: nat, input: seq<nat>, buf: seq<nat>)
    requires i < |offsets| && offsets[i].begin < offsets[i].end <= |buf|
    requires DoneSo(offsets, i, bytes, c0, input, buf) && c1 == c0 + (offsets[i].end - offsets[i].begin) <= |bytes|
    ensures DoneSo(offsets, i + 1, bytes, c1, input, Splice(buf, offsets[i].begin, offsets[i].end, bytes[c0..c1]))
  {
    var b, e := offsets[i].begin, offsets[i].end;
    PutSpan(b, e, bytes[c0..c1], buf);
    PutAppend(FlatTo(offsets, i), bytes[..c0], Span(b, e), bytes[c0..c1], input);
    assert bytes[..c0] + bytes[c0..c1] == bytes[..c1];
  }

  /** A segment that does not fit keeps the whole list from fitting. */
  lemma Stuck(offsets: seq<TagSeg>, i: nat, n: nat, len: nat)
    requires i < |offsets| && offsets[i].begin < offsets[i].end
    requires offsets[i].end > n || |FlatTo(offsets, i)| + (offsets[i].end - offsets[i].begin) > len
    ensures len < |Flat(offsets)| || !InBuf(Flat(offsets), n)
  {
    SpanAt(offsets[i].begin, offsets[i].end);
    FlatPrefix(offsets, i + 1, |offsets|);
    var p := FlatTo(offsets, i + 1);
    var last := |p| - 1;
    assert p[last] == offsets[i].end - 1 && Flat(offsets)[last] == p[last];
  }

  lemma {:induction false} FlatPrefix(offsets: seq<TagSeg>, i: nat, n: nat)
    requires i <= n <= |offsets|
    ensures FlatTo(offsets, i) <= FlatTo(offsets, n)
    decreases n
  {
    if i < n {
      FlatPrefix(offsets, i, n - 1);
    }
  }

  // ------------------------------------------------------------- the lens laws

  /** For segments in find's shape writing never runs out of the buffer. */
  lemma {:induction false} AscendingFits(offsets: seq<TagSeg>, input: seq<nat>)
    requires Ascending(offsets)
    ensures InBuf(Flat(offsets), |Extended(offsets, input)|)
  {
    forall k | 0 <= k < |Flat(offsets)| ensures Flat(offsets)[k] < |Extended(offsets, input)| {
      FlatCovers(offsets, Flat(offsets)[k]);
      var j: nat :| j < |offsets| && offsets[j].begin <= Flat(offsets)[k] < offsets[j].end;
      assert j < |offsets| - 1 ==> offsets[j].end <= offsets[|offsets| - 1].begin;
    }
  }

  /** Reading does not see the extension. */
  lemma ExtendedReads(offsets: seq<TagSeg>, input: seq<nat>, idx: seq<nat>)
    ensures Get(idx, Extended(offsets, input)) == Get(idx, input)
  {
  }

  /** from, then write_to_input: the input, extended with zeros. Overlaps do no harm here. */
  lemma ReadThenWrite(offsets: seq<TagSeg>, input: seq<nat>)
    requires InBuf(Flat(offsets), |Extended(offsets, input)|)
    ensures Put(Flat(offsets), Get(Flat(offsets), input), Extended(offsets, input)) == Extended(offsets, input)
  {
    ExtendedReads(offsets, input, Flat(offsets));
    GetPut(Flat(offsets), Extended(offsets, input));
  }

  /** write_to_input, then from, gives every value back exactly if no two segments overlap. */
  lemma WriteThenReadIff(offsets: seq<TagSeg>, input: seq<nat>)
    requires InBuf(Flat(offsets), |Extended(offsets, input)|)
    ensures (forall v: seq<nat> :: GivesBack(Flat(offsets), v, Extended(offsets, input))) <==> Apart(offsets)
  {
    PutGetIff(Flat(offsets), Extended(offsets, input));
    ApartIff(offsets);
  }

  /** What find returns makes a lawful lens; bytes outside the segments stay. */
  method Mutate(offsets: seq<TagSeg>, input: seq<nat>, value: seq<nat>) returns (buf: seq<nat>, back: seq<nat>)
    requires Ascending(offsets) && |value| == |Flat(offsets)|
    ensures back == value
    ensures |buf| == |Extended(offsets, input)|
    ensures forall x :: 0 <= x < |buf| && !Covers(offsets, x) ==> buf[x] == ByteAt(input, x)
  {
    AscendingFits(offsets, input);
    FindIsApart(offsets);
    ApartIff(offsets);
    var m := From(offsets, input);
    m.value := value;
    var w := m.WriteToInput(offsets, input);
    assert value[..|Flat(offsets)|] == value;
    buf := w.buf;
    forall x | 0 <= x < |buf| && !Covers(offsets, x) ensures buf[x] == ByteAt(input, x) {
      FlatCovers(offsets, x);
      PutFrame(Flat(offsets), value, Extended(offsets, input), x);
    }
    PutGet(Flat(offsets), value, Extended(offsets, input));
    var again := From(offsets, buf);
    back := again.value;
  }

  // ------------------------------------------------------------- the entries

  ghost function Sizes(meta: seq<InputMeta>): nat {
    if meta == [] then 0 else meta[0].size + Sizes(meta[1..])
  }

  /** The entries lie one after another and fill the positions from..to. */
  ghost predicate Tiles(meta: seq<InputMeta>, from: nat, to: nat) {
    if meta == [] then from == to
    else meta[0].offset == from && Tiles(meta[1..], from + meta[0].size, to)
  }

  lemma {:induction false} TilesAppend(a: seq<InputMeta>, b: seq<InputMeta>, from: nat, to: nat)
    ensures Sizes(a + b) == Sizes(a) + Sizes(b)
    ensures Tiles(a + b, from, to) <==> Tiles(a, from, from + Sizes(a)) && Tiles(b, from + Sizes(a), to)
  {
    if a == [] {
      assert a + b == b;
    } else {
      assert (a + b)[1..] == a[1..] + b;
      TilesAppend(a[1..], b, from + a[0].size, to);
    }
  }

  lemma {:induction false} RepeatSizes(m: InputMeta, n: nat)
    requires m.size == 1
    ensures Sizes(Repeat(m, n)) == n
  {
    if n > 0 {
      RepeatSizes(m, n - 1);
      TilesAppend(Repeat(m, n - 1), [m], 0, 0);
      assert [m][1..] == [];
    }
  }

  /** An entry of a segment of the given sign and length whose bytes start at position at. */
  ghost predicate IsEntry(m: InputMeta, sign: bool, at: nat, len: nat) {
    m.sign == sign && m.offset == at && m.size == if len in {1, 2, 4, 8} then len else 1
  }

  /** The entries of one segment tile its bytes exactly if its length is 1, 2, 4 or 8: otherwise
      every entry points at the first byte. */
  lemma EntryTiles(sign: bool, at: nat, len: nat)
    requires len > 0
    ensures Sizes(MetaOf(sign, at, len)) == len
    ensures Tiles(MetaOf(sign, at, len), at, at + len) <==> len in {1, 2, 4, 8}
    ensures |MetaOf(sign, at, len)| == if len in {1, 2, 4, 8} then 1 else len
    ensures forall k: nat :: k < |MetaOf(sign, at, len)| ==> IsEntry(MetaOf(sign, at, len)[k], sign, at, len)
  {
    var m := MetaOf(sign, at, len);
    if WordSize(len) {
      assert m[1..] == [];
    } else {
      RepeatSizes(InputMeta(sign, at, 1), len);
      assert m[1..][0] == m[1] == InputMeta(sign, at, 1);
    }
  }

  /** Every entry of a list has the sign of a segment and points at that segment's first byte. */
  lemma {:induction false} EntryOf(segs: seq<TagSeg>, n: nat, k: nat) returns (i: nat)
    requires n <= |segs| && k < |MetasTo(segs, n)|
    ensures i < n && segs[i].begin < segs[i].end
    ensures IsEntry(MetasTo(segs, n)[k], segs[i].sign, |FlatTo(segs, i)|, segs[i].end - segs[i].begin)
  {
    var init, s := MetasTo(segs, n - 1), segs[n - 1];
    if k < |init| {
      i := EntryOf(segs, n - 1, k);
      assert MetasTo(segs, n)[k] == init[k];
    } else {
      i := n - 1;
      var at, len := |FlatTo(segs, i)|, s.end - s.begin;
      EntryTiles(s.sign, at, len);
      assert MetasTo(segs, n)[k] == MetaOf(s.sign, at, len)[k - |init|];
    }
  }

  ghost predicate IsWord(s: TagSeg) {
    s.begin < s.end ==> s.end - s.begin in {1, 2, 4, 8}
  }

  ghost predicate WordLengthsTo(segs: seq<TagSeg>, n: nat)
    requires n <= |segs|
  {
    forall i :: 0 <= i < n ==> IsWord(segs[i])
  }

  lemma {:induction false} MetasTile(segs: seq<TagSeg>, n: nat)
    requires Ordered(segs) && n <= |segs|
    ensures Sizes(MetasTo(segs, n)) == |FlatTo(segs, n)|
    ensures Tiles(MetasTo(segs, n), 0, |FlatTo(segs, n)|) <==> WordLengthsTo(segs, n)
  {
    if n > 0 {
      var s := segs[n - 1];
      var m, flat := MetasTo(segs, n - 1), |FlatTo(segs, n - 1)|;
      MetasTile(segs, n - 1);
      SpanAt(s.begin, s.end);
      assert WordLengthsTo(segs, n) <==> WordLengthsTo(segs, n - 1) && IsWord(s);
      if s.begin < s.end {
        assert |FlatTo(segs, n)| == flat + (s.end - s.begin);
        TileStep(m, s.sign, flat, s.end - s.begin);
      }
    }
  }

  /** So the entries of a list address each byte of the value once, in order, exactly if all its
      segments have one of these lengths. */
  lemma MetasTileIff(segs: seq<TagSeg>)
    requires Ordered(segs)
    ensures Tiles(Metas(segs), 0, |Flat(segs)|) <==> WordLengthsTo(segs, |segs|)
  {
    MetasTile(segs, |segs|);
  }

  lemma TileStep(meta: seq<InputMeta>, sign: bool, n: nat, len: nat)
    requires Sizes(meta) == n && len > 0
    ensures var more := meta + MetaOf(sign, n, len);
      && Sizes(more) == n + len
      && (Tiles(more, 0, n + len) <==> Tiles(meta, 0, n) && WordSize(len))
  {
    EntryTiles(sign, n, len);
    TilesAppend(meta, MetaOf(sign, n, len), 0, n + len);
  }
}
