/**
 One bucket of AddrHashMap (sanitizer_addrhashmap.h) as a state machine.  Every atomic
 load of the lock-free phase, every lock operation and every store of `release` is a
 step of its own; what happens between Lock and Unlock without touching an address is
 one step.  A run is any interleaving of steps of any number of threads.
 */
module AddrHashMap {
  import opened Common

  const BUCKET_SIZE: nat := 3
  const INIT_BYTES: nat := 64
  const HEADER: nat := 16

  datatype Option<T> = None | Some(value: T)

  /** addr 0 marks an empty cell. */
  datatype Cell = Cell(addr: nat, val: int)

  datatype Bucket = Bucket(
    writer: Option<nat>, readers: set<nat>,     // mtx
    embed: seq<Cell>,                           // cells
    slots: seq<Cell>, size: nat)                // add, [] while not allocated

  datatype Place = Embed(i: nat) | Add(i: nat)

  /** How acquire left the bucket's mutex. */
  datatype Mode = LockFree | Shared | Creating | Removing

  datatype Pc =
    | Idle
    | Probe(i: nat)                  // lock-free, about to load embedded cell i
    | ProbeAdd                       // about to load the add pointer
    | WaitRead
    | ReadScan(i: nat)               // read-locked, about to load add cell i
    | ReadMiss                       // read-locked, not found
    | WaitWrite
    | Search                         // write-locked
    | Held(at: Place, mode: Mode)    // acquire returned a cell
    | Missing                        // acquire returned without one
    | Cleared(at: Place)             // release: address removed from its cell
    | Shrunk(i: nat)                 // release: last add cell cut off, not yet copied to embed[i]
    | Copied                         // release: copied, the cut-off cell not yet cleared
    | UnlockWrite
    | UnlockRead
    | Crashed(mode: Mode)            // a CHECK of acquire or release failed

  datatype Thread = Thread(pc: Pc, addr: nat, remove: bool, create: bool)

  datatype State = State(b: Bucket, threads: seq<Thread>)

  /** What a step needs from outside: the next handle, or the value a creator stores. */
  datatype Input = NoInput | Acquire(addr: nat, remove: bool, create: bool) | Store(val: int)

  // ------------------------------------------------------------- the add array

  function InitCap(cellSize: nat): nat
    requires 0 < cellSize <= INIT_BYTES - HEADER
  {
    (INIT_BYTES - (HEADER + cellSize)) / cellSize + 1
  }

  function GrownCap(cellSize: nat, cap: nat): nat
    requires 0 < cellSize && 0 < cap
  {
    var oldBytes := HEADER + cellSize + (cap - 1) * cellSize;
    (2 * oldBytes - (HEADER + cellSize)) / cellSize + 1
  }

  lemma GrownCapDoubles(cellSize: nat, cap: nat)
    requires 0 < cellSize && 0 < cap
    ensures GrownCap(cellSize, cap) >= 2 * cap
  {
    var x := 2 * (HEADER + cellSize + (cap - 1) * cellSize) - (HEADER + cellSize);
    assert x == (2 * cap - 1) * cellSize + HEADER;
    QuotientAtLeast(x, cellSize, 2 * cap - 1);
  }

  /** The first array holds as many cells as its 64 bytes have room for. */
  lemma InitCapFits(cellSize: nat)
    requires 0 < cellSize <= INIT_BYTES - HEADER
    ensures var n := InitCap(cellSize); HEADER + n * cellSize <= INIT_BYTES < HEADER + (n + 1) * cellSize
  {
    Quotient(INIT_BYTES - (HEADER + cellSize), cellSize);
  }

  /** A grown array holds as many cells as twice the bytes of the old one have room for. */
  lemma GrownCapFits(cellSize: nat, cap: nat)
    requires 0 < cellSize && 0 < cap
    ensures var n, bytes := GrownCap(cellSize, cap), 2 * (HEADER + cap * cellSize);
      HEADER + n * cellSize <= bytes < HEADER + (n + 1) * cellSize
  {
    var oldBytes := HEADER + cellSize + (cap - 1) * cellSize;
    assert oldBytes == HEADER + cap * cellSize;
    GrownCapDoubles(cellSize, cap);
    Quotient(2 * oldBytes - (HEADER + cellSize), cellSize);
  }

  lemma Quotient(x: nat, d: nat)
    requires 0 < d
    ensures (x / d + 1) * d == x / d * d + d && x / d * d <= x < x / d * d + d && (x / d + 2) * d == x / d * d + 2 * d
  {
  }

  lemma QuotientAtLeast(x: nat, d: nat, q: nat)
    requires 0 < d && q * d <= x
    ensures q <= x / d
  {
    if x / d + 1 <= q {
      MulMono(x / d + 1, q, d);
      assert false;
    }
  }

  function Zeros(n: nat): (s: seq<Cell>)
    ensures |s| == n && forall k: nat :: k < n ==> s[k] == Cell(0, 0)
  {
    seq(n, _ => Cell(0, 0))
  }

  /** Makes room for one more add cell: allocates the array, or doubles it. */
  function WithRoom(cellSize: nat, b: Bucket): (r: Bucket)
    requires 0 < cellSize <= INIT_BYTES - HEADER && b.size <= |b.slots|
    ensures b.size < |r.slots| && r == b.(slots := r.slots) && b.slots <= r.slots
    ensures forall k: nat :: |b.slots| <= k < |r.slots| ==> r.slots[k].addr == 0
  {
    if b.slots == [] then
      b.(slots := Zeros(InitCap(cellSize)))
    else if b.size == |b.slots| then
      GrownCapDoubles(cellSize, |b.slots|);
      b.(slots := b.slots + Zeros(GrownCap(cellSize, |b.slots|) - |b.slots|))
    else
      b
  }

  // ------------------------------------------------------------- searching

  /** The first index below n whose cell has the address, or n. */
  function IndexOf(cells: seq<Cell>, n: nat, addr: nat): (i: nat)
    requires n <= |cells|
    ensures i <= n && (i < n ==> cells[i].addr == addr)
    ensures forall k: nat :: k < i ==> cells[k].addr != addr
  {
    if n == 0 then 0
    else
      var i := IndexOf(cells, n - 1, addr);
      if i < n - 1 || cells[n - 1].addr == addr then i else n
  }

  function At(b: Bucket, p: Place): Cell
    requires InBucket(b, p)
  {
    match p
    case Embed(i) => b.embed[i]
    case Add(i) => b.slots[i]
  }

  predicate InBucket(b: Bucket, p: Place) {
    match p
    case Embed(i) => i < |b.embed|
    case Add(i) => i < |b.slots|
  }

  function Put(b: Bucket, p: Place, c: Cell): Bucket
    requires InBucket(b, p)
  {
    match p
    case Embed(i) => b.(embed := b.embed[i := c])
    case Add(i) => b.(slots := b.slots[i := c])
  }

  // ------------------------------------------------------------- steps

  /** The locked part of acquire: search, and on a miss reserve a cell. */
  function Locked(cellSize: nat, b: Bucket, th: Thread): (Bucket, Pc)
    requires 0 < cellSize <= INIT_BYTES - HEADER
    requires |b.embed| == BUCKET_SIZE && b.size <= |b.slots|
  {
    var i := IndexOf(b.embed, BUCKET_SIZE, th.addr);
    var k := IndexOf(b.slots, b.size, th.addr);
    if i < BUCKET_SIZE then
      if th.remove then (b, Held(Embed(i), Removing)) else (b.(writer := None), Probe(0))
    else if k < b.size then
      if th.remove then (b, Held(Add(k), Removing)) else (b.(writer := None), Probe(0))
    else if th.remove || !th.create then
      (b.(writer := None), Missing)
    else
      var free := IndexOf(b.embed, BUCKET_SIZE, 0);
      if free < BUCKET_SIZE then
        (b, Held(Embed(free), Creating))
      else
        var b' := WithRoom(cellSize, b);
        (b'.(size := b.size + 1), if b'.slots[b.size].addr == 0 then Held(Add(b.size), Creating) else Crashed(Creating))
  }

  /** The first store of release, or the unlock of a reader. */
  function Release(b: Bucket, th: Thread, at: Place, mode: Mode): (Bucket, Pc)
    requires InBucket(b, at)
  {
    if At(b, at).addr != (if mode.Creating? then 0 else th.addr) then (b, Crashed(mode)) else
    match mode
    case LockFree => (b, Idle)
    case Shared => (b, UnlockRead)
    case Creating => (Put(b, at, At(b, at).(addr := th.addr)), UnlockWrite)
    case Removing => (Put(b, at, At(b, at).(addr := 0)), Cleared(at))
  }

  /** Compaction after a removal: cut the last add cell off and reuse it. */
  function Compact(b: Bucket, at: Place): (Bucket, Pc)
    requires InBucket(b, at) && b.size <= |b.slots|
  {
    match at
    case Embed(i) =>
      if b.size == 0 then (b, UnlockWrite)
      else (b.(size := b.size - 1, embed := b.embed[i := Cell(b.embed[i].addr, b.slots[b.size - 1].val)]), Shrunk(i))
    case Add(i) =>
      if b.size == 0 then (b, UnlockWrite)    // a removed add cell makes size at least 1
      else
        var last := b.size - 1;
        var b' := b.(size := last);
        if i == last then (b', UnlockWrite)
        else (b'.(slots := b.slots[i := b.slots[last]][last := b.slots[last].(addr := 0)]), UnlockWrite)
  }

  predicate Shaped(cellSize: nat, b: Bucket) {
    0 < cellSize <= INIT_BYTES - HEADER && |b.embed| == BUCKET_SIZE && b.size <= |b.slots|
  }

  function Go(th: Thread, b: Bucket, pc: Pc): Option<(Bucket, Thread)> {
    Some((b, th.(pc := pc)))
  }

  /** Where a thread goes next, and the bucket it leaves; None while it must wait. */
  function Advance(cellSize: nat, b: Bucket, t: nat, th: Thread, inp: Input): Option<(Bucket, Thread)>
    requires Shaped(cellSize, b)
  {
    match th.pc
    case Idle =>
      if inp.Acquire? && inp.addr != 0 then
        Some((b, Thread(if inp.remove then WaitWrite else Probe(0), inp.addr, inp.remove, inp.create)))
      else None
    case Probe(i) =>
      if i >= BUCKET_SIZE then Go(th, b, ProbeAdd)
      else if b.embed[i].addr == th.addr then Go(th, b, Held(Embed(i), LockFree))
      else Go(th, b, Probe(i + 1))
    case ProbeAdd => Go(th, b, if b.slots == [] then WaitWrite else WaitRead)
    case WaitRead =>
      if b.writer == None then Go(th, b.(readers := b.readers + {t}), ReadScan(0)) else None
    case ReadScan(i) =>
      if i >= b.size then Go(th, b, ReadMiss)
      else if b.slots[i].addr == th.addr then Go(th, b, Held(Add(i), Shared))
      else Go(th, b, ReadScan(i + 1))
    case ReadMiss => Go(th, b.(readers := b.readers - {t}), WaitWrite)
    case WaitWrite =>
      if b.writer == None && b.readers == {} then Go(th, b.(writer := Some(t)), Search) else None
    case Search =>
      var (b', pc') := Locked(cellSize, b, th);
      Go(th, b', pc')
    case Held(at, mode) =>
      if !InBucket(b, at) then None
      else if mode == Creating && inp.Store? then Go(th, Put(b, at, At(b, at).(val := inp.val)), th.pc)
      else
        var (b', pc') := Release(b, th, at, mode);
        Go(th, b', pc')
    case Missing => Go(th, b, Idle)
    case Cleared(at) =>
      if InBucket(b, at) then
        var (b', pc') := Compact(b, at);
        Go(th, b', pc')
      else None
    case Shrunk(i) =>
      if i < BUCKET_SIZE && b.size < |b.slots| then
        Go(th, b.(embed := b.embed[i := Cell(b.slots[b.size].addr, b.embed[i].val)]), Copied)
      else None
    case Copied =>
      if b.size < |b.slots| then Go(th, b.(slots := b.slots[b.size := b.slots[b.size].(addr := 0)]), UnlockWrite) else None
    case UnlockWrite => Go(th, b.(writer := None), Idle)
    case UnlockRead => Go(th, b.(readers := b.readers - {t}), Idle)
    case Crashed(_) => None
  }

  function Step(cellSize: nat, s: State, t: nat, inp: Input): Option<State>
    requires Shaped(cellSize, s.b)
  {
    if t >= |s.threads| then None
    else
      match Advance(cellSize, s.b, t, s.threads[t], inp)
      case None => None
      case Some((b, th)) => Some(State(b, s.threads[t := th]))
  }

  // ------------------------------------------------------------- invariant

  predicate HoldsWrite(pc: Pc) {
    pc.Search? || (pc.Held? && (pc.mode.Creating? || pc.mode.Removing?))
    || pc.Cleared? || pc.Shrunk? || pc.Copied? || pc.UnlockWrite?
  }

  predicate HoldsRead(pc: Pc) {
    pc.ReadScan? || pc.ReadMiss? || (pc.Held? && pc.mode.Shared?) || pc.UnlockRead?
  }

  /** The mutex is in exactly the mode the threads' positions say it is. */
  ghost predicate LockInv(s: State) {
    && (s.b.writer.Some? ==> s.b.readers == {} && s.b.writer.value < |s.threads|)
    && (forall r: nat :: r in s.b.readers ==> r < |s.threads|)
    && (forall t: nat {:trigger s.threads[t]} :: t < |s.threads| ==>
          && (s.b.writer == Some(t) <==> HoldsWrite(s.threads[t].pc))
          && (t in s.b.readers <==> HoldsRead(s.threads[t].pc)))
  }

  ghost predicate Live(b: Bucket, p: Place) {
    match p
    case Embed(i) => i < |b.embed|
    case Add(i) => i < b.size <= |b.slots|
  }

  /** No nonzero address in two live cells. */
  ghost predicate Distinct(b: Bucket) {
    forall p: Place, q: Place {:trigger Live(b, p), Live(b, q)} ::
      Live(b, p) && Live(b, q) && p != q && At(b, p).addr == At(b, q).addr ==> At(b, p).addr == 0
  }

  ghost predicate Absent(b: Bucket, addr: nat) {
    forall p: Place {:trigger Live(b, p)} :: Live(b, p) ==> At(b, p).addr != addr
  }

  /** What the writer at position pc with a handle for addr has made of the bucket. */
  ghost predicate WriterInv(b: Bucket, pc: Pc, addr: nat) {
    match pc
    case Held(at, Creating) => Live(b, at) && At(b, at).addr == 0 && Absent(b, addr)
    case Held(at, Removing) => Live(b, at) && At(b, at).addr == addr
    case Cleared(at) => Live(b, at) && At(b, at).addr == 0
    case Shrunk(i) =>
      && i < |b.embed| && b.embed[i].addr == 0 && b.size < |b.slots|
      && b.slots[b.size].addr != 0 && Absent(b, b.slots[b.size].addr)
      && b.embed[i].val == b.slots[b.size].val
    case Copied => b.size < |b.slots|
    case _ => true
  }

  /** Add cells in use are not empty, and there are none while an embedded cell is free,
      except for the one cell the writer is working on. */
  ghost predicate Packed(b: Bucket, pc: Pc) {
    && b.size <= |b.slots|
    && (forall k: nat {:trigger b.slots[k]} :: k < b.size && b.slots[k].addr == 0 ==>
          pc == Held(Add(k), Creating) || pc == Cleared(Add(k)))
    && (forall k: nat {:trigger b.slots[k]} :: b.size <= k < |b.slots| && b.slots[k].addr != 0 ==>
          k == b.size && (pc.Shrunk? || pc.Copied?))
    && (forall i: nat {:trigger b.embed[i]} :: i < |b.embed| && b.embed[i].addr == 0 && b.size > 0 ==>
          pc == Cleared(Embed(i)) || pc == Shrunk(i))
  }

  ghost predicate BucketInv(cellSize: nat, b: Bucket, pc: Pc, addr: nat) {
    Shaped(cellSize, b) && Distinct(b) && WriterInv(b, pc, addr) && Packed(b, pc)
  }

  ghost predicate ThreadInv(b: Bucket, th: Thread) {
    && (th.pc != Idle ==> th.addr != 0)
    && (th.pc.Held? && th.pc.mode.LockFree? ==> th.pc.at.Embed? && th.pc.at.i < |b.embed|)
    && (th.pc.Held? && th.pc.mode.Shared? ==> th.pc.at.Add? && Live(b, th.pc.at) && At(b, th.pc.at).addr == th.addr)
    && (th.pc.Held? && th.pc.mode.Removing? ==> th.remove)
    && (th.pc.Held? && !th.pc.mode.Removing? ==> !th.remove)
    && (th.pc.Probe? || th.pc.ProbeAdd? || th.pc.WaitRead? || th.pc.ReadScan? || th.pc.ReadMiss? ==> !th.remove)
    && (th.pc.Crashed? ==> th.pc.mode.LockFree?)
  }

  function WriterPc(s: State): Pc {
    if s.b.writer.Some? && s.b.writer.value < |s.threads| then s.threads[s.b.writer.value].pc else Idle
  }

  function WriterAddr(s: State): nat {
    if s.b.writer.Some? && s.b.writer.value < |s.threads| then s.threads[s.b.writer.value].addr else 0
  }

  ghost predicate Inv(cellSize: nat, s: State) {
    && LockInv(s)
    && BucketInv(cellSize, s.b, WriterPc(s), WriterAddr(s))
    && (forall t: nat {:trigger s.threads[t]} :: t < |s.threads| ==> ThreadInv(s.b, s.threads[t]))
  }

  // ------------------------------------------------------------- the writer's steps

  /** Cells that are still live kept their content, apart from one that is now empty. */
  lemma DistinctSub(b: Bucket, b': Bucket, hole: Place)
    requires Distinct(b)
    requires forall p: Place {:trigger Live(b', p)} :: Live(b', p) ==>
      (p == hole && At(b', p).addr == 0) || (Live(b, p) && At(b', p).addr == At(b, p).addr)
    ensures Distinct(b')
  {
    forall p: Place, q: Place | Live(b', p) && Live(b', q) && p != q && At(b', p).addr == At(b', q).addr
      ensures At(b', p).addr == 0
    {
      if p != hole && q != hole {
        assert Live(b, p) && Live(b, q);
      }
    }
  }

  lemma LockedInv(cellSize: nat, b: Bucket, th: Thread)
    requires BucketInv(cellSize, b, Search, th.addr) && th.addr != 0
    ensures var (b', pc') := Locked(cellSize, b, th);
      && BucketInv(cellSize, b', pc', th.addr)
      && (b'.writer == b.writer <==> HoldsWrite(pc') || b.writer == None)
      && (b'.writer == b.writer || (b'.writer == None && b' == b.(writer := None)))
      && b'.readers == b.readers && !HoldsRead(pc')
  {
    var (b', pc') := Locked(cellSize, b, th);
    var i := IndexOf(b.embed, BUCKET_SIZE, th.addr);
    var k := IndexOf(b.slots, b.size, th.addr);
    if i == BUCKET_SIZE && k == b.size {
      assert Absent(b, th.addr);
    }
    DistinctSub(b, b', Add(b.size));
  }

  lemma StoreInv(cellSize: nat, b: Bucket, at: Place, addr: nat, v: int)
    requires BucketInv(cellSize, b, Held(at, Creating), addr)
    ensures BucketInv(cellSize, Put(b, at, At(b, at).(val := v)), Held(at, Creating), addr)
  {
    var b' := Put(b, at, At(b, at).(val := v));
    DistinctSub(b, b', at);
    forall p: Place | Live(b', p)
      ensures At(b', p).addr != addr
    {
      assert Live(b, p);
    }
  }

  lemma PublishInv(cellSize: nat, b: Bucket, at: Place, addr: nat)
    requires BucketInv(cellSize, b, Held(at, Creating), addr) && addr != 0
    ensures BucketInv(cellSize, Put(b, at, At(b, at).(addr := addr)), UnlockWrite, addr)
  {
    var b' := Put(b, at, At(b, at).(addr := addr));
    forall p: Place, q: Place | Live(b', p) && Live(b', q) && p != q && At(b', p).addr == At(b', q).addr
      ensures At(b', p).addr == 0
    {
      assert Live(b, p) && Live(b, q);
    }
  }

  lemma ClearInv(cellSize: nat, b: Bucket, at: Place, addr: nat)
    requires BucketInv(cellSize, b, Held(at, Removing), addr)
    ensures BucketInv(cellSize, Put(b, at, At(b, at).(addr := 0)), Cleared(at), addr)
  {
    DistinctSub(b, Put(b, at, At(b, at).(addr := 0)), at);
  }

  lemma CompactInv(cellSize: nat, b: Bucket, at: Place, addr: nat)
    requires BucketInv(cellSize, b, Cleared(at), addr)
    ensures var (b', pc') := Compact(b, at);
      BucketInv(cellSize, b', pc', addr) && b' == b.(embed := b'.embed, slots := b'.slots, size := b'.size)
      && (pc'.Shrunk? || pc' == UnlockWrite)
  {
    match at
    case Embed(i) => CompactEmbedInv(cellSize, b, i, addr);
    case Add(i) => CompactAddInv(cellSize, b, i, addr);
  }

  lemma CompactEmbedInv(cellSize: nat, b: Bucket, i: nat, addr: nat)
    requires BucketInv(cellSize, b, Cleared(Embed(i)), addr)
    ensures var (b', pc') := Compact(b, Embed(i));
      BucketInv(cellSize, b', pc', addr) && b' == b.(embed := b'.embed, slots := b'.slots, size := b'.size)
      && (pc'.Shrunk? || pc' == UnlockWrite)
  {
    var (b', pc') := Compact(b, Embed(i));
    if b.size > 0 {
      var moved := b.slots[b.size - 1].addr;
      assert Live(b, Add(b.size - 1));
      forall p: Place | Live(b', p)
        ensures At(b', p).addr != moved
      {
        assert Live(b, p);
      }
    }
    DistinctSub(b, b', Embed(i));
  }

  lemma CompactAddInv(cellSize: nat, b: Bucket, i: nat, addr: nat)
    requires BucketInv(cellSize, b, Cleared(Add(i)), addr)
    ensures var (b', pc') := Compact(b, Add(i));
      BucketInv(cellSize, b', pc', addr) && b' == b.(embed := b'.embed, slots := b'.slots, size := b'.size)
      && pc' == UnlockWrite
  {
    var (b', pc') := Compact(b, Add(i));
    assert Live(b, Add(b.size - 1));
    forall p: Place, q: Place | Live(b', p) && Live(b', q) && p != q && At(b', p).addr == At(b', q).addr
      ensures At(b', p).addr == 0
    {
      assert Live(b, p) && Live(b, q);
    }
  }

  lemma CopyInv(cellSize: nat, b: Bucket, i: nat, addr: nat)
    requires BucketInv(cellSize, b, Shrunk(i), addr)
    ensures BucketInv(cellSize, b.(embed := b.embed[i := Cell(b.slots[b.size].addr, b.embed[i].val)]), Copied, addr)
  {
    var b' := b.(embed := b.embed[i := Cell(b.slots[b.size].addr, b.embed[i].val)]);
    forall p: Place, q: Place | Live(b', p) && Live(b', q) && p != q && At(b', p).addr == At(b', q).addr
      ensures At(b', p).addr == 0
    {
      assert Live(b, p) && Live(b, q);
    }
  }

  lemma CutInv(cellSize: nat, b: Bucket, addr: nat)
    requires BucketInv(cellSize, b, Copied, addr)
    ensures BucketInv(cellSize, b.(slots := b.slots[b.size := b.slots[b.size].(addr := 0)]), UnlockWrite, addr)
  {
    DistinctSub(b, b.(slots := b.slots[b.size := b.slots[b.size].(addr := 0)]), Add(b.size));
  }

  /** Nothing in the bucket's content depends on who holds the mutex. */
  lemma RelockInv(cellSize: nat, b: Bucket, pc: Pc, addr: nat, b': Bucket, pc': Pc, addr': nat)
    requires BucketInv(cellSize, b, pc, addr) && b' == b.(writer := b'.writer, readers := b'.readers)
    requires pc.Idle? || pc.UnlockWrite? || pc.Search? || (pc == pc' && addr == addr')
    requires pc'.Idle? || pc'.Search? || (pc == pc' && addr == addr')
    ensures BucketInv(cellSize, b', pc', addr')
  {
    DistinctSub(b, b', Add(b.size));
    assert forall p: Place :: Live(b', p) <==> Live(b, p);
  }

  // ------------------------------------------------------------- every step keeps the invariant

  /** What a step of the thread that holds the write lock leaves behind. */
  ghost predicate WriterLeaves(cellSize: nat, b: Bucket, b': Bucket, th': Thread) {
    && b'.readers == b.readers && !HoldsRead(th'.pc) && |b'.embed| == |b.embed|
    && (if HoldsWrite(th'.pc) then b'.writer == b.writer && BucketInv(cellSize, b', th'.pc, th'.addr)
        else b'.writer == None && BucketInv(cellSize, b', Idle, 0))
    && ThreadInv(b', th')
  }

  lemma SearchStep(cellSize: nat, b: Bucket, t: nat, th: Thread, inp: Input)
    requires BucketInv(cellSize, b, Search, th.addr) && th.pc == Search && b.writer == Some(t) && th.addr != 0
    ensures var (b', th') := Advance(cellSize, b, t, th, inp).value; WriterLeaves(cellSize, b, b', th')
  {
    var (b', pc') := Locked(cellSize, b, th);
    LockedInv(cellSize, b, th);
    if !HoldsWrite(pc') {
      RelockInv(cellSize, b, Search, th.addr, b', Idle, 0);
    }
  }

  lemma HeldStep(cellSize: nat, b: Bucket, t: nat, th: Thread, inp: Input, at: Place, mode: Mode)
    requires BucketInv(cellSize, b, th.pc, th.addr) && b.writer == Some(t) && th.addr != 0
    requires th.pc == Held(at, mode) && (mode.Creating? || mode.Removing?) && ThreadInv(b, th)
    ensures Advance(cellSize, b, t, th, inp).Some?
    ensures var (b', th') := Advance(cellSize, b, t, th, inp).value; WriterLeaves(cellSize, b, b', th')
  {
    if mode.Creating? {
      StoreInv(cellSize, b, at, th.addr, if inp.Store? then inp.val else 0);
      PublishInv(cellSize, b, at, th.addr);
    } else {
      ClearInv(cellSize, b, at, th.addr);
    }
  }

  lemma ReleaseStep(cellSize: nat, b: Bucket, t: nat, th: Thread, inp: Input)
    requires BucketInv(cellSize, b, th.pc, th.addr) && b.writer == Some(t) && th.addr != 0
    requires th.pc.Cleared? || th.pc.Shrunk? || th.pc.Copied? || th.pc.UnlockWrite?
    requires Advance(cellSize, b, t, th, inp).Some?
    ensures var (b', th') := Advance(cellSize, b, t, th, inp).value; WriterLeaves(cellSize, b, b', th')
  {
    match th.pc
    case Cleared(at) => CompactInv(cellSize, b, at, th.addr);
    case Shrunk(i) => CopyInv(cellSize, b, i, th.addr);
    case Copied => CutInv(cellSize, b, th.addr);
    case UnlockWrite => RelockInv(cellSize, b, UnlockWrite, th.addr, b.(writer := None), Idle, 0);
  }

  lemma WriterStep(cellSize: nat, b: Bucket, t: nat, th: Thread, inp: Input)
    requires BucketInv(cellSize, b, th.pc, th.addr) && HoldsWrite(th.pc) && b.writer == Some(t) && th.addr != 0
    requires ThreadInv(b, th)
    requires Advance(cellSize, b, t, th, inp).Some?
    ensures var (b', th') := Advance(cellSize, b, t, th, inp).value; WriterLeaves(cellSize, b, b', th')
  {
    match th.pc
    case Search => SearchStep(cellSize, b, t, th, inp);
    case Held(at, mode) => HeldStep(cellSize, b, t, th, inp, at, mode);
    case _ => ReleaseStep(cellSize, b, t, th, inp);
  }

  /** What a step of any other thread leaves behind: it touches nothing but the mutex. */
  ghost predicate OtherLeaves(b: Bucket, t: nat, th: Thread, b': Bucket, th': Thread) {
    && b' == b.(writer := b'.writer, readers := b'.readers)
    && ThreadInv(b', th')
    && (if th'.pc.Search? then
          b.writer == None && b.readers == {} && b'.writer == Some(t) && b'.readers == {}
        else
          && !HoldsWrite(th'.pc) && b'.writer == b.writer
          && (forall r: nat :: r != t ==> (r in b'.readers <==> r in b.readers))
          && (t in b'.readers <==> HoldsRead(th'.pc))
          && (HoldsRead(th'.pc) && !HoldsRead(th.pc) ==> b.writer == None)
          && (b.readers == {} && !HoldsRead(th'.pc) ==> b'.readers == {}))
  }

  lemma OtherStep(cellSize: nat, b: Bucket, t: nat, th: Thread, inp: Input)
    requires Shaped(cellSize, b) && !HoldsWrite(th.pc) && ThreadInv(b, th)
    requires t in b.readers <==> HoldsRead(th.pc)
    requires Advance(cellSize, b, t, th, inp).Some?
    ensures var (b', th') := Advance(cellSize, b, t, th, inp).value; OtherLeaves(b, t, th, b', th')
  {
    if th.pc.Held? {
      OtherRelease(cellSize, b, t, th, inp);
    } else if HoldsRead(th.pc) {
      ReaderStep(cellSize, b, t, th, inp);
    } else {
      ProbeStep(cellSize, b, t, th, inp);
    }
  }

  lemma OtherRelease(cellSize: nat, b: Bucket, t: nat, th: Thread, inp: Input)
    requires Shaped(cellSize, b) && th.pc.Held? && !HoldsWrite(th.pc) && ThreadInv(b, th)
    requires t in b.readers <==> HoldsRead(th.pc)
    requires Advance(cellSize, b, t, th, inp).Some?
    ensures var (b', th') := Advance(cellSize, b, t, th, inp).value; OtherLeaves(b, t, th, b', th')
  {
  }

  lemma ReaderStep(cellSize: nat, b: Bucket, t: nat, th: Thread, inp: Input)
    requires Shaped(cellSize, b) && !th.pc.Held? && HoldsRead(th.pc) && ThreadInv(b, th) && t in b.readers
    requires Advance(cellSize, b, t, th, inp).Some?
    ensures var (b', th') := Advance(cellSize, b, t, th, inp).value; OtherLeaves(b, t, th, b', th')
  {
  }

  lemma ProbeStep(cellSize: nat, b: Bucket, t: nat, th: Thread, inp: Input)
    requires Shaped(cellSize, b) && !th.pc.Held? && !HoldsRead(th.pc) && !HoldsWrite(th.pc) && ThreadInv(b, th) && t !in b.readers
    requires Advance(cellSize, b, t, th, inp).Some?
    ensures var (b', th') := Advance(cellSize, b, t, th, inp).value; OtherLeaves(b, t, th, b', th')
  {
  }

  lemma StepLock(cellSize: nat, s: State, t: nat, inp: Input)
    requires Inv(cellSize, s) && Step(cellSize, s, t, inp).Some?
    ensures LockInv(Step(cellSize, s, t, inp).value)
  {
    var th := s.threads[t];
    if HoldsWrite(th.pc) {
      WriterStep(cellSize, s.b, t, th, inp);
    } else {
      OtherStep(cellSize, s.b, t, th, inp);
    }
  }

  lemma StepBucket(cellSize: nat, s: State, t: nat, inp: Input)
    requires Inv(cellSize, s) && Step(cellSize, s, t, inp).Some?
    requires LockInv(Step(cellSize, s, t, inp).value)
    ensures var s' := Step(cellSize, s, t, inp).value; BucketInv(cellSize, s'.b, WriterPc(s'), WriterAddr(s'))
  {
    var s' := Step(cellSize, s, t, inp).value;
    var th := s.threads[t];
    if HoldsWrite(th.pc) {
      WriterStep(cellSize, s.b, t, th, inp);
    } else {
      OtherStep(cellSize, s.b, t, th, inp);
      RelockInv(cellSize, s.b, WriterPc(s), WriterAddr(s), s'.b, WriterPc(s'), WriterAddr(s'));
    }
  }

  lemma StepThreads(cellSize: nat, s: State, t: nat, inp: Input, k: nat)
    requires Inv(cellSize, s) && Step(cellSize, s, t, inp).Some? && k < |s.threads|
    ensures var s' := Step(cellSize, s, t, inp).value; ThreadInv(s'.b, s'.threads[k])
  {
    var th := s.threads[t];
    if HoldsWrite(th.pc) {
      WriterStep(cellSize, s.b, t, th, inp);
    } else {
      OtherStep(cellSize, s.b, t, th, inp);
    }
    assert ThreadInv(s.b, s.threads[k]);
  }

  lemma StepInv(cellSize: nat, s: State, t: nat, inp: Input)
    requires Inv(cellSize, s) && Step(cellSize, s, t, inp).Some?
    ensures Inv(cellSize, Step(cellSize, s, t, inp).value)
  {
    StepLock(cellSize, s, t, inp);
    StepBucket(cellSize, s, t, inp);
    forall k: nat | k < |s.threads|
      ensures ThreadInv(Step(cellSize, s, t, inp).value.b, Step(cellSize, s, t, inp).value.threads[k])
    {
      StepThreads(cellSize, s, t, inp, k);
    }
  }

  // ------------------------------------------------------------- what the map contains

  /** (a, v) is stored in the bucket, possibly in the cell a remover is just moving. */
  ghost predicate Stored(b: Bucket, pc: Pc, a: nat, v: int) {
    a != 0 && (|| (exists p: Place :: Live(b, p) && At(b, p) == Cell(a, v))
               || (pc.Shrunk? && b.size < |b.slots| && b.slots[b.size] == Cell(a, v)))
  }

  ghost predicate Holds(s: State, a: nat, v: int) {
    Stored(s.b, WriterPc(s), a, v)
  }

  lemma StoredWhere(b: Bucket, pc: Pc, a: nat, v: int) returns (p: Place)
    requires Stored(b, pc, a, v)
    requires !(pc.Shrunk? && b.size < |b.slots| && b.slots[b.size] == Cell(a, v))
    ensures Live(b, p) && At(b, p) == Cell(a, v)
  {
    p :| Live(b, p) && At(b, p) == Cell(a, v);
  }

  /** Same live cells and nothing in flight: same content. */
  lemma StoredSame(b: Bucket, pc: Pc, b': Bucket, pc': Pc, a: nat, v: int)
    requires !pc.Shrunk? && !pc'.Shrunk?
    requires forall p: Place :: Live(b, p) && At(b, p).addr != 0 ==> Live(b', p) && At(b', p) == At(b, p)
    requires forall p: Place :: Live(b', p) && At(b', p).addr != 0 ==> Live(b, p) && At(b, p) == At(b', p)
    ensures Stored(b, pc, a, v) <==> Stored(b', pc', a, v)
  {
    if Stored(b, pc, a, v) {
      var p := StoredWhere(b, pc, a, v);
      assert Live(b', p);
    }
    if Stored(b', pc', a, v) {
      var p := StoredWhere(b', pc', a, v);
      assert Live(b, p);
    }
  }

  lemma PublishStores(cellSize: nat, b: Bucket, at: Place, addr: nat, a: nat, v: int)
    requires BucketInv(cellSize, b, Held(at, Creating), addr) && addr != 0
    ensures var b' := Put(b, at, At(b, at).(addr := addr));
      Stored(b', UnlockWrite, a, v) <==> Stored(b, Held(at, Creating), a, v) || (a == addr && v == At(b, at).val)
  {
    var b' := Put(b, at, At(b, at).(addr := addr));
    assert Live(b', at) && At(b', at) == Cell(addr, At(b, at).val);
    if Stored(b, Held(at, Creating), a, v) {
      var p := StoredWhere(b, Held(at, Creating), a, v);
      assert Live(b', p) && At(b', p) == At(b, p);
    }
    if Stored(b', UnlockWrite, a, v) {
      var p := StoredWhere(b', UnlockWrite, a, v);
      assert p != at ==> Live(b, p) && At(b, p) == At(b', p);
    }
  }

  lemma ClearUnstores(cellSize: nat, b: Bucket, at: Place, addr: nat, a: nat, v: int)
    requires BucketInv(cellSize, b, Held(at, Removing), addr)
    ensures var b' := Put(b, at, At(b, at).(addr := 0));
      Stored(b', Cleared(at), a, v) <==> Stored(b, Held(at, Removing), a, v) && a != addr
  {
    var b' := Put(b, at, At(b, at).(addr := 0));
    if Stored(b, Held(at, Removing), a, v) && a != addr {
      var p := StoredWhere(b, Held(at, Removing), a, v);
      assert Live(b', p) && At(b', p) == At(b, p);
    }
    if Stored(b', Cleared(at), a, v) {
      var p := StoredWhere(b', Cleared(at), a, v);
      assert Live(b, p) && At(b, p) == At(b', p) && p != at;
    }
  }

  /** Moving an add cell into a freed cell loses no entry and invents none. */
  lemma CompactConserves(cellSize: nat, b: Bucket, at: Place, addr: nat, a: nat, v: int)
    requires BucketInv(cellSize, b, Cleared(at), addr)
    ensures var (b', pc') := Compact(b, at); Stored(b', pc', a, v) <==> Stored(b, Cleared(at), a, v)
  {
    var (b', pc') := Compact(b, at);
    var last := if b.size > 0 then b.size - 1 else 0;
    if Stored(b, Cleared(at), a, v) {
      var p := StoredWhere(b, Cleared(at), a, v);
      if p == Add(last) {
        assert at.Add? ==> Live(b', at);
      } else {
        assert Live(b', p) && At(b', p) == At(b, p);
      }
    }
    if Stored(b', pc', a, v) {
      if pc'.Shrunk? && b'.slots[b'.size] == Cell(a, v) {
        assert Live(b, Add(last));
      } else {
        var p := StoredWhere(b', pc', a, v);
        assert Live(b, p) && (b.size > 0 ==> Live(b, Add(last)));
      }
    }
  }

  lemma CopyConserves(cellSize: nat, b: Bucket, i: nat, addr: nat, a: nat, v: int)
    requires BucketInv(cellSize, b, Shrunk(i), addr)
    ensures var b' := b.(embed := b.embed[i := Cell(b.slots[b.size].addr, b.embed[i].val)]);
      Stored(b', Copied, a, v) <==> Stored(b, Shrunk(i), a, v)
  {
    var b' := b.(embed := b.embed[i := Cell(b.slots[b.size].addr, b.embed[i].val)]);
    assert Live(b', Embed(i)) && At(b', Embed(i)) == b.slots[b.size];
    if Stored(b, Shrunk(i), a, v) && b.slots[b.size] != Cell(a, v) {
      var p := StoredWhere(b, Shrunk(i), a, v);
      assert Live(b', p) && At(b', p) == At(b, p);
    }
    if Stored(b', Copied, a, v) {
      var p := StoredWhere(b', Copied, a, v);
      assert p != Embed(i) ==> Live(b, p) && At(b, p) == At(b', p);
    }
  }

  ghost predicate Publishes(s: State, t: nat, inp: Input) {
    t < |s.threads| && s.threads[t].pc.Held? && s.threads[t].pc.mode.Creating? && !inp.Store?
    && InBucket(s.b, s.threads[t].pc.at)
  }

  ghost predicate Removes(s: State, t: nat) {
    t < |s.threads| && s.threads[t].pc.Held? && s.threads[t].pc.mode.Removing?
  }

  lemma WriterConserves(cellSize: nat, b: Bucket, t: nat, th: Thread, inp: Input, a: nat, v: int)
    requires BucketInv(cellSize, b, th.pc, th.addr) && HoldsWrite(th.pc) && b.writer == Some(t) && th.addr != 0
    requires ThreadInv(b, th) && !th.pc.Held?
    requires Advance(cellSize, b, t, th, inp).Some?
    ensures var (b', th') := Advance(cellSize, b, t, th, inp).value;
      Stored(b', if HoldsWrite(th'.pc) then th'.pc else Idle, a, v) <==> Stored(b, th.pc, a, v)
  {
    var (b', th') := Advance(cellSize, b, t, th, inp).value;
    WriterStep(cellSize, b, t, th, inp);
    match th.pc
    case Cleared(at) => CompactConserves(cellSize, b, at, th.addr, a, v);
    case Shrunk(i) => CopyConserves(cellSize, b, i, th.addr, a, v);
    case _ => StoredSame(b, th.pc, b', if HoldsWrite(th'.pc) then th'.pc else Idle, a, v);
  }

  lemma HeldChanges(cellSize: nat, b: Bucket, t: nat, th: Thread, inp: Input, at: Place, mode: Mode, a: nat, v: int)
    requires BucketInv(cellSize, b, th.pc, th.addr) && b.writer == Some(t) && th.addr != 0
    requires th.pc == Held(at, mode) && (mode.Creating? || mode.Removing?) && ThreadInv(b, th)
    ensures Advance(cellSize, b, t, th, inp).Some?
    ensures var (b', th') := Advance(cellSize, b, t, th, inp).value;
      Stored(b', th'.pc, a, v) <==>
        if mode.Removing? then Stored(b, th.pc, a, v) && a != th.addr
        else Stored(b, th.pc, a, v) || (!inp.Store? && a == th.addr && v == At(b, at).val)
  {
    HeldStep(cellSize, b, t, th, inp, at, mode);
    if mode.Removing? {
      ClearUnstores(cellSize, b, at, th.addr, a, v);
    } else if inp.Store? {
      StoredSame(b, th.pc, Put(b, at, At(b, at).(val := inp.val)), th.pc, a, v);
    } else {
      PublishStores(cellSize, b, at, th.addr, a, v);
    }
  }

  /** Only publishing adds an entry and only the store of a remover takes one away. */
  lemma EntriesStep(cellSize: nat, s: State, t: nat, inp: Input, a: nat, v: int)
    requires Inv(cellSize, s) && Step(cellSize, s, t, inp).Some?
    ensures Holds(Step(cellSize, s, t, inp).value, a, v) <==>
      if Publishes(s, t, inp) then
        Holds(s, a, v) || (a == s.threads[t].addr && v == At(s.b, s.threads[t].pc.at).val)
      else if Removes(s, t) then Holds(s, a, v) && a != s.threads[t].addr
      else Holds(s, a, v)
  {
    var s' := Step(cellSize, s, t, inp).value;
    var th := s.threads[t];
    StepInv(cellSize, s, t, inp);
    if HoldsWrite(th.pc) {
      WriterStep(cellSize, s.b, t, th, inp);
      if th.pc.Held? {
        HeldChanges(cellSize, s.b, t, th, inp, th.pc.at, th.pc.mode, a, v);
      } else {
        WriterConserves(cellSize, s.b, t, th, inp, a, v);
      }
    } else {
      OtherStep(cellSize, s.b, t, th, inp);
      LockOnlyConserves(s.b, WriterPc(s), s'.b, WriterPc(s'), a, v);
    }
  }

  lemma LockOnlyConserves(b: Bucket, pc: Pc, b': Bucket, pc': Pc, a: nat, v: int)
    requires b' == b.(writer := b'.writer, readers := b'.readers) && (pc == pc' || (!pc.Shrunk? && !pc'.Shrunk?))
    ensures Stored(b, pc, a, v) <==> Stored(b', pc', a, v)
  {
    assert forall p: Place :: Live(b, p) <==> Live(b', p);
    assert forall p: Place :: Live(b, p) ==> At(b, p) == At(b', p);
  }

  // ------------------------------------------------------------- runs

  datatype Event = Event(t: nat, inp: Input)

  function Start(threads: nat): State {
    State(Bucket(None, {}, Zeros(BUCKET_SIZE), [], 0), seq(threads, _ => Thread(Idle, 0, false, false)))
  }

  /** Executes an interleaving; a thread that is scheduled while it has to wait stays put. */
  ghost function Run(cellSize: nat, s: State, events: seq<Event>): State
    requires Inv(cellSize, s)
    decreases |events|
  {
    if events == [] then s else Run(cellSize, After(cellSize, s, events[0]), events[1..])
  }

  ghost function After(cellSize: nat, s: State, e: Event): (s': State)
    requires Inv(cellSize, s)
    ensures Inv(cellSize, s') && |s'.threads| == |s.threads|
  {
    match Step(cellSize, s, e.t, e.inp)
    case None => s
    case Some(s') =>
      StepInv(cellSize, s, e.t, e.inp);
      s'
  }

  /** The map that a run builds: publishing sets an address, removing drops it. */
  ghost function Log(cellSize: nat, s: State, events: seq<Event>, m: map<nat, int>): map<nat, int>
    requires Inv(cellSize, s)
    decreases |events|
  {
    if events == [] then m
    else
      Log(cellSize, After(cellSize, s, events[0]), events[1..], Logged(cellSize, s, events[0], m))
  }

  ghost function Logged(cellSize: nat, s: State, e: Event, m: map<nat, int>): map<nat, int>
    requires Inv(cellSize, s)
  {
    if Step(cellSize, s, e.t, e.inp) == None then m
    else if Publishes(s, e.t, e.inp) then m[s.threads[e.t].addr := At(s.b, s.threads[e.t].pc.at).val]
    else if Removes(s, e.t) then m - {s.threads[e.t].addr}
    else m
  }

  ghost predicate Agrees(s: State, m: map<nat, int>) {
    forall a: nat, v: int :: Holds(s, a, v) <==> a in m && m[a] == v
  }

  /** Publishing meets no older entry: the address was absent. */
  lemma PublishIsNew(cellSize: nat, s: State, t: nat, inp: Input, v: int)
    requires Inv(cellSize, s) && Publishes(s, t, inp)
    ensures !Holds(s, s.threads[t].addr, v)
  {
    var th := s.threads[t];
    assert s.b.writer == Some(t);
    if Holds(s, th.addr, v) {
      var p := StoredWhere(s.b, WriterPc(s), th.addr, v);
      assert false;
    }
  }

  lemma LogStep(cellSize: nat, s: State, e: Event, m: map<nat, int>)
    requires Inv(cellSize, s) && Agrees(s, m)
    ensures Agrees(After(cellSize, s, e), Logged(cellSize, s, e, m))
  {
    if Step(cellSize, s, e.t, e.inp).Some? {
      var s', m' := After(cellSize, s, e), Logged(cellSize, s, e, m);
      forall a: nat, v: int
        ensures Holds(s', a, v) <==> a in m' && m'[a] == v
      {
        EntriesStep(cellSize, s, e.t, e.inp, a, v);
        if Publishes(s, e.t, e.inp) {
          PublishIsNew(cellSize, s, e.t, e.inp, v);
        }
      }
    }
  }

  lemma {:induction false} LogRun(cellSize: nat, s: State, events: seq<Event>, m: map<nat, int>)
    requires Inv(cellSize, s) && Agrees(s, m)
    ensures Inv(cellSize, Run(cellSize, s, events))
    ensures Agrees(Run(cellSize, s, events), Log(cellSize, s, events, m))
    decreases |events|
  {
    if events != [] {
      LogStep(cellSize, s, events[0], m);
      LogRun(cellSize, After(cellSize, s, events[0]), events[1..], Logged(cellSize, s, events[0], m));
    }
  }

  lemma StartInv(cellSize: nat, threads: nat)
    requires 0 < cellSize <= INIT_BYTES - HEADER
    ensures Inv(cellSize, Start(threads)) && Agrees(Start(threads), map[])
  {
    var s := Start(threads);
    forall p: Place | Live(s.b, p)
      ensures At(s.b, p).addr == 0
    {
    }
  }

  // ------------------------------------------------------------- what acquire answers

  /** The step of thread t from s answers by the map m: a locked search finds the address exactly
      if it is there, and every cell handed out for reading or removing holds its entry. */
  ghost predicate Answers(s: State, t: nat, inp: Input, s': State, m: map<nat, int>)
    requires t < |s.threads| && |s'.threads| == |s.threads|
  {
    var th, th' := s.threads[t], s'.threads[t];
    && s' == State(s'.b, s.threads[t := th'])
    && (if th.pc.Idle? then
          inp.Acquire? && th' == Thread(if inp.remove then WaitWrite else Probe(0), inp.addr, inp.remove, inp.create)
        else th' == th.(pc := th'.pc))
    && (th.pc.Search? ==>
          && (th'.pc.Missing? <==> th.addr !in m && (th.remove || !th.create))
          && (th'.pc.Held? <==> if th.addr in m then th.remove else !th.remove && th.create)
          && (th'.pc == Probe(0) <==> th.addr in m && !th.remove)
          && (th'.pc.Held? ==> th'.pc.mode == if th.addr in m then Removing else Creating))
    && (th'.pc.Missing? ==> th.pc.Search?)
    && (th'.pc.Held? && !th.pc.Held? && !th'.pc.mode.Creating? ==>
          th.addr in m && InBucket(s'.b, th'.pc.at) && At(s'.b, th'.pc.at) == Cell(th.addr, m[th.addr]))
    && (th'.pc.Held? && !th.pc.Held? && th'.pc.mode.Creating? ==> th.addr !in m)
  }

  lemma LiveIsLogged(s: State, m: map<nat, int>, p: Place)
    requires Agrees(s, m) && Live(s.b, p) && At(s.b, p).addr != 0
    ensures At(s.b, p).addr in m && At(s.b, p) == Cell(At(s.b, p).addr, m[At(s.b, p).addr])
  {
    var c := At(s.b, p);
    assert c == Cell(c.addr, c.val);
    assert Holds(s, c.addr, c.val);
  }

  lemma LoggedIsLive(s: State, m: map<nat, int>, addr: nat)
    requires Agrees(s, m) && !WriterPc(s).Shrunk? && Absent(s.b, addr)
    ensures addr !in m
  {
    if addr in m {
      assert Holds(s, addr, m[addr]);
      var p := StoredWhere(s.b, WriterPc(s), addr, m[addr]);
      assert false;
    }
  }

  /** The locked search, by the map. */
  lemma SearchAnswers(cellSize: nat, s: State, t: nat, inp: Input, m: map<nat, int>)
    requires Inv(cellSize, s) && Agrees(s, m) && t < |s.threads| && s.threads[t].pc.Search?
    ensures Step(cellSize, s, t, inp).Some? && Answers(s, t, inp, Step(cellSize, s, t, inp).value, m)
  {
    var b, th := s.b, s.threads[t];
    assert b.writer == Some(t) && WriterPc(s) == Search;
    LockedInv(cellSize, b, th);
    var i := IndexOf(b.embed, BUCKET_SIZE, th.addr);
    var k := IndexOf(b.slots, b.size, th.addr);
    if i < BUCKET_SIZE {
      LiveIsLogged(s, m, Embed(i));
    } else if k < b.size {
      LiveIsLogged(s, m, Add(k));
    } else {
      assert Absent(b, th.addr);
      LoggedIsLive(s, m, th.addr);
    }
  }

  /** Every other step. */
  lemma OtherAnswers(cellSize: nat, s: State, t: nat, inp: Input, m: map<nat, int>)
    requires Inv(cellSize, s) && Agrees(s, m) && Step(cellSize, s, t, inp).Some? && !s.threads[t].pc.Search?
    ensures Answers(s, t, inp, Step(cellSize, s, t, inp).value, m)
  {
    var th := s.threads[t];
    if th.pc.Probe? && th.pc.i < BUCKET_SIZE && s.b.embed[th.pc.i].addr == th.addr {
      LiveIsLogged(s, m, Embed(th.pc.i));
    }
    if th.pc.ReadScan? && th.pc.i < s.b.size && s.b.slots[th.pc.i].addr == th.addr {
      LiveIsLogged(s, m, Add(th.pc.i));
    }
  }

  /** Every step of a run answers by the map built so far. */
  ghost predicate AllAnswer(cellSize: nat, s: State, events: seq<Event>, m: map<nat, int>)
    requires Inv(cellSize, s)
    decreases |events|
  {
    events == [] ||
    var e := events[0];
    && (Step(cellSize, s, e.t, e.inp).Some? ==> Answers(s, e.t, e.inp, After(cellSize, s, e), m))
    && AllAnswer(cellSize, After(cellSize, s, e), events[1..], Logged(cellSize, s, e, m))
  }

  lemma {:induction false} RunAnswers(cellSize: nat, s: State, events: seq<Event>, m: map<nat, int>)
    requires Inv(cellSize, s) && Agrees(s, m)
    ensures AllAnswer(cellSize, s, events, m)
    decreases |events|
  {
    if events != [] {
      var e := events[0];
      if Step(cellSize, s, e.t, e.inp).Some? {
        if s.threads[e.t].pc.Search? {
          SearchAnswers(cellSize, s, e.t, e.inp, m);
        } else {
          OtherAnswers(cellSize, s, e.t, e.inp, m);
        }
      }
      LogStep(cellSize, s, e, m);
      RunAnswers(cellSize, After(cellSize, s, e), events[1..], Logged(cellSize, s, e, m));
    }
  }

  /** In every state of every interleaving: no address is in two live cells; the content is
      exactly the map the run has built, and by that map every acquire was answered; the mutex is held the way each handle will release
      it; and no CHECK fails except that of a handle acquired without a lock. */
  lemma EveryInterleaving(cellSize: nat, threads: nat, events: seq<Event>)
    requires 0 < cellSize <= INIT_BYTES - HEADER
    ensures Inv(cellSize, Start(threads)) && AllAnswer(cellSize, Start(threads), events, map[])
    ensures var s := Run(cellSize, Start(threads), events);
      && Distinct(s.b)
      && Agrees(s, Log(cellSize, Start(threads), events, map[]))
      && (forall t: nat {:trigger s.threads[t]} :: t < |s.threads| ==>
            var th := s.threads[t];
            && (s.b.writer == Some(t) <==> HoldsWrite(th.pc)) && (t in s.b.readers <==> HoldsRead(th.pc))
            && (th.pc.Crashed? ==> th.pc.mode.LockFree?))
  {
    StartInv(cellSize, threads);
    LogRun(cellSize, Start(threads), events, map[]);
    RunAnswers(cellSize, Start(threads), events, map[]);
    var s := Run(cellSize, Start(threads), events);
    forall t: nat | t < |s.threads|
      ensures ThreadInv(s.b, s.threads[t])
    {
    }
  }

  // ------------------------------------------------------------- handles without a lock

  /** An embedded cell keeps its address exactly until a remover of that address stores into it. */
  lemma EmbeddedStays(cellSize: nat, s: State, t: nat, inp: Input, i: nat)
    requires Inv(cellSize, s) && Step(cellSize, s, t, inp).Some? && i < BUCKET_SIZE && s.b.embed[i].addr != 0
    ensures var s' := Step(cellSize, s, t, inp).value;
      && |s'.b.embed| == BUCKET_SIZE
      && (s'.b.embed[i].addr != s.b.embed[i].addr <==> Removes(s, t) && s.threads[t].addr == s.b.embed[i].addr)
  {
    StepInv(cellSize, s, t, inp);
    var th := s.threads[t];
    if HoldsWrite(th.pc) {
      assert s.b.writer == Some(t);
      if Removes(s, t) {
        var at := th.pc.at;
        assert Live(s.b, at) && Live(s.b, Embed(i)) && At(s.b, at).addr == th.addr;
      }
    } else {
      OtherStep(cellSize, s.b, t, th, inp);
    }
  }

  ghost predicate RemovedDuring(cellSize: nat, s: State, events: seq<Event>, addr: nat)
    requires Inv(cellSize, s)
    decreases |events|
  {
    events != [] &&
    (|| (Removes(s, events[0].t) && s.threads[events[0].t].addr == addr)
     || RemovedDuring(cellSize, After(cellSize, s, events[0]), events[1..], addr))
  }

  /** A lock-free handle for embedded cell i, released after the first n events, passes its CHECK. */
  ghost predicate PassesAfter(cellSize: nat, s: State, events: seq<Event>, n: nat, i: nat, addr: nat)
    requires Inv(cellSize, s) && n <= |events|
  {
    var r := Run(cellSize, s, events[..n]);
    i < |r.b.embed| && r.b.embed[i].addr == addr
  }

  /** A lock-free handle passes its CHECK at every point of a run if and only if nobody removes its
      address during the run. */
  lemma {:induction false} LockFreeCheckIff(cellSize: nat, s: State, events: seq<Event>, i: nat, addr: nat)
    requires Inv(cellSize, s) && i < BUCKET_SIZE && addr != 0 && s.b.embed[i].addr == addr
    ensures (forall n: nat :: n <= |events| ==> PassesAfter(cellSize, s, events, n, i, addr))
        <==> !RemovedDuring(cellSize, s, events, addr)
    decreases |events|
  {
    assert events[..0] == [];
    assert PassesAfter(cellSize, s, events, 0, i, addr);
    if events != [] {
      var e, s', rest := events[0], After(cellSize, s, events[0]), events[1..];
      if Step(cellSize, s, e.t, e.inp).Some? {
        EmbeddedStays(cellSize, s, e.t, e.inp, i);
      } else {
        RemoverMoves(cellSize, s, e.t, e.inp);
      }
      if s'.b.embed[i].addr == addr {
        LockFreeCheckIff(cellSize, s', rest, i, addr);
        ShiftPasses(cellSize, s, events, i, addr);
      } else {
        assert rest[..0] == [];
        assert !PassesAfter(cellSize, s', rest, 0, i, addr);
        ShiftPasses(cellSize, s, events, i, addr);
      }
    }
  }

  lemma ShiftPasses(cellSize: nat, s: State, events: seq<Event>, i: nat, addr: nat)
    requires Inv(cellSize, s) && events != [] && PassesAfter(cellSize, s, events, 0, i, addr)
    ensures var s', rest := After(cellSize, s, events[0]), events[1..];
      (forall n: nat :: n <= |events| ==> PassesAfter(cellSize, s, events, n, i, addr))
      <==> forall n: nat :: n <= |rest| ==> PassesAfter(cellSize, s', rest, n, i, addr)
  {
    var s', rest := After(cellSize, s, events[0]), events[1..];
    forall n: nat | n <= |rest|
      ensures PassesAfter(cellSize, s, events, n + 1, i, addr) <==> PassesAfter(cellSize, s', rest, n, i, addr)
    {
      assert events[..n + 1][0] == events[0] && events[..n + 1][1..] == rest[..n];
    }
    if forall n: nat :: n <= |rest| ==> PassesAfter(cellSize, s', rest, n, i, addr) {
      forall n: nat | n <= |events| ensures PassesAfter(cellSize, s, events, n, i, addr) {
        if n > 0 {
          assert PassesAfter(cellSize, s', rest, n - 1, i, addr);
          assert PassesAfter(cellSize, s, events, (n - 1) + 1, i, addr);
        }
      }
    }
    if forall n: nat :: n <= |events| ==> PassesAfter(cellSize, s, events, n, i, addr) {
      forall n: nat | n <= |rest| ensures PassesAfter(cellSize, s', rest, n, i, addr) {
        assert PassesAfter(cellSize, s, events, n + 1, i, addr);
      }
    }
  }

  /** A remover about to store never has to wait. */
  lemma RemoverMoves(cellSize: nat, s: State, t: nat, inp: Input)
    requires Inv(cellSize, s) && Step(cellSize, s, t, inp) == None
    ensures !Removes(s, t)
  {
    assert t < |s.threads| && HoldsWrite(s.threads[t].pc) ==> s.b.writer == Some(t);
  }

  lemma {:induction false} RunSnoc(cellSize: nat, s: State, events: seq<Event>, e: Event)
    requires Inv(cellSize, s)
    ensures Inv(cellSize, Run(cellSize, s, events))
    ensures Run(cellSize, s, events + [e]) == After(cellSize, Run(cellSize, s, events), e)
    decreases |events|
  {
    if events == [] {
      assert [] + [e] == [e];
      assert Run(cellSize, After(cellSize, s, e), [e][1..]) == After(cellSize, s, e);
    } else {
      assert (events + [e])[1..] == events[1..] + [e];
      RunSnoc(cellSize, After(cellSize, s, events[0]), events[1..], e);
    }
  }

  /** Two threads, the only cells in use being the embedded ones. */
  ghost function Two(b: Bucket, one: Thread, two: Thread): State {
    State(b, [one, two])
  }

  /** Runs one scripted event and checks where it leads. */
  lemma Drive(events: seq<Event>, b: Bucket, one: Thread, two: Thread, e: Event, b': Bucket, th': Thread)
    requires Inv(16, Start(2)) && Run(16, Start(2), events) == Two(b, one, two)
    requires Shaped(16, b) && e.t < 2
    requires Advance(16, b, e.t, if e.t == 0 then one else two, e.inp) == Some((b', th'))
    ensures Run(16, Start(2), events + [e]) == if e.t == 0 then Two(b', th', two) else Two(b', one, th')
  {
    RunSnoc(16, Start(2), events, e);
    assert [one, two][e.t := th'] == if e.t == 0 then [th', two] else [one, th'];
  }

  ghost const Wait: Event := Event(1, NoInput)
  ghost const Empty: Bucket := Bucket(None, {}, [Cell(0, 0), Cell(0, 0), Cell(0, 0)], [], 0)
  ghost const Full: Bucket := Bucket(None, {}, [Cell(5, 0), Cell(0, 0), Cell(0, 0)], [], 0)
  ghost const Resting: Thread := Thread(Idle, 0, false, false)
  ghost const Maker: Thread := Thread(Idle, 5, false, true)
  ghost const Reader: Thread := Thread(Held(Embed(0), LockFree), 5, false, false)
  ghost const Remover: Thread := Thread(WaitWrite, 5, true, true)

  lemma AdvanceReserve()
    ensures Advance(16, Empty.(writer := Some(1)), 1, Maker.(pc := Search), NoInput)
         == Some((Empty.(writer := Some(1)), Maker.(pc := Held(Embed(0), Creating))))
  {
  }

  lemma AdvancePublish()
    ensures Advance(16, Empty.(writer := Some(1)), 1, Maker.(pc := Held(Embed(0), Creating)), NoInput)
         == Some((Full.(writer := Some(1)), Maker.(pc := UnlockWrite)))
  {
    assert Empty.embed[0 := Cell(5, 0)] == Full.embed;
  }

  lemma AdvanceFound()
    ensures Advance(16, Full.(writer := Some(1)), 1, Remover.(pc := Search), NoInput)
         == Some((Full.(writer := Some(1)), Remover.(pc := Held(Embed(0), Removing))))
  {
  }

  lemma AdvanceClear()
    ensures Advance(16, Full.(writer := Some(1)), 1, Remover.(pc := Held(Embed(0), Removing)), NoInput)
         == Some((Empty.(writer := Some(1)), Remover.(pc := Cleared(Embed(0)))))
  {
    assert Full.embed[0 := Cell(0, 0)] == Empty.embed;
  }

  lemma ScriptProbe() returns (events: seq<Event>)
    ensures Inv(16, Start(2))
    ensures Run(16, Start(2), events) == Two(Empty, Resting, Maker.(pc := Probe(3)))
  {
    StartInv(16, 2);
    assert Start(2) == Two(Empty, Resting, Resting);
    Drive([], Empty, Resting, Resting, Event(1, Acquire(5, false, true)), Empty, Maker.(pc := Probe(0)));
    events := [] + [Event(1, Acquire(5, false, true))];
    var i := 0;
    while i < 3
      invariant 0 <= i <= 3
      invariant Run(16, Start(2), events) == Two(Empty, Resting, Maker.(pc := Probe(i)))
    {
      Drive(events, Empty, Resting, Maker.(pc := Probe(i)), Wait, Empty, Maker.(pc := Probe(i + 1)));
      events, i := events + [Wait], i + 1;
    }
  }

  lemma ScriptWait() returns (events: seq<Event>)
    ensures Inv(16, Start(2))
    ensures Run(16, Start(2), events) == Two(Empty, Resting, Maker.(pc := WaitWrite))
  {
    events := ScriptProbe();
    Drive(events, Empty, Resting, Maker.(pc := Probe(3)), Wait, Empty, Maker.(pc := ProbeAdd));
    Drive(events + [Wait], Empty, Resting, Maker.(pc := ProbeAdd), Wait, Empty, Maker.(pc := WaitWrite));
    events := events + [Wait] + [Wait];
  }

  lemma ScriptReserve() returns (events: seq<Event>)
    ensures Inv(16, Start(2))
    ensures Run(16, Start(2), events)
         == Two(Empty.(writer := Some(1)), Resting, Maker.(pc := Held(Embed(0), Creating)))
  {
    events := ScriptWait();
    var own := Empty.(writer := Some(1));
    Drive(events, Empty, Resting, Maker.(pc := WaitWrite), Wait, own, Maker.(pc := Search));
    events := events + [Wait];
    AdvanceReserve();
    Drive(events, own, Resting, Maker.(pc := Search), Wait, own, Maker.(pc := Held(Embed(0), Creating)));
    events := events + [Wait];
  }

  lemma ScriptPublish() returns (events: seq<Event>)
    ensures Inv(16, Start(2))
    ensures Run(16, Start(2), events) == Two(Full.(writer := Some(1)), Resting, Maker.(pc := UnlockWrite))
  {
    events := ScriptReserve();
    AdvancePublish();
    Drive(events, Empty.(writer := Some(1)), Resting, Maker.(pc := Held(Embed(0), Creating)), Wait,
          Full.(writer := Some(1)), Maker.(pc := UnlockWrite));
    events := events + [Wait];
  }

  lemma ScriptCreate() returns (events: seq<Event>)
    ensures Inv(16, Start(2))
    ensures Run(16, Start(2), events) == Two(Full, Resting, Maker)
  {
    events := ScriptPublish();
    Drive(events, Full.(writer := Some(1)), Resting, Maker.(pc := UnlockWrite), Wait, Full, Maker);
    events := events + [Wait];
  }

  lemma ScriptFind() returns (events: seq<Event>)
    ensures Inv(16, Start(2))
    ensures Run(16, Start(2), events) == Two(Full, Reader, Remover)
  {
    events := ScriptCreate();
    Drive(events, Full, Resting, Maker, Event(0, Acquire(5, false, false)), Full, Reader.(pc := Probe(0)));
    events := events + [Event(0, Acquire(5, false, false))];
    Drive(events, Full, Reader.(pc := Probe(0)), Maker, Event(0, NoInput), Full, Reader);
    events := events + [Event(0, NoInput)];
    Drive(events, Full, Reader, Maker, Event(1, Acquire(5, true, true)), Full, Remover);
    events := events + [Event(1, Acquire(5, true, true))];
  }

  lemma ScriptLock() returns (events: seq<Event>)
    ensures Inv(16, Start(2))
    ensures Run(16, Start(2), events)
         == Two(Full.(writer := Some(1)), Reader, Remover.(pc := Held(Embed(0), Removing)))
  {
    events := ScriptFind();
    var own := Full.(writer := Some(1));
    Drive(events, Full, Reader, Remover, Wait, own, Remover.(pc := Search));
    events := events + [Wait];
    AdvanceFound();
    Drive(events, own, Reader, Remover.(pc := Search), Wait, own, Remover.(pc := Held(Embed(0), Removing)));
    events := events + [Wait];
  }

  lemma ScriptRemove() returns (events: seq<Event>)
    ensures Inv(16, Start(2))
    ensures Run(16, Start(2), events) == Two(Empty.(writer := Some(1)), Reader, Remover.(pc := Cleared(Embed(0))))
  {
    events := ScriptLock();
    AdvanceClear();
    Drive(events, Full.(writer := Some(1)), Reader, Remover.(pc := Held(Embed(0), Removing)), Wait,
          Empty.(writer := Some(1)), Remover.(pc := Cleared(Embed(0))));
    events := events + [Wait];
  }

  /** Thread 1 creates address 5, thread 0 finds it without a lock, thread 1 removes it, and
      the release of thread 0 fails its CHECK. */
  lemma LockFreeCheckCanFail() returns (events: seq<Event>)
    ensures Inv(16, Start(2))
    ensures Run(16, Start(2), events)
         == Two(Empty.(writer := Some(1)), Reader.(pc := Crashed(LockFree)), Remover.(pc := Cleared(Embed(0))))
  {
    events := ScriptRemove();
    Drive(events, Empty.(writer := Some(1)), Reader, Remover.(pc := Cleared(Embed(0))), Event(0, NoInput),
          Empty.(writer := Some(1)), Reader.(pc := Crashed(LockFree)));
    events := events + [Event(0, NoInput)];
  }
}
