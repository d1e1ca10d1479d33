/**
 What one handle of AddrHashMap does when no other thread runs meanwhile: acquire and release
 end, and together they are a lookup, an insertion or a removal on the map.
 */
module AddrHashAlone {
  import opened AddrHashMap

  /** f, applied n times. */
  ghost function Times<S>(f: S -> S, s: S, n: nat): S
    decreases n
  {
    if n == 0 then s else Times(f, f(s), n - 1)
  }

  lemma {:induction false} TimesMore<S>(f: S -> S, s: S, n: nat, k: nat)
    ensures Times(f, s, n + k) == Times(f, Times(f, s, n), k)
    decreases n
  {
    if n > 0 {
      TimesMore(f, f(s), n - 1, k);
    }
  }

  /** One step of thread t. */
  ghost function Tick(cellSize: nat, t: nat): State -> State {
    (s: State) => if Inv(cellSize, s) then After(cellSize, s, Event(t, NoInput)) else s
  }

  /** Thread t goes to pc and leaves bucket b. */
  ghost function Moved(s: State, t: nat, b: Bucket, pc: Pc): State
    requires t < |s.threads|
  {
    State(b, s.threads[t := s.threads[t].(pc := pc)])
  }

  /** Nothing but the mutex differs. */
  ghost predicate SameContent(b: Bucket, b': Bucket) {
    b' == b.(writer := b'.writer, readers := b'.readers)
  }

  ghost predicate SameOthers(s: State, t: nat, s': State) {
    |s'.threads| == |s.threads| && forall k: nat :: k < |s.threads| && k != t ==> s'.threads[k] == s.threads[k]
  }

  /** Some number of steps of t leads from s to s'. */
  ghost predicate Gets(cellSize: nat, s: State, t: nat, s': State) {
    Inv(cellSize, s) && Inv(cellSize, s') && exists n: nat :: Times(Tick(cellSize, t), s, n) == s'
  }

  lemma GetsStep(cellSize: nat, s: State, t: nat, b: Bucket, pc: Pc)
    requires Inv(cellSize, s) && t < |s.threads|
    requires Advance(cellSize, s.b, t, s.threads[t], NoInput) == Some((b, s.threads[t].(pc := pc)))
    ensures Gets(cellSize, s, t, Moved(s, t, b, pc))
  {
    var f, s' := Tick(cellSize, t), After(cellSize, s, Event(t, NoInput));
    assert f(s) == s';
    assert Times(f, s', 0) == s';
    assert Times(f, s, 1) == s';
  }

  lemma GetsTrans(cellSize: nat, s: State, t: nat, s1: State, s2: State)
    requires Gets(cellSize, s, t, s1) && Gets(cellSize, s1, t, s2)
    ensures Gets(cellSize, s, t, s2)
  {
    var f := Tick(cellSize, t);
    var n: nat :| Times(f, s, n) == s1;
    var k: nat :| Times(f, s1, k) == s2;
    TimesMore(f, s, n, k);
  }

  /** One move after another. */
  lemma GetsOn(cellSize: nat, s: State, t: nat, b: Bucket, pc: Pc, b': Bucket, pc': Pc)
    requires t < |s.threads| && Gets(cellSize, s, t, Moved(s, t, b, pc))
    requires Gets(cellSize, Moved(s, t, b, pc), t, Moved(Moved(s, t, b, pc), t, b', pc'))
    ensures Gets(cellSize, s, t, Moved(s, t, b', pc'))
  {
    var s1 := Moved(s, t, b, pc);
    assert Moved(s1, t, b', pc') == Moved(s, t, b', pc');
    GetsTrans(cellSize, s, t, s1, Moved(s, t, b', pc'));
  }

  lemma GetsSelf(cellSize: nat, s: State, t: nat)
    requires Inv(cellSize, s)
    ensures Gets(cellSize, s, t, s)
  {
    assert Times(Tick(cellSize, t), s, 0) == s;
  }

  // ------------------------------------------------------------- looking for the address

  /** The lock-free scan from embedded cell i on. */
  lemma {:induction false} ProbeAlone(cellSize: nat, s: State, t: nat, i: nat) returns (pc: Pc)
    requires Inv(cellSize, s) && t < |s.threads| && s.threads[t].pc == Probe(i) && i <= BUCKET_SIZE
    ensures Gets(cellSize, s, t, Moved(s, t, s.b, pc))
    ensures pc == ProbeAdd || (pc.Held? && pc.mode == LockFree && pc.at.Embed? && i <= pc.at.i < BUCKET_SIZE)
    ensures pc.Held? ==> s.b.embed[pc.at.i].addr == s.threads[t].addr
    ensures pc == ProbeAdd ==> forall k: nat :: i <= k < BUCKET_SIZE ==> s.b.embed[k].addr != s.threads[t].addr
    decreases BUCKET_SIZE - i
  {
    var th := s.threads[t];
    if i == BUCKET_SIZE {
      pc := ProbeAdd;
      GetsStep(cellSize, s, t, s.b, pc);
    } else if s.b.embed[i].addr == th.addr {
      pc := Held(Embed(i), LockFree);
      GetsStep(cellSize, s, t, s.b, pc);
    } else {
      GetsStep(cellSize, s, t, s.b, Probe(i + 1));
      var s1 := Moved(s, t, s.b, Probe(i + 1));
      pc := ProbeAlone(cellSize, s1, t, i + 1);
      GetsOn(cellSize, s, t, s.b, Probe(i + 1), s.b, pc);
    }
  }

  /** The read-locked scan from add cell i on. */
  lemma {:induction false} ScanAlone(cellSize: nat, s: State, t: nat, i: nat) returns (pc: Pc)
    requires Inv(cellSize, s) && t < |s.threads| && s.threads[t].pc == ReadScan(i) && i <= s.b.size
    ensures Gets(cellSize, s, t, Moved(s, t, s.b, pc))
    ensures pc == ReadMiss || (pc.Held? && pc.mode == Shared && pc.at.Add? && i <= pc.at.i < s.b.size <= |s.b.slots|)
    ensures pc.Held? ==> s.b.slots[pc.at.i].addr == s.threads[t].addr
    ensures s.b.size <= |s.b.slots|
    ensures pc == ReadMiss ==> forall k: nat :: i <= k < s.b.size ==> s.b.slots[k].addr != s.threads[t].addr
    decreases s.b.size - i
  {
    var th := s.threads[t];
    if i == s.b.size {
      pc := ReadMiss;
      GetsStep(cellSize, s, t, s.b, pc);
    } else if s.b.slots[i].addr == th.addr {
      pc := Held(Add(i), Shared);
      GetsStep(cellSize, s, t, s.b, pc);
    } else {
      GetsStep(cellSize, s, t, s.b, ReadScan(i + 1));
      var s1 := Moved(s, t, s.b, ReadScan(i + 1));
      pc := ScanAlone(cellSize, s1, t, i + 1);
      GetsOn(cellSize, s, t, s.b, ReadScan(i + 1), s.b, pc);
    }
  }

  ghost predicate Free(b: Bucket) {
    b.writer == None && b.readers == {}
  }

  /** From the load of the add pointer: the address is in an add cell, or the thread comes to
      wait for the write lock. */
  lemma AddAlone(cellSize: nat, s: State, t: nat) returns (pc: Pc, b: Bucket)
    requires Inv(cellSize, s) && t < |s.threads| && s.threads[t].pc == ProbeAdd && Free(s.b)
    ensures Gets(cellSize, s, t, Moved(s, t, b, pc)) && AddScanned(s.b, s.threads[t].addr, pc, b)
  {
    if s.b.slots == [] {
      pc, b := WaitWrite, s.b;
      GetsStep(cellSize, s, t, b, pc);
    } else {
      GetsStep(cellSize, s, t, s.b, WaitRead);
      var s1 := Moved(s, t, s.b, WaitRead);
      pc, b := ReadLockAlone(cellSize, s1, t);
      GetsOn(cellSize, s, t, s.b, WaitRead, b, pc);
    }
  }

  ghost predicate AddScanned(b: Bucket, addr: nat, pc: Pc, b': Bucket) {
    && SameContent(b, b') && b'.writer == None && b.size <= |b.slots|
    && (if pc == WaitWrite then Free(b') && forall k: nat :: k < b.size ==> b.slots[k].addr != addr
        else && pc.Held? && pc.mode == Shared && pc.at.Add? && pc.at.i < b.size && b.slots[pc.at.i].addr == addr)
  }

  lemma ReadLockAlone(cellSize: nat, s: State, t: nat) returns (pc: Pc, b: Bucket)
    requires Inv(cellSize, s) && t < |s.threads| && s.threads[t].pc == WaitRead && Free(s.b)
    ensures Gets(cellSize, s, t, Moved(s, t, b, pc)) && AddScanned(s.b, s.threads[t].addr, pc, b)
  {
    b := s.b.(readers := s.b.readers + {t});
    GetsStep(cellSize, s, t, b, ReadScan(0));
    var s1 := Moved(s, t, b, ReadScan(0));
    pc := ScanAlone(cellSize, s1, t, 0);
    GetsOn(cellSize, s, t, b, ReadScan(0), b, pc);
    if pc == ReadMiss {
      var b' := b.(readers := b.readers - {t});
      GetsStep(cellSize, Moved(s, t, b, ReadMiss), t, b', WaitWrite);
      GetsOn(cellSize, s, t, b, ReadMiss, b', WaitWrite);
      pc, b := WaitWrite, b';
    }
  }

  /** The write lock and the locked search. */
  lemma LockAlone(cellSize: nat, s: State, t: nat) returns (s': State)
    requires Inv(cellSize, s) && t < |s.threads| && s.threads[t].pc == WaitWrite && Free(s.b)
    ensures Gets(cellSize, s, t, s')
    ensures var (b, pc) := Locked(cellSize, s.b.(writer := Some(t)), s.threads[t]); s' == Moved(s, t, b, pc)
  {
    var b := s.b.(writer := Some(t));
    GetsStep(cellSize, s, t, b, Search);
    var s1 := Moved(s, t, b, Search);
    var (b', pc) := Locked(cellSize, b, s.threads[t]);
    assert Locked(cellSize, b, s1.threads[t]) == (b', pc);
    GetsStep(cellSize, s1, t, b', pc);
    s' := Moved(s1, t, b', pc);
    assert s' == Moved(s, t, b', pc);
    GetsTrans(cellSize, s, t, s1, s');
  }

  // ------------------------------------------------------------- acquire

  /** What acquire has done for a handle of addr: by the map m, a present address is held for
      removal or for reading, an absent one is missing or being created. */
  ghost predicate Acquired(s: State, t: nat, addr: nat, remove: bool, create: bool, m: map<nat, int>)
  {
    t < |s.threads| &&
    var th := s.threads[t];
    && th.addr == addr && th.remove == remove
    && (if addr in m then
          && th.pc.Held? && InBucket(s.b, th.pc.at) && At(s.b, th.pc.at) == Cell(addr, m[addr])
          && (if remove then th.pc.mode == Removing else th.pc.mode == LockFree || th.pc.mode == Shared)
        else if remove || !create then th.pc == Missing
        else th.pc.Held? && th.pc.mode == Creating)
  }

  lemma SearchEnds(cellSize: nat, s: State, t: nat, m: map<nat, int>) returns (s': State)
    requires Inv(cellSize, s) && Agrees(s, m) && t < |s.threads| && s.threads[t].pc == WaitWrite && Free(s.b)
    requires s.threads[t].addr in m ==> s.threads[t].remove
    ensures Gets(cellSize, s, t, s') && Agrees(s', m) && SameOthers(s, t, s')
    ensures Acquired(s', t, s.threads[t].addr, s.threads[t].remove, s.threads[t].create, m)
  {
    var b := s.b.(writer := Some(t));
    GetsStep(cellSize, s, t, b, Search);
    var s1 := Moved(s, t, b, Search);
    forall a: nat, v: int ensures Holds(s1, a, v) <==> a in m && m[a] == v {
      assert Holds(s, a, v) <==> a in m && m[a] == v;
      LockOnlyConserves(s.b, WriterPc(s), b, WriterPc(s1), a, v);
    }
    SearchAnswers(cellSize, s1, t, NoInput, m);
    LogStep(cellSize, s1, Event(t, NoInput), m);
    s' := LockAlone(cellSize, s, t);
    assert s' == Step(cellSize, s1, t, NoInput).value;
  }

  /** A reader that starts at the lock-free scan. */
  lemma ReadAlone(cellSize: nat, s: State, t: nat, m: map<nat, int>) returns (s': State)
    requires Inv(cellSize, s) && Agrees(s, m) && t < |s.threads| && s.threads[t].pc == Probe(0) && Free(s.b)
    ensures Gets(cellSize, s, t, s') && Agrees(s', m) && SameOthers(s, t, s')
    ensures Acquired(s', t, s.threads[t].addr, false, s.threads[t].create, m)
  {
    var th := s.threads[t];
    assert ThreadInv(s.b, th);
    var pc := ProbeAlone(cellSize, s, t, 0);
    s' := Moved(s, t, s.b, pc);
    if pc.Held? {
      LiveIsLogged(s, m, pc.at);
      SameEntries(s, s', m);
      return;
    }
    var pc2, b := AddAlone(cellSize, s', t);
    var s2 := Moved(s', t, b, pc2);
    GetsTrans(cellSize, s, t, s', s2);
    SameEntries(s, s2, m);
    if pc2.Held? {
      LiveIsLogged(s, m, pc2.at);
    } else {
      assert Absent(s.b, th.addr);
      LoggedIsLive(s, m, th.addr);
      s' := SearchEnds(cellSize, s2, t, m);
      GetsTrans(cellSize, s, t, s2, s');
      return;
    }
    s' := s2;
  }

  lemma SameEntries(s: State, s': State, m: map<nat, int>)
    requires Agrees(s, m) && SameContent(s.b, s'.b) && s.b.writer == None && s'.b.writer == None
    ensures Agrees(s', m)
  {
    forall a: nat, v: int ensures Holds(s', a, v) <==> a in m && m[a] == v {
      LockOnlyConserves(s.b, WriterPc(s), s'.b, WriterPc(s'), a, v);
      assert Holds(s, a, v) <==> a in m && m[a] == v;
    }
  }

  /** An acquire that no other thread disturbs ends, and answers by the map. */
  lemma AcquireAlone(cellSize: nat, s: State, t: nat, addr: nat, remove: bool, create: bool, m: map<nat, int>)
      returns (s0: State, s': State)
    requires Inv(cellSize, s) && Agrees(s, m) && t < |s.threads| && s.threads[t].pc == Idle && Free(s.b) && addr != 0
    ensures s0 == After(cellSize, s, Event(t, Acquire(addr, remove, create))) && Gets(cellSize, s0, t, s')
    ensures Agrees(s', m) && SameOthers(s, t, s') && Acquired(s', t, addr, remove, create, m)
  {
    s0 := After(cellSize, s, Event(t, Acquire(addr, remove, create)));
    SameEntries(s, s0, m);
    if remove {
      s' := SearchEnds(cellSize, s0, t, m);
    } else {
      s' := ReadAlone(cellSize, s0, t, m);
    }
  }

  // ------------------------------------------------------------- release

  /** A step that neither publishes nor removes. */
  lemma QuietStep(cellSize: nat, s: State, t: nat, m: map<nat, int>, b: Bucket, pc: Pc)
    requires Inv(cellSize, s) && Agrees(s, m) && t < |s.threads| && !s.threads[t].pc.Held?
    requires Advance(cellSize, s.b, t, s.threads[t], NoInput) == Some((b, s.threads[t].(pc := pc)))
    ensures Gets(cellSize, s, t, Moved(s, t, b, pc)) && Agrees(Moved(s, t, b, pc), m)
  {
    GetsStep(cellSize, s, t, b, pc);
    LogStep(cellSize, s, Event(t, NoInput), m);
  }

  /** What is left of release after its first store. */
  lemma {:induction false} FinishAlone(cellSize: nat, s: State, t: nat, m: map<nat, int>) returns (s': State)
    requires Inv(cellSize, s) && Agrees(s, m) && t < |s.threads|
    requires var pc := s.threads[t].pc; pc.Cleared? || pc.Shrunk? || pc.Copied? || pc.UnlockWrite? || pc.UnlockRead? || pc.Idle?
    ensures Gets(cellSize, s, t, s') && Agrees(s', m) && SameOthers(s, t, s') && s'.threads[t].pc == Idle
    decreases match s.threads[t].pc case Cleared(_) => 4 case Shrunk(_) => 3 case Copied => 2 case Idle => 0 case _ => 1
  {
    var th := s.threads[t];
    if th.pc.Idle? {
      GetsSelf(cellSize, s, t);
      return s;
    }
    assert HoldsWrite(th.pc) ==> s.b.writer == Some(t) && WriterPc(s) == th.pc;
    var (b, th') := Advance(cellSize, s.b, t, th, NoInput).value;
    QuietStep(cellSize, s, t, m, b, th'.pc);
    var s1 := Moved(s, t, b, th'.pc);
    s' := FinishAlone(cellSize, s1, t, m);
    GetsTrans(cellSize, s, t, s1, s');
  }

  /** The map after a handle is released. */
  ghost function Released(m: map<nat, int>, mode: Mode, addr: nat, v: int): map<nat, int> {
    match mode
    case Removing => m - {addr}
    case Creating => m[addr := v]
    case _ => m
  }

  /** A release that no other thread disturbs ends, and does to the map what its handle is for. */
  lemma ReleaseAlone(cellSize: nat, s: State, t: nat, m: map<nat, int>) returns (s': State)
    requires Inv(cellSize, s) && Agrees(s, m) && t < |s.threads| && s.threads[t].pc.Held?
    requires var th := s.threads[t]; InBucket(s.b, th.pc.at) && (th.pc.mode == LockFree ==> At(s.b, th.pc.at).addr == th.addr)
    ensures Gets(cellSize, s, t, s') && SameOthers(s, t, s') && s'.threads[t].pc == Idle
    ensures var th := s.threads[t]; Agrees(s', Released(m, th.pc.mode, th.addr, At(s.b, th.pc.at).val))
  {
    var th := s.threads[t];
    assert HoldsWrite(th.pc) ==> s.b.writer == Some(t) && WriterPc(s) == th.pc;
    assert ThreadInv(s.b, th);
    var (b, th') := Advance(cellSize, s.b, t, th, NoInput).value;
    GetsStep(cellSize, s, t, b, th'.pc);
    var s1 := Moved(s, t, b, th'.pc);
    var m1 := Released(m, th.pc.mode, th.addr, At(s.b, th.pc.at).val);
    LogStep(cellSize, s, Event(t, NoInput), m);
    assert m1 == Logged(cellSize, s, Event(t, NoInput), m);
    s' := FinishAlone(cellSize, s1, t, m1);
    GetsTrans(cellSize, s, t, s1, s');
  }

  /** When all threads are idle the mutex is free. */
  lemma IdleIsFree(cellSize: nat, s: State)
    requires Inv(cellSize, s) && forall t: nat :: t < |s.threads| ==> s.threads[t].pc == Idle
    ensures Free(s.b)
  {
    assert s.b.writer.Some? ==> HoldsWrite(s.threads[s.b.writer.value].pc);
    assert forall r :: r in s.b.readers ==> HoldsRead(s.threads[r].pc);
  }

  ghost predicate AllIdle(s: State) {
    forall t: nat :: t < |s.threads| ==> s.threads[t].pc == Idle
  }

  /** The map after one handle: a removal, a lookup, or the creation of an absent address. */
  ghost function Handled(m: map<nat, int>, addr: nat, remove: bool, create: bool, v: int): map<nat, int> {
    if remove then m - {addr} else if addr in m || !create then m else m[addr := v]
  }

  /** The creator's store of v, and nothing for any other handle. */
  ghost function Filled(cellSize: nat, s: State, t: nat, v: int): State
    requires Inv(cellSize, s) && t < |s.threads|
  {
    var pc := s.threads[t].pc;
    if pc.Held? && pc.mode == Creating then After(cellSize, s, Event(t, Store(v))) else s
  }

  lemma FilledMeans(cellSize: nat, s: State, t: nat, v: int, m: map<nat, int>)
    requires Inv(cellSize, s) && Agrees(s, m) && t < |s.threads|
    ensures var s' := Filled(cellSize, s, t, v);
      && Inv(cellSize, s') && Agrees(s', m) && s'.threads == s.threads
      && (var pc := s.threads[t].pc;
          pc.Held? && pc.mode == Creating ==> InBucket(s'.b, pc.at) && At(s'.b, pc.at).val == v)
      && (var pc := s.threads[t].pc; !(pc.Held? && pc.mode == Creating) ==> s' == s)
  {
    var th := s.threads[t];
    if th.pc.Held? && th.pc.mode == Creating {
      assert s.b.writer == Some(t) && WriterPc(s) == th.pc;
      LogStep(cellSize, s, Event(t, Store(v)), m);
    }
  }

  /** The whole life of one handle while all other threads are idle: acquire, the store of a
      creator, release. It ends with all threads idle again and has done its work on the map. */
  lemma HandleAlone(cellSize: nat, s: State, t: nat, addr: nat, remove: bool, create: bool, v: int, m: map<nat, int>)
      returns (s0: State, s1: State, s': State)
    requires Inv(cellSize, s) && Agrees(s, m) && AllIdle(s) && t < |s.threads| && addr != 0
    ensures s0 == After(cellSize, s, Event(t, Acquire(addr, remove, create)))
    ensures Gets(cellSize, s0, t, s1) && Acquired(s1, t, addr, remove, create, m)
    ensures Gets(cellSize, Filled(cellSize, s1, t, v), t, s')
    ensures AllIdle(s') && Agrees(s', Handled(m, addr, remove, create, v))
  {
    IdleIsFree(cellSize, s);
    s0, s1 := AcquireAlone(cellSize, s, t, addr, remove, create, m);
    var s2 := Filled(cellSize, s1, t, v);
    FilledMeans(cellSize, s1, t, v, m);
    if s1.threads[t].pc == Missing {
      QuietStep(cellSize, s2, t, m, s2.b, Idle);
      s' := Moved(s2, t, s2.b, Idle);
      assert addr !in m;
      assert m - {addr} == m;
    } else {
      s' := ReleaseAlone(cellSize, s2, t, m);
    }
  }
}
