/**
 SizeClassMap (sanitizer_allocator_size_class_map.h), for all template parameters.
 */
module SizeClassMap {

  // ------------------------------------------------------------- shifts and masks

  /** x << n */
  function Shl(x: nat, n: nat): (y: nat)
    ensures x > 0 ==> y > 0
    decreases n
  {
    if n == 0 then x else 2 * Shl(x, n - 1)
  }

  /** x >> n */
  function Shr(x: nat, n: nat): nat
    decreases n
  {
    if n == 0 then x else Shr(x, n - 1) / 2
  }

  function Pow2(n: nat): (p: nat)
    ensures p > 0
  {
    Shl(1, n)
  }

  /** x & ((1 << n) - 1) */
  function Low(x: nat, n: nat): (r: nat)
    ensures r < Pow2(n) && x == Shl(Shr(x, n), n) + r
  {
    LowBits(x, n);
    x - Shl(Shr(x, n), n)
  }

  lemma {:induction false} ShlAdd(x: nat, y: nat, n: nat)
    ensures Shl(x + y, n) == Shl(x, n) + Shl(y, n)
  {
    if n > 0 {
      ShlAdd(x, y, n - 1);
    }
  }

  lemma {:induction false} ShlShl(x: nat, a: nat, b: nat)
    ensures Shl(Shl(x, a), b) == Shl(x, a + b)
  {
    if b > 0 {
      ShlShl(x, a, b - 1);
    }
  }

  lemma ShlOrder(x: nat, y: nat, n: nat)
    requires x <= y
    ensures Shl(x, n) <= Shl(y, n)
  {
    ShlAdd(x, y - x, n);
  }

  lemma {:induction false} ShlIsMul(x: nat, n: nat)
    ensures Pow2(n) * x == Shl(x, n)
  {
    if n > 0 {
      ShlIsMul(x, n - 1);
      assert (2 * Pow2(n - 1)) * x == 2 * (Pow2(n - 1) * x);
    }
  }

  lemma {:induction false} Pow2Order(a: nat, b: nat)
    requires a <= b
    ensures Pow2(a) <= Pow2(b)
    decreases b - a
  {
    if a < b {
      Pow2Order(a, b - 1);
    }
  }

  lemma {:induction false} LowBits(x: nat, n: nat)
    ensures Shl(Shr(x, n), n) <= x < Shl(Shr(x, n), n) + Shl(1, n)
  {
    if n > 0 {
      LowBits(x, n - 1);
      var s := Shr(x, n - 1);
      ShlShl(s / 2, 1, n - 1);
      ShlAdd(2 * (s / 2), s % 2, n - 1);
      assert Shl(s / 2, 1) == 2 * Shl(s / 2, 0);
      assert s == 2 * (s / 2) + s % 2;
      assert Shl(0, n - 1) == 0 by { ShlAdd(0, 0, n - 1); }
    }
  }

  /** Quotient and remainder are determined by the sum. */
  lemma Digits(x: nat, n: nat, q: nat, r: nat)
    requires x == Shl(q, n) + r && r < Pow2(n)
    ensures Shr(x, n) == q && Low(x, n) == r
  {
    LowBits(x, n);
    var s := Shr(x, n);
    if s < q {
      ShlAdd(s, 1, n);
      ShlOrder(s + 1, q, n);
    } else if q < s {
      ShlAdd(q, 1, n);
      ShlOrder(q + 1, s, n);
    }
  }

  lemma ShrShl(x: nat, n: nat)
    ensures Shr(Shl(x, n), n) == x && Low(Shl(x, n), n) == 0
  {
    Digits(Shl(x, n), n, x, 0);
  }

  /** MostSignificantSetBitIndex */
  function Msb(x: nat): (l: nat)
    requires x > 0
    ensures Pow2(l) <= x < Pow2(l + 1)
  {
    if x == 1 then 0 else 1 + Msb(x / 2)
  }

  lemma {:induction false} MsbAtLeast(x: nat, l: nat)
    requires x > 0 && Pow2(l) <= x
    ensures l <= Msb(x)
  {
    if Msb(x) < l {
      Pow2Order(Msb(x) + 1, l);
      assert false;
    }
  }

  // ------------------------------------------------------------- the map

  datatype Params = Params(numBits: nat, minLog: nat, midLog: nat, maxLog: nat, maxHint: nat, maxBytesLog: nat)

  ghost predicate Sane(p: Params) {
    0 < p.numBits && p.numBits - 1 <= p.midLog && p.minLog <= p.midLog <= p.maxLog
  }

  function S(p: Params): nat
    requires p.numBits > 0
  {
    p.numBits - 1
  }

  function MinSize(p: Params): nat { Pow2(p.minLog) }

  function MidSize(p: Params): nat { Pow2(p.midLog) }

  function MaxSize(p: Params): nat { Pow2(p.maxLog) }

  /** kMidSize / kMinSize; the divisor is a power of two. */
  function MidClass(p: Params): nat { Shr(MidSize(p), p.minLog) }

  function NumClasses(p: Params): nat
    requires p.numBits > 0 && p.midLog <= p.maxLog
  {
    MidClass(p) + Shl(p.maxLog - p.midLog, S(p)) + 1
  }

  function Size(p: Params, classId: nat): nat
    requires p.numBits > 0
  {
    if classId <= MidClass(p) then MinSize(p) * classId
    else
      var c := classId - MidClass(p);
      var t := Shl(MidSize(p), Shr(c, S(p)));
      t + Shr(t, S(p)) * Low(c, S(p))
  }

  function ClassID(p: Params, size: nat): nat
    requires Sane(p)
  {
    if size <= MidSize(p) then Shr(size + MinSize(p) - 1, p.minLog)
    else if size > MaxSize(p) then 0
    else
      var l := Msb(size);
      MsbAtLeast(size, p.midLog);
      var hbits := Low(Shr(size, l - S(p)), S(p));
      var lbits := Low(size, l - S(p));
      MidClass(p) + Shl(l - p.midLog, S(p)) + hbits + if lbits > 0 then 1 else 0
  }

  // ------------------------------------------------------------- the steps above kMidSize

  /** log2 of the distance between classes in row q. */
  ghost function UnitLog(p: Params, q: nat): nat
    requires Sane(p)
  {
    p.midLog + q - S(p)
  }

  /** The size of the x-th class above the middle one: row q, column r of a table whose rows
      double and have 2^S columns. */
  ghost function Above(p: Params, x: nat): nat
    requires Sane(p)
  {
    Shl(Pow2(S(p)) + Low(x, S(p)), UnitLog(p, Shr(x, S(p))))
  }

  lemma MidIsMultiple(p: Params)
    requires Sane(p)
    ensures MidSize(p) == Shl(MidClass(p), p.minLog) && MidClass(p) > 0
  {
    ShlShl(1, p.midLog - p.minLog, p.minLog);
    ShrShl(Pow2(p.midLog - p.minLog), p.minLog);
  }

  lemma SizeBelow(p: Params, c: nat)
    requires Sane(p) && c <= MidClass(p)
    ensures Size(p, c) == Shl(c, p.minLog)
  {
    ShlIsMul(c, p.minLog);
  }

  lemma SizeAbove(p: Params, x: nat)
    requires Sane(p)
    ensures Size(p, MidClass(p) + x) == Above(p, x)
  {
    if x == 0 {
      AboveZero(p);
      SizeBelow(p, MidClass(p));
      MidIsMultiple(p);
    } else {
      RowColumn(p, Shr(x, S(p)), Low(x, S(p)));
    }
  }

  lemma RowColumn(p: Params, q: nat, r: nat)
    requires Sane(p)
    ensures var t := Shl(MidSize(p), q); t + Shr(t, S(p)) * r == Shl(Pow2(S(p)) + r, UnitLog(p, q))
  {
    var n := UnitLog(p, q);
    RowStart(p, q);
    ShlAdd(Pow2(S(p)), r, n);
    ShrShl(Pow2(n), S(p));
    ShlIsMul(r, n);
  }

  lemma AboveZero(p: Params)
    requires Sane(p)
    ensures Above(p, 0) == MidSize(p)
  {
    Zero(S(p));
    AboveIs(p, 0, 0, 0);
    ShlShl(1, S(p), p.midLog - S(p));
  }

  lemma AboveIs(p: Params, x: nat, q: nat, r: nat)
    requires Sane(p) && Shr(x, S(p)) == q && Low(x, S(p)) == r
    ensures Above(p, x) == Shl(Pow2(S(p)) + r, p.midLog + q - S(p))
  {
  }

  lemma Zero(n: nat)
    ensures Shl(0, n) == 0 && Shr(0, n) == 0 && Low(0, n) == 0
  {
    ShlAdd(0, 0, n);
    Digits(0, n, 0, 0);
  }

  /** kMidSize << q is 2^S units of row q. */
  lemma RowStart(p: Params, q: nat)
    requires Sane(p)
    ensures Shl(MidSize(p), q) == Shl(Pow2(S(p)), UnitLog(p, q)) == Shl(Pow2(UnitLog(p, q)), S(p)) == Pow2(p.midLog + q)
  {
    ShlShl(1, p.midLog, q);
    ShlShl(1, S(p), UnitLog(p, q));
    ShlShl(1, UnitLog(p, q), S(p));
  }

  /** Each class is one unit of its row larger than the one before. */
  lemma AboveStep(p: Params, x: nat)
    requires Sane(p)
    ensures Above(p, x + 1) == Above(p, x) + Pow2(UnitLog(p, Shr(x, S(p))))
  {
    var s, q, r := S(p), Shr(x, S(p)), Low(x, S(p));
    var n := p.midLog + q - s;
    NextDigits(x, s);
    AboveIs(p, x, q, r);
    AboveIs(p, x + 1, Shr(x + 1, s), Low(x + 1, s));
    if r + 1 == Pow2(s) {
      DoubleRow(Pow2(s), r, n);
    }
    OneMore(Pow2(s) + r, n);
  }

  lemma OneMore(x: nat, n: nat)
    ensures Shl(x + 1, n) == Shl(x, n) + Pow2(n)
  {
    ShlAdd(x, 1, n);
  }

  lemma DoubleRow(w: nat, r: nat, n: nat)
    requires r + 1 == w
    ensures Shl(w + 0, n + 1) == Shl(w + r + 1, n)
  {
    ShlAdd(w, w, n);
  }

  lemma NextDigits(x: nat, n: nat)
    ensures var q, r := Shr(x, n), Low(x, n);
      if r + 1 < Pow2(n) then Shr(x + 1, n) == q && Low(x + 1, n) == r + 1
      else r + 1 == Pow2(n) && Shr(x + 1, n) == q + 1 && Low(x + 1, n) == 0
  {
    var q, r := Shr(x, n), Low(x, n);
    if r + 1 < Pow2(n) {
      Digits(x + 1, n, q, r + 1);
    } else {
      ShlAdd(q, 1, n);
      Digits(x + 1, n, q + 1, 0);
    }
  }

  /** Row and column of a size. */
  lemma SplitSize(p: Params, size: nat)
    requires Sane(p) && MidSize(p) <= size
    ensures var l := Msb(size);
      && p.midLog <= l
      && size == Shl(Pow2(S(p)) + Low(Shr(size, l - S(p)), S(p)), l - S(p)) + Low(size, l - S(p))
  {
    var l := Msb(size);
    MsbAtLeast(size, p.midLog);
    var n, w := l - S(p), Pow2(S(p));
    var d := Shr(size, n);
    ShlShl(1, S(p), n);
    LowBits(size, n);
    QuotientBounds(size, n, w, d);
    Digits(d, S(p), 1, d - w);
  }

  lemma QuotientBounds(size: nat, n: nat, w: nat, d: nat)
    requires Shl(d, n) <= size < Shl(d, n) + Shl(1, n)
    requires Shl(w, n) <= size < 2 * Shl(w, n)
    ensures w <= d < 2 * w
  {
    ShlAdd(w, w, n);
    ShlAdd(d, 1, n);
    if d < w {
      ShlOrder(d + 1, w, n);
      assert false;
    }
    if 2 * w <= d {
      ShlOrder(2 * w, d, n);
      assert false;
    }
  }

  // ------------------------------------------------------------- the Galois pair

  ghost predicate Fits(p: Params, size: nat, c: nat)
    requires Sane(p)
  {
    0 < c && Size(p, c - 1) < size <= Size(p, c)
  }

  lemma SmallFits(p: Params, size: nat)
    requires Sane(p) && 0 < size <= MidSize(p)
    ensures Fits(p, size, ClassID(p, size)) && ClassID(p, size) <= MidClass(p)
  {
    var n, m := p.minLog, MinSize(p);
    var c := Shr(size + m - 1, n);
    LowBits(size + m - 1, n);
    MidIsMultiple(p);
    Zero(n);
    assert c > 0;
    ShlAdd(MidClass(p), 1, n);
    if MidClass(p) + 1 <= c {
      ShlOrder(MidClass(p) + 1, c, n);
      assert false;
    }
    ShlAdd(c - 1, 1, n);
    SizeBelow(p, c);
    SizeBelow(p, c - 1);
  }

  lemma LargeFits(p: Params, size: nat)
    requires Sane(p) && MidSize(p) < size <= MaxSize(p)
    ensures Fits(p, size, ClassID(p, size)) && MidClass(p) < ClassID(p, size)
  {
    var x, lb := RowAndColumn(p, size);
    if lb == 0 {
      PositiveRow(p, size, x);
      RoundsTo(p, size, x - 1);
    } else {
      RoundsTo(p, size, x);
    }
  }

  lemma RowAndColumn(p: Params, size: nat) returns (x: nat, lb: nat)
    requires Sane(p) && MidSize(p) < size <= MaxSize(p)
    ensures ClassID(p, size) == MidClass(p) + x + if lb > 0 then 1 else 0
    ensures size == Above(p, x) + lb && lb < Pow2(UnitLog(p, Shr(x, S(p))))
  {
    SplitSize(p, size);
    var l := Msb(size);
    var h := Low(Shr(size, l - S(p)), S(p));
    lb := Low(size, l - S(p));
    x := Shl(l - p.midLog, S(p)) + h;
    Digits(x, S(p), l - p.midLog, h);
    AboveIs(p, x, l - p.midLog, h);
  }

  lemma RoundsTo(p: Params, size: nat, x: nat)
    requires Sane(p) && Above(p, x) < size <= Above(p, x) + Pow2(UnitLog(p, Shr(x, S(p))))
    ensures Fits(p, size, MidClass(p) + x + 1)
  {
    AboveStep(p, x);
    SizeAbove(p, x);
    SizeAbove(p, x + 1);
  }

  /** A size above the middle one that needs no rounding is not in column 0 of row 0. */
  lemma PositiveRow(p: Params, size: nat, x: nat)
    requires Sane(p) && MidSize(p) < size == Above(p, x)
    ensures x > 0 && Above(p, x - 1) < size <= Above(p, x - 1) + Pow2(UnitLog(p, Shr(x - 1, S(p))))
  {
    AboveZero(p);
    AboveStep(p, x - 1);
  }

  /** ClassID picks the smallest class that a size fits into. */
  lemma ClassFits(p: Params, size: nat)
    requires Sane(p) && 0 < size <= MaxSize(p)
    ensures Fits(p, size, ClassID(p, size))
  {
    if size <= MidSize(p) {
      SmallFits(p, size);
    } else {
      LargeFits(p, size);
    }
  }

  lemma TooLarge(p: Params, size: nat)
    requires Sane(p) && size > MaxSize(p)
    ensures ClassID(p, size) == 0
  {
    Pow2Order(p.midLog, p.maxLog);
  }

  /** The distance from a class to the next. */
  ghost function Gap(p: Params, c: nat): (g: nat)
    requires Sane(p)
    ensures g > 0
  {
    if c < MidClass(p) then MinSize(p) else Pow2(UnitLog(p, Shr(c - MidClass(p), S(p))))
  }

  lemma SizeStep(p: Params, c: nat)
    requires Sane(p)
    ensures Size(p, c + 1) == Size(p, c) + Gap(p, c)
  {
    if c < MidClass(p) {
      ShlAdd(c, 1, p.minLog);
      SizeBelow(p, c);
      SizeBelow(p, c + 1);
    } else {
      var x := c - MidClass(p);
      SizeAbove(p, x);
      SizeAbove(p, x + 1);
      AboveStep(p, x);
    }
  }

  /** Sizes strictly increase with the class. */
  lemma {:induction false} SizeIncreases(p: Params, c: nat, d: nat)
    requires Sane(p) && c < d
    ensures Size(p, c) < Size(p, d)
    decreases d - c
  {
    SizeStep(p, d - 1);
    if c < d - 1 {
      SizeIncreases(p, c, d - 1);
    }
  }

  /** The last class holds exactly the largest size. */
  lemma LastClass(p: Params)
    requires Sane(p)
    ensures Size(p, NumClasses(p) - 1) == MaxSize(p)
  {
    var q := p.maxLog - p.midLog;
    SizeAbove(p, Shl(q, S(p)));
    AboveRow(p, q);
  }

  /** The first class of row q. */
  lemma AboveRow(p: Params, q: nat)
    requires Sane(p)
    ensures Above(p, Shl(q, S(p))) == Pow2(p.midLog + q)
  {
    ShrShl(q, S(p));
    AboveIs(p, Shl(q, S(p)), q, Low(Shl(q, S(p)), S(p)));
    ShlShl(1, S(p), p.midLog + q - S(p));
  }

  /** A fitting class is unique, so ClassID inverts Size on all classes. */
  lemma FitsUnique(p: Params, size: nat, c: nat, d: nat)
    requires Sane(p) && Fits(p, size, c) && Fits(p, size, d)
    ensures c == d
  {
    if c < d {
      if c < d - 1 {
        SizeIncreases(p, c, d - 1);
      }
    } else if d < c {
      if d < c - 1 {
        SizeIncreases(p, d, c - 1);
      }
    }
  }

  lemma ClassOfSize(p: Params, c: nat)
    requires Sane(p) && 0 < c < NumClasses(p)
    ensures 0 < Size(p, c) <= MaxSize(p) && ClassID(p, Size(p, c)) == c
  {
    SizeStep(p, c - 1);
    LastClass(p);
    if c < NumClasses(p) - 1 {
      SizeIncreases(p, c, NumClasses(p) - 1);
    }
    ClassFits(p, Size(p, c));
    FitsUnique(p, Size(p, c), c, ClassID(p, Size(p, c)));
  }

  /** Everything Validate() checks: class numbers stay in range, a size is served by a class
      that holds it while the class below does not, and one byte more needs the next class. */
  lemma Validate(p: Params, size: nat)
    requires Sane(p) && 0 < size <= MaxSize(p)
    ensures var c := ClassID(p, size);
      && 0 < c < NumClasses(p) && Size(p, c - 1) < size <= Size(p, c)
      && (c < NumClasses(p) - 1 ==> ClassID(p, Size(p, c) + 1) == c + 1)
  {
    var c := ClassID(p, size);
    ClassFits(p, size);
    LastClass(p);
    if NumClasses(p) <= c {
      if NumClasses(p) - 1 < c - 1 {
        SizeIncreases(p, NumClasses(p) - 1, c - 1);
      }
      assert false;
    }
    if c < NumClasses(p) - 1 {
      SizeStep(p, c);
      ClassOfSize(p, c + 1);
      ClassFits(p, Size(p, c) + 1);
      FitsUnique(p, Size(p, c) + 1, c + 1, ClassID(p, Size(p, c) + 1));
    }
  }

  /** Validate() also expects one byte less to need the same class. That holds of a class exactly
      when it is at least two bytes larger than the class below. */
  lemma PredecessorAt(p: Params, c: nat)
    requires Sane(p) && 0 < c < NumClasses(p)
    ensures Size(p, c) > 0
    ensures ClassID(p, Size(p, c) - 1) == c <==> Gap(p, c - 1) >= 2
  {
    SizeStep(p, c - 1);
    ClassOfSize(p, c);
    if Gap(p, c - 1) >= 2 {
      ClassFits(p, Size(p, c) - 1);
      FitsUnique(p, Size(p, c) - 1, c, ClassID(p, Size(p, c) - 1));
    } else if c > 1 {
      ClassOfSize(p, c - 1);
    } else {
      ClassOfZero(p);
    }
  }

  lemma ClassOfZero(p: Params)
    requires Sane(p)
    ensures ClassID(p, 0) == 0 && Size(p, 0) == 0
  {
    var z := 0;
    SizeBelow(p, z);
    Zero(p.minLog);
    Digits(MinSize(p) - 1, p.minLog, z, MinSize(p) - 1);
  }

  ghost predicate PredecessorChecks(p: Params)
    requires Sane(p)
  {
    forall c | 0 < c < NumClasses(p) :: ClassID(p, if Size(p, c) > 0 then Size(p, c) - 1 else 0) == c
  }

  /** So that check passes for exactly these parameters. */
  lemma PredecessorIff(p: Params)
    requires Sane(p)
    ensures PredecessorChecks(p) <==> p.minLog > 0 && (p.midLog == p.maxLog || S(p) < p.midLog)
  {
    MidIsMultiple(p);
    if PredecessorChecks(p) {
      PredecessorAt(p, 1);
      assert Gap(p, 0) == MinSize(p) >= 2;
      if p.midLog < p.maxLog {
        var c := MidClass(p) + 1;
        PredecessorAt(p, c);
        Zero(S(p));
      }
    }
    if p.minLog > 0 && (p.midLog == p.maxLog || S(p) < p.midLog) {
      Zero(S(p));
      forall c | 0 < c < NumClasses(p)
        ensures Size(p, c) > 0 && ClassID(p, Size(p, c) - 1) == c
      {
        PredecessorAt(p, c);
        GapAtLeastTwo(p, c - 1);
      }
    }
  }

  lemma GapAtLeastTwo(p: Params, c: nat)
    requires Sane(p) && p.minLog > 0 && (S(p) < p.midLog || c < MidClass(p))
    ensures Gap(p, c) >= 2
  {
    var n := if c < MidClass(p) then p.minLog else UnitLog(p, Shr(c - MidClass(p), S(p)));
    Pow2Order(1, n);
    assert Pow2(1) == 2 * Shl(1, 0);
  }

  lemma DividedFits(total: nat, size: nat, m: nat)
    requires size > 0 && m <= total / size
    ensures m * size <= total
  {
    var n := total / size;
    assert total == n * size + total % size;
    assert n * size == m * size + (n - m) * size;
  }

  /** How many chunks of a class a thread may cache: at least one, and the most that neither the
      hint limit nor the byte budget forbids. */
  function MaxCachedHint(p: Params, c: nat): (n: nat)
    requires Sane(p)
    ensures (c > 0 ==> 0 < n) && (c == 0 ==> n == 0) && (n <= 1 || n <= p.maxHint)
    ensures c > 0 && n > 1 ==> n * Size(p, c) <= Pow2(p.maxBytesLog)
    ensures c > 0 ==> n >= p.maxHint || (n + 1) * Size(p, c) > Pow2(p.maxBytesLog)
  {
    if c == 0 then 0
    else
      SizeIncreases(p, 0, c);
      var n := Pow2(p.maxBytesLog) / Size(p, c);
      var m := if p.maxHint < n then p.maxHint else n;
      DividedFits(Pow2(p.maxBytesLog), Size(p, c), m);
      DividedFull(Pow2(p.maxBytesLog), Size(p, c), if 1 < n then n else 1);
      if 1 < m then m else 1
  }

  lemma DividedFull(total: nat, size: nat, m: nat)
    requires size > 0 && m >= total / size
    ensures (m + 1) * size > total
  {
    var n := total / size;
    assert total == n * size + total % size;
    assert (m + 1) * size == n * size + size + (m - n) * size;
  }

  /** With at least 16-byte steps every size is a multiple of 16, as compact pointers need. */
  lemma SizesAreCompact(p: Params, c: nat)
    requires Sane(p) && 4 <= p.minLog && S(p) + 4 <= p.midLog
    ensures Size(p, c) % 16 == 0
  {
    if c <= MidClass(p) {
      SizeBelow(p, c);
      MultipleOf16(c, p.minLog);
    } else {
      var x := c - MidClass(p);
      SizeAbove(p, x);
      AboveIs(p, x, Shr(x, S(p)), Low(x, S(p)));
      MultipleOf16(Pow2(S(p)) + Low(x, S(p)), p.midLog + Shr(x, S(p)) - S(p));
    }
  }

  lemma MultipleOf16(x: nat, n: nat)
    requires 4 <= n
    ensures Shl(x, n) % 16 == 0
  {
    var y := Shl(x, n - 4);
    assert Shl(x, n - 3) == 2 * y;
    assert Shl(x, n - 2) == 4 * y;
    assert Shl(x, n - 1) == 8 * y;
    assert Shl(x, n) == 16 * y;
  }
}
