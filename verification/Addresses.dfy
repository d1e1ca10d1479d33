/**
 64-bit address arithmetic used by the allocators: rounding and alignment by powers of two.
 */
module Addresses {
  import SizeClassMap

  /** 2^64. */
  function W(): (w: nat)
    ensures w > 0
  {
    0x1_0000_0000_0000_0000
  }

  lemma WordIsPower()
    ensures W() == SizeClassMap.Pow2(64)
  {
    assert SizeClassMap.Pow2(1) == 2 * SizeClassMap.Shl(1, 0);
    Square(1);
    Square(2);
    Square(4);
    Square(8);
    Square(16);
    Square(32);
  }

  lemma Square(n: nat)
    ensures SizeClassMap.Pow2(2 * n) == SizeClassMap.Pow2(n) * SizeClassMap.Pow2(n)
  {
    SizeClassMap.ShlShl(1, n, n);
    SizeClassMap.ShlIsMul(SizeClassMap.Pow2(n), n);
  }

  /** x modulo 2^64. */
  function Wrap(x: nat): (r: nat)
    ensures r < W()
  {
    if x < W() then x else Wrap(x - W())
  }

  predicate IsPowerOfTwo(x: nat) {
    x == 1 || (x > 0 && x % 2 == 0 && IsPowerOfTwo(x / 2))
  }

  /** x & y. */
  function And(x: nat, y: nat): nat {
    if x == 0 || y == 0 then 0 else 2 * And(x / 2, y / 2) + (x % 2) * (y % 2)
  }

  lemma {:induction false} AndSelf(x: nat)
    ensures And(x, x) == x
  {
    if x > 0 {
      AndSelf(x / 2);
    }
  }

  /** The bit test for powers of two is right for every positive number. */
  lemma {:induction false} PowerTest(x: nat)
    requires x > 0
    ensures And(x, x - 1) == 0 <==> IsPowerOfTwo(x)
  {
    if x % 2 == 1 {
      AndSelf(x / 2);
      assert (x - 1) / 2 == x / 2;
    } else {
      PowerTest(x / 2);
      assert (x - 1) / 2 == x / 2 - 1;
    }
  }

  /** x & (b - 1), the remainder, for a power of two b. */
  function LowBits(x: nat, b: nat): (r: nat)
    requires b > 0
    ensures r < b && r <= x
    decreases x
  {
    if x < b then x else LowBits(x - b, b)
  }

  predicate IsAligned(x: nat, b: nat)
    requires b > 0
  {
    LowBits(x, b) == 0
  }

  /** x & ~(b - 1): the largest multiple of b at or below x. */
  function RoundDownTo(x: nat, b: nat): (r: nat)
    requires b > 0
    ensures r <= x < r + b && IsAligned(r, b)
  {
    RestAligned(x, b);
    x - LowBits(x, b)
  }

  lemma {:induction false} RestAligned(x: nat, b: nat)
    requires b > 0
    ensures IsAligned(x - LowBits(x, b), b)
    decreases x
  {
    if x >= b {
      RestAligned(x - b, b);
    }
  }

  /** The least multiple of b at or above x, on unbounded integers. */
  function CeilTo(x: nat, b: nat): (r: nat)
    requires b > 0
    ensures x <= r < x + b && IsAligned(r, b)
  {
    RoundDownTo(x + b - 1, b)
  }

  /** RoundUpTo on 64-bit words: the sum may wrap. */
  function RoundUpTo(x: nat, b: nat): (r: nat)
    requires b > 0
  {
    RoundDownTo(Wrap(x + b - 1), b)
  }

  lemma {:induction false} AlignedSum(x: nat, y: nat, b: nat)
    requires b > 0 && IsAligned(x, b) && IsAligned(y, b)
    ensures IsAligned(x + y, b)
    decreases x
  {
    if x >= b {
      AlignedSum(x - b, y, b);
    }
  }

  lemma {:induction false} AlignedDiff(x: nat, y: nat, b: nat)
    requires b > 0 && y <= x && IsAligned(x, b) && IsAligned(y, b)
    ensures IsAligned(x - y, b)
    decreases x
  {
    if y >= b {
      AlignedDiff(x - b, y - b, b);
    }
  }

  lemma {:induction false} AlignedTrans(x: nat, a: nat, b: nat)
    requires a > 0 && b > 0 && IsAligned(x, a) && IsAligned(a, b)
    ensures IsAligned(x, b)
    decreases x
  {
    if x >= a {
      AlignedTrans(x - a, a, b);
      AlignedSum(x - a, a, b);
    }
  }

  lemma {:induction false} LogOf(x: nat) returns (n: nat)
    requires IsPowerOfTwo(x)
    ensures x == SizeClassMap.Pow2(n)
  {
    if x == 1 {
      n := 0;
    } else {
      var m := LogOf(x / 2);
      n := m + 1;
    }
  }

  lemma {:induction false} Pow2Aligned(a: nat, b: nat)
    requires a <= b
    ensures IsAligned(SizeClassMap.Pow2(b), SizeClassMap.Pow2(a))
    decreases b
  {
    if a < b {
      Pow2Aligned(a, b - 1);
      AlignedSum(SizeClassMap.Pow2(b - 1), SizeClassMap.Pow2(b - 1), SizeClassMap.Pow2(a));
    } else {
      assert LowBits(SizeClassMap.Pow2(a) - SizeClassMap.Pow2(a), SizeClassMap.Pow2(a)) == 0;
    }
  }

  lemma {:induction false} Pow2Strict(a: nat, b: nat)
    requires a < b
    ensures 2 * SizeClassMap.Pow2(a) <= SizeClassMap.Pow2(b)
  {
    SizeClassMap.Pow2Order(a + 1, b);
  }

  /** Of two powers of two the smaller divides the larger, and below 2^64 one is at most half of it. */
  lemma PowersDivide(x: nat, y: nat)
    requires IsPowerOfTwo(x) && IsPowerOfTwo(y)
    ensures x > 0 && y > 0
    ensures x <= y ==> IsAligned(y, x)
    ensures x < y ==> 2 * x <= y
  {
    var m := LogOf(x);
    var n := LogOf(y);
    if m <= n {
      Pow2Aligned(m, n);
      if m < n {
        Pow2Strict(m, n);
      }
    } else {
      Pow2Strict(n, m);
    }
  }

  lemma BelowWord(x: nat)
    requires IsPowerOfTwo(x) && x < W()
    ensures x > 0 && 2 * x <= W() && IsAligned(W(), x)
  {
    WordIsPower();
    var m := LogOf(x);
    if 64 < m {
      Pow2Strict(64, m);
      assert false;
    }
    Pow2Aligned(m, 64);
    if m < 64 {
      Pow2Strict(m, 64);
    }
  }

  /** Unwrapped, a 64-bit rounding is exact; wrapped, it is zero. */
  lemma RoundUpExact(x: nat, b: nat)
    requires x < W() && IsPowerOfTwo(b) && b < W()
    ensures b > 0
    ensures CeilTo(x, b) < W() ==> RoundUpTo(x, b) == CeilTo(x, b)
    ensures CeilTo(x, b) >= W() ==> RoundUpTo(x, b) == 0
  {
    BelowWord(b);
    var s := x + b - 1;
    if s >= W() {
      WrapOnce(s);
      SmallRoundsToZero(s - W(), b);
      AlignedAtLeast(s, W(), b);
    }
  }

  lemma WrapOnce(x: nat)
    requires W() <= x < 2 * W()
    ensures Wrap(x) == x - W()
  {
    assert Wrap(x - W()) == x - W();
  }

  lemma SmallRoundsToZero(x: nat, b: nat)
    requires x < b
    ensures RoundDownTo(x, b) == 0
  {
  }

  /** A multiple at or below x is at or below the rounded x. */
  lemma AlignedAtLeast(x: nat, m: nat, b: nat)
    requires b > 0 && m <= x && IsAligned(m, b)
    ensures m <= RoundDownTo(x, b)
  {
    var r := RoundDownTo(x, b);
    if r < m {
      AlignedGap(r, m, b);
    }
  }

  /** Distinct multiples of b are at least b apart. */
  lemma AlignedGap(r: nat, m: nat, b: nat)
    requires b > 0 && r < m && IsAligned(m, b) && IsAligned(r, b)
    ensures r + b <= m
  {
    AlignedDiff(m, r, b);
  }

  /** The aligning step "x += a - (x & (a - 1))". */
  lemma AlignUp(x: nat, a: nat)
    requires a > 0
    ensures IsAligned(x + (a - LowBits(x, a)), a)
  {
    RestAligned(x, a);
    var r := x - LowBits(x, a);
    assert LowBits(r + a, a) == LowBits(r, a);
  }
}
