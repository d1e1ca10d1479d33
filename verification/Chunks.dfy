/**
 Arithmetic of chunks: the i-th chunk of a region starts at i * size, kept as a recursive sum so
 that everything about it follows by induction.
 */
module Chunks {
  import opened Sorting

  function Times(n: nat, d: nat): nat {
    if n == 0 then 0 else Times(n - 1, d) + d
  }

  /** x / d */
  function Fit(x: nat, d: nat): (n: nat)
    requires d > 0
    ensures Times(n, d) <= x < Times(n, d) + d
    decreases x
  {
    if x < d then 0 else Fit(x - d, d) + 1
  }

  lemma {:induction false} TimesAdd(m: nat, n: nat, d: nat)
    ensures Times(m + n, d) == Times(m, d) + Times(n, d)
  {
    if n > 0 {
      TimesAdd(m, n - 1, d);
    }
  }

  lemma {:induction false} TimesScale(n: nat, u: nat)
    ensures Times(n, 16 * u) == 16 * Times(n, u)
  {
    if n > 0 {
      TimesScale(n - 1, u);
    }
  }

  /** Later chunks start at least one chunk higher. */
  lemma TimesGap(i: nat, j: nat, u: nat)
    requires i < j
    ensures Times(i, u) + u <= Times(j, u)
  {
    TimesAdd(i, j - i, u);
    TimesAdd(1, j - i - 1, u);
    assert Times(1, u) == Times(0, u) + u;
  }

  lemma FitAtLeast(n: nat, x: nat, d: nat)
    requires d > 0 && Times(n, d) <= x
    ensures n <= Fit(x, d)
  {
    if Fit(x, d) < n {
      TimesGap(Fit(x, d), n, d);
      assert false;
    }
  }

  // ------------------------------------------------------------- all chunks of a region

  ghost function All(k: nat, u: nat): multiset<nat> {
    if k == 0 then multiset{} else All(k - 1, u) + multiset{Times(k - 1, u)}
  }

  lemma {:induction false} AllIndex(k: nat, u: nat, c: nat) returns (i: nat)
    requires c in All(k, u)
    ensures i < k && c == Times(i, u)
  {
    if c == Times(k - 1, u) {
      i := k - 1;
    } else {
      i := AllIndex(k - 1, u, c);
    }
  }

  lemma {:induction false} AllOnce(k: nat, u: nat, c: nat)
    requires u > 0
    ensures All(k, u)[c] <= 1
  {
    if k > 0 {
      AllOnce(k - 1, u, c);
      if c == Times(k - 1, u) && c in All(k - 1, u) {
        var i := AllIndex(k - 1, u, c);
        TimesGap(i, k - 1, u);
        assert false;
      }
    }
  }

  lemma AllGap(k: nat, u: nat, c: nat, d: nat)
    requires c in All(k, u) && d in All(k, u) && c < d
    ensures c + u <= d
  {
    var i := AllIndex(k, u, c);
    var j := AllIndex(k, u, d);
    if j < i {
      TimesGap(j, i, u);
      assert false;
    }
    if i < j {
      TimesGap(i, j, u);
    }
  }

  lemma AllBelow(k: nat, u: nat, c: nat)
    requires c in All(k, u)
    ensures c + u <= Times(k, u)
  {
    var i := AllIndex(k, u, c);
    TimesGap(i, k, u);
  }

  lemma {:induction false} AllCount(k: nat, u: nat)
    ensures |All(k, u)| == k
  {
    if k > 0 {
      AllCount(k - 1, u);
    }
  }

  /** Part of the universe has no repetitions. */
  lemma PartNoDup(s: seq<nat>, rest: multiset<nat>, k: nat, u: nat)
    requires u > 0 && multiset(s) + rest == All(k, u)
    ensures NoDup(s)
    ensures forall c :: c in s ==> c in All(k, u)
  {
    forall c | c in multiset(s) ensures multiset(s)[c] == 1 && c in All(k, u) {
      AllOnce(k, u, c);
      assert (multiset(s) + rest)[c] == multiset(s)[c] + rest[c];
    }
    NoDupIff(s);
    forall c | c in s ensures c in All(k, u) {
      assert c in multiset(s);
    }
  }

  // ------------------------------------------------------------- the thread caches

  datatype PerClass = PerClass(maxCount: nat, chunks: seq<nat>)

  ghost function Held(cs: seq<PerClass>): multiset<nat> {
    if cs == [] then multiset{} else multiset(cs[0].chunks) + Held(cs[1..])
  }

  lemma {:induction false} HeldUpdate(cs: seq<PerClass>, t: nat, c: PerClass)
    requires t < |cs|
    ensures Held(cs[t := c]) + multiset(cs[t].chunks) == Held(cs) + multiset(c.chunks)
  {
    var ds := cs[t := c];
    if t == 0 {
      assert ds[1..] == cs[1..];
    } else {
      assert ds[1..] == cs[1..][t - 1 := c];
      HeldUpdate(cs[1..], t - 1, c);
      assert cs[1..][t - 1] == cs[t];
      AddBoth(multiset(cs[0].chunks), Held(ds[1..]), multiset(cs[t].chunks), Held(cs[1..]), multiset(c.chunks));
    }
  }

  lemma AddBoth(a: multiset<nat>, p: multiset<nat>, q: multiset<nat>, r: multiset<nat>, s: multiset<nat>)
    requires p + q == r + s
    ensures a + p + q == a + r + s
  {
    assert a + p + q == a + (p + q);
    assert a + r + s == a + (r + s);
  }

  lemma {:induction false} HeldEmpty(cs: seq<PerClass>)
    requires forall t :: 0 <= t < |cs| ==> cs[t].chunks == []
    ensures Held(cs) == multiset{}
  {
    if cs != [] {
      assert cs[0].chunks == [];
      HeldEmpty(cs[1..]);
    }
  }
}
