/** Bounded random numbers: the rejection test and why it leaves no bias. The words of the generator are an input. */
module Random {
  import opened Powers

  datatype Option<T> = None | Some(value: T)

  // ---------------------------------------------------------------- bitwise and

  /** Bitwise conjunction. */
  function And(x: nat, y: nat): (r: nat)
    decreases x
  {
    if x == 0 || y == 0 then 0
    else (if x % 2 == 1 && y % 2 == 1 then 1 else 0) + 2 * And(x / 2, y / 2)
  }

  ghost predicate IsPow2(b: nat) { exists k: nat :: b == Pow2(k) }

  /** Masking with `2^k - 1` is the remainder modulo `2^k`. */
  lemma {:induction false} AndMask(x: nat, k: nat)
    ensures And(x, Pow2(k) - 1) == x % Pow2(k)
    decreases k
  {
    if x == 0 || k == 0 {
      AndMaskNone(x, k);
    } else {
      Pow2Step(k - 1);
      hide And, Pow2;
      AndMask(x / 2, k - 1);
      AndMaskDouble(x, Pow2(k - 1));
    }
  }

  lemma AndMaskNone(x: nat, k: nat)
    requires x == 0 || k == 0
    ensures And(x, Pow2(k) - 1) == x % Pow2(k)
  {
    if x == 0 { RemainderUnique(0, Pow2(k), 0, 0); }
  }

  lemma AndMaskDouble(x: nat, p: nat)
    requires x > 0 && p > 0 && And(x / 2, p - 1) == x / 2 % p
    ensures And(x, 2 * p - 1) == x % (2 * p)
  {
    ModDouble(x, p);
    AndOdd(x, p);
    hide And;
  }

  lemma AndOdd(x: nat, p: nat)
    requires x > 0 && p > 0
    ensures And(x, 2 * p - 1) == x % 2 + 2 * And(x / 2, p - 1)
  {
    assert (2 * p - 1) / 2 == p - 1 && (2 * p - 1) % 2 == 1;
  }

  lemma ModDouble(x: nat, p: nat)
    requires p > 0
    ensures x % (2 * p) == x % 2 + 2 * (x / 2 % p)
  {
    var q, m := x / 2 / p, x / 2 % p;
    assert x / 2 == q * p + m;
    assert x == q * (2 * p) + (x % 2 + 2 * m) by { assert 2 * (q * p) == q * (2 * p); }
    RemainderUnique(x, 2 * p, q, x % 2 + 2 * m);
  }

  lemma RemainderUnique(x: nat, n: nat, q: nat, r: nat)
    requires r < n && x == q * n + r
    ensures x % n == r
  {
    var d := x / n - q;
    assert x == x / n * n + x % n;
    assert d * n == r - x % n;
    assert (-d) * n == x % n - r;
    if d >= 1 { MulAtLeast(d, n); } else if d <= -1 { MulAtLeast(-d, n); }
  }

  lemma {:induction false} AndSelf(x: nat)
    ensures And(x, x) == x
  {
    if x > 0 { AndSelf(x / 2); }
  }

  /** The test `(b & (b - 1)) == 0` picks out exactly the powers of two. */
  lemma {:induction false} Pow2Test(b: nat)
    requires b > 0
    ensures And(b, b - 1) == 0 <==> IsPow2(b)
  {
    if b == 1 {
      assert Pow2(0) == 1;
    } else if b % 2 == 1 {
      assert And(b, b - 1) == 2 * And(b / 2, b / 2);
      AndSelf(b / 2);
      forall k: nat ensures Pow2(k) != b {
        if k > 0 { assert Pow2(k) % 2 == 0; }
      }
    } else {
      assert (b - 1) / 2 == b / 2 - 1;
      Pow2Test(b / 2);
      if IsPow2(b / 2) {
        var k: nat :| b / 2 == Pow2(k);
        assert b == Pow2(k + 1);
      }
      if IsPow2(b) {
        var k: nat :| b == Pow2(k);
        assert b / 2 == Pow2(k - 1);
      }
    }
  }

  // ---------------------------------------------------------------- the rejection test

  /** `-bound % bound` in 64-bit arithmetic. */
  function Threshold(bound: nat): (t: nat)
    requires 0 < bound < TWO_64
    ensures t < bound
  {
    (TWO_64 - bound) % bound
  }

  /** A drawn word is used. */
  predicate Accepted(bound: nat, x: nat)
    requires 0 < bound < TWO_64
  {
    And(bound, bound - 1) == 0 || x >= Threshold(bound)
  }

  /** What a used word becomes: masked when the bound is a power of two, reduced otherwise. */
  function Reduced(bound: nat, x: nat): (r: nat)
    requires 0 < bound < TWO_64
  {
    if And(bound, bound - 1) == 0 then And(x, bound - 1) else x % bound
  }

  /** Both branches compute the same residue. */
  lemma ReducedIsMod(bound: nat, x: nat)
    requires 0 < bound < TWO_64
    ensures Reduced(bound, x) == x % bound
  {
    Pow2Test(bound);
    if And(bound, bound - 1) == 0 {
      var k: nat :| bound == Pow2(k);
      AndMask(x, k);
    }
  }

  /** `random_bounded_u64` on a stream of words: the first acceptable one decides; `None` when the stream ends first. */
  method BoundedU64(bound: nat, words: seq<nat>) returns (r: Option<nat>, used: nat)
    requires bound < TWO_64 && forall i :: 0 <= i < |words| ==> words[i] < TWO_64
    ensures used <= |words|
    ensures bound == 0 ==> r == Some(0) && used == 0
    ensures bound > 0 && r.Some? ==>
      && used > 0 && Accepted(bound, words[used - 1]) && r.value == words[used - 1] % bound
      && forall i :: 0 <= i < used - 1 ==> !Accepted(bound, words[i])
    ensures bound > 0 && r.None? ==> used == |words| && forall i :: 0 <= i < |words| ==> !Accepted(bound, words[i])
  {
    used := 0;
    if bound == 0 {
      return Some(0), 0;
    }
    if And(bound, bound - 1) == 0 {
      if |words| == 0 {
        return None, 0;
      }
      ReducedIsMod(bound, words[0]);
      return Some(And(words[0], bound - 1)), 1;
    }
    var threshold := (TWO_64 - bound) % bound;
    while used < |words|
      invariant used <= |words| && forall i :: 0 <= i < used ==> !Accepted(bound, words[i])
    {
      var x := words[used];
      used := used + 1;
      if x >= threshold {
        return Some(x % bound), used;
      }
    }
    return None, used;
  }

  // ---------------------------------------------------------------- no bias

  /** The numbers in `[lo, hi)` with residue `r` modulo `b`. */
  ghost function Class(lo: int, hi: int, b: nat, r: nat): set<int>
    requires b > 0
  {
    set x | lo <= x < hi && x % b == r
  }

  /** In `b` consecutive numbers each residue occurs exactly once. */
  lemma OneInBlock(base: nat, b: nat, r: nat) returns (e: int)
    requires r < b
    ensures Class(base, base + b, b, r) == {e} && base <= e < base + b
  {
    var m := base % b;
    e := if m <= r then base + (r - m) else base + (r - m) + b;
    var q := if m <= r then base / b else base / b + 1;
    assert base == base / b * b + m;
    assert e == q * b + r by { assert (base / b + 1) * b == base / b * b + b; }
    RemainderUnique(e, b, q, r);
    forall x | base <= x < base + b && x % b == r ensures x == e {
      NearResidues(x, e, b, q, r);
    }
  }

  /** Two numbers with the same residue, less than `b` apart, are equal. */
  lemma NearResidues(x: int, e: int, b: nat, q: int, r: nat)
    requires b > 0 && x % b == r && e == q * b + r && -(b as int) < x - e < b
    ensures x == e
  {
    assert x == x / b * b + r;
    var d := x / b - q;
    assert d * b == x - e && (-d) * b == e - x;
    if d >= 1 { MulAtLeast(d, b); } else if d <= -1 { MulAtLeast(-d, b); }
  }

  /** In `q` blocks of `b` consecutive numbers each residue occurs `q` times. */
  lemma {:induction false} ClassSize(lo: nat, q: nat, b: nat, r: nat)
    requires r < b
    ensures |Class(lo, lo + q * b, b, r)| == q
    decreases q
  {
    if q == 0 {
      assert Class(lo, lo + q * b, b, r) == {};
    } else {
      ClassSize(lo, q - 1, b, r);
      var base := lo + (q - 1) * b;
      assert lo + q * b == base + b by { assert q * b == (q - 1) * b + b; }
      var e := OneInBlock(base, b, r);
      var a := Class(lo, base, b, r);
      assert Class(lo, base + b, b, r) == a + Class(base, base + b, b, r);
      assert e !in a;
    }
  }

  /** The words that are used and give result `r`. */
  ghost function Hits(bound: nat, r: nat): set<int>
    requires 0 < bound < TWO_64
  {
    set x: int | 0 <= x < TWO_64 && Accepted(bound, x) && x % bound == r
  }

  /** 2^64 less the threshold is a whole number of blocks, and powers of two reject nothing. */
  lemma ThresholdExact(bound: nat) returns (q: nat)
    requires 0 < bound < TWO_64
    ensures TWO_64 == Threshold(bound) + q * bound
    ensures IsPow2(bound) ==> Threshold(bound) == 0
  {
    var y := TWO_64 - bound;
    q := y / bound + 1;
    assert y == y / bound * bound + y % bound;
    assert q * bound == y / bound * bound + bound;
    if IsPow2(bound) {
      var k: nat :| bound == Pow2(k);
      var m := Pow2Divides(k);
      assert y == (m - 1) * bound;
      RemainderUnique(y, bound, m - 1, 0);
    }
  }

  /** Every power of two below 2^64 divides 2^64. */
  lemma Pow2Divides(k: nat) returns (m: nat)
    requires Pow2(k) < TWO_64
    ensures m >= 1 && TWO_64 == m * Pow2(k)
  {
    Pow2Of64();
    if k >= 64 { Pow2Monotone(64, k); }
    m := Pow2(64 - k);
    Pow2Sum(64 - k, k);
  }

  lemma Pow2Of64()
    ensures Pow2(64) == TWO_64
  {
    assert Pow2(4) == 0x10;
    hide Pow2;
    Pow2Sum(4, 4);
    assert Pow2(8) == 0x100;
    Pow2Sum(8, 8);
    assert Pow2(16) == 0x1_0000;
    Pow2Sum(16, 16);
    assert Pow2(32) == 0x1_0000_0000;
    Pow2Sum(32, 32);
  }

  lemma {:induction false} Pow2Monotone(a: nat, b: nat)
    requires a <= b
    ensures Pow2(a) <= Pow2(b)
    decreases b - a
  {
    if a < b { Pow2Monotone(a, b - 1); }
  }

  /** No bias: each of the `bound` results is produced by equally many of the words that are used. */
  lemma Unbiased(bound: nat, r: nat, r': nat)
    requires 0 < bound < TWO_64 && r < bound && r' < bound
    ensures |Hits(bound, r)| == |Hits(bound, r')| > 0
  {
    var q := ThresholdExact(bound);
    Pow2Test(bound);
    var t := Threshold(bound);
    ClassSize(t, q, bound, r);
    ClassSize(t, q, bound, r');
    assert forall x: int :: 0 <= x < TWO_64 ==> (Accepted(bound, x) <==> x >= t);
    assert Hits(bound, r) == Class(t, TWO_64, bound, r);
    assert Hits(bound, r') == Class(t, TWO_64, bound, r');
    assert q > 0 by { if q == 0 { ZeroTimes(bound); } }
  }

  lemma ZeroTimes(n: nat)
    ensures 0 * n == 0
  {
  }

  // ---------------------------------------------------------------- ranges

  /** The minimum and a residue of the range length stay below 2^32. */
  lemma SumBelow(min: nat, range: nat, x: nat)
    requires 0 < range && min + range <= TWO_32
    ensures (min + x % range) % TWO_32 == min + x % range < min + range
  {
  }

  /** `random_range_u32`. */
  method RangeU32(min: nat, max: nat, words: seq<nat>) returns (r: Option<nat>, used: nat)
    requires min < TWO_32 && max < TWO_32 && forall i :: 0 <= i < |words| ==> words[i] < TWO_64
    ensures min <= max && r.Some? ==> min <= r.value <= max
    ensures min >= max ==> r == Some(min) && used == 0
    ensures min < max && r.Some? ==> 0 < used <= |words| && r.value == min + words[used - 1] % (max - min + 1)
  {
    if min >= max {
      return Some(min), 0;
    }
    hide Accepted;
    var range := max - min + 1;
    var v;
    v, used := BoundedU64(range, words);
    if v.None? {
      return None, used;
    }
    SumBelow(min, range, words[used - 1]);
    return Some((min + v.value) % TWO_32), used;
  }

  /** The range length of `random_range_u64`; it wraps to 0 for the full range. */
  function Range64(min: nat, max: nat): (n: nat)
    requires min < max < TWO_64
    ensures n < TWO_64 && (n == 0 <==> min == 0 && max == TWO_64 - 1)
  {
    (max - min + 1) % TWO_64
  }

  /** No sum of the minimum and a residue wraps. */
  lemma ModBound(min: nat, max: nat, x: nat)
    requires min < max < TWO_64
    ensures Range64(min, max) > 0 ==>
      min + x % Range64(min, max) <= max && (min + x % Range64(min, max)) % TWO_64 == min + x % Range64(min, max)
  {
  }

  /** `random_range_u64`: always inside the range, without wrap-around. */
  method RangeU64(min: nat, max: nat, words: seq<nat>) returns (r: Option<nat>, used: nat)
    requires min < TWO_64 && max < TWO_64 && forall i :: 0 <= i < |words| ==> words[i] < TWO_64
    ensures min <= max && r.Some? ==> min <= r.value <= max
    ensures min >= max ==> r == Some(min) && used == 0
    ensures min < max && r.Some? && Range64(min, max) > 0 ==>
      && 0 < used <= |words| && Accepted(Range64(min, max), words[used - 1])
      && r.value == min + words[used - 1] % Range64(min, max)
    ensures min < max && Range64(min, max) == 0 ==> r == Some(min) && used == 0
  {
    if min >= max {
      return Some(min), 0;
    }
    hide Accepted, Range64;
    var v;
    v, used := BoundedU64(Range64(min, max), words);
    if v.None? {
      return None, used;
    }
    ModBound(min, max, if used > 0 then words[used - 1] else 0);
    return Some((min + v.value) % TWO_64), used;
  }

  /** The words from which `random_range_u64` produces `v` on the first draw. */
  ghost function RangeHits(min: nat, max: nat, v: nat): set<int>
    requires min < max < TWO_64
  {
    var n := Range64(min, max);
    set x: int | 0 <= x < TWO_64 && (n > 0 ==> Accepted(n, x)) && v == min + (if n > 0 then x % n else 0)
  }

  /** The full 64-bit range is the exception: no word at all leads to 1, every word leads to 0. */
  lemma FullRangeBiased(x: nat)
    requires x < TWO_64
    ensures RangeHits(0, TWO_64 - 1, 1) == {} && x in RangeHits(0, TWO_64 - 1, 0)
  {
    assert Range64(0, TWO_64 - 1) == 0;
    assert RangeHits(0, TWO_64 - 1, 1) == {};
    assert x in RangeHits(0, TWO_64 - 1, 0);
  }

  /** Exactly when the 64-bit range is unbiased: for every range but the full one, whose length wraps to 0 so
      that only the minimum is ever returned. */
  lemma RangeUnbiasedIff(min: nat, max: nat)
    requires min < max < TWO_64
    ensures (forall v: nat, w: nat :: min <= v <= max && min <= w <= max ==> |RangeHits(min, max, v)| == |RangeHits(min, max, w)|)
      <==> !(min == 0 && max == TWO_64 - 1)
  {
    var n := Range64(min, max);
    if n > 0 {
      forall v: nat, w: nat | min <= v <= max && min <= w <= max
        ensures |RangeHits(min, max, v)| == |RangeHits(min, max, w)|
      {
        assert RangeHits(min, max, v) == Hits(n, v - min);
        assert RangeHits(min, max, w) == Hits(n, w - min);
        Unbiased(n, v - min, w - min);
      }
    } else {
      assert 0 in RangeHits(min, max, 0);
      assert RangeHits(min, max, 1) == {};
      assert |RangeHits(min, max, 0)| != |RangeHits(min, max, 1)|;
    }
  }
}
