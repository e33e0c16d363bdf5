/** Bit arithmetic of merkle/util.go, over naturals.
    `U32` makes the wrap-around of Go's uint32 explicit. */
module Bits {
  import opened Common

  function U32(x: int): (r: nat)
    ensures r < U32_SIZE
  {
    if 0 <= x < U32_SIZE then x else x % U32_SIZE
  }

  function Pow2(k: nat): (p: nat)
    ensures p > 0
  {
    if k == 0 then 1 else 2 * Pow2(k - 1)
  }

  /** The number of 1 bits. */
  function CountBit(n: nat): nat
  {
    if n == 0 then 0 else n % 2 + CountBit(n / 2)
  }

  /** The 1-based position of the highest 1 bit, 0 for 0. */
  function HighBit(n: nat): nat
  {
    if n == 0 then 0 else 1 + HighBit(n / 2)
  }

  /** `num & -num`: the lowest 1 bit alone. */
  function LowestSetBit(n: nat): nat
  {
    if n == 0 then 0 else if n % 2 == 1 then 1 else 2 * LowestSetBit(n / 2)
  }

  /** The 1-based position of the lowest 1 bit, 0 for 0. */
  function LowBit(n: nat): nat
  {
    HighBit(LowestSetBit(n))
  }

  lemma {:induction false} CountBitPositive(n: nat)
    ensures 0 <= CountBit(n) <= n
    ensures n > 0 ==> CountBit(n) > 0
  {
    if n > 1 {
      CountBitPositive(n / 2);
    }
  }

  lemma {:induction false} LowestSetBitPositive(n: nat)
    requires n > 0
    ensures LowestSetBit(n) > 0
  {
    if n % 2 == 0 { LowestSetBitPositive(n / 2); }
  }

  lemma {:induction false} LowBitEven(n: nat)
    requires n > 0
    ensures LowBit(2 * n) == 1 + LowBit(n)
    ensures LowBit(2 * n + 1) == 1
  {
    assert (2 * n) / 2 == n && (2 * n + 1) % 2 == 1;
    assert LowestSetBit(2 * n) == 2 * LowestSetBit(n);
    LowestSetBitPositive(n);
    assert HighBit(1) == 1 + HighBit(0);
  }

  // ---------- where a tree is split ----------

  /** `p`, doubled until the next doubling would reach `n`. */
  function DoubleBelow(n: nat, p: nat): (k: nat)
    requires 1 <= p < n
    ensures 1 <= k < n <= 2 * k
    decreases n - p
  {
    if 2 * p >= n then p else DoubleBelow(n, 2 * p)
  }

  /** The largest power of two below `n`, where the tree of `n` leaves is split. */
  function Split(n: nat): (k: nat)
    requires n >= 2
    ensures 1 <= k < n <= 2 * k
  {
    DoubleBelow(n, 1)
  }

  /** A tree of `n` leaves is perfect. */
  predicate Perfect(n: nat)
  {
    n == 1 || (n >= 2 && n == 2 * Split(n))
  }

  ghost predicate IsPow2(n: nat)
  {
    exists e: nat :: n == Pow2(e)
  }

  lemma IsPow2Double(n: nat)
    requires IsPow2(n)
    ensures IsPow2(2 * n)
  {
    var e: nat :| n == Pow2(e);
    assert 2 * n == Pow2(e + 1);
  }

  lemma {:induction false} DoubleBelowIsPow2(n: nat, p: nat)
    requires 1 <= p < n && IsPow2(p)
    ensures IsPow2(DoubleBelow(n, p))
    decreases n - p
  {
    if 2 * p < n {
      IsPow2Double(p);
      DoubleBelowIsPow2(n, 2 * p);
    }
  }

  lemma SplitIsPow2(n: nat)
    requires n >= 2
    ensures IsPow2(Split(n))
  {
    assert Pow2(0) == 1;
    DoubleBelowIsPow2(n, 1);
  }

  lemma {:induction false} Pow2Order(a: nat, b: nat)
    ensures a < b ==> 2 * Pow2(a) <= Pow2(b)
  {
    if a > 0 && b > 0 { Pow2Order(a - 1, b - 1); }
    else if b > 1 { Pow2Order(a, b - 1); }
  }

  lemma SplitUnique(n: nat, p: nat)
    requires IsPow2(p) && p < n <= 2 * p
    ensures Split(n) == p
  {
    SplitIsPow2(n);
    var a: nat :| p == Pow2(a);
    var b: nat :| Split(n) == Pow2(b);
    Pow2Order(a, b);
    Pow2Order(b, a);
  }

  lemma {:induction false} HighBitRange(n: nat)
    requires n > 0
    ensures HighBit(n) > 0
    ensures Pow2(HighBit(n) - 1) <= n < 2 * Pow2(HighBit(n) - 1)
  {
    if n > 1 {
      HighBitRange(n / 2);
      assert HighBit(n) - 1 == (HighBit(n / 2) - 1) + 1;
    }
  }

  /** The split is the program's `1 << (highBit(n-1) - 1)`. */
  lemma SplitIsShift(n: nat)
    requires n >= 2
    ensures HighBit(n - 1) > 0 && Split(n) == Pow2(HighBit(n - 1) - 1)
  {
    HighBitRange(n - 1);
    SplitUnique(n, Pow2(HighBit(n - 1) - 1));
  }

  lemma PerfectIsPow2(n: nat)
    ensures Perfect(n) <==> IsPow2(n)
  {
    if n == 1 {
      assert Pow2(0) == 1;
    } else if Perfect(n) {
      SplitIsPow2(n);
      IsPow2Double(Split(n));
    } else if IsPow2(n) {
      var e: nat :| n == Pow2(e);
      assert n == 2 * Pow2(e - 1);
      SplitUnique(n, Pow2(e - 1));
    }
  }

  lemma LeftIsPerfect(n: nat)
    requires n >= 2
    ensures Perfect(Split(n))
  {
    SplitIsPow2(n);
    PerfectIsPow2(Split(n));
  }

  lemma SplitAt(n: nat, p: nat)
    requires Perfect(p) && p < n <= 2 * p
    ensures Split(n) == p
  {
    PerfectIsPow2(p);
    SplitUnique(n, p);
  }

  lemma PerfectDouble(n: nat)
    requires Perfect(n)
    ensures Perfect(2 * n) && Split(2 * n) == n
  {
    SplitAt(2 * n, n);
  }

  lemma PerfectHalf(n: nat)
    requires Perfect(n) && n > 1
    ensures n % 2 == 0 && Perfect(n / 2) && Split(n) == n / 2
  {
    assert n / 2 == Split(n);
    LeftIsPerfect(n);
  }

  /** `n` is a multiple of `w`. */
  predicate Multiple(n: nat, w: nat)
    requires w > 0
  {
    n == 0 || (n >= w && Multiple(n - w, w))
  }

  lemma {:induction false} MultipleSum(a: nat, b: nat, w: nat)
    requires w > 0 && Multiple(a, w) && Multiple(b, w)
    ensures Multiple(a + b, w)
  {
    if a > 0 { MultipleSum(a - w, b, w); }
  }

  /** A power of two is a multiple of every smaller one. */
  lemma {:induction false} Pow2Divides(a: nat, b: nat)
    requires a <= b
    ensures Multiple(Pow2(b), Pow2(a))
  {
    if a < b {
      Pow2Divides(a, b - 1);
      MultipleSum(Pow2(b - 1), Pow2(b - 1), Pow2(a));
    }
  }

  lemma PerfectOrder(p: nat, q: nat)
    requires Perfect(p) && Perfect(q) && p < q
    ensures 2 * p <= q && Multiple(q, 2 * p)
  {
    PerfectIsPow2(p);
    PerfectIsPow2(q);
    var a: nat :| p == Pow2(a);
    var b: nat :| q == Pow2(b);
    Pow2Order(a, b);
    Pow2Order(b, a);
    Pow2Divides(a + 1, b);
    assert Pow2(a + 1) == 2 * p;
  }

  lemma {:induction false} PerfectCount(n: nat)
    ensures Perfect(n) <==> CountBit(n) == 1
  {
    if n == 1 {
      assert CountBit(1) == 1 + CountBit(0);
    } else if n > 1 {
      PerfectCount(n / 2);
      CountBitPositive(n / 2);
      if Perfect(n) { PerfectHalf(n); }
      if Perfect(n / 2) { PerfectDouble(n / 2); }
    }
  }

  /** A tree that is not perfect has room on the right. */
  lemma RoomOnRight(n: nat)
    requires n >= 2 && !Perfect(n)
    ensures n < 2 * Split(n)
  {
  }

  /** A power of two above a number adds one 1 bit to it. */
  lemma {:induction false} CountHigh(p: nat, r: nat)
    requires Perfect(p) && r < p
    ensures CountBit(p + r) == 1 + CountBit(r)
    decreases p
  {
    if p > 1 {
      PerfectHalf(p);
      assert (p + r) / 2 == p / 2 + r / 2 && (p + r) % 2 == r % 2;
      CountHigh(p / 2, r / 2);
    } else {
      PerfectCount(1);
    }
  }

  /** Taking off the highest bit removes exactly one 1 bit. */
  lemma {:induction false} CountBitSplit(n: nat)
    requires n >= 2 && !Perfect(n)
    ensures CountBit(n) == 1 + CountBit(n - Split(n))
  {
    RoomOnRight(n);
    LeftIsPerfect(n);
    CountHigh(Split(n), n - Split(n));
  }

  // ---------- multiples ----------

  /** Distinct multiples of `w` are at least `w` apart. */
  lemma {:induction false} MultipleGap(a: nat, b: nat, w: nat)
    requires w > 0 && Multiple(a, w) && Multiple(b, w) && a <= b
    ensures Multiple(b - a, w)
    ensures a < b ==> a + w <= b
  {
    if a > 0 { MultipleGap(a - w, b - w, w); }
  }

  lemma {:induction false} MultipleTimes(t: nat, w: nat)
    requires w > 0
    ensures Multiple(t * w, w)
  {
    if t > 0 {
      assert t * w == (t - 1) * w + w;
      MultipleTimes(t - 1, w);
    }
  }

  lemma HalfTimes(m: nat, h: nat, b: nat, p: nat)
    requires m == 2 * h + b && b <= 1
    ensures m * p == h * (2 * p) + (if b == 1 then p else 0)
  {
    if b == 1 { assert m * p == (2 * h) * p + p; }
  }

  lemma OddNotMultiple(h: nat, p: nat)
    requires p > 0
    ensures Multiple(h * (2 * p), 2 * p) && !Multiple(h * (2 * p) + p, 2 * p)
  {
    var n := h * (2 * p);
    MultipleTimes(h, 2 * p);
    if Multiple(n + p, 2 * p) { MultipleGap(n, n + p, 2 * p); }
  }

  /** `s` copies of `p` make a multiple of `2p` exactly when `s` is even. */
  lemma MultipleParity(s: nat, p: nat)
    requires p > 0
    ensures Multiple(s * p, 2 * p) <==> s % 2 == 0
  {
    hide Multiple;
    HalfTimes(s, s / 2, s % 2, p);
    OddNotMultiple(s / 2, p);
  }
}
