/** Powers of two and the split point of a Merkle tree
    (`largestPowerOfTwoLessThan`, libs/job_aipkg/job_aipkg_utils.cpp). */
module PowersOfTwo {

  const WORD: nat := 0x1_0000_0000_0000_0000  // 2^64, the range of size_t
  const HALF_WORD: nat := 0x8000_0000_0000_0000  // 2^63

  function Pow2(e: nat): (p: nat)
    ensures p >= 1
  {
    if e == 0 then 1 else 2 * Pow2(e - 1)
  }

  predicate IsPow2(k: nat) {
    k == 1 || (k > 1 && k % 2 == 0 && IsPow2(k / 2))
  }

  /** Doubles k for as long as the double stays below n. */
  function DoubleBelow(k: nat, n: nat): (r: nat)
    requires k >= 1
    ensures r >= k && 2 * r >= n
    ensures k < n ==> r < n
    decreases n - k
  {
    if 2 * k < n then DoubleBelow(2 * k, n) else k
  }

  /** The largest power of two strictly below n; 1 when there is none. */
  function SplitPoint(n: nat): (k: nat)
    ensures k >= 1
    ensures n >= 2 ==> k < n <= 2 * k
  {
    DoubleBelow(1, n)
  }

  lemma {:induction false} DoubleBelowIsPow2(k: nat, n: nat)
    requires IsPow2(k)
    ensures IsPow2(DoubleBelow(k, n))
    decreases n - k
  {
    if 2 * k < n {
      assert (2 * k) / 2 == k;
      DoubleBelowIsPow2(2 * k, n);
    }
  }

  lemma SplitPointIsPow2(n: nat)
    ensures IsPow2(SplitPoint(n))
  {
    DoubleBelowIsPow2(1, n);
  }

  lemma {:induction false} Pow2IsPow2(e: nat)
    ensures IsPow2(Pow2(e))
  {
    if e > 0 { Pow2IsPow2(e - 1); }
  }

  /** Two powers of two in the same half-open octave are equal. */
  lemma {:induction false} OctaveUnique(a: nat, b: nat)
    requires IsPow2(a) && IsPow2(b) && a <= b < 2 * a
    ensures a == b
  {
    if a > 1 { OctaveUnique(a / 2, b / 2); }
  }

  /** The split point is the largest of the smaller powers, not just one of them. */
  lemma SplitPointIsLargest(n: nat, p: nat)
    requires n >= 2 && IsPow2(p) && p < n
    ensures p <= SplitPoint(n)
  {
    SplitPointIsPow2(n);
    var k := SplitPoint(n);
    if p > k { OctaveUnique(k, p); }
  }

  lemma SplitPointUnique(n: nat, k: nat)
    requires n >= 2 && IsPow2(k) && k < n <= 2 * k
    ensures SplitPoint(n) == k
  {
    SplitPointIsLargest(n, k);
    SplitPointIsPow2(n);
    OctaveUnique(k, SplitPoint(n));
  }

  /** One trip of the C++ loop: `k * 2 < n` in 64-bit arithmetic. */
  function DoubledWord(k: nat): nat { (k * 2) % WORD }

  /** The value of `k` after `trips` trips. */
  function AfterTrips(trips: nat): (k: nat)
  {
    if trips == 0 then 1 else DoubledWord(AfterTrips(trips - 1))
  }

  /** The loop is still running before trip number `trips + 1`. */
  predicate StillRunning(n: nat, trips: nat) {
    forall t :: 0 <= t <= trips ==> DoubledWord(AfterTrips(t)) < n
  }

  lemma {:induction false} Pow2Plus16(e: nat)
    ensures Pow2(e + 16) == 0x1_0000 * Pow2(e)
  {
    Pow2Plus4(e);
    Pow2Plus4(e + 4);
    Pow2Plus4(e + 8);
    Pow2Plus4(e + 12);
  }

  lemma {:induction false} Pow2Plus4(e: nat)
    ensures Pow2(e + 4) == 16 * Pow2(e)
  {
    assert Pow2(e + 4) == 2 * Pow2(e + 3) == 4 * Pow2(e + 2) == 8 * Pow2(e + 1);
  }

  /** e is 63. Stated without an equation, which would have the verifier unroll recursions on e. */
  predicate IsTopBit(e: nat) { 62 < e < 64 }

  lemma {:induction false} TopBitValue(e: nat)
    requires IsTopBit(e)
    ensures Pow2(e) == HALF_WORD
  {
    var zero := e - 63;
    assert Pow2(zero) == 1;
    Pow2Plus16(zero);
    Pow2Plus16(zero + 16);
    Pow2Plus16(zero + 32);
    Pow2Plus4(zero + 48);
    Pow2Plus4(zero + 52);
    Pow2Plus4(zero + 56);
    assert Pow2(e) == 2 * Pow2(e - 1) == 4 * Pow2(e - 2) == 8 * Pow2(e - 3);
  }

  lemma {:induction false} Pow2Mono(a: nat, b: nat)
    requires a <= b
    ensures Pow2(a) <= Pow2(b)
    ensures a < b ==> 2 * Pow2(a) <= Pow2(b)
  {
    if a < b { Pow2Mono(a, b - 1); }
  }

  lemma {:induction false} AfterTripsValue(t: nat, e: nat)
    requires IsTopBit(e)
    ensures if t <= e then AfterTrips(t) == Pow2(t) <= HALF_WORD else AfterTrips(t) == 0
    ensures t < e ==> 2 * Pow2(t) <= HALF_WORD
  {
    TopBitValue(e);
    if t > 0 { AfterTripsValue(t - 1, e); }
    if t <= e { Pow2Mono(t, e); }
  }

  /** Above 2^63 the doubling wraps to zero and the loop never leaves. */
  lemma {:induction false} DivergesAboveHalfWord(n: nat, trips: nat)
    requires HALF_WORD < n < WORD
    ensures StillRunning(n, trips)
  {
    forall t | 0 <= t <= trips ensures DoubledWord(AfterTrips(t)) < n {
      AfterTripsValue(t, 63);
      TopBitValue(63);
    }
  }

  lemma {:induction false} EndsUpToHalfWord(n: nat, e: nat)
    requires n <= HALF_WORD && IsTopBit(e)
    ensures !StillRunning(n, e - 1)
  {
    AfterTripsValue(e - 1, e);
    TopBitValue(e);
    assert DoubledWord(AfterTrips(e - 1)) == HALF_WORD;
  }

  /** The loop ends exactly for n up to 2^63. */
  lemma {:induction false} LoopEndsExactly(n: nat)
    requires n < WORD
    ensures (exists trips: nat :: !StillRunning(n, trips)) <==> n <= HALF_WORD
  {
    if n <= HALF_WORD {
      EndsUpToHalfWord(n, 63);
    } else {
      forall trips: nat ensures StillRunning(n, trips) { DivergesAboveHalfWord(n, trips); }
    }
  }

  /** The C++ loop, with its 64-bit doubling. */
  method LargestPowerOfTwoLessThan(n: nat) returns (k: nat)
    requires n <= HALF_WORD
    ensures k == SplitPoint(n)
  {
    k := 1;
    while (k * 2) % WORD < n
      invariant 1 <= k <= HALF_WORD
      invariant n >= 2 ==> k < n
      invariant n < 2 ==> k == 1
      invariant SplitPoint(n) == DoubleBelow(k, n)
      decreases n - k
    {
      k := (k * 2) % WORD;
    }
  }
}
