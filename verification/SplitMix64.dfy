/** The SplitMix64 generator and its bounded sampling (libs/job_core/split_mix64.h), in exact
    64-bit integer arithmetic. */
module SplitMix64 {
  import opened PowersOfTwo
  import opened Bits

  const GAMMA: nat := 0x9E37_79B9_7F4A_7C15
  const GAMMA_INVERSE: nat := 0xF1DE_83E1_9937_733D
  const MIX_A: nat := 0xBF58_476D_1CE4_E5B9
  const MIX_A_INVERSE: nat := 0x96DE_1B17_3F11_9089
  const MIX_B: nat := 0x94D0_49BB_1331_11EB
  const MIX_B_INVERSE: nat := 0x3196_42B2_D24D_8EC3

  const SHIFT_30: nat := 0x4000_0000
  const SHIFT_27: nat := 0x0800_0000
  const SHIFT_31: nat := 0x8000_0000

  // ----- the finalizer is a bijection of 64-bit words

  /** `z ^ (z >> s)` with p = 2^s */
  function XorShifted(z: nat, p: nat): nat
    requires p >= 1
  {
    Xor(z, Shr(z, p))
  }

  function Unshifted(y: nat, p: nat): nat
    requires p >= 1
  {
    Xor(Xor(y, Shr(y, p)), Shr(Shr(y, p), p))
  }

  function Times(z: nat, c: nat): nat { (z * c) % WORD }

  /** The output function of `next`. */
  function Mix(z: nat): nat {
    XorShifted(Times(XorShifted(Times(XorShifted(z, SHIFT_30), MIX_A), SHIFT_27), MIX_B), SHIFT_31)
  }

  /** The output function with its shifts and multipliers written out. */
  lemma MixConstants(z: nat)
    ensures var a := (Xor(z, z / 0x4000_0000) * 0xBF58_476D_1CE4_E5B9) % 0x1_0000_0000_0000_0000;
            var b := (Xor(a, a / 0x0800_0000) * 0x94D0_49BB_1331_11EB) % 0x1_0000_0000_0000_0000;
            Mix(z) == Xor(b, b / 0x8000_0000)
  {
  }

  function Unmix(x: nat): nat {
    Unshifted(Times(Unshifted(Times(Unshifted(x, SHIFT_31), MIX_B_INVERSE), SHIFT_27), MIX_A_INVERSE), SHIFT_30)
  }

  /** A shift that empties a word after three applications. */
  ghost predicate ShortShift(p: nat) {
    p >= 1 && IsPow2(p) && forall z: nat :: z < WORD ==> Shr(Shr(Shr(z, p), p), p) == 0
  }

  lemma ShiftsAreShort()
    ensures ShortShift(SHIFT_27) && ShortShift(SHIFT_30) && ShortShift(SHIFT_31)
  {
    CommonPowers();
  }

  lemma ShrBelow(z: nat, p: nat)
    requires p >= 1
    ensures Shr(z, p) <= z
  {
    var q: int := z / p;
    if q >= 1 {
      assert z == p * q + z % p;
      ProductAtLeast(p, q);
    }
  }

  lemma ProductAtLeast(p: int, q: int)
    requires p >= 1 && q >= 0
    ensures p * q >= q
  {
    assert p * q == (p - 1) * q + q;
  }

  lemma XorShiftedBound(z: nat, p: nat)
    requires z < WORD && p >= 1
    ensures XorShifted(z, p) < WORD && Unshifted(z, p) < WORD
  {
    WordIsPow2();
    ShrBelow(z, p);
    ShrBelow(Shr(z, p), p);
    XorBound(z, Shr(z, p), WORD);
    XorBound(Xor(z, Shr(z, p)), Shr(Shr(z, p), p), WORD);
  }

  lemma UnshiftedShifted(z: nat, p: nat)
    requires z < WORD && ShortShift(p)
    ensures Unshifted(XorShifted(z, p), p) == z
  {
    var a := Shr(z, p);
    var b := Shr(a, p);
    var y := XorShifted(z, p);
    XorShift(z, a, p);
    XorShift(a, b, p);
    assert Shr(y, p) == Xor(a, b);
    assert Shr(b, p) == 0;
    XorZero(b);
    assert Shr(Shr(y, p), p) == b;
    Cancel4(z, a, b);
  }

  /** (z ^ a) ^ (a ^ b) ^ b == z */
  lemma Cancel4(z: nat, a: nat, b: nat)
    ensures Xor(Xor(Xor(z, a), Xor(a, b)), b) == z
  {
    XorAssoc(Xor(z, a), Xor(a, b), b);
    XorCancel(a, b);
    XorCancel(z, a);
  }

  lemma ShiftedUnshifted(y: nat, p: nat)
    requires y < WORD && ShortShift(p)
    ensures XorShifted(Unshifted(y, p), p) == y
  {
    var a := Shr(y, p);
    var b := Shr(a, p);
    var z := Unshifted(y, p);
    XorShift(Xor(y, a), b, p);
    XorShift(y, a, p);
    assert Shr(b, p) == 0;
    XorZero(Xor(a, b));
    assert Shr(z, p) == Xor(a, b);
    Cancel5(y, a, b);
  }

  /** (y ^ a ^ b) ^ (a ^ b) == y */
  lemma Cancel5(y: nat, a: nat, b: nat)
    ensures Xor(Xor(Xor(y, a), b), Xor(a, b)) == y
  {
    XorAssoc(y, a, b);
    XorCancel(y, Xor(a, b));
  }

  lemma TimesInverse(z: nat, c: nat, d: nat)
    requires z < WORD && (c * d) % WORD == 1
    ensures Times(Times(z, c), d) == z
  {
    var k, m := (z * c) / WORD, (c * d) / WORD;
    var r := Times(z, c);
    assert z * c == WORD * k + r;
    assert c * d == WORD * m + 1;
    calc {
      r * d;
      (z * c - WORD * k) * d;
      (z * c) * d - (WORD * k) * d;
      { assert (z * c) * d == z * (c * d); assert (WORD * k) * d == WORD * (k * d); }
      z * (WORD * m + 1) - WORD * (k * d);
      { assert z * (WORD * m + 1) == WORD * (z * m) + z; }
      WORD * (z * m - k * d) + z;
    }
    DivModUnique(r * d, WORD, z * m - k * d, z);
  }

  lemma InverseConstants()
    ensures (MIX_A * MIX_A_INVERSE) % WORD == 1 && (MIX_A_INVERSE * MIX_A) % WORD == 1
    ensures (MIX_B * MIX_B_INVERSE) % WORD == 1 && (MIX_B_INVERSE * MIX_B) % WORD == 1
    ensures (GAMMA * GAMMA_INVERSE) % WORD == 1 && (GAMMA_INVERSE * GAMMA) % WORD == 1
  {
  }

  /** Every word is the output of exactly one counter value. */
  lemma MixBijective(z: nat)
    requires z < WORD
    ensures Mix(z) < WORD && Unmix(z) < WORD
    ensures Unmix(Mix(z)) == z
    ensures Mix(Unmix(z)) == z
  {
    ShiftsAreShort();
    InverseConstants();
    MixUndone(z);
    UnmixUndone(z);
  }

  lemma MixUndone(z: nat)
    requires z < WORD && ShortShift(SHIFT_27) && ShortShift(SHIFT_30) && ShortShift(SHIFT_31)
    requires (MIX_A * MIX_A_INVERSE) % WORD == 1 && (MIX_B * MIX_B_INVERSE) % WORD == 1
    ensures Mix(z) < WORD && Unmix(Mix(z)) == z
  {
    var a := XorShifted(z, SHIFT_30);
    XorShiftedBound(z, SHIFT_30);
    var b := Times(a, MIX_A);
    var c := XorShifted(b, SHIFT_27);
    XorShiftedBound(b, SHIFT_27);
    var d := Times(c, MIX_B);
    XorShiftedBound(d, SHIFT_31);
    UnshiftedShifted(d, SHIFT_31);
    TimesInverse(c, MIX_B, MIX_B_INVERSE);
    UnshiftedShifted(b, SHIFT_27);
    TimesInverse(a, MIX_A, MIX_A_INVERSE);
    UnshiftedShifted(z, SHIFT_30);
  }

  lemma UnmixUndone(x: nat)
    requires x < WORD && ShortShift(SHIFT_27) && ShortShift(SHIFT_30) && ShortShift(SHIFT_31)
    requires (MIX_A_INVERSE * MIX_A) % WORD == 1 && (MIX_B_INVERSE * MIX_B) % WORD == 1
    ensures Unmix(x) < WORD && Mix(Unmix(x)) == x
  {
    var d := Unshifted(x, SHIFT_31);
    XorShiftedBound(x, SHIFT_31);
    var c := Times(d, MIX_B_INVERSE);
    var b := Unshifted(c, SHIFT_27);
    XorShiftedBound(c, SHIFT_27);
    var a := Times(b, MIX_A_INVERSE);
    XorShiftedBound(a, SHIFT_30);
    ShiftedUnshifted(a, SHIFT_30);
    TimesInverse(b, MIX_A_INVERSE, MIX_A);
    ShiftedUnshifted(c, SHIFT_27);
    TimesInverse(d, MIX_B_INVERSE, MIX_B);
    ShiftedUnshifted(x, SHIFT_31);
  }

  // ----- the counter visits every state

  /** The state after i steps from `seed`. */
  function StateAt(seed: nat, i: nat): nat { (seed + i * GAMMA) % WORD }

  /** The i-th word drawn from `seed`, counting from 1. */
  function Draw(seed: nat, i: nat): nat { Mix(StateAt(seed, i)) }

  lemma StateAtStart(seed: nat)
    requires seed < WORD
    ensures StateAt(seed, 0) == seed
  {
    DivModUnique(seed + 0 * GAMMA, WORD, 0, seed);
  }

  lemma StateStep(seed: nat, i: nat)
    ensures StateAt(seed, i + 1) == (StateAt(seed, i) + GAMMA) % WORD
  {
    var a := seed + i * GAMMA;
    assert seed + (i + 1) * GAMMA == a + GAMMA;
    var q, r := a / WORD, a % WORD;
    DivModUnique(a + GAMMA, WORD, q + (r + GAMMA) / WORD, (r + GAMMA) % WORD);
  }

  /** From any seed, every state is reached within 2^64 steps. */
  lemma StateReached(seed: nat, target: nat) returns (i: nat)
    requires seed < WORD && target < WORD
    ensures 1 <= i <= WORD && StateAt(seed, i) == target
  {
    var d := (target + WORD - seed) % WORD;
    InverseConstants();
    var j := Times(d, GAMMA_INVERSE);
    TimesInverse(d, GAMMA_INVERSE, GAMMA);
    assert (j * GAMMA) % WORD == d;
    i := if j == 0 then WORD else j;
    var q := (i * GAMMA) / WORD;
    assert (i * GAMMA) % WORD == d by { if j == 0 { DivModUnique(WORD * GAMMA, WORD, GAMMA, 0); } }
    assert i * GAMMA == WORD * q + d;
    var e := (target + WORD - seed) / WORD;
    DivModUnique(seed + i * GAMMA, WORD, q + 1 - e, target);
  }

  /** From any seed, every word is drawn within 2^64 draws. */
  lemma EveryWordDrawn(seed: nat, x: nat) returns (i: nat)
    requires seed < WORD && x < WORD
    ensures 1 <= i <= WORD && Draw(seed, i) == x
  {
    MixBijective(x);
    i := StateReached(seed, Unmix(x));
  }

  // ----- bounded sampling

  /** `(0 - s) % s` in 64 bits */
  function Threshold(s: nat): nat
    requires 1 <= s < WORD
  {
    (WORD - s) % s
  }

  lemma ThresholdIsRemainder(s: nat)
    requires 1 <= s < WORD
    ensures Threshold(s) == WORD % s < s
  {
    var q, r := (WORD - s) / s, (WORD - s) % s;
    assert WORD == s * (q + 1) + r by { assert s * (q + 1) == s * q + s; }
    DivModUnique(WORD, s, q + 1, r);
  }

  /** Low and high word of the 128-bit product. */
  function Low(x: nat, s: nat): nat { (x * s) % WORD }

  function High(x: nat, s: nat): nat { (x * s) / WORD }

  function Remainder(x: nat, s: nat): (r: nat)
    requires s >= 1
    ensures r == x % s && r < s
  {
    x % s
  }

  /** A draw the Lemire loop stops at. */
  predicate Accepted(x: nat, s: nat)
    requires 1 <= s < WORD
  {
    Low(x, s) >= Threshold(s)
  }

  /** The accepted draws and their outputs in plain arithmetic: with x·s == r·2^64 + l, accepted means that
      l reaches 2^64 mod s, and the output is r. */
  lemma LemireMeaning(x: nat, s: nat)
    requires 1 <= s < WORD
    ensures Accepted(x, s) <==> (x * s) % 0x1_0000_0000_0000_0000 >= 0x1_0000_0000_0000_0000 % s
    ensures High(x, s) * 0x1_0000_0000_0000_0000 + (x * s) % 0x1_0000_0000_0000_0000 == x * s
  {
    ThresholdIsRemainder(s);
  }

  /** The early accept `l >= maxExclusive` agrees with the full test. */
  lemma EarlyAcceptAgrees(x: nat, s: nat)
    requires 1 <= s < WORD && Low(x, s) >= s
    ensures Accepted(x, s)
  {
    ThresholdIsRemainder(s);
  }

  ghost predicate Interval(xs: set<nat>, lo: nat, n: nat) {
    forall x: nat :: x in xs <==> lo <= x < lo + n
  }

  lemma {:induction false} IntervalSize(xs: set<nat>, lo: nat, n: nat)
    requires Interval(xs, lo, n)
    ensures |xs| == n
    decreases n
  {
    if n == 0 {
      assert xs == {};
    } else {
      var last := lo + n - 1;
      IntervalSize(xs - {last}, lo, n - 1);
      assert last in xs;
    }
  }

  /** The accepted draws that give output v. */
  ghost function LemireDraws(s: nat, v: nat): set<nat>
    requires 1 <= s < WORD
  {
    set x: nat | 0 <= x < WORD && Accepted(x, s) && High(x, s) == v
  }

  lemma DivBounds(m: int, d: int, v: int, t: int)
    requires d > 0 && 0 <= t < d
    ensures m / d == v && m % d >= t <==> v * d + t <= m < (v + 1) * d
  {
    assert (v + 1) * d == v * d + d;
    if v * d + t <= m < (v + 1) * d { DivModUnique(m, d, v, m - v * d); }
    if m / d == v { assert m == d * v + m % d; }
  }

  /** The least x with x * s >= a. */
  function CeilDiv(a: nat, s: nat): (x: nat)
    requires s >= 1
  {
    (a + (s - 1)) / s
  }

  lemma CeilDivExact(a: nat, s: nat, x: nat)
    requires s >= 1
    ensures x * s >= a <==> x >= CeilDiv(a, s)
  {
    var c := CeilDiv(a, s);
    var r := (a + (s - 1)) % s;
    assert a + (s - 1) == s * c + r;
    if x >= c {
      assert (x - c) * s >= 0;
      assert x * s == c * s + (x - c) * s;
    } else {
      ProductAtLeast(s, c - 1 - x);
      assert x * s == (c - 1) * s - (c - 1 - x) * s;
      assert (c - 1) * s == c * s - s;
    }
  }

  /** Lemire sampling is exactly uniform: every output has floor(2^64 / s) accepted draws. */
  lemma LemireUniform(s: nat, v: nat)
    requires 1 <= s < WORD && v < s
    ensures |LemireDraws(s, v)| == WORD / s
  {
    var t, q := Threshold(s), WORD / s;
    ThresholdIsRemainder(s);
    assert WORD == s * q + t;
    var a := v * WORD + t;
    var lo := CeilDiv(a, s);
    forall x: nat ensures x in LemireDraws(s, v) <==> lo <= x < lo + q {
      LemireMember(s, v, x, t, q, a);
    }
    IntervalSize(LemireDraws(s, v), lo, q);
  }

  lemma LemireMember(s: nat, v: nat, x: nat, t: nat, q: nat, a: nat)
    requires 1 <= s < WORD && v < s && t == Threshold(s) < s && WORD == s * q + t && a == v * WORD + t
    ensures x in LemireDraws(s, v) <==> CeilDiv(a, s) <= x < CeilDiv(a, s) + q
  {
    DivBounds(x * s, WORD, v, t);
    assert (v + 1) * WORD == a + q * s by { assert (v + 1) * WORD == v * WORD + WORD; }
    CeilDivExact(a, s, x);
    ShiftedCeil(a, s, x, q);
    if x * s < (v + 1) * WORD { BelowWord(x, s, v); }
  }

  lemma ShiftedCeil(a: nat, s: nat, x: nat, q: nat)
    requires s >= 1
    ensures x * s < a + q * s <==> x < CeilDiv(a, s) + q
  {
    if x >= q {
      CeilDivExact(a, s, x - q);
      assert (x - q) * s == x * s - q * s;
    } else {
      assert x * s <= q * s by { assert (q - x) * s >= 0; assert q * s == x * s + (q - x) * s; }
      assert a >= 0 && (q - x) * s >= 1 by { ProductAtLeast(s, q - x); assert (q - x) * s == s * (q - x); }
    }
  }

  lemma BelowWord(x: nat, s: nat, v: nat)
    requires v < s && x * s < (v + 1) * WORD
    ensures x < WORD
  {
    assert WORD * s == WORD * (v + 1) + WORD * (s - v - 1);
    var over: int := x - WORD;
    assert x * s == WORD * s + over * s;
    assert over >= 0 ==> over * s >= 0;
  }

  /** The draws the portable loop stops at that give output v. */
  ghost function PortableDraws(s: nat, v: nat): set<nat>
    requires 1 <= s < WORD
  {
    set x: nat | Threshold(s) <= x < WORD && x % s == v
  }

  ghost function Residues(lo: nat, n: nat, s: nat, v: nat): set<nat>
    requires s >= 1
  {
    set x: nat | lo <= x < lo + n && x % s == v
  }

  /** Among s consecutive numbers exactly one has remainder v. */
  lemma OneInBlock(lo: nat, s: nat, v: nat) returns (x: nat)
    requires s >= 1 && v < s
    ensures lo <= x < lo + s && x % s == v
    ensures forall y: nat :: lo <= y < lo + s && y % s == v ==> y == x
  {
    var q, r := lo / s, lo % s;
    assert lo == s * q + r;
    x := if r <= v then s * q + v else s * (q + 1) + v;
    assert s * (q + 1) == s * q + s;
    DivModUnique(x, s, if r <= v then q else q + 1, v);
    forall y: nat | lo <= y < lo + s && y % s == v ensures y == x {
      SameResidue(x, y, s);
    }
  }

  lemma SameResidue(x: int, y: int, s: int)
    requires s >= 1 && x % s == y % s && -s < x - y < s
    ensures x == y
  {
    var e := x / s - y / s;
    assert x - y == s * e by { assert x == s * (x / s) + x % s && y == s * (y / s) + y % s; }
    assert (e >= 1 ==> s * e >= s) && (e <= -1 ==> s * e <= -s);
  }

  lemma {:induction false} ResiduesCount(lo: nat, q: nat, s: nat, v: nat)
    requires s >= 1 && v < s
    ensures |Residues(lo, q * s, s, v)| == q
    decreases q
  {
    var all := Residues(lo, q * s, s, v);
    if q == 0 {
      assert all == {};
    } else {
      ResiduesCount(lo, q - 1, s, v);
      var rest := Residues(lo, (q - 1) * s, s, v);
      assert q * s == (q - 1) * s + s;
      var x := OneInBlock(lo + (q - 1) * s, s, v);
      assert all == rest + {x};
      assert x !in rest;
    }
  }

  /** The portable modulo branch has the same counts. */
  lemma PortableUniform(s: nat, v: nat)
    requires 1 <= s < WORD && v < s
    ensures |PortableDraws(s, v)| == WORD / s
  {
    var t, q := Threshold(s), WORD / s;
    ThresholdIsRemainder(s);
    assert WORD == t + q * s;
    ResiduesCount(t, q, s, v);
    assert PortableDraws(s, v) == Residues(t, q * s, s, v);
  }

  // ----- over one whole period

  lemma TimesOfRemainder(i: nat, c: nat)
    ensures Times(i % WORD, c) == Times(i, c)
  {
    var q, r := i / WORD, i % WORD;
    var k := (r * c) / WORD;
    assert i * c == WORD * (q * c + k) + Times(r, c) by {
      assert i * c == WORD * (q * c) + r * c by { assert i == WORD * q + r; assert (WORD * q) * c == WORD * (q * c); }
      assert r * c == WORD * k + Times(r, c);
    }
    DivModUnique(i * c, WORD, q * c + k, Times(r, c));
  }

  /** How many steps lead from seed to a state, modulo 2^64. */
  function StepsTo(seed: nat, state: nat): nat
    requires seed < WORD && state < WORD
  {
    Times((state + WORD - seed) % WORD, GAMMA_INVERSE)
  }

  lemma StepsRecovered(seed: nat, i: nat)
    requires seed < WORD
    ensures StepsTo(seed, StateAt(seed, i)) == i % WORD
  {
    var g := i * GAMMA;
    var k, t := (seed + g) / WORD, StateAt(seed, i);
    var e, d := g / WORD, g % WORD;
    assert t + WORD - seed == WORD * (e - k + 1) + d;
    DivModUnique(t + WORD - seed, WORD, e - k + 1, d);
    assert (t + WORD - seed) % WORD == Times(i, GAMMA);
    TimesOfRemainder(i, GAMMA);
    InverseConstants();
    TimesInverse(i % WORD, GAMMA, GAMMA_INVERSE);
  }

  lemma MixInjective(a: nat, b: nat)
    requires a < WORD && b < WORD && Mix(a) == Mix(b)
    ensures a == b
  {
    MixBijective(a);
    MixBijective(b);
  }

  lemma StateInjective(seed: nat, i: nat, j: nat, state: nat)
    requires seed < WORD && 1 <= i <= WORD && 1 <= j <= WORD && StateAt(seed, i) == state && StateAt(seed, j) == state
    ensures i == j
  {
    StepsRecovered(seed, i);
    StepsRecovered(seed, j);
    SameResidueInPeriod(i, j);
  }

  lemma SameResidueInPeriod(i: nat, j: nat)
    requires 1 <= i <= WORD && 1 <= j <= WORD && i % WORD == j % WORD
    ensures i == j
  {
    SameResidue(i, j, WORD);
  }

  /** No word is drawn twice within 2^64 draws. */
  lemma DrawInjective(seed: nat, i: nat, j: nat)
    requires seed < WORD && 1 <= i <= WORD && 1 <= j <= WORD && Draw(seed, i) == Draw(seed, j)
    ensures i == j
  {
    MixInjective(StateAt(seed, i), StateAt(seed, j));
    StateInjective(seed, i, j, StateAt(seed, i));
  }

  /** The draw numbers of one period whose draw is in xs. */
  ghost function DrawnAt(seed: nat, xs: set<nat>): set<nat> {
    set i: nat | 1 <= i <= WORD && Draw(seed, i) in xs
  }

  /** Each word turns up exactly once per period, so that counting draws is counting words. */
  lemma {:induction false} DrawnAtSize(seed: nat, xs: set<nat>)
    requires seed < WORD && forall x :: x in xs ==> x < WORD
    ensures |DrawnAt(seed, xs)| == |xs|
    decreases |xs|
  {
    if xs == {} {
      assert DrawnAt(seed, xs) == {};
    } else {
      var x :| x in xs;
      var rest := xs - {x};
      DrawnAtSize(seed, rest);
      var i := EveryWordDrawn(seed, x);
      OnlyDraw(seed, xs, x, i);
    }
  }

  lemma OnlyDraw(seed: nat, xs: set<nat>, x: nat, i: nat)
    requires seed < WORD && x in xs && 1 <= i <= WORD && Draw(seed, i) == x
    ensures DrawnAt(seed, xs) == DrawnAt(seed, xs - {x}) + {i} && i !in DrawnAt(seed, xs - {x})
  {
    forall j: nat | 1 <= j <= WORD && Draw(seed, j) == x ensures j == i { DrawInjective(seed, i, j); }
  }

  /** Over one period from any seed, every output of either branch occurs exactly
      floor(2^64 / s) times among the accepted draws. */
  lemma PeriodUniform(seed: nat, s: nat, v: nat)
    requires seed < WORD && 1 <= s < WORD && v < s
    ensures |DrawnAt(seed, LemireDraws(s, v))| == WORD / s
    ensures |DrawnAt(seed, PortableDraws(s, v))| == WORD / s
  {
    LemireUniform(s, v);
    PortableUniform(s, v);
    DrawnAtSize(seed, LemireDraws(s, v));
    DrawnAtSize(seed, PortableDraws(s, v));
  }

  // ----- the generator

  ghost predicate FirstAcceptedAt(seed: nat, s: nat, k: nat)
    requires 1 <= s < WORD
  {
    1 <= k <= WORD && Accepted(Draw(seed, k), s) && RejectedBefore(seed, s, k)
  }

  ghost predicate RejectedBefore(seed: nat, s: nat, k: nat)
    requires 1 <= s < WORD
  {
    forall j :: 1 <= j < k ==> !Accepted(Draw(seed, j), s)
  }

  ghost predicate FirstPortableAt(seed: nat, s: nat, k: nat)
    requires 1 <= s < WORD
  {
    1 <= k <= WORD && Draw(seed, k) >= Threshold(s) && TooLowBefore(seed, s, k)
  }

  ghost predicate TooLowBefore(seed: nat, s: nat, k: nat)
    requires 1 <= s < WORD
  {
    forall j :: 1 <= j < k ==> Draw(seed, j) < Threshold(s)
  }

  /** Some draw within the period is accepted, in either branch: the all-ones word always is. */
  lemma AcceptedWithinPeriod(seed: nat, s: nat) returns (i: nat)
    requires seed < WORD && 1 <= s < WORD
    ensures 1 <= i <= WORD && Accepted(Draw(seed, i), s) && Draw(seed, i) >= Threshold(s)
  {
    ThresholdIsRemainder(s);
    var x := WORD - 1;
    assert x * s == WORD * (s - 1) + (WORD - s);
    DivModUnique(x * s, WORD, s - 1, WORD - s);
    assert Threshold(s) <= WORD - s by {
      var q := (WORD - s) / s;
      assert WORD - s == s * q + Threshold(s);
      assert s * q >= 0;
    }
    i := EveryWordDrawn(seed, x);
  }

  class Generator {
    var state: nat

    ghost predicate Valid()
      reads this
    {
      state < WORD
    }

    constructor (seed: nat)
      requires seed < WORD
      ensures Valid() && state == seed
    {
      state := seed;
    }

    /** `next` */
    method Next() returns (z: nat)
      requires Valid()
      modifies this
      ensures Valid() && z < WORD
      ensures state == (old(state) + 0x9E37_79B9_7F4A_7C15) % 0x1_0000_0000_0000_0000 && z == Mix(state)
    {
      state := (state + GAMMA) % WORD;
      MixBijective(state);
      z := state;
      z := (Xor(z, Shr(z, SHIFT_30)) * MIX_A) % WORD;
      z := (Xor(z, Shr(z, SHIFT_27)) * MIX_B) % WORD;
      z := Xor(z, Shr(z, SHIFT_31));
    }

    /** The next word, as a member of the sequence drawn from `seed`. */
    method NextOf(ghost seed: nat, ghost i: nat) returns (z: nat)
      requires Valid() && state == StateAt(seed, i)
      modifies this
      ensures Valid() && z < WORD && state == StateAt(seed, i + 1) && z == Draw(seed, i + 1)
    {
      StateStep(seed, i);
      z := Next();
    }

    /** `rangeIndex`, 128-bit branch: returns the output of the first accepted draw. */
    method RangeIndex(maxExclusive: nat) returns (r: nat, ghost k: nat)
      requires Valid() && maxExclusive < WORD
      modifies this
      ensures Valid()
      ensures maxExclusive == 0 ==> r == 0 && state == old(state)
      ensures maxExclusive > 0 ==> FirstAcceptedAt(old(state), maxExclusive, k) && state == StateAt(old(state), k) &&
                                   r == High(Draw(old(state), k), maxExclusive) && r < maxExclusive
    {
      k := 0;
      if maxExclusive == 0 { return 0, 0; }
      ghost var seed := state;
      ghost var bound := AcceptedWithinPeriod(seed, maxExclusive);
      StateAtStart(seed);
      var x := NextOf(seed, 0);
      k := 1;
      var l := Low(x, maxExclusive);
      if l < maxExclusive {
        var t := Threshold(maxExclusive);
        while l < t
          invariant Valid() && x < WORD && 1 <= k <= bound && x == Draw(seed, k) && state == StateAt(seed, k)
          invariant l == Low(x, maxExclusive)
          invariant RejectedBefore(seed, maxExclusive, k)
          decreases bound - k
        {
          NotYet(seed, maxExclusive, k);
          x := NextOf(seed, k);
          k := k + 1;
          l := Low(x, maxExclusive);
        }
      } else {
        EarlyAcceptAgrees(x, maxExclusive);
      }
      HighBelow(x, maxExclusive);
      r := High(x, maxExclusive);
    }

    /** `rangeIndex`, portable branch */
    method RangeIndexPortable(maxExclusive: nat) returns (r: nat, ghost k: nat)
      requires Valid() && maxExclusive < WORD
      modifies this
      ensures Valid()
      ensures maxExclusive == 0 ==> r == 0 && state == old(state)
      ensures maxExclusive > 0 ==> FirstPortableAt(old(state), maxExclusive, k) && state == StateAt(old(state), k) &&
                                   r == Draw(old(state), k) % maxExclusive
    {
      k := 0;
      if maxExclusive == 0 { return 0, 0; }
      ghost var seed := state;
      ghost var bound := AcceptedWithinPeriod(seed, maxExclusive);
      var threshold := Threshold(maxExclusive);
      StateAtStart(seed);
      var x := NextOf(seed, 0);
      k := 1;
      while x < threshold
        invariant Valid() && x < WORD && 1 <= k <= bound && x == Draw(seed, k) && state == StateAt(seed, k)
        invariant TooLowBefore(seed, maxExclusive, k)
        decreases bound - k
      {
        StillTooLow(seed, maxExclusive, k);
        x := NextOf(seed, k);
        k := k + 1;
      }
      r := Remainder(x, maxExclusive);
    }

    lemma StillTooLow(seed: nat, s: nat, k: nat)
      requires 1 <= s < WORD && TooLowBefore(seed, s, k) && Draw(seed, k) < Threshold(s)
      ensures TooLowBefore(seed, s, k + 1)
    {
    }

    lemma NotYet(seed: nat, s: nat, k: nat)
      requires 1 <= s < WORD && RejectedBefore(seed, s, k) && !Accepted(Draw(seed, k), s)
      ensures RejectedBefore(seed, s, k + 1)
    {
    }

    /** `range(min, max)` */
    method Range(min: nat, max: nat) returns (r: nat, ghost k: nat)
      requires Valid() && min < WORD && max < WORD
      modifies this
      ensures Valid()
      ensures max < min ==> r == min && state == old(state)
      ensures min <= max ==> min <= r <= max
      ensures min == 0 && max == WORD - 1 ==> r == Draw(old(state), 1) && state == StateAt(old(state), 1)
      ensures min <= max && max - min < WORD - 1 ==>
                var span := max - min + 1;
                FirstAcceptedAt(old(state), span, k) && state == StateAt(old(state), k) &&
                r == min + High(Draw(old(state), k), span)
    {
      k := 0;
      if max < min { return min, 0; }
      if min == 0 && max == WORD - 1 {
        StateAtStart(state);
        r := NextOf(state, 0);
        return r, 1;
      }
      var span := max - min + 1;
      r, k := RangeIndex(span);
      r := min + r;
    }
  }

  lemma HighBelow(x: nat, s: nat)
    requires x < WORD && s >= 1
    ensures High(x, s) < s
  {
    var q := (x * s) / WORD;
    assert x * s == WORD * q + (x * s) % WORD;
    ProductAtLeast(WORD - x, s);
    assert WORD * s == x * s + (WORD - x) * s;
  }
}
