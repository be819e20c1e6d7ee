/** Bitwise operations of 64-bit words, as functions on naturals. */
module Bits {
  import opened PowersOfTwo

  function And(a: nat, b: nat): nat {
    if a == 0 || b == 0 then 0 else 2 * And(a / 2, b / 2) + (if a % 2 == 1 && b % 2 == 1 then 1 else 0)
  }

  function Xor(a: nat, b: nat): nat
    decreases a + b
  {
    if a == 0 && b == 0 then 0 else 2 * Xor(a / 2, b / 2) + (if a % 2 == b % 2 then 0 else 1)
  }

  /** `~a` in 64 bits */
  function Not(a: nat): nat
    requires a < WORD
  {
    WORD - 1 - a
  }

  lemma DivModUnique(x: int, d: int, q: int, r: int)
    requires d > 0 && 0 <= r < d && x == d * q + r
    ensures x / d == q && x % d == r
  {
    var e := x / d - q;
    assert d * e == r - x % d by { assert x == d * (x / d) + x % d; assert d * e == d * (x / d) - d * q; }
    assert (e >= 1 ==> d * e >= d) && (e <= -1 ==> d * e <= -d);
  }

  /** The remainder by 2p, one bit at a time. */
  lemma ModDouble(x: nat, p: nat)
    requires p >= 1
    ensures x % (2 * p) == 2 * ((x / 2) % p) + x % 2
  {
    var q, r := (x / 2) / p, (x / 2) % p;
    assert x == (2 * p) * q + (2 * r + x % 2) by {
      assert x / 2 == p * q + r;
      assert (2 * p) * q == 2 * (p * q);
    }
    DivModUnique(x, 2 * p, q, 2 * r + x % 2);
  }

  lemma {:induction false} AndAllOnes(x: nat, W: nat)
    requires IsPow2(W) && x < W
    ensures And(x, W - 1) == x
    decreases W
  {
    if x > 0 { AndAllOnes(x / 2, W / 2); }
  }

  /** Clearing the bits below a power of two rounds down to a multiple of it. */
  lemma {:induction false} AndClearsLow(x: nat, a: nat, W: nat)
    requires IsPow2(a) && IsPow2(W) && a <= W && x < W
    ensures And(x, W - a) == x - x % a
    decreases a
  {
    if a == 1 {
      AndAllOnes(x, W);
    } else {
      AndClearsLow(x / 2, a / 2, W / 2);
      ModDouble(x, a / 2);
      assert (W - a) / 2 == W / 2 - a / 2;
      assert x == 2 * (x / 2) + x % 2;
    }
  }

  lemma WordIsPow2At(e: nat)
    requires IsTopBit(e)
    ensures IsPow2(HALF_WORD)
  {
    TopBitValue(e);
    Pow2IsPow2(e);
  }

  lemma WordIsPow2()
    ensures IsPow2(WORD) && IsPow2(HALF_WORD)
  {
    WordIsPow2At(63);
    assert WORD / 2 == HALF_WORD;
  }

  lemma Pow2Double(k: nat)
    requires IsPow2(k)
    ensures IsPow2(2 * k) && IsPow2(8 * k)
  {
    assert (2 * k) / 2 == k && (4 * k) / 2 == 2 * k && (8 * k) / 2 == 4 * k;
    assert IsPow2(2 * k) && IsPow2(4 * k);
  }

  /** The powers of two the word algorithms shift by. */
  lemma CommonPowers()
    ensures IsPow2(0x100) && IsPow2(0x0800_0000) && IsPow2(0x4000_0000) && IsPow2(0x8000_0000) && IsPow2(0x1_0000_0000)
  {
    Pow2Double(1);
    Pow2Double(8);
    Pow2Double(0x40);
    Pow2Double(0x80);
    Pow2Double(0x200);
    Pow2Double(0x1000);
    Pow2Double(0x8000);
    Pow2Double(0x4_0000);
    Pow2Double(0x20_0000);
    Pow2Double(0x100_0000);
    Pow2Double(0x0800_0000);
    Pow2Double(0x4000_0000);
    Pow2Double(0x8000_0000);
  }

  lemma {:induction false} AndWithPredecessor(a: nat)
    requires a >= 1
    ensures And(a, a - 1) == 0 <==> IsPow2(a)
  {
    if a > 1 {
      AndWithPredecessor(a / 2);
      if a % 2 == 0 {
        assert (a - 1) / 2 == a / 2 - 1;
      } else {
        assert (a - 1) / 2 == a / 2;
        AndSelf(a / 2);
      }
    }
  }

  lemma {:induction false} AndSelf(a: nat)
    ensures And(a, a) == a
  {
    if a > 0 { AndSelf(a / 2); }
  }

  /** A power of two that fits a word divides 2^64. */
  lemma {:induction false} Pow2Divides(a: nat, W: nat)
    requires IsPow2(a) && IsPow2(W) && a <= W
    ensures W % a == 0
    decreases a
  {
    if a > 1 {
      Pow2Divides(a / 2, W / 2);
      ModDouble(W, a / 2);
    }
  }

  // ----- exclusive or

  lemma {:induction false} XorSelf(a: nat)
    ensures Xor(a, a) == 0
  {
    if a > 0 { XorSelf(a / 2); }
  }

  lemma {:induction false} XorZero(a: nat)
    ensures Xor(a, 0) == a && Xor(0, a) == a
  {
    if a > 0 { XorZero(a / 2); }
  }

  lemma {:induction false} XorComm(a: nat, b: nat)
    ensures Xor(a, b) == Xor(b, a)
    decreases a + b
  {
    if a > 0 || b > 0 { XorComm(a / 2, b / 2); }
  }

  lemma XorBits(a: nat, b: nat)
    ensures Xor(a, b) / 2 == Xor(a / 2, b / 2)
    ensures Xor(a, b) % 2 == (if a % 2 == b % 2 then 0 else 1)
  {
  }

  lemma {:induction false} XorAssoc(a: nat, b: nat, c: nat)
    ensures Xor(Xor(a, b), c) == Xor(a, Xor(b, c))
    decreases a + b + c
  {
    if a > 0 || b > 0 || c > 0 {
      XorAssoc(a / 2, b / 2, c / 2);
      XorBits(a, b);
      XorBits(b, c);
      XorBits(Xor(a, b), c);
      XorBits(a, Xor(b, c));
    }
  }

  lemma XorDouble(a: nat, b: nat)
    ensures Xor(2 * a, 2 * b) == 2 * Xor(a, b)
  {
  }

  lemma XorSwap(a: nat, b: nat, c: nat, d: nat)
    ensures Xor(Xor(a, b), Xor(c, d)) == Xor(Xor(a, c), Xor(b, d))
  {
    XorAssoc(a, b, Xor(c, d));
    XorAssoc(b, c, d);
    XorComm(b, c);
    XorAssoc(c, b, d);
    XorAssoc(a, c, Xor(b, d));
  }

  /** Bits below and above a power of two do not interact. */
  lemma {:induction false} XorDisjoint(low: nat, high: nat, p: nat)
    requires IsPow2(p) && low < p && high % p == 0
    ensures Xor(low, high) == low + high
    decreases p
  {
    if p == 1 {
      XorZero(high);
    } else {
      ModDouble(high, p / 2);
      XorDisjoint(low / 2, high / 2, p / 2);
      XorBits(low, high);
    }
  }

  lemma XorCancel(a: nat, b: nat)
    ensures Xor(Xor(a, b), b) == a
  {
    XorAssoc(a, b, b);
    XorSelf(b);
    XorZero(a);
  }

  lemma {:induction false} XorBound(a: nat, b: nat, W: nat)
    requires IsPow2(W) && a < W && b < W
    ensures Xor(a, b) < W
    decreases W
  {
    if a > 0 || b > 0 { XorBound(a / 2, b / 2, W / 2); }
  }

  /** `x >> s` for p = 2^s */
  function Shr(x: nat, p: nat): nat
    requires p >= 1
  {
    x / p
  }

  /** Shifting right by a power of two distributes over exclusive or. */
  lemma {:induction false} XorShift(a: nat, b: nat, p: nat)
    requires p >= 1 && IsPow2(p)
    ensures Shr(Xor(a, b), p) == Xor(Shr(a, p), Shr(b, p))
  {
    if p > 1 {
      XorBits(a, b);
      XorShift(a / 2, b / 2, p / 2);
      DivTwice(Xor(a, b), p / 2);
      DivTwice(a, p / 2);
      DivTwice(b, p / 2);
    }
  }

  lemma DivTwice(x: nat, p: nat)
    requires p >= 1
    ensures x / (2 * p) == (x / 2) / p
  {
    var q, r := (x / 2) / p, (x / 2) % p;
    assert x == (2 * p) * q + (2 * r + x % 2) by {
      assert x / 2 == p * q + r;
      assert (2 * p) * q == 2 * (p * q);
    }
    DivModUnique(x, 2 * p, q, 2 * r + x % 2);
  }
}
