/** Table-driven CRC-32 (libs/job_core/crc32.h) against the bit-serial polynomial division of
    section 8 of RFC 1952. Registers are naturals below 2^32. */
module Crc32 {
  import opened Bytes
  import opened PowersOfTwo
  import opened Bits

  const WORD32: nat := 0x1_0000_0000
  const HALF32: nat := 0x8000_0000
  const POLYNOMIAL: nat := 0xEDB8_8320
  const ALL_ONES: nat := 0xFFFF_FFFF

  // ----- the division step and its linearity

  /** One step of the reflected division: shift out the low bit, subtract the polynomial if it was set. */
  function Step(c: nat): nat {
    if c % 2 == 1 then Xor(POLYNOMIAL, c / 2) else c / 2
  }

  function Steps(c: nat, n: nat): nat
    decreases n
  {
    if n == 0 then c else Steps(Step(c), n - 1)
  }

  lemma StepLinear(a: nat, b: nat)
    ensures Step(Xor(a, b)) == Xor(Step(a), Step(b))
  {
    XorBits(a, b);
    var x, y, p := a / 2, b / 2, POLYNOMIAL;
    if a % 2 == 1 && b % 2 == 1 {
      XorComm(p, y);
      XorAssoc(Xor(p, x), y, p);
      XorAssoc(p, x, y);
      XorComm(p, Xor(x, y));
      XorCancel(Xor(x, y), p);
    } else if a % 2 == 1 {
      XorAssoc(p, x, y);
    } else if b % 2 == 1 {
      XorAssoc(x, p, y);
      XorComm(x, p);
      XorAssoc(p, x, y);
    }
  }

  lemma {:induction false} StepsLinear(a: nat, b: nat, n: nat)
    ensures Steps(Xor(a, b), n) == Xor(Steps(a, n), Steps(b, n))
    decreases n
  {
    if n > 0 {
      StepLinear(a, b);
      StepsLinear(Step(a), Step(b), n - 1);
    }
  }

  /** Steps shift zeros out unchanged. */
  lemma {:induction false} StepsOfShifted(high: nat, n: nat)
    requires high % Pow2(n) == 0
    ensures Steps(high, n) == Shr(high, Pow2(n))
    decreases n
  {
    if n > 0 {
      ModDouble(high, Pow2(n - 1));
      DivTwice(high, Pow2(n - 1));
      StepsOfShifted(high / 2, n - 1);
    }
  }

  /** Adding zeros-extended bits before the steps is adding them, shifted, after. */
  lemma StepsOfSum(x: nat, high: nat, n: nat)
    requires high % Pow2(n) == 0
    ensures Steps(Xor(x, high), n) == Xor(Steps(x, n), Shr(high, Pow2(n)))
  {
    StepsLinear(x, high, n);
    StepsOfShifted(high, n);
  }

  /** n is 8. Stated without an equation, which would have the verifier unroll recursions on n. */
  predicate IsByteWidth(n: nat) { 7 < n < 9 }

  lemma BytePow(n: nat)
    requires IsByteWidth(n)
    ensures Pow2(n) == 256
  {
    var zero := n - 8;
    assert Pow2(zero) == 1;
    Pow2Plus4(zero);
    Pow2Plus4(zero + 4);
  }

  /** The step that makes the table work: n steps of any register are n steps of its low n bits
      plus the rest shifted down. */
  lemma BitsAtOnce(low: nat, high: nat, n: nat)
    requires low < Pow2(n) && high % Pow2(n) == 0
    ensures Steps(low + high, n) == Xor(Steps(low, n), Shr(high, Pow2(n)))
  {
    Pow2IsPow2(n);
    XorDisjoint(low, high, Pow2(n));
    StepsOfSum(low, high, n);
  }

  // ----- the table and the checksum

  ghost predicate IsTable(table: seq<nat>) {
    |table| == 256 && forall i: nat :: i < 256 ==> table[i] == Steps(i, 8)
  }

  /** `generate_table` */
  method GenerateTable() returns (table: seq<nat>)
    ensures IsTable(table)
  {
    table := [];
    for i := 0 to 256
      invariant |table| == i && forall k: nat :: k < i ==> table[k] == Steps(k, 8)
    {
      var c := TableEntry(i, 8);
      table := table + [c];
    }
  }

  /** The inner loop, with n trips */
  method TableEntry(i: nat, n: nat) returns (c: nat)
    ensures c == Steps(i, n)
  {
    c := i;
    for j := 0 to n
      invariant Steps(c, n - j) == Steps(i, n)
    {
      c := if c % 2 == 1 then Xor(POLYNOMIAL, c / 2) else c / 2;
    }
  }

  /** One byte, bit-serially. */
  function Feed(crc: nat, b: Byte): nat { Steps(Xor(crc, b), 8) }

  function FeedAll(crc: nat, data: seq<Byte>): nat
    decreases data
  {
    if data == [] then crc else FeedAll(Feed(crc, data[0]), data[1..])
  }

  /** The CRC-32 of a byte string, by bit-serial division with the conditioning of RFC 1952. */
  function Crc(data: seq<Byte>): nat { Xor(FeedAll(ALL_ONES, data), ALL_ONES) }

  lemma {:induction false} AndLow(x: nat, p: nat)
    requires IsPow2(p)
    ensures And(x, p - 1) == x % p
    decreases p
  {
    if p > 1 {
      AndLow(x / 2, p / 2);
      ModDouble(x, p / 2);
      assert (p - 1) / 2 == p / 2 - 1;
    } else {
      assert x % 1 == 0;
    }
  }

  lemma ByteAtOnce(x: nat, n: nat, table: seq<nat>)
    requires IsByteWidth(n) && IsTable(table)
    ensures Steps(x, n) == Xor(table[x % 256], x / 256)
  {
    BytePow(n);
    var low, high := x % 256, 256 * (x / 256);
    BitsAtOnce(low, high, n);
    assert Shr(high, 256) == x / 256;
  }

  lemma LowByte(crc: nat, b: Byte)
    ensures And(Xor(crc, b), 0xFF) == Xor(crc, b) % 256
    ensures Xor(crc, b) / 256 == crc / 256
  {
    CommonPowers();
    AndLow(Xor(crc, b), 256);
    XorShift(crc, b, 256);
    assert Shr(b, 256) == 0;
    XorZero(crc / 256);
  }

  /** The table update is the bit-serial update. */
  lemma TableUpdate(crc: nat, b: Byte, table: seq<nat>)
    requires IsTable(table)
    ensures And(Xor(crc, b), 0xFF) < 256
    ensures Xor(table[And(Xor(crc, b), 0xFF)], crc / 256) == Feed(crc, b)
  {
    LowByte(crc, b);
    ByteAtOnce(Xor(crc, b), 8, table);
  }

  lemma {:induction false} FeedAllAppend(crc: nat, a: seq<Byte>, b: seq<Byte>)
    ensures FeedAll(crc, a + b) == FeedAll(FeedAll(crc, a), b)
    decreases a
  {
    if a == [] {
      assert a + b == b;
    } else {
      FeedAllAppend(Feed(crc, a[0]), a[1..], b);
      assert (a + b)[1..] == a[1..] + b;
    }
  }

  lemma FeedAllNext(crc: nat, data: seq<Byte>, b: Byte, longer: seq<Byte>)
    requires longer == data + [b]
    ensures FeedAll(crc, longer) == Feed(FeedAll(crc, data), b)
  {
    FeedAllAppend(crc, data, [b]);
    assert [b][1..] == [];
  }

  /** `Crc32::compute` */
  method Compute(data: seq<Byte>, table: seq<nat>) returns (checksum: nat)
    requires IsTable(table)
    ensures checksum == Crc(data)
  {
    var crc := ALL_ONES;
    for i := 0 to |data|
      invariant crc == FeedAll(ALL_ONES, data[..i])
    {
      TableUpdate(crc, data[i], table);
      FeedAllNext(ALL_ONES, data[..i], data[i], data[..i + 1]);
      var index := And(Xor(crc, data[i]), 0xFF);
      crc := Xor(table[index], crc / 256);
    }
    assert data[..|data|] == data;
    checksum := Xor(crc, ALL_ONES);
  }

  // ----- one division step per message bit

  type Bit = b: int | 0 <= b < 2

  /** The low n bits of a number, least significant first: the order in which a byte's bits are sent. */
  function BitsOf(b: nat, n: nat): (bits: seq<Bit>)
    ensures |bits| == n
  {
    if n == 0 then [] else [b % 2] + BitsOf(b / 2, n - 1)
  }

  /** Division of a bit string: each bit is added to the register before the step. */
  function DivideBits(crc: nat, bits: seq<Bit>): nat
    decreases |bits|
  {
    if bits == [] then crc else DivideBits(Step(Xor(crc, bits[0])), bits[1..])
  }

  /** Adding n bits at once and stepping n times is dividing them one after the other. */
  lemma {:induction false} FeedIsDivision(crc: nat, b: nat, n: nat)
    requires b < Pow2(n)
    ensures Steps(Xor(crc, b), n) == DivideBits(crc, BitsOf(b, n))
    decreases n
  {
    if n == 0 {
      XorZero(crc);
    } else {
      assert BitsOf(b, n)[1..] == BitsOf(b / 2, n - 1);
      FeedIsDivision(Step(Xor(crc, b % 2)), b / 2, n - 1);
      FirstBit(crc, b);
    }
  }

  /** Only the lowest bit takes part in a step; the others are shifted. */
  lemma FirstBit(crc: nat, b: nat)
    ensures Step(Xor(crc, b)) == Xor(Step(Xor(crc, b % 2)), b / 2)
  {
    XorByParts(crc, b);
    StepShifts(Xor(crc, b % 2), b / 2);
  }

  lemma XorByParts(crc: nat, b: nat)
    ensures Xor(crc, b) == Xor(Xor(crc, b % 2), 2 * (b / 2))
  {
    LowBitApart(b);
    XorAssoc(crc, b % 2, 2 * (b / 2));
  }

  lemma StepShifts(x: nat, h: nat)
    ensures Step(Xor(x, 2 * h)) == Xor(Step(x), h)
  {
    StepLinear(x, 2 * h);
    StepOfEven(h);
  }

  lemma StepOfEven(h: nat)
    ensures Step(2 * h) == h
  {
  }

  lemma LowBitApart(b: nat)
    ensures Xor(b % 2, 2 * (b / 2)) == b
  {
    assert IsPow2(1) && IsPow2(2);
    XorDisjoint(b % 2, 2 * (b / 2), 2);
  }

  function AllBits(data: seq<Byte>): (bits: seq<Bit>)
    ensures |bits| == 8 * |data|
  {
    if data == [] then [] else BitsOf(data[0], 8) + AllBits(data[1..])
  }

  /** Bytes in order, the bits of each from the lowest up. */
  lemma {:induction false} AllBitsAt(data: seq<Byte>, i: nat, j: nat)
    requires i < |data| && j < 8
    ensures AllBits(data)[8 * i + j] == (data[i] / Pow2(j)) % 2
    decreases data
  {
    if i == 0 {
      BitsAreDigits(data[0], 8, j);
    } else {
      AllBitsAt(data[1..], i - 1, j);
    }
  }

  /** BitsOf lists the binary digits. */
  lemma {:induction false} BitsAreDigits(c: nat, n: nat, i: nat)
    requires i < n
    ensures BitsOf(c, n)[i] == (c / Pow2(i)) % 2
    decreases n
  {
    if i > 0 {
      BitsAreDigits(c / 2, n - 1, i - 1);
      DivTwice(c, Pow2(i - 1));
    }
  }

  lemma {:induction false} DivideAppend(crc: nat, a: seq<Bit>, b: seq<Bit>)
    ensures DivideBits(crc, a + b) == DivideBits(DivideBits(crc, a), b)
    decreases |a|
  {
    if a == [] {
      assert a + b == b;
    } else {
      DivideAppend(Step(Xor(crc, a[0])), a[1..], b);
      assert (a + b)[1..] == a[1..] + b;
    }
  }

  /** The register is that of the bit-by-bit division of the whole message. */
  lemma {:induction false} CrcIsDivision(crc: nat, data: seq<Byte>)
    ensures FeedAll(crc, data) == DivideBits(crc, AllBits(data))
    decreases data
  {
    if data != [] {
      assert Pow2(8) == 256;
      FeedIsDivision(crc, data[0], 8);
      DivideAppend(crc, BitsOf(data[0], 8), AllBits(data[1..]));
      CrcIsDivision(Feed(crc, data[0]), data[1..]);
    }
  }

  lemma StepBound(c: nat)
    requires c < WORD32
    ensures Step(c) < WORD32
    ensures c % 2 == 1 <==> Step(c) >= HALF32
  {
    CommonPowers();
    XorBound(POLYNOMIAL, c / 2, WORD32);
    XorShift(POLYNOMIAL, c / 2, HALF32);
    assert Shr(POLYNOMIAL, HALF32) == 1 && Shr(c / 2, HALF32) == 0;
    XorZero(1);
    assert Shr(Xor(POLYNOMIAL, c / 2), HALF32) == 1;
  }

  lemma BitBound(crc: nat, b: Bit)
    requires crc < WORD32
    ensures Xor(crc, b) < WORD32 && Step(Xor(crc, b)) < WORD32
  {
    CommonPowers();
    XorBound(crc, b, WORD32);
    StepBound(Xor(crc, b));
  }

  lemma {:induction false} DivideBound(crc: nat, bits: seq<Bit>)
    requires crc < WORD32
    ensures DivideBits(crc, bits) < WORD32
    decreases |bits|
  {
    if bits != [] {
      BitBound(crc, bits[0]);
      DivideBound(Step(Xor(crc, bits[0])), bits[1..]);
    }
  }

  // ----- the reference: the remainder in GF(2)[x]. A polynomial is a natural number whose bit i is
  // the coefficient of x^i; addition is exclusive or.

  /** The generator x^32 + x^26 + ... + 1 of section 8 of RFC 1952 */
  const GENERATOR: nat := 0x1_04C1_1DB7

  function Part(odd: bool, p: nat): nat {
    if odd then p else 0
  }

  predicate Odd(c: nat) { c % 2 == 1 }

  /** The product of two polynomials. */
  function Product(a: nat, b: nat): nat {
    if a == 0 then 0 else Xor(2 * Product(a / 2, b), Part(Odd(a), b))
  }

  /** x^n times a polynomial. */
  function Raised(a: nat, n: nat): nat {
    if n == 0 then a else 2 * Raised(a, n - 1)
  }

  /** The polynomial of a bit string, its first bit the coefficient of the highest degree. */
  function Poly(bits: seq<Bit>): nat {
    if bits == [] then 0 else Xor(2 * Poly(bits[..|bits| - 1]), bits[|bits| - 1])
  }

  /** The polynomial of an n-bit register, its lowest bit the coefficient of the highest degree. */
  function Reflected(c: nat, n: nat): nat {
    if n == 0 then 0 else Xor(Part(Odd(c), Pow2(n - 1)), Reflected(c / 2, n - 1))
  }

  lemma XorOdd(a: nat, b: nat)
    ensures Xor(a, b) / 2 == Xor(a / 2, b / 2) && (Odd(Xor(a, b)) <==> Odd(a) != Odd(b))
  {
  }

  lemma XorParts(i: bool, j: bool, p: nat)
    ensures Xor(Part(i, p), Part(j, p)) == Part(i != j, p)
  {
    XorSelf(p);
    XorZero(p);
    XorZero(0);
  }

  lemma {:induction false} ReflectedXor(a: nat, b: nat, x: nat, n: nat)
    requires x == Xor(a, b)
    ensures Reflected(x, n) == Xor(Reflected(a, n), Reflected(b, n))
    decreases n
  {
    if n > 0 {
      XorOdd(a, b);
      ReflectedXor(a / 2, b / 2, x / 2, n - 1);
      XorParts(Odd(a), Odd(b), Pow2(n - 1));
      XorSwap(Part(Odd(a), Pow2(n - 1)), Reflected(a / 2, n - 1), Part(Odd(b), Pow2(n - 1)), Reflected(b / 2, n - 1));
    } else {
      XorZero(0);
    }
  }

  lemma {:induction false} ReflectedBound(c: nat, n: nat)
    ensures Reflected(c, n) < Pow2(n)
  {
    if n > 0 {
      ReflectedBound(c / 2, n - 1);
      Pow2IsPow2(n);
      XorBound(Part(Odd(c), Pow2(n - 1)), Reflected(c / 2, n - 1), Pow2(n));
    }
  }

  lemma {:induction false} ReflectedWider(c: nat, n: nat)
    requires c < Pow2(n)
    ensures Reflected(c, n + 1) == 2 * Reflected(c, n)
  {
    if n > 0 {
      ReflectedWider(c / 2, n - 1);
      XorDouble(Part(Odd(c), Pow2(n - 1)), Reflected(c / 2, n - 1));
    } else {
      XorZero(0);
    }
  }

  lemma {:induction false} RaisedXor(a: nat, b: nat, n: nat)
    ensures Raised(Xor(a, b), n) == Xor(Raised(a, n), Raised(b, n))
  {
    if n > 0 {
      RaisedXor(a, b, n - 1);
      XorDouble(Raised(a, n - 1), Raised(b, n - 1));
    }
  }

  lemma {:induction false} RaisedDouble(a: nat, n: nat)
    ensures Raised(2 * a, n) == 2 * Raised(a, n)
  {
    if n > 0 { RaisedDouble(a, n - 1); }
  }

  lemma {:induction false} RaisedBit(b: Bit, n: nat)
    ensures Raised(b, n) == Part(b == 1, Pow2(n))
  {
    if n > 0 { RaisedBit(b, n - 1); }
  }

  /** Reversal by shifting from one number into another; computes Reflected on constants. */
  function Reversed(c: nat, n: nat, acc: nat): nat
    decreases n
  {
    if n == 0 then acc else Reversed(c / 2, n - 1, 2 * acc + c % 2)
  }

  lemma LowBitXor(acc: nat, b: Bit)
    ensures 2 * acc + b == Xor(2 * acc, b)
  {
    LowBitApart(2 * acc + b);
    XorComm(b, 2 * acc);
  }

  lemma ShiftIn(acc: nat, b: Bit, n: nat)
    ensures Raised(2 * acc + b, n) == Xor(Raised(acc, n + 1), Part(b == 1, Pow2(n)))
  {
    LowBitXor(acc, b);
    RaisedXor(2 * acc, b, n);
    RaisedDouble(acc, n);
    RaisedBit(b, n);
  }

  lemma {:induction false} ReversedIsReflected(c: nat, n: nat, acc: nat)
    ensures Reversed(c, n, acc) == Xor(Raised(acc, n), Reflected(c, n))
    decreases n
  {
    if n == 0 {
      XorZero(acc);
    } else {
      ReversedIsReflected(c / 2, n - 1, 2 * acc + c % 2);
      ShiftIn(acc, c % 2, n - 1);
      XorAssoc(Raised(acc, n), Part(Odd(c), Pow2(n - 1)), Reflected(c / 2, n - 1));
    }
  }

  /** n is 32, stated like IsByteWidth. */
  predicate IsWidth(n: nat) { 31 < n < 33 }

  lemma WidthPow(n: nat)
    requires IsWidth(n)
    ensures Pow2(n) == WORD32 && Pow2(n - 1) == HALF32
  {
    var e := n - 32;
    assert Pow2(e) == 1;
    Pow2Plus16(e);
    Pow2Plus16(e + 16);
  }

  lemma ReversedBit(rest: nat, b: Bit, n: nat, acc: nat)
    ensures Reversed(2 * rest + b, n + 1, acc) == Reversed(rest, n, 2 * acc + b)
  {
  }

  /** Four bits at a time. */
  lemma ReversedNibble(rest: nat, b3: Bit, b2: Bit, b1: Bit, b0: Bit, n: nat, acc: nat)
    ensures Reversed(16 * rest + 8 * b3 + 4 * b2 + 2 * b1 + b0, n + 4, acc) ==
            Reversed(rest, n, 16 * acc + 8 * b0 + 4 * b1 + 2 * b2 + b3)
  {
    ReversedBit(8 * rest + 4 * b3 + 2 * b2 + b1, b0, n + 3, acc);
    ReversedBit(4 * rest + 2 * b3 + b2, b1, n + 2, 2 * acc + b0);
    ReversedBit(2 * rest + b3, b2, n + 1, 4 * acc + 2 * b0 + b1);
    ReversedBit(rest, b3, n, 8 * acc + 4 * b0 + 2 * b1 + b2);
  }

  lemma ReversedLow(n: nat, zero: nat)
    requires zero == 0
    ensures Reversed(POLYNOMIAL, n + 16, zero) == Reversed(0xEDB8, n, 0x04C1)
  {
    ReversedNibble(0xEDB_8832, 0, 0, 0, 0, n + 12, zero);
    ReversedNibble(0xED_B883, 0, 0, 1, 0, n + 8, zero);
    ReversedNibble(0xE_DB88, 0, 0, 1, 1, n + 4, 0x4);
    ReversedNibble(0xEDB8, 1, 0, 0, 0, n, 0x4C);
  }

  lemma ReversedHigh(n: nat, zero: nat)
    requires zero == 0
    ensures Reversed(0xEDB8, n + 16, 0x04C1) == Reversed(zero, n, GENERATOR - WORD32)
  {
    ReversedNibble(0xEDB, 1, 0, 0, 0, n + 12, 0x4C1);
    ReversedNibble(0xED, 1, 0, 1, 1, n + 8, 0x4C11);
    ReversedNibble(0xE, 1, 1, 0, 1, n + 4, 0x4_C11D);
    ReversedNibble(zero, 1, 1, 1, 0, n, 0x4C_11DB);
  }

  lemma ReversedPolynomial(n: nat, zero: nat)
    requires zero == 0
    ensures Reversed(POLYNOMIAL, n + 32, zero) == Reversed(zero, n, GENERATOR - WORD32)
  {
    ReversedLow(n + 16, zero);
    ReversedHigh(n, zero);
  }

  lemma ReflectedIsReversed(c: nat, n: nat, zero: Bit)
    requires zero == 0
    ensures Reflected(c, n) == Reversed(c, n, zero)
  {
    ReversedIsReflected(c, n, zero);
    RaisedBit(zero, n);
    XorZero(Reflected(c, n));
  }

  lemma ReflectedWide(n: nat, zero: Bit)
    requires zero == 0
    ensures Reflected(POLYNOMIAL, n + 32) == Reversed(zero, n, GENERATOR - WORD32)
  {
    ReflectedIsReversed(POLYNOMIAL, n + 32, zero);
    ReversedPolynomial(n, zero);
  }

  /** The source's constant is the generator without its leading term, reflected. */
  lemma ReflectedPolynomial(n: nat, c: nat)
    requires IsWidth(n) && c == POLYNOMIAL
    ensures Reflected(c, n) == GENERATOR - WORD32
  {
    ReflectedWide(n - 32, 0);
  }

  /** Doubling the register's polynomial moves its top coefficient to x^32. */
  lemma DoubledRegister(c: nat, n: nat)
    requires IsWidth(n) && c < WORD32
    ensures 2 * Reflected(c, n) == Xor(Part(Odd(c), WORD32), Reflected(c / 2, n))
  {
    WidthPow(n);
    ReflectedWider(c / 2, n - 1);
    XorDouble(Part(Odd(c), HALF32), Reflected(c / 2, n - 1));
  }

  /** The leading term of the generator apart from the others. */
  lemma GeneratorParts(top: bool)
    ensures Xor(Part(top, GENERATOR), Part(top, GENERATOR - WORD32)) == Part(top, WORD32)
  {
    var g := GENERATOR - WORD32;
    CommonPowers();
    assert WORD32 % WORD32 == 0;
    XorDisjoint(g, WORD32, WORD32);
    XorComm(g, WORD32);
    XorCancel(WORD32, g);
    XorZero(0);
  }

  /** The step, on polynomials. */
  lemma ReflectedStep(d: nat, n: nat)
    requires IsWidth(n)
    ensures Reflected(Step(d), n) == Xor(Part(Odd(d), GENERATOR - WORD32), Reflected(d / 2, n))
  {
    XorZero(Reflected(d / 2, n));
    if Odd(d) {
      ReflectedPolynomial(n, POLYNOMIAL);
      ReflectedXor(POLYNOMIAL, d / 2, Step(d), n);
    }
  }

  lemma FedStep(c: nat, b: Bit, n: nat)
    requires IsWidth(n)
    ensures Reflected(Step(Xor(c, b)), n) == Xor(Part(Odd(c) != (b == 1), GENERATOR - WORD32), Reflected(c / 2, n))
  {
    XorOdd(c, b);
    XorZero(c / 2);
    ReflectedStep(Xor(c, b), n);
  }

  /** What one division step does to the register's polynomial r: with the next message bit b,
      x·r + b·x^32 is the new register, plus the generator if that has a term x^32. */
  lemma RegisterStep(c: nat, b: Bit, n: nat) returns (top: bool)
    requires IsWidth(n) && c < WORD32
    ensures Xor(2 * Reflected(c, n), Part(b == 1, WORD32)) ==
            Xor(Part(top, GENERATOR), Reflected(Step(Xor(c, b)), n))
  {
    top := Odd(c) != (b == 1);
    DoubledRegister(c, n);
    FedStep(c, b, n);
    XorParts(Odd(c), b == 1, WORD32);
    GeneratorParts(top);
    Regroup(Part(Odd(c), WORD32), Reflected(c / 2, n), Part(b == 1, WORD32), Part(top, WORD32),
            Part(top, GENERATOR), Part(top, GENERATOR - WORD32));
  }

  lemma Regroup(i: nat, u: nat, j: nat, t: nat, g: nat, h: nat)
    requires Xor(i, j) == t && Xor(g, h) == t
    ensures Xor(Xor(i, u), j) == Xor(g, Xor(h, u))
  {
    XorComm(i, u);
    XorAssoc(u, i, j);
    XorComm(u, t);
    XorAssoc(g, h, u);
  }

  /** The division equation for any starting register and any bit string: message times x^32 plus
      starting register times x^length is quotient times generator plus final register. */
  lemma {:induction false} DivisionEquation(c: nat, bits: seq<Bit>, n: nat) returns (q: nat)
    requires IsWidth(n) && c < WORD32
    ensures Xor(Raised(Poly(bits), n), Raised(Reflected(c, n), |bits|)) ==
            Xor(Product(q, GENERATOR), Reflected(DivideBits(c, bits), n))
    decreases |bits|
  {
    if bits == [] {
      q := 0;
      var zero: Bit := 0;
      RaisedBit(zero, n);
    } else {
      var m := |bits| - 1;
      var front, b := bits[..m], bits[m];
      assert bits == front + [b];
      var p := DivisionEquation(c, front, n);
      DivideAppend(c, front, [b]);
      DivideBound(c, front);
      var top := RegisterStep(DivideBits(c, front), b, n);
      q := 2 * p + if top then 1 else 0;
      ProductStep(p, top, q);
      MessageStep(front, b, bits, n);
      EquationStep(Raised(Poly(front), n), Raised(Reflected(c, n), m), Product(p, GENERATOR),
                   Reflected(DivideBits(c, front), n), Part(b == 1, WORD32), Part(top, GENERATOR),
                   Reflected(DivideBits(c, bits), n));
    }
  }

  lemma ProductStep(p: nat, top: bool, q: nat)
    requires q == 2 * p + if top then 1 else 0
    ensures Product(q, GENERATOR) == Xor(2 * Product(p, GENERATOR), Part(top, GENERATOR))
  {
    XorZero(0);
  }

  lemma MessageStep(front: seq<Bit>, b: Bit, bits: seq<Bit>, n: nat)
    requires IsWidth(n) && bits == front + [b]
    ensures Raised(Poly(bits), n) == Xor(2 * Raised(Poly(front), n), Part(b == 1, WORD32))
  {
    assert bits[..|bits| - 1] == front;
    RaisedXor(2 * Poly(front), b, n);
    RaisedDouble(Poly(front), n);
    RaisedBit(b, n);
    WidthPow(n);
  }

  /** With a + i = d + r: doubling, adding the bit on both sides and reducing the register. */
  lemma EquationStep(a: nat, i: nat, d: nat, r: nat, b: nat, g: nat, next: nat)
    requires Xor(a, i) == Xor(d, r) && Xor(2 * r, b) == Xor(g, next)
    ensures Xor(Xor(2 * a, b), 2 * i) == Xor(Xor(2 * d, g), next)
  {
    XorAssoc(2 * a, b, 2 * i);
    XorComm(b, 2 * i);
    XorAssoc(2 * a, 2 * i, b);
    XorDouble(a, i);
    XorDouble(d, r);
    XorAssoc(2 * d, 2 * r, b);
    XorAssoc(2 * d, g, next);
  }

  lemma {:induction false} ProductLinear(a: nat, b: nat, g: nat)
    ensures Product(Xor(a, b), g) == Xor(Product(a, g), Product(b, g))
    decreases a + b
  {
    if a == 0 || b == 0 {
      XorZero(a + b);
      XorZero(Product(a, g));
      XorZero(Product(b, g));
    } else {
      XorOdd(a, b);
      ProductLinear(a / 2, b / 2, g);
      ProductSum(Product(a / 2, g), Product(b / 2, g), Odd(a), Odd(b), g);
      ProductHalves(Xor(a, b), g);
    }
  }

  lemma ProductSum(x: nat, y: nat, i: bool, j: bool, g: nat)
    ensures Xor(Xor(2 * x, Part(i, g)), Xor(2 * y, Part(j, g))) == Xor(2 * Xor(x, y), Part(i != j, g))
  {
    XorSwap(2 * x, Part(i, g), 2 * y, Part(j, g));
    XorDouble(x, y);
    XorParts(i, j, g);
  }

  lemma ProductHalves(a: nat, g: nat)
    ensures Product(a, g) == Xor(2 * Product(a / 2, g), Part(Odd(a), g))
  {
    XorZero(0);
  }

  lemma TwoWords()
    ensures IsPow2(2 * WORD32)
  {
    CommonPowers();
    Pow2Double(WORD32);
  }

  /** Adding a polynomial to one of higher degree leaves the degree. */
  lemma {:induction false} StaysLarge(x: nat, y: nat, p: nat)
    requires IsPow2(p) && x >= p && y < p
    ensures Xor(x, y) >= p
    decreases p
  {
    if p == 1 { XorZero(x); } else { StaysLarge(x / 2, y / 2, p / 2); }
  }

  /** A non-zero multiple of the generator has degree at least 32. */
  lemma {:induction false} ProductLarge(a: nat)
    requires a > 0
    ensures Product(a, GENERATOR) >= WORD32
  {
    if a == 1 {
      XorZero(GENERATOR);
    } else {
      ProductLarge(a / 2);
      TwoWords();
      StaysLarge(2 * Product(a / 2, GENERATOR), Part(Odd(a), GENERATOR), 2 * WORD32);
    }
  }

  lemma XorIsZero(a: nat, b: nat)
    requires Xor(a, b) == 0
    ensures a == b
  {
    XorCancel(a, b);
    XorZero(b);
  }

  /** Quotient and remainder by the generator are unique. */
  lemma RemainderUnique(q: nat, r: nat, p: nat, s: nat)
    requires r < WORD32 && s < WORD32 && Xor(Product(q, GENERATOR), r) == Xor(Product(p, GENERATOR), s)
    ensures q == p && r == s
  {
    var x, y := Product(q, GENERATOR), Product(p, GENERATOR);
    ProductLinear(q, p, GENERATOR);
    SameSums(x, r, y, s);
    CommonPowers();
    XorBound(r, s, WORD32);
    if Xor(q, p) > 0 { ProductLarge(Xor(q, p)); }
    XorIsZero(q, p);
    XorSelf(x);
    XorIsZero(r, s);
  }

  lemma SameSums(x: nat, r: nat, y: nat, s: nat)
    requires Xor(x, r) == Xor(y, s)
    ensures Xor(x, y) == Xor(r, s)
  {
    XorSwap(x, r, y, s);
    XorSelf(Xor(x, r));
    XorIsZero(Xor(x, y), Xor(r, s));
  }

  lemma {:induction false} AllOnesReflected(n: nat)
    ensures Reflected(Pow2(n) - 1, n) == Pow2(n) - 1
  {
    if n > 0 {
      AllOnesReflected(n - 1);
      assert (Pow2(n) - 1) / 2 == Pow2(n - 1) - 1;
      Pow2IsPow2(n - 1);
      DivModUnique(Pow2(n - 1), Pow2(n - 1), 1, 0);
      XorDisjoint(Pow2(n - 1) - 1, Pow2(n - 1), Pow2(n - 1));
      XorComm(Pow2(n - 1), Pow2(n - 1) - 1);
    }
  }

  /** The checksum, with its final complement undone and read as a polynomial, is the remainder of the
      message times x^32, with its first 32 bits complemented, by the generator. */
  lemma CrcIsRemainder(data: seq<Byte>, n: nat) returns (q: nat)
    requires IsWidth(n)
    ensures Xor(Raised(Poly(AllBits(data)), n), Raised(ALL_ONES, 8 * |data|)) ==
            Xor(Product(q, GENERATOR), Reflected(Xor(Crc(data), ALL_ONES), n))
    ensures Reflected(Xor(Crc(data), ALL_ONES), n) < WORD32
  {
    WidthPow(n);
    AllOnesReflected(n);
    CrcIsDivision(ALL_ONES, data);
    XorCancel(FeedAll(ALL_ONES, data), ALL_ONES);
    q := DivisionEquation(ALL_ONES, AllBits(data), n);
    ReflectedBound(Xor(Crc(data), ALL_ONES), n);
  }

  // ----- the conditioning, bit by bit

  /** The first k bits complemented. */
  function Flipped(bits: seq<Bit>, k: nat): (r: seq<Bit>)
    ensures |r| == |bits| && forall i: nat :: i < |bits| ==> r[i] == if i < k then 1 - bits[i] else bits[i]
  {
    seq(|bits|, i requires 0 <= i < |bits| => if i < k then 1 - bits[i] else bits[i])
  }

  function ZeroBits(n: nat): (r: seq<Bit>)
    ensures |r| == n && forall i: nat :: i < n ==> r[i] == 0
  {
    if n == 0 then [] else ZeroBits(n - 1) + [0]
  }

  lemma {:induction false} PolyAppend(a: seq<Bit>, b: seq<Bit>)
    ensures Poly(a + b) == Xor(Raised(Poly(a), |b|), Poly(b))
    decreases |b|
  {
    if b == [] {
      assert a + b == a;
      XorZero(Poly(a));
    } else {
      var m := |b| - 1;
      var front, c := b[..m], b[m];
      PolyAppend(a, front);
      assert (a + b)[..|a + b| - 1] == a + front && (a + b)[|a + b| - 1] == c;
      XorDouble(Raised(Poly(a), m), Poly(front));
      XorAssoc(Raised(Poly(a), |b|), 2 * Poly(front), c);
    }
  }

  lemma {:induction false} PolyOfZeros(n: nat)
    ensures Poly(ZeroBits(n)) == 0
  {
    if n > 0 {
      PolyOfZeros(n - 1);
      assert ZeroBits(n)[..n - 1] == ZeroBits(n - 1);
      XorZero(0);
    }
  }

  lemma {:induction false} PolySnoc(front: seq<Bit>, b: Bit, bits: seq<Bit>)
    requires bits == front + [b]
    ensures Poly(bits) == Xor(2 * Poly(front), b)
  {
    assert bits[..|bits| - 1] == front;
  }

  lemma {:induction false} FlippedSnoc(front: seq<Bit>, b: Bit, bits: seq<Bit>, k: nat)
    requires bits == front + [b] && |bits| <= k
    ensures Flipped(bits, k) == Flipped(front, k) + [1 - b]
  {
  }

  /** Flipping all bits adds the polynomial with all coefficients. */
  lemma {:induction false} PolyOfFlipped(bits: seq<Bit>, k: nat)
    requires |bits| <= k
    ensures Poly(Flipped(bits, k)) == Xor(Poly(bits), Pow2(|bits|) - 1)
    decreases |bits|
  {
    if bits == [] {
      XorZero(0);
    } else {
      var m := |bits| - 1;
      var front, b := bits[..m], bits[m];
      PolyOfFlipped(front, k);
      PolySnoc(front, b, bits);
      FlippedSnoc(front, b, bits, k);
      PolySnoc(Flipped(front, k), 1 - b, Flipped(bits, k));
      FlipStep(Poly(front), Poly(Flipped(front, k)), b, Pow2(m) - 1);
    }
  }

  lemma {:induction false} FlipStep(f: nat, g: nat, b: Bit, q: nat)
    requires g == Xor(f, q)
    ensures Xor(2 * g, 1 - b) == Xor(Xor(2 * f, b), 2 * q + 1)
  {
    XorDouble(f, q);
    FlipLast(2 * f, b, 2 * q);
  }

  lemma {:induction false} FlipLast(a: nat, b: Bit, p: nat)
    requires a % 2 == 0 && p % 2 == 0
    ensures Xor(Xor(a, p), 1 - b) == Xor(Xor(a, b), p + 1)
  {
    LowBitXor(p / 2, 1);
    XorSwap(a, b, p, 1);
    XorParts(b == 1, true, 1);
    assert Xor(b, 1) == 1 - b;
  }

  /** A register's bits, sent lowest first, are the coefficients of its polynomial. */
  lemma {:induction false} PolyOfBits(c: nat, n: nat)
    ensures Poly(BitsOf(c, n)) == Reflected(c, n)
    decreases n
  {
    if n > 0 {
      PolyOfBits(c / 2, n - 1);
      var one: seq<Bit> := [c % 2];
      PolyAppend(one, BitsOf(c / 2, n - 1));
      PolyOfOne(c % 2);
      RaisedBit(c % 2, n - 1);
    }
  }

  lemma {:induction false} PolyOfOne(b: Bit)
    ensures Poly([b]) == b
  {
    assert [b][..0] == [];
    XorZero(b);
  }

  /** The message with 32 zero bits behind it and its first 32 bits flipped: what RFC 1952 divides. */
  function Conditioned(data: seq<Byte>): seq<Bit> {
    Flipped(AllBits(data) + ZeroBits(32), 32)
  }

  lemma {:induction false} FlippedPrefix(a: seq<Bit>, b: seq<Bit>, k: nat)
    requires |a| == k
    ensures Flipped(a + b, k) == Flipped(a, k) + b
  {
  }

  /** Flipping the first k bits of a longer string. */
  lemma {:induction false} PolyOfPrefixFlipped(a: seq<Bit>, b: seq<Bit>, k: nat)
    requires |a| == k
    ensures Poly(Flipped(a + b, k)) == Xor(Poly(a + b), Raised(Pow2(k) - 1, |b|))
  {
    FlippedPrefix(a, b, k);
    PolyAppend(Flipped(a, k), b);
    PolyAppend(a, b);
    PolyOfFlipped(a, k);
    RaisedXor(Poly(a), Pow2(k) - 1, |b|);
    Regroup3(Raised(Poly(a), |b|), Raised(Pow2(k) - 1, |b|), Poly(b));
  }

  lemma {:induction false} Regroup3(a: nat, b: nat, c: nat)
    ensures Xor(Xor(a, b), c) == Xor(Xor(a, c), b)
  {
    XorAssoc(a, b, c);
    XorComm(b, c);
    XorAssoc(a, c, b);
  }

  lemma {:induction false} PolyOfConditioned(data: seq<Byte>, n: nat)
    requires IsWidth(n)
    ensures Poly(Conditioned(data)) == Xor(Raised(Poly(AllBits(data)), n), Raised(ALL_ONES, 8 * |data|))
  {
    var bits, zeros := AllBits(data), ZeroBits(n);
    var all := bits + zeros;
    WidthPow(n);
    assert all == all[..n] + all[n..];
    PolyOfPrefixFlipped(all[..n], all[n..], n);
    PolyOfPadded(bits, n);
  }

  lemma {:induction false} PolyOfPadded(bits: seq<Bit>, n: nat)
    ensures Poly(bits + ZeroBits(n)) == Raised(Poly(bits), n)
  {
    PolyAppend(bits, ZeroBits(n));
    PolyOfZeros(n);
    XorZero(Raised(Poly(bits), n));
  }

  /** The bits of the checksum, complemented and read as a polynomial, are the remainder of the
      conditioned message by the generator. */
  lemma {:induction false} CrcIsComplementedRemainder(data: seq<Byte>, n: nat) returns (q: nat)
    requires IsWidth(n)
    ensures Poly(Conditioned(data)) == Xor(Product(q, GENERATOR), Poly(Flipped(BitsOf(Crc(data), n), n)))
    ensures Poly(Flipped(BitsOf(Crc(data), n), n)) < 0x1_0000_0000 && Crc(data) < 0x1_0000_0000
  {
    q := CrcIsRemainder(data, n);
    PolyOfConditioned(data, n);
    ComplementedBits(Crc(data), n);
    CrcBound(data);
  }

  lemma {:induction false} ComplementedBits(c: nat, n: nat)
    requires IsWidth(n)
    ensures Poly(Flipped(BitsOf(c, n), n)) == Reflected(Xor(c, ALL_ONES), n)
  {
    PolyOfFlipped(BitsOf(c, n), n);
    PolyOfBits(c, n);
    ReflectedXor(c, ALL_ONES, Xor(c, ALL_ONES), n);
    WidthPow(n);
    AllOnesReflected(n);
  }

  lemma {:induction false} CrcBound(data: seq<Byte>)
    ensures Crc(data) < WORD32
  {
    CrcIsDivision(ALL_ONES, data);
    DivideBound(ALL_ONES, AllBits(data));
    CommonPowers();
    XorBound(FeedAll(ALL_ONES, data), ALL_ONES, WORD32);
  }

  // ----- error detection

  /** The step loses nothing: the bit shifted out comes back as the top bit. */
  lemma StepInjective(a: nat, b: nat)
    requires a < WORD32 && b < WORD32 && Step(a) == Step(b)
    ensures a == b
  {
    StepBound(a);
    StepBound(b);
    if a % 2 == 1 {
      XorComm(POLYNOMIAL, a / 2);
      XorComm(POLYNOMIAL, b / 2);
      XorCancel(a / 2, POLYNOMIAL);
      XorCancel(b / 2, POLYNOMIAL);
    }
  }

  lemma {:induction false} StepsInjective(a: nat, b: nat, n: nat)
    requires a < WORD32 && b < WORD32 && Steps(a, n) == Steps(b, n)
    ensures a == b
    decreases n
  {
    if n > 0 {
      StepBound(a);
      StepBound(b);
      StepsInjective(Step(a), Step(b), n - 1);
      StepInjective(a, b);
    }
  }

  /** Different registers stay different whatever common bits follow. */
  lemma {:induction false} DivideInjective(c: nat, d: nat, bits: seq<Bit>)
    requires c < WORD32 && d < WORD32 && DivideBits(c, bits) == DivideBits(d, bits)
    ensures c == d
    decreases |bits|
  {
    if bits != [] {
      var b := bits[0];
      BitBound(c, b);
      BitBound(d, b);
      DivideInjective(Step(Xor(c, b)), Step(Xor(d, b)), bits[1..]);
      StepInjective(Xor(c, b), Xor(d, b));
      XorCancel(c, b);
      XorCancel(d, b);
    }
  }

  /** A bit string as a number, its first bit the least significant. */
  function Number(bits: seq<Bit>): nat {
    if bits == [] then 0 else bits[0] + 2 * Number(bits[1..])
  }

  lemma {:induction false} NumberOfBits(bits: seq<Bit>)
    ensures Number(bits) < Pow2(|bits|) && BitsOf(Number(bits), |bits|) == bits
  {
    if bits != [] {
      NumberOfBits(bits[1..]);
      assert bits == [bits[0]] + bits[1..];
    }
  }

  /** Up to 32 bits are taken in without loss. */
  lemma WindowInjective(c: nat, v: seq<Bit>, w: seq<Bit>, n: nat)
    requires IsWidth(n) && c < WORD32 && |v| == |w| <= n && DivideBits(c, v) == DivideBits(c, w)
    ensures v == w
  {
    NumberOfBits(v);
    NumberOfBits(w);
    Pow2Mono(|v|, n);
    WidthPow(n);
    CommonPowers();
    FeedIsDivision(c, Number(v), |v|);
    FeedIsDivision(c, Number(w), |w|);
    XorBound(c, Number(v), WORD32);
    XorBound(c, Number(w), WORD32);
    StepsInjective(Xor(c, Number(v)), Xor(c, Number(w)), |v|);
    XorComm(c, Number(v));
    XorComm(c, Number(w));
    XorCancel(Number(v), c);
    XorCancel(Number(w), c);
  }

  lemma {:induction false} AllBitsInjective(a: seq<Byte>, b: seq<Byte>, n: nat)
    requires IsByteWidth(n) && |a| == |b| && AllBits(a) == AllBits(b)
    ensures a == b
  {
    if a != [] {
      var s, t := AllBits(a), AllBits(b);
      assert s[..n] == BitsOf(a[0], n) && s[n..] == AllBits(a[1..]);
      assert t[..n] == BitsOf(b[0], n) && t[n..] == AllBits(b[1..]);
      AllBitsInjective(a[1..], b[1..], n);
      BytePow(n);
      BitsInjective(a[0], b[0], n);
      assert a == [a[0]] + a[1..] && b == [b[0]] + b[1..];
    }
  }

  lemma {:induction false} BitsInjective(a: nat, b: nat, n: nat)
    requires a < Pow2(n) && b < Pow2(n) && BitsOf(a, n) == BitsOf(b, n)
    ensures a == b
  {
    if n > 0 {
      var s, t := BitsOf(a, n), BitsOf(b, n);
      assert s[0] == a % 2 && s[1..] == BitsOf(a / 2, n - 1);
      assert t[0] == b % 2 && t[1..] == BitsOf(b / 2, n - 1);
      BitsInjective(a / 2, b / 2, n - 1);
    }
  }

  /** The bit strings agree outside the 32 bits from position i on. */
  ghost predicate AgreeOutside(s: seq<Bit>, t: seq<Bit>, i: nat) {
    |s| == |t| && forall k: nat :: k < |s| && (k < i || k >= i + 32) ==> s[k] == t[k]
  }

  lemma DivideParts(c: nat, prefix: seq<Bit>, v: seq<Bit>, suffix: seq<Bit>)
    ensures DivideBits(c, prefix + v + suffix) == DivideBits(DivideBits(DivideBits(c, prefix), v), suffix)
  {
    DivideAppend(c, prefix + v, suffix);
    DivideAppend(c, prefix, v);
  }

  /** A difference in the middle, of up to 32 bits, reaches the end. */
  lemma MiddleInjective(c: nat, prefix: seq<Bit>, v: seq<Bit>, w: seq<Bit>, suffix: seq<Bit>, n: nat)
    requires IsWidth(n) && c < WORD32 && |v| == |w| <= n
    requires DivideBits(c, prefix + v + suffix) == DivideBits(c, prefix + w + suffix)
    ensures v == w
  {
    DivideParts(c, prefix, v, suffix);
    DivideParts(c, prefix, w, suffix);
    var d := DivideBits(c, prefix);
    DivideBound(c, prefix);
    DivideBound(d, v);
    DivideBound(d, w);
    DivideInjective(DivideBits(d, v), DivideBits(d, w), suffix);
    WindowInjective(d, v, w, n);
  }

  lemma BitBurstDetected(c: nat, s: seq<Bit>, t: seq<Bit>, i: nat, n: nat)
    requires IsWidth(n) && c < WORD32 && AgreeOutside(s, t, i) && DivideBits(c, s) == DivideBits(c, t)
    ensures s == t
  {
    var hi := if i + n < |s| then i + n else |s|;
    var lo := if i < hi then i else hi;
    SplitAround(s, t, lo, hi);
    MiddleInjective(c, s[..lo], s[lo..hi], t[lo..hi], s[hi..], n);
  }

  lemma SplitAround(s: seq<Bit>, t: seq<Bit>, lo: nat, hi: nat)
    requires lo <= hi <= |s| == |t| && forall k: nat :: k < |s| && (k < lo || k >= hi) ==> s[k] == t[k]
    ensures s == s[..lo] + s[lo..hi] + s[hi..] && t == s[..lo] + t[lo..hi] + s[hi..]
  {
  }

  /** Different byte strings of equal length whose bits differ only within 32 consecutive positions,
      wherever those lie in the bytes, have different checksums. */
  lemma BurstDetected(a: seq<Byte>, b: seq<Byte>, i: nat)
    requires |a| == |b| && a != b && AgreeOutside(AllBits(a), AllBits(b), i)
    ensures Crc(a) != Crc(b)
  {
    CrcIsDivision(ALL_ONES, a);
    CrcIsDivision(ALL_ONES, b);
    XorCancel(FeedAll(ALL_ONES, a), ALL_ONES);
    XorCancel(FeedAll(ALL_ONES, b), ALL_ONES);
    if Crc(a) == Crc(b) {
      BitBurstDetected(ALL_ONES, AllBits(a), AllBits(b), i, 32);
      AllBitsInjective(a, b, 8);
    }
  }

  lemma {:induction false} AllBitsAppend(a: seq<Byte>, b: seq<Byte>)
    ensures AllBits(a + b) == AllBits(a) + AllBits(b)
    decreases a
  {
    if a == [] {
      assert a + b == b;
    } else {
      assert (a + b)[1..] == a[1..] + b;
      AllBitsAppend(a[1..], b);
    }
  }

  lemma MiddleAgrees(prefix: seq<Bit>, v: seq<Bit>, w: seq<Bit>, suffix: seq<Bit>)
    requires |v| == |w| <= 32
    ensures AgreeOutside(prefix + (v + suffix), prefix + (w + suffix), |prefix|)
  {
  }

  lemma OneByteAgrees(prefix: seq<Byte>, a: Byte, b: Byte, suffix: seq<Byte>)
    ensures AgreeOutside(AllBits(prefix + ([a] + suffix)), AllBits(prefix + ([b] + suffix)), 8 * |prefix|)
  {
    AllBitsAppend(prefix, [a] + suffix);
    AllBitsAppend(prefix, [b] + suffix);
    AllBitsAppend([a], suffix);
    AllBitsAppend([b], suffix);
    MiddleAgrees(AllBits(prefix), AllBits([a]), AllBits([b]), AllBits(suffix));
  }

  /** In particular a single wrong byte is always detected. */
  lemma OneByteDetected(data: seq<Byte>, i: nat, b: Byte)
    requires i < |data| && b != data[i]
    ensures Crc(data[i := b]) != Crc(data)
  {
    var prefix, suffix := data[..i], data[i + 1..];
    assert data == prefix + ([data[i]] + suffix);
    assert data[i := b] == prefix + ([b] + suffix);
    OneByteAgrees(prefix, data[i], b, suffix);
    BurstDetected(data, data[i := b], 8 * i);
  }
}
