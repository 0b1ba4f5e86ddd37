/** Numbers of 32 bits and their bit patterns: the conversions of the language, and what they are bit by bit. */
module Words {
  import opened MachineInts

  /** The pattern with one more bit at its low end. */
  function Push(x: bv32, bit: bool): bv32 {
    (x << 1) | (if bit then 1 else 0)
  }

  /** The number that the low `k` bits of a pattern stand for. */
  function Low(x: bv32, k: nat): (n: nat)
    ensures n < Pow2(k)
  {
    if k == 0 then 0 else (if x & 1 == 1 then 1 else 0) + 2 * Low(x >> 1, k - 1)
  }

  /** The low `k` bits of a number. */
  function Bits(n: nat, k: nat): bv32 {
    if k == 0 then 0 else Push(Bits(n / 2, k - 1), n % 2 == 1)
  }

  /** `k` ones. */
  function Ones(k: nat): bv32 {
    if k == 0 then 0 else Push(Ones(k - 1), true)
  }

  lemma OnesOf16()
    ensures Ones(2) == 3 && Ones(16) == 0xffff
  {
    assert Ones(4) == 0xf;
    assert Ones(8) == 0xff;
    assert Ones(12) == 0xfff;
  }

  const WORD_BITS: nat := 32

  /** The number a bit pattern stands for. */
  function Value(x: bv32): u32 {
    x as int
  }

  /** The bit pattern of a number. */
  function Pattern(n: u32): bv32 {
    n as bv32
  }

  // ---------------------------------------------------------------------------------------
  // The number of a pattern, bit by bit
  // ---------------------------------------------------------------------------------------

  lemma PartsJoined(front: bv31, bit: bv1)
    ensures (((front as bv32) << 1) | (bit as bv32)) as int == 2 * (front as int) + bit as int
    ensures (front as bv32) as int == front as int
    ensures bit as int == if bit as bv32 == 1 then 1 else 0
  {
  }

  lemma TakenApart(x: bv32) returns (front: bv31, bit: bv1)
    ensures x == ((front as bv32) << 1) | (bit as bv32)
    ensures x >> 1 == front as bv32 && x & 1 == bit as bv32
  {
    front, bit := (x >> 1) as bv31, (x & 1) as bv1;
  }

  lemma HalfOfNumber(x: bv32, half: bv32)
    requires half == x >> 1
    ensures x as int == 2 * (half as int) + (if x & 1 == 1 then 1 else 0)
  {
    var front, bit := TakenApart(x);
    PartsJoined(front, bit);
  }

  lemma {:induction false} LowIsNumber(x: bv32, n: nat, k: nat)
    requires n == x as int && n < Pow2(k)
    ensures Low(x, k) == n
    decreases k
  {
    if k > 0 {
      var half := x >> 1;
      HalfOfNumber(x, half);
      LowUnfold(x, k);
      LowIsNumber(half, n / 2, k - 1);
    }
  }

  lemma ValueIsLow(x: bv32)
    ensures Value(x) == Low(x, WORD_BITS)
  {
    Pow2Of32();
    LowIsNumber(x, x as int, WORD_BITS);
  }

  // ---------------------------------------------------------------------------------------
  // Low bits and remainders
  // ---------------------------------------------------------------------------------------

  lemma HalfOfRemainder(n: nat, p: nat)
    requires p > 0
    ensures n % (2 * p) / 2 == n / 2 % p && n % (2 * p) % 2 == n % 2
  {
    var (q, r) := (n / 2 / p, n / 2 % p);
    assert n / 2 == q * p + r;
    assert n == q * (2 * p) + (2 * r + n % 2);
    Remainder(n, q, 2 * p, 2 * r + n % 2);
  }

  lemma {:induction false} BitsOfZero(k: nat)
    ensures Bits(0, k) == 0
  {
    if k > 0 {
      BitsOfZero(k - 1);
    }
  }

  lemma PushMasked(x: bv32, ones: bv32, bit: bool)
    ensures Push(x, bit) & Push(ones, true) == Push(x & ones, bit)
  {
  }

  lemma BitsUnfold(n: nat, k: nat)
    requires k > 0
    ensures Bits(n, k) == Push(Bits(n / 2, k - 1), n % 2 == 1)
  {
  }

  lemma LowBitsStep(n: nat, m: nat, ones: bv32, j: nat)
    requires j > 0 && m % 2 == n % 2 && Bits(n / 2, j - 1) & ones == Bits(m / 2, j - 1)
    ensures Bits(n, j) & Push(ones, true) == Bits(m, j)
  {
    BitsUnfold(n, j);
    BitsUnfold(m, j);
    PushMasked(Bits(n / 2, j - 1), ones, n % 2 == 1);
  }

  /** Masking the low bits of a pattern takes a remainder. */
  lemma {:induction false} LowBits(n: nat, j: nat, k: nat)
    requires k <= j
    ensures Bits(n, j) & Ones(k) == Bits(n % Pow2(k), j)
  {
    if k == 0 {
      BitsOfZero(j);
      assert n % Pow2(0) == 0;
    } else {
      LowBits(n / 2, j - 1, k - 1);
      HalfOfRemainder(n, Pow2(k - 1));
      LowBitsStep(n, n % Pow2(k), Ones(k - 1), j);
    }
  }

  /** Masking the low `k` bits of a word. */
  lemma MaskedWord(n: u32, m: u32, ones: bv32, p: nat, k: nat)
    requires k <= WORD_BITS && ones == Ones(k) && p == Pow2(k) && m == n % p
    ensures Bits(n, WORD_BITS) & ones == Bits(m, WORD_BITS)
  {
    LowBits(n, WORD_BITS, k);
  }

  lemma MaskedPattern(n: u32, m: u32, ones: bv32, p: nat, k: nat)
    requires k <= WORD_BITS && ones == Ones(k) && p == Pow2(k) && m == n % p
    ensures Pattern(n) & ones == Pattern(m)
  {
    MaskedWord(n, m, ones, p, k);
    PatternIsBits(n);
    PatternIsBits(m);
  }

  /** The low half of a word. */
  lemma PatternLow(n: u32, m: u32)
    requires m == n % TWO_16
    ensures Pattern(n) & 0xffff == Pattern(m)
  {
    Pow2Of32();
    OnesOf16();
    MaskedPattern(n, m, 0xffff, TWO_16, 16);
  }

  /** The two bits that tell the length of an instruction. */
  lemma PatternLowest(n: u32)
    ensures Pattern(n) & 3 == Pattern(n % 4)
  {
    OnesOf16();
    assert Pow2(2) == 4;
    MaskedPattern(n, n % 4, 3, 4, 2);
  }

  lemma ParityOfSum(n: nat, half: nat, bit: bool)
    requires n == 2 * half + (if bit then 1 else 0)
    ensures n % 2 == 0 <==> !bit
  {
  }

  lemma LowBitIsOne(x: bv32)
    ensures x & 1 == 0 <==> x & 1 != 1
  {
  }

  lemma LowParity(x: bv32, half: bv32, k: nat)
    requires k > 0 && half == x >> 1
    ensures Low(x, k) % 2 == 0 <==> x & 1 != 1
  {
    LowUnfold(x, k);
    ParityOfSum(Low(x, k), Low(half, k - 1), x & 1 == 1);
  }

  lemma ValueParity(x: bv32)
    ensures Value(x) % 2 == 0 <==> x & 1 == 0
  {
    ValueIsLow(x);
    LowParity(x, x >> 1, WORD_BITS);
    LowBitIsOne(x);
  }

  // ---------------------------------------------------------------------------------------
  // Numbers and patterns are two names for one word
  // ---------------------------------------------------------------------------------------

  lemma PushLow(x: bv32, bit: bool, mask: bv32)
    requires mask == 0x7fff_ffff
    ensures Push(x, bit) & 1 == 1 <==> bit
    ensures Push(x, bit) >> 1 == x & mask
  {
  }

  lemma LowUnfold(x: bv32, k: nat)
    requires k > 0
    ensures Low(x, k) == (if x & 1 == 1 then 1 else 0) + 2 * Low(x >> 1, k - 1)
  {
  }

  lemma LowSame(x: bv32, halfX: bv32, y: bv32, halfY: bv32, k: nat)
    requires k > 0 && halfX == x >> 1 && halfY == y >> 1 && x & 1 == y & 1
    ensures Low(halfX, k - 1) == Low(halfY, k - 1) ==> Low(x, k) == Low(y, k)
  {
    LowUnfold(x, k);
    LowUnfold(y, k);
  }

  /** The low `j` bits of a mask are ones. */
  predicate KeepsLow(mask: bv32, j: nat) {
    j == 0 || (mask & 1 == 1 && KeepsLow(mask >> 1, j - 1))
  }

  lemma KeepsUnfold(mask: bv32, j: nat)
    requires j > 0 && KeepsLow(mask, j)
    ensures mask & 1 == 1 && KeepsLow(mask >> 1, j - 1)
  {
  }

  lemma MaskedStep(x: bv32, mask: bv32, y: bv32) returns (halfX: bv32, halfMask: bv32, halfY: bv32)
    requires mask & 1 == 1 && y == x & mask
    ensures halfX == x >> 1 && halfMask == mask >> 1 && halfY == y >> 1
    ensures x & 1 == y & 1 && halfY == halfX & halfMask
  {
    halfX, halfMask, halfY := x >> 1, mask >> 1, y >> 1;
  }

  lemma HalfOfMasked(x: bv32, mask: bv32, y: bv32, j: nat) returns (halfX: bv32, halfMask: bv32, halfY: bv32)
    requires j > 0 && KeepsLow(mask, j) && y == x & mask
    ensures KeepsLow(halfMask, j - 1) && halfY == halfX & halfMask
    ensures Low(halfX, j - 1) == Low(halfY, j - 1) ==> Low(x, j) == Low(y, j)
  {
    KeepsUnfold(mask, j);
    halfX, halfMask, halfY := MaskedStep(x, mask, y);
    LowSame(x, halfX, y, halfY, j);
  }

  lemma {:induction false} LowOfMasked(x: bv32, mask: bv32, y: bv32, j: nat)
    requires KeepsLow(mask, j) && y == x & mask
    ensures Low(x, j) == Low(y, j)
    decreases j
  {
    if j > 0 {
      var halfX, halfMask, halfY := HalfOfMasked(x, mask, y, j);
      LowOfMasked(halfX, halfMask, halfY, j - 1);
    }
  }

  lemma {:induction false} LessIsKept(mask: bv32, j: nat, k: nat)
    requires KeepsLow(mask, k) && j <= k
    ensures KeepsLow(mask, j)
  {
    if j > 0 {
      LessIsKept(mask >> 1, j - 1, k - 1);
    }
  }

  lemma KeepsFour(mask: bv32, rest: bv32, j: nat)
    requires mask & 0xf == 0xf && mask >> 4 == rest && KeepsLow(rest, j)
    ensures KeepsLow(mask, j + 4)
  {
    FourBits(mask);
    assert KeepsLow(mask >> 3, j + 1);
    assert KeepsLow(mask >> 2, j + 2);
    assert KeepsLow(mask >> 1, j + 3);
  }

  lemma FourBits(mask: bv32)
    requires mask & 0xf == 0xf
    ensures mask & 1 == 1 && (mask >> 1) & 1 == 1 && (mask >> 2) & 1 == 1 && (mask >> 3) & 1 == 1
    ensures (mask >> 1) >> 1 == mask >> 2 && (mask >> 2) >> 1 == mask >> 3 && (mask >> 3) >> 1 == mask >> 4
  {
  }

  /** All but the sign bit. */
  lemma SignMask() returns (mask: bv32)
    ensures mask == 0x7fff_ffff && KeepsLow(mask, 31)
  {
    assert KeepsLow(1, 1);
    assert KeepsLow(3, 2);
    assert KeepsLow(7, 3);
    KeepsFour(0x7f, 0x7, 3);
    KeepsFour(0x7ff, 0x7f, 7);
    KeepsFour(0x7fff, 0x7ff, 11);
    KeepsFour(0x7_ffff, 0x7fff, 15);
    KeepsFour(0x7f_ffff, 0x7_ffff, 19);
    KeepsFour(0x7ff_ffff, 0x7f_ffff, 23);
    mask := 0x7fff_ffff;
    KeepsFour(mask, 0x7ff_ffff, 27);
  }

  lemma LowOfPush(x: bv32, bit: bool, k: nat)
    requires 0 < k <= WORD_BITS
    ensures Low(Push(x, bit), k) == (if bit then 1 else 0) + 2 * Low(x, k - 1)
  {
    var pushed, half := LowWithoutSign(x, bit, k - 1);
    LowFromHalf(pushed, half, bit, k);
  }

  lemma LowWithoutSign(x: bv32, bit: bool, j: nat) returns (pushed: bv32, half: bv32)
    requires j < WORD_BITS
    ensures pushed == Push(x, bit) && half == pushed >> 1 && (pushed & 1 == 1 <==> bit) && Low(x, j) == Low(half, j)
  {
    pushed := Push(x, bit);
    var mask := SignMask();
    half := x & mask;
    PushLow(x, bit, mask);
    LessIsKept(mask, j, 31);
    LowOfMasked(x, mask, half, j);
  }

  lemma LowFromHalf(x: bv32, half: bv32, bit: bool, k: nat)
    requires k > 0 && half == x >> 1 && (x & 1 == 1 <==> bit)
    ensures Low(x, k) == (if bit then 1 else 0) + 2 * Low(half, k - 1)
  {
    LowUnfold(x, k);
  }

  lemma {:induction false} LowOfBits(n: nat, k: nat)
    requires k <= WORD_BITS
    ensures Low(Bits(n, k), k) == n % Pow2(k)
  {
    if k > 0 {
      LowOfPush(Bits(n / 2, k - 1), n % 2 == 1, k);
      BitsUnfold(n, k);
      LowOfBits(n / 2, k - 1);
      HalfOfRemainder(n, Pow2(k - 1));
    }
  }

  lemma LowOfSmall(n: nat, k: nat)
    requires k <= WORD_BITS && n < Pow2(k)
    ensures Low(Bits(n, k), k) == n
  {
    LowOfBits(n, k);
    Remainder(n, 0, Pow2(k), n);
  }

  /** The bits of a number stand for this number. */
  lemma BitsAreNumber(n: u32)
    ensures Bits(n, WORD_BITS) as int == n
  {
    Pow2Of32();
    ValueIsLow(Bits(n, WORD_BITS));
    LowOfSmall(n, WORD_BITS);
  }

  /** Every pattern is that of the number it stands for. */
  lemma PatternOfValue(x: bv32)
    ensures Pattern(Value(x)) == x
  {
  }

  lemma PatternIsBits(n: u32)
    ensures Pattern(n) == Bits(n, WORD_BITS)
  {
    BitsAreNumber(n);
    PatternOfValue(Bits(n, WORD_BITS));
  }

  /** The pattern of a number stands for this number. */
  lemma ValueOfPattern(n: u32)
    ensures Value(Pattern(n)) == n
  {
    PatternIsBits(n);
    BitsAreNumber(n);
  }
}
