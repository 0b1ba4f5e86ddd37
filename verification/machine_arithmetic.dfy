/**
 Multiplication and division of the machine against chapter 7 of the RISC-V Unprivileged ISA 20191213:
 the two halves make up the product, and quotient and remainder make up the dividend.
 */
module MachineArithmetic {
  import opened MachineInts
  import opened RiscvMachine

  // ---------------------------------------------------------------------------------------
  // Facts about products and quotients
  // ---------------------------------------------------------------------------------------

  lemma SignedOfWrap(x: int)
    requires -TWO_32 / 2 <= x < TWO_32 / 2
    ensures Signed(Wrap(x)) == x
  {
  }

  lemma WrapShifted(x: int, k: int)
    ensures Wrap(x + TWO_32 * k) == Wrap(x)
  {
  }

  lemma HalvesOfUnsigned(p: int)
    requires 0 <= p < TWO_32 * TWO_32
    ensures Upper(p) * TWO_32 + Wrap(p) == p
  {
  }

  lemma HalvesOfSigned(p: int)
    requires -TWO_32 * (TWO_32 / 2) <= p < TWO_32 * (TWO_32 / 2)
    ensures Signed(Upper(p)) * TWO_32 + Wrap(p) == p
  {
    SignedOfWrap(p / TWO_32);
  }

  lemma ProductBounds(x: int, y: int, p: int, q: int)
    requires -p <= x <= p && -q <= y <= q
    ensures -(p * q) <= x * y <= p * q
  {
    assert (p - x) * (q + y) >= 0 && (p + x) * (q - y) >= 0;
    assert (p - x) * (q - y) >= 0 && (p + x) * (q + y) >= 0;
  }

  lemma ProductAtLeast(q: int, d: int)
    requires q >= 0 && d > 0
    ensures q * d >= q
  {
    assert q * (d - 1) >= 0;
  }

  lemma FloorBounds(x: int, d: int)
    requires d > 0
    ensures x / d * d <= x < x / d * d + d
    ensures if x >= 0 then 0 <= x / d <= x else x <= x / d < 0
  {
    var q := x / d;
    assert x == q * d + x % d;
    if q >= 0 {
      ProductAtLeast(q, d);
    } else {
      ProductAtLeast(-q - 1, d);
      assert (-q - 1) * d == -(q * d) - d;
    }
  }

  // ---------------------------------------------------------------------------------------
  // Multiplication
  // ---------------------------------------------------------------------------------------

  lemma LowHalfOfSigned(a: u32, b: u32)
    ensures Wrap(Signed(a) * Signed(b)) == Multiply(a, b)
  {
    var (x, y) := (a as int, b as int);
    if Signed(a) == x && Signed(b) == y {
    } else if Signed(a) == x {
      assert x * (y - TWO_32) == x * y + TWO_32 * -x;
      WrapShifted(x * y, -x);
    } else if Signed(b) == y {
      assert (x - TWO_32) * y == x * y + TWO_32 * -y;
      WrapShifted(x * y, -y);
    } else {
      assert (x - TWO_32) * (y - TWO_32) == x * y + TWO_32 * (TWO_32 - x - y);
      WrapShifted(x * y, TWO_32 - x - y);
    }
  }

  lemma LowHalfOfMixed(a: u32, b: u32)
    ensures Wrap(Signed(a) * b) == Multiply(a, b)
  {
    var (x, y) := (a as int, b as int);
    if Signed(a) != x {
      assert (x - TWO_32) * y == x * y + TWO_32 * -y;
      WrapShifted(x * y, -y);
    }
  }

  /** MUL gives the lower half, MULHU, MULH and MULHSU the upper half of the product of 64 bits. */
  lemma MultiplyLaws(a: u32, b: u32)
    ensures MultiplyHighUnsigned(a, b) * TWO_32 + Multiply(a, b) == a as int * b as int
    ensures Signed(MultiplyHigh(a, b)) * TWO_32 + Multiply(a, b) == Signed(a) * Signed(b)
    ensures Signed(MultiplyHighSignedUnsigned(a, b)) * TWO_32 + Multiply(a, b) == Signed(a) * b
  {
    UnsignedProduct(a, b);
    SignedProduct(a, b);
    MixedProduct(a, b);
  }

  lemma UnsignedProduct(a: u32, b: u32)
    ensures MultiplyHighUnsigned(a, b) * TWO_32 + Multiply(a, b) == a as int * b as int
  {
    var p := a as int * b as int;
    assert 0 <= p <= (TWO_32 - 1) * (TWO_32 - 1) by {
      ProductBounds(a, b, TWO_32 - 1, TWO_32 - 1);
    }
    HalvesOfUnsigned(p);
  }

  lemma SignedProduct(a: u32, b: u32)
    ensures Signed(MultiplyHigh(a, b)) * TWO_32 + Multiply(a, b) == Signed(a) * Signed(b)
  {
    var (x, y) := (Signed(a), Signed(b));
    LowHalfOfSigned(a, b);
    ProductBounds(x, y, 0x8000_0000, 0x8000_0000);
    HalvesOfSigned(x * y);
  }

  lemma MixedProduct(a: u32, b: u32)
    ensures Signed(MultiplyHighSignedUnsigned(a, b)) * TWO_32 + Multiply(a, b) == Signed(a) * b
  {
    var p := Signed(a) * b;
    assert -(TWO_32 / 2 * (TWO_32 - 1)) <= p <= TWO_32 / 2 * (TWO_32 - 1) by {
      ProductBounds(Signed(a), b, TWO_32 / 2, TWO_32 - 1);
    }
    LowHalfOfMixed(a, b);
    HalvesOfSigned(p);
  }

  // ---------------------------------------------------------------------------------------
  // Division
  // ---------------------------------------------------------------------------------------

  function Abs(x: int): int {
    if x < 0 then -x else x
  }

  /** Division with a quotient rounded towards zero. */
  predicate Divides(a: int, b: int, q: int, r: int) {
    a == b * q + r && Abs(r) < Abs(b) && (r == 0 || (r < 0 <==> a < 0))
  }

  lemma QuotientOfNatural(n: int, b: int)
    requires n >= 0 && b != 0
    ensures n == b * (n / b) + n % b && 0 <= n % b < Abs(b) && n % b <= n
    ensures Abs(n / b) <= n
  {
    if b > 0 {
      FloorBounds(n, b);
    } else {
      FloorBounds(n, -b);
      NegativeDivisor(n, b);
    }
  }

  lemma NegativeDivisor(n: int, b: int)
    requires b < 0
    ensures n / b == -(n / -b) && n % b == n % -b && n == b * (n / b) + n % b
  {
  }

  lemma QuotientRoundsToZero(a: int, b: int)
    requires b != 0
    ensures Divides(a, b, Quotient(a, b), a - b * Quotient(a, b)) && Abs(Quotient(a, b)) <= Abs(a)
    ensures Abs(a - b * Quotient(a, b)) <= Abs(a)
  {
    QuotientOfNatural(Abs(a), b);
    assert b * -(-a / b) == -(b * (-a / b));
  }

  /** The only signed quotient that does not fit. */
  lemma QuotientFits(a: int, b: int)
    requires -TWO_32 / 2 <= a < TWO_32 / 2 && b != 0 && !(a == -TWO_32 / 2 && b == -1)
    ensures -TWO_32 / 2 <= Quotient(a, b) < TWO_32 / 2
  {
    QuotientRoundsToZero(a, b);
    if Quotient(a, b) == TWO_32 / 2 {
      assert false;
    }
  }

  /** DIVU and REMU: also where the divisor is zero. */
  lemma DivideUnsignedLaws(a: u32, b: u32)
    ensures b == 0 ==> DivUnsigned(a, b) == TWO_32 - 1 && RemUnsigned(a, b) == a
    ensures b != 0 ==> a == b as int * DivUnsigned(a, b) + RemUnsigned(a, b) && RemUnsigned(a, b) < b
  {
    if b != 0 {
      FloorBounds(a, b);
    }
  }

  /**
   DIV and REM: also where the divisor is zero, and where the quotient of the smallest number and -1
   does not fit; then DIV returns the dividend.
   */
  lemma DivideSignedLaws(a: u32, b: u32)
    ensures b == 0 ==> Signed(DivSigned(a, b)) == -1 && RemSigned(a, b) == a
    ensures Signed(a) == -TWO_32 / 2 && Signed(b) == -1 ==> DivSigned(a, b) == a && RemSigned(a, b) == 0
    ensures b != 0 && !(Signed(a) == -TWO_32 / 2 && Signed(b) == -1) ==>
              Divides(Signed(a), Signed(b), Signed(DivSigned(a, b)), Signed(RemSigned(a, b)))
  {
    if b != 0 && !(Signed(a) == -TWO_32 / 2 && Signed(b) == -1) {
      var (x, y) := (Signed(a), Signed(b));
      QuotientRoundsToZero(x, y);
      QuotientFits(x, y);
      SignedOfWrap(Quotient(x, y));
      SignedOfWrap(x - y * Quotient(x, y));
    }
  }

  /** The shift to the right of a signed number divides and rounds towards minus infinity. */
  lemma ShiftLaws(a: u32, amount: nat)
    ensures Signed(ShiftRightSigned(a, amount)) * Pow2(amount) <= Signed(a)
                  < Signed(ShiftRightSigned(a, amount)) * Pow2(amount) + Pow2(amount)
    ensures ShiftRight(a, amount) as int * Pow2(amount) <= a < ShiftRight(a, amount) as int * Pow2(amount) + Pow2(amount)
  {
    FloorBounds(Signed(a), Pow2(amount));
    FloorBounds(a, Pow2(amount));
    SignedOfWrap(Signed(a) / (Pow2(amount) as int));
  }
}
