/**
 Compressed public keys of secp256k1: app-sdk/src/curve.rs, over modular arithmetic that keeps the
 contracts of app-sdk/src/ecalls.rs. Sections 2.3.3 and 2.3.4 of SEC 1 v2.0.
 */
module Curve {
  import opened MachineInts
  import opened BigEndian
  import opened BigNumbers

  // ---------------------------------------------------------------------------------------
  // Constants
  // ---------------------------------------------------------------------------------------

  /** `n` bytes of ones. */
  function AllOnes(n: nat): (s: bytes)
    ensures |s| == n
  {
    if n == 0 then [] else AllOnes(n - 1) + [0xff]
  }

  /** The field prime. */
  const P: bytes := AllOnes(27) + [0xfe, 0xff, 0xff, 0xfc, 0x2f]

  const SQUAREROOT_EXP: bytes := [0x3f] + (AllOnes(27) + [0xbf, 0xff, 0xff, 0x0c])

  const SEVEN: bytes := Zeros(31) + [7]

  lemma {:induction false} AllOnesValue(n: nat)
    ensures FromBE(AllOnes(n)) == Pow256(n) - 1
  {
    if n > 0 {
      AllOnesValue(n - 1);
      assert AllOnes(n)[..n - 1] == AllOnes(n - 1);
    }
  }

  lemma {:induction false} ZerosValue(n: nat)
    ensures FromBE(Zeros(n)) == 0
  {
    if n > 0 {
      ZerosValue(n - 1);
      assert Zeros(n)[..n - 1] == Zeros(n - 1);
    }
  }

  lemma OneByte(a: u8)
    ensures FromBE([a]) == a
  {
    assert [a][..0] == [];
  }

  lemma FourBytes(a: u8, b: u8, c: u8, d: u8)
    ensures FromBE([a, b, c, d]) == 16777216 * a as int + 65536 * b as int + 256 * c as int + d as int
  {
    OneByte(a);
    assert [a, b][..1] == [a] && FromBE([a, b]) == 256 * a as int + b as int;
    assert [a, b, c][..2] == [a, b] && FromBE([a, b, c]) == 65536 * a as int + 256 * b as int + c as int;
    assert [a, b, c, d][..3] == [a, b, c];
  }

  lemma PowSteps()
    ensures Pow256(4) == TWO_32 && Pow256(5) == 256 * TWO_32
    ensures Pow256(31) == Pow256(27) * TWO_32 && Pow256(32) == Pow256(27) * (256 * TWO_32)
  {
    Pow256Widths();
    assert Pow256(28) == 256 * Pow256(27);
    assert Pow256(29) == 256 * Pow256(28);
    assert Pow256(30) == 256 * Pow256(29);
  }

  lemma PrimeTail(tail: bytes)
    requires tail == [0xfe, 0xff, 0xff, 0xfc, 0x2f]
    ensures FromBE(tail) == 256 * TWO_32 - TWO_32 - 977
  {
    FourBytes(0xfe, 0xff, 0xff, 0xfc);
    assert tail[..4] == [0xfe, 0xff, 0xff, 0xfc];
  }

  lemma PredecessorTimes(p: int, q: int)
    ensures (p - 1) * q == p * q - q
  {
  }

  lemma OnesAndTail(n: nat, tail: bytes)
    ensures FromBE(AllOnes(n) + tail) == Pow256(n) * Pow256(|tail|) - Pow256(|tail|) + FromBE(tail)
  {
    FromBEConcat(AllOnes(n), tail);
    AllOnesValue(n);
    PredecessorTimes(Pow256(n), Pow256(|tail|));
    assert FromBE(AllOnes(n)) * Pow256(|tail|) == (Pow256(n) - 1) * Pow256(|tail|);
  }

  /** The prime is 2^256 - 2^32 - 977. */
  lemma PrimeValue()
    ensures |P| == 32 && FromBE(P) == Pow256(32) - TWO_32 - 977
  {
    var tail := [0xfe, 0xff, 0xff, 0xfc, 0x2f];
    OnesAndTail(27, tail);
    PrimeTail(tail);
    PowSteps();
  }

  lemma ExponentTail(tail: bytes)
    requires tail == [0xbf, 0xff, 0xff, 0x0c]
    ensures FromBE(AllOnes(27) + tail) == Pow256(31) - TWO_32 + 0xbfff_ff0c
  {
    OnesAndTail(27, tail);
    FourBytes(0xbf, 0xff, 0xff, 0x0c);
    PowSteps();
  }

  /** The exponent is (p + 1) / 4. */
  lemma ExponentValue()
    ensures |SQUAREROOT_EXP| == 32 && 4 * FromBE(SQUAREROOT_EXP) == FromBE(P) + 1
  {
    var tail := [0xbf, 0xff, 0xff, 0x0c];
    assert FromBE(SQUAREROOT_EXP) == 0x3f * Pow256(31) + FromBE(AllOnes(27) + tail) by {
      FromBEConcat([0x3f], AllOnes(27) + tail);
      OneByte(0x3f);
    }
    ExponentTail(tail);
    PrimeValue();
    PowSteps();
  }

  lemma SevenValue()
    ensures |SEVEN| == 32 && FromBE(SEVEN) == 7
  {
    assert SEVEN[..31] == Zeros(31);
    ZerosValue(31);
  }

  // ---------------------------------------------------------------------------------------
  // Arithmetic modulo the prime
  // ---------------------------------------------------------------------------------------

  function Prime(): (p: nat)
    ensures p > 0
  {
    PrimeValue();
    PowSteps();
    FromBE(P)
  }

  function Power(base: nat, exponent: nat): nat {
    if exponent == 0 then 1 else base * Power(base, exponent - 1)
  }

  /** `bn_multm`, `bn_addm` and `bn_powm` for the modulus `P`; they may fail. */
  datatype FieldOps = FieldOps(multm: (bytes, bytes) -> Option<bytes>, addm: (bytes, bytes) -> Option<bytes>,
                               powm: (bytes, bytes) -> Option<bytes>)

  /** A result has 32 bytes and is the given number modulo the prime. */
  ghost predicate Reduces(r: Option<bytes>, n: nat) {
    r.Some? ==> |r.value| == 32 && FromBE(r.value) == n % Prime()
  }

  /** The contracts of the three calls, for operands of 32 bytes. */
  ghost predicate Keeps(ops: FieldOps) {
    && (forall a, b :: |a| == 32 && |b| == 32 ==> Reduces(ops.multm(a, b), FromBE(a) * FromBE(b)))
    && (forall a, b :: |a| == 32 && |b| == 32 ==> Reduces(ops.addm(a, b), FromBE(a) + FromBE(b)))
    && (forall a, e :: |a| == 32 && |e| == 32 ==> Reduces(ops.powm(a, e), Power(FromBE(a), FromBE(e))))
  }

  lemma ShiftedRemainder(n: int, k: int, p: nat)
    requires p > 0
    ensures (n + k * p) % p == n % p
  {
    assert n == n / p * p + n % p;
    assert n + k * p == (n / p + k) * p + n % p;
    Remainder(n + k * p, n / p + k, p, n % p);
  }

  lemma ProductRemainder(a: nat, b: nat, p: nat)
    requires p > 0
    ensures a % p * b % p == a * b % p
  {
    assert a == a / p * p + a % p;
    assert a * b == a % p * b + a / p * b * p;
    ShiftedRemainder(a % p * b, a / p * b, p);
  }

  lemma SumRemainder(a: nat, b: nat, p: nat)
    requires p > 0
    ensures (a % p + b) % p == (a + b) % p
  {
    assert a == a / p * p + a % p;
    ShiftedRemainder(a % p + b, a / p, p);
  }

  // ---------------------------------------------------------------------------------------
  // Public keys
  // ---------------------------------------------------------------------------------------

  /** `EcfpPublicKey`: the coordinates, after the prefix 4. */
  datatype PublicKey = PublicKey(x: bytes, y: bytes)

  ghost predicate OnCurve(key: PublicKey) {
    Square(FromBE(key.y)) == RightSide(FromBE(key.x))
  }

  /** y^2 modulo the prime. */
  function Square(y: nat): nat {
    y * y % Prime()
  }

  /** x^3 + 7 modulo the prime. */
  function RightSide(x: nat): nat {
    (x * x * x + 7) % Prime()
  }

  /** The right-hand side of the equation. */
  function RightSideBytes(ops: FieldOps, x: bytes): Option<bytes> {
    match ops.multm(x, x)
    case None => None
    case Some(x2) =>
      match ops.multm(x2, x)
      case None => None
      case Some(x3) => ops.addm(x3, SEVEN)
  }

  /** The right-hand side of the equation, and the candidate for its root. */
  function Candidate(ops: FieldOps, x: bytes): Option<(bytes, bytes)> {
    match RightSideBytes(ops, x)
    case None => None
    case Some(rhs) =>
      match ops.powm(rhs, SQUAREROOT_EXP)
      case None => None
      case Some(y) => Some((rhs, y))
  }

  /** `from_compressed` */
  function Decompressed(ops: FieldOps, compressed: bytes): Result<PublicKey, string>
    requires |compressed| == 33 && Keeps(ops)
  {
    if compressed[0] != 2 && compressed[0] != 3 then Err("Invalid compressed key prefix")
    else
      var x := compressed[1..];
      match Candidate(ops, x)
      case None => Err("Point decompression failed")
      case Some((rhs, y)) =>
        CandidateSize(ops, x);
        if ops.multm(y, y) != Some(rhs) then Err("Point not on curve")
        else Ok(PublicKey(x, if y[31] % 2 != compressed[0] % 2 then Difference(P, y) else y))
  }

  lemma MultiplyReduces(ops: FieldOps, a: bytes, b: bytes)
    requires Keeps(ops) && |a| == 32 && |b| == 32
    ensures Reduces(ops.multm(a, b), FromBE(a) * FromBE(b))
  {
  }

  lemma AddSevenReduces(ops: FieldOps, a: bytes)
    requires Keeps(ops) && |a| == 32
    ensures Reduces(ops.addm(a, SEVEN), FromBE(a) + 7)
  {
    SevenValue();
  }

  lemma RootReduces(ops: FieldOps, a: bytes)
    requires Keeps(ops) && |a| == 32
    ensures Reduces(ops.powm(a, SQUAREROOT_EXP), Power(FromBE(a), FromBE(SQUAREROOT_EXP)))
  {
    ExponentValue();
  }

  lemma RightSideSize(ops: FieldOps, x: bytes)
    requires |x| == 32 && Keeps(ops) && RightSideBytes(ops, x).Some?
    ensures |RightSideBytes(ops, x).value| == 32 && FromBE(RightSideBytes(ops, x).value) == RightSide(FromBE(x))
  {
    var x2 := ops.multm(x, x).value;
    MultiplyReduces(ops, x, x);
    var x3 := ops.multm(x2, x).value;
    MultiplyReduces(ops, x2, x);
    AddSevenReduces(ops, x3);
    CubePlusSeven(FromBE(x), FromBE(x2), FromBE(x3), Prime());
  }

  lemma CandidateSize(ops: FieldOps, x: bytes)
    requires |x| == 32 && Keeps(ops) && Candidate(ops, x).Some?
    ensures |P| == 32 && |Candidate(ops, x).value.1| == 32 && FromBE(Candidate(ops, x).value.1) < Prime()
    ensures FromBE(Candidate(ops, x).value.0) == RightSide(FromBE(x))
  {
    RightSideSize(ops, x);
    RootReduces(ops, RightSideBytes(ops, x).value);
    PrimeValue();
  }

  lemma CubePlusSeven(n: nat, x2: nat, x3: nat, p: nat)
    requires p > 0 && x2 == n * n % p && x3 == x2 * n % p
    ensures (x3 + 7) % p == (n * n * n + 7) % p
  {
    ProductRemainder(n * n, n, p);
    SumRemainder(n * n * n, 7, p);
  }

  /** The parity of a number is that of its last byte. */
  lemma Parity(s: bytes)
    requires s != []
    ensures FromBE(s) % 2 == s[|s| - 1] % 2
  {
    assert FromBE(s) == 2 * (128 * FromBE(s[..|s| - 1])) + s[|s| - 1];
  }

  /** A number and its negation have different parities. */
  lemma NegationOf(q: bytes, y: bytes)
    requires q != [] && |q| == |y| && FromBE(y) < FromBE(q) && q[|q| - 1] % 2 == 1
    ensures FromBE(Difference(q, y)) == FromBE(q) - FromBE(y)
    ensures Difference(q, y)[|q| - 1] % 2 != y[|q| - 1] % 2
  {
    DifferenceOfSmaller(q, y);
    OddDifference(q, y, Difference(q, y));
  }

  lemma OddDifference(q: bytes, y: bytes, d: bytes)
    requires q != [] && |q| == |y| == |d| && FromBE(d) == FromBE(q) - FromBE(y) && q[|q| - 1] % 2 == 1
    ensures d[|q| - 1] % 2 != y[|q| - 1] % 2
  {
    Parity(y);
    Parity(d);
    Parity(q);
    OddMinus(FromBE(q), FromBE(y), FromBE(d));
  }

  lemma OddMinus(a: int, b: int, c: int)
    requires c == a - b && a % 2 == 1
    ensures c % 2 != b % 2
  {
  }

  lemma NegatedSquare(m: int, n: nat, p: nat)
    requires n < p && m == p - n
    ensures m * m % p == n * n % p
  {
    assert m * m == n * n + (p - 2 * n) * p;
    ShiftedRemainder(n * n, p - 2 * n, p);
  }

  lemma SameSquare(m: nat, n: nat)
    requires n < Prime() && m == Prime() - n
    ensures Square(m) == Square(n)
  {
    NegatedSquare(m, n, Prime());
  }

  lemma PrimeIsOdd()
    ensures |P| == 32 && P[31] % 2 == 1
  {
  }

  lemma Negation(y: bytes)
    requires |y| == 32 && FromBE(y) < Prime()
    ensures |P| == 32 && |Difference(P, y)| == 32 && FromBE(Difference(P, y)) == Prime() - FromBE(y)
    ensures Difference(P, y)[31] % 2 != y[31] % 2
  {
    PrimeIsOdd();
    NegationOf(P, y);
  }

  lemma RootOnCurve(x: bytes, rhs: bytes, y: bytes, negated: bytes)
    requires FromBE(rhs) == RightSide(FromBE(x)) && FromBE(rhs) == Square(FromBE(y)) && FromBE(y) < Prime()
    requires FromBE(negated) == Prime() - FromBE(y)
    ensures OnCurve(PublicKey(x, y)) && OnCurve(PublicKey(x, negated))
  {
    SameSquare(FromBE(negated), FromBE(y));
  }

  /** Every accepted key is on the curve: y^2 = x^3 + 7 modulo the prime. Its y has the parity asked for. */
  lemma AcceptedOnCurve(ops: FieldOps, compressed: bytes)
    requires |compressed| == 33 && Keeps(ops) && Decompressed(ops, compressed).Ok?
    ensures var key := Decompressed(ops, compressed).value;
            && OnCurve(key) && key.x == compressed[1..] && |key.y| == 32 && FromBE(key.y) <= Prime()
            && key.y[31] % 2 == compressed[0] % 2
  {
    var x := compressed[1..];
    var (rhs, y) := Candidate(ops, x).value;
    CandidateSize(ops, x);
    MultiplyReduces(ops, y, y);
    Negation(y);
    RootOnCurve(x, rhs, y, Difference(P, y));
  }

  /** `to_compressed` */
  function ToCompressed(key: PublicKey): bytes
    requires |key.x| == |key.y| == 32
  {
    [key.y[31] % 2 + 2] + key.x
  }

  lemma AcceptedPrefix(ops: FieldOps, compressed: bytes)
    requires |compressed| == 33 && Keeps(ops) && Decompressed(ops, compressed).Ok?
    ensures compressed[0] == 2 || compressed[0] == 3
  {
  }

  lemma PrefixReturns(key: PublicKey, compressed: bytes)
    requires |compressed| == 33 && (compressed[0] == 2 || compressed[0] == 3)
    requires key.x == compressed[1..] && |key.y| == 32 && key.y[31] % 2 == compressed[0] % 2
    ensures ToCompressed(key) == compressed
  {
    assert compressed == [compressed[0]] + compressed[1..];
  }

  /** Compressing an accepted key gives back the compressed key it came from. */
  lemma CompressReturns(ops: FieldOps, compressed: bytes)
    requires |compressed| == 33 && Keeps(ops) && Decompressed(ops, compressed).Ok?
    ensures var key := Decompressed(ops, compressed).value;
            key.x == compressed[1..] && |key.y| == 32 && ToCompressed(key) == compressed
  {
    AcceptedOnCurve(ops, compressed);
    AcceptedPrefix(ops, compressed);
    PrefixReturns(Decompressed(ops, compressed).value, compressed);
  }

  // ---------------------------------------------------------------------------------------
  // x-coordinates that are not reduced
  // ---------------------------------------------------------------------------------------

  /** A multiplication that refuses operands from the prime on, as the native one does. */
  ghost predicate RefusesUnreduced(ops: FieldOps) {
    forall a, b :: |a| == 32 && |b| == 32 && (FromBE(a) >= Prime() || FromBE(b) >= Prime()) ==> ops.multm(a, b) == None
  }

  /** Calls that succeed for all operands of 32 bytes. */
  ghost predicate TakesAll(ops: FieldOps) {
    && (forall a, b :: |a| == 32 && |b| == 32 ==> ops.multm(a, b).Some? && ops.addm(a, b).Some?)
    && (forall a, e :: |a| == 32 && |e| == 32 ==> ops.powm(a, e).Some?)
  }

  /** With such a multiplication every accepted x is a field element, as section 2.3.4 of SEC 1 asks. */
  lemma RefusedUnlessReduced(ops: FieldOps, compressed: bytes)
    requires |compressed| == 33 && Keeps(ops) && RefusesUnreduced(ops)
    ensures FromBE(compressed[1..]) >= Prime() ==> Decompressed(ops, compressed).Err?
  {
    var x := compressed[1..];
    if FromBE(x) >= Prime() {
      assert ops.multm(x, x) == None;
    }
  }

  lemma CubeOfSum(n: nat, k: nat, p: nat)
    requires p > 0
    ensures ((n + k * p) * (n + k * p) * (n + k * p) + 7) % p == (n * n * n + 7) % p
  {
    var m := n + k * p;
    ShiftedRemainder(n, k, p);
    assert m * m % p == n * n % p by {
      ProductRemainder(m, m, p);
      ProductRemainder(n, m, p);
      ProductRemainder(m, n, p);
      ProductRemainder(n, n, p);
    }
    ProductRemainder(m * m, m, p);
    ProductRemainder(n * n, m, p);
    ProductRemainder(m, n * n, p);
    ProductRemainder(n, n * n, p);
    SumRemainder(m * m * m, 7, p);
    SumRemainder(n * n * n, 7, p);
  }

  lemma SameRightSide(n: nat, m: nat)
    requires m == n + Prime()
    ensures RightSide(m) == RightSide(n)
  {
    CubeOfSum(n, 1, Prime());
  }

  lemma RightSideTaken(ops: FieldOps, x: bytes)
    requires |x| == 32 && Keeps(ops) && TakesAll(ops)
    ensures RightSideBytes(ops, x).Some?
  {
    MultiplyReduces(ops, x, x);
    MultiplyReduces(ops, ops.multm(x, x).value, x);
    SevenValue();
  }

  lemma SameCandidate(ops: FieldOps, x: bytes, other: bytes)
    requires |x| == |other| == 32 && Keeps(ops) && TakesAll(ops) && FromBE(other) == FromBE(x) + Prime()
    ensures Candidate(ops, other) == Candidate(ops, x)
  {
    RightSideTaken(ops, x);
    RightSideTaken(ops, other);
    RightSideSize(ops, x);
    RightSideSize(ops, other);
    SameRightSide(FromBE(x), FromBE(other));
    FromBEInjective(RightSideBytes(ops, x).value, RightSideBytes(ops, other).value);
  }

  /**
   With calls that take all operands each x for which x + p still has 32 bytes has a second name: x + p
   is accepted exactly when x is, with the same y, and the keys differ.
   */
  lemma SecondName(ops: FieldOps, compressed: bytes, other: bytes)
    requires |compressed| == |other| == 33 && Keeps(ops) && TakesAll(ops)
    requires other[0] == compressed[0] && FromBE(other[1..]) == FromBE(compressed[1..]) + Prime()
    ensures Decompressed(ops, other).Ok? <==> Decompressed(ops, compressed).Ok?
    ensures Decompressed(ops, other).Ok? ==>
              var (key, second) := (Decompressed(ops, compressed).value, Decompressed(ops, other).value);
              second.y == key.y && second.x != key.x && OnCurve(second)
  {
    SameCandidate(ops, compressed[1..], other[1..]);
    if Decompressed(ops, other).Ok? {
      AcceptedOnCurve(ops, other);
    }
  }

  /** The exponentiation finds a root of every 32-byte number that has one, as it does for a prime modulus. */
  ghost predicate FindsRoots(ops: FieldOps) {
    forall rhs, r :: |rhs| == 32 && ops.powm(rhs, SQUAREROOT_EXP).Some? && Square(r) == FromBE(rhs) ==>
      Square(FromBE(ops.powm(rhs, SQUAREROOT_EXP).value)) == FromBE(rhs)
  }

  /** A square root of 8, so that the point with x = 1 is on the curve. */
  const ROOT_OF_EIGHT: nat := 0x4218f20ae6c646b363db68605822fb14264ca8d2587fdd6fbc750d587e76a7ee

  lemma Pow256Of32()
    ensures Pow256(32) == 0x1_0000000000000000_0000000000000000_0000000000000000_0000000000000000
  {
    Pow256Widths();
    Pow256Doubles(4);
    Pow256Doubles(8);
    Pow256Doubles(16);
  }

  lemma PrimeLiteral()
    ensures Prime() == 0xfffffffffffffffffffffffffffffffffffffffffffffffffffffffefffffc2f
  {
    PrimeValue();
    Pow256Of32();
  }

  lemma {:induction false} Pow256Sum(m: nat, n: nat)
    ensures Pow256(m + n) == Pow256(m) * Pow256(n)
  {
    if n > 0 {
      Pow256Sum(m, n - 1);
      assert Pow256(m + n) == 256 * Pow256(m + n - 1);
    }
  }

  lemma Pow256Doubles(n: nat)
    ensures Pow256(2 * n) == Pow256(n) * Pow256(n)
  {
    Pow256Sum(n, n);
  }

  lemma OneIsOnCurve()
    ensures Square(ROOT_OF_EIGHT) == 8 == RightSide(1)
  {
    PrimeLiteral();
    Remainder(ROOT_OF_EIGHT * ROOT_OF_EIGHT, 0x1110df3be5e21e6776516a5fa6702d71d937b2614804cce0315f9575458ff784, Prime(), 8);
  }

  lemma RootOf(ops: FieldOps, rhs: bytes, r: nat)
    requires |rhs| == 32 && Keeps(ops) && TakesAll(ops) && FindsRoots(ops) && Square(r) == FromBE(rhs)
    ensures ops.powm(rhs, SQUAREROOT_EXP).Some?
    ensures var y := ops.powm(rhs, SQUAREROOT_EXP).value; ops.multm(y, y) == Some(rhs)
  {
    ExponentValue();
    RootReduces(ops, rhs);
    var y := ops.powm(rhs, SQUAREROOT_EXP).value;
    MultiplyReduces(ops, y, y);
    SameBytes(ops.multm(y, y).value, rhs, FromBE(y));
  }

  lemma SameBytes(product: bytes, rhs: bytes, y: nat)
    requires |product| == |rhs| && FromBE(product) == y * y % Prime() && Square(y) == FromBE(rhs)
    ensures product == rhs
  {
    FromBEInjective(product, rhs);
  }

  /** A compressed key whose x is that of a point is accepted. */
  lemma RootIsFound(ops: FieldOps, compressed: bytes, r: nat)
    requires |compressed| == 33 && (compressed[0] == 2 || compressed[0] == 3)
    requires Keeps(ops) && TakesAll(ops) && FindsRoots(ops)
    requires Square(r) == RightSide(FromBE(compressed[1..]))
    ensures Decompressed(ops, compressed).Ok?
  {
    var x := compressed[1..];
    RightSideTaken(ops, x);
    RightSideSize(ops, x);
    RootOf(ops, RightSideBytes(ops, x).value, r);
  }

  /** An x that is not reduced is accepted: p + 1 is the second name of the points with x = 1. */
  lemma UnreducedAccepted(ops: FieldOps, compressed: bytes)
    requires |compressed| == 33 && (compressed[0] == 2 || compressed[0] == 3)
    requires Keeps(ops) && TakesAll(ops) && FindsRoots(ops)
    requires FromBE(compressed[1..]) == Prime() + 1
    ensures Decompressed(ops, compressed).Ok?
  {
    OneIsOnCurve();
    SameRightSide(1, FromBE(compressed[1..]));
    RootIsFound(ops, compressed, ROOT_OF_EIGHT);
  }

  /** The loop of `from_compressed` that computes `p - y`. */
  method Negate(p: bytes, y: bytes) returns (negY: bytes)
    requires |p| == |y| == 32
    ensures negY == Difference(p, y)
  {
    var result := new u8[32](_ => 0);
    var borrow, i := 0, 32;
    while i > 0
      invariant 0 <= i <= 32 && Subtracted(p, y, result[..], i, borrow)
    {
      i := i - 1;
      ghost var before, taken := result[..], borrow;
      var diff := p[i] as int - y[i] as int - borrow;
      if diff < 0 {
        result[i] := diff + 256;
        borrow := 1;
      } else {
        result[i] := diff;
        borrow := 0;
      }
      SubtractDigit(p, y, before, i, taken, result[..]);
    }
    SubtractedAll(p, y, result[..], borrow);
    negY := result[..];
  }

  /** `from_compressed` */
  method FromCompressed(ops: FieldOps, compressed: bytes) returns (r: Result<PublicKey, string>)
    requires |compressed| == 33 && Keeps(ops)
    ensures r == Decompressed(ops, compressed)
  {
    if compressed[0] != 2 && compressed[0] != 3 {
      return Err("Invalid compressed key prefix");
    }
    var x := compressed[1..];
    var candidate := Candidate(ops, x);
    if candidate.None? {
      return Err("Point decompression failed");
    }
    var (rhs, y) := candidate.value;
    CandidateSize(ops, x);
    if ops.multm(y, y) != Some(rhs) {
      return Err("Point not on curve");
    }
    if y[31] % 2 != compressed[0] % 2 {
      y := Negate(P, y);
    }
    r := Ok(PublicKey(x, y));
  }
}
