/** Big-endian numbers of a fixed width: app-sdk/src/bignum.rs. */
module BigNumbers {
  import opened MachineInts
  import opened BigEndian

  // ---------------------------------------------------------------------------------------
  // Sum and difference of byte strings, modulo 256^N
  // ---------------------------------------------------------------------------------------

  function Modulus(s: bytes): int {
    Pow256(|s|)
  }

  function Sum(s: bytes, t: bytes): (r: bytes)
    requires |s| == |t|
  {
    ToBE((FromBE(s) + FromBE(t)) % Modulus(s), |s|)
  }

  function Difference(s: bytes, t: bytes): (r: bytes)
    requires |s| == |t|
  {
    ToBE((FromBE(s) - FromBE(t)) % Modulus(s), |s|)
  }

  lemma SumValue(s: bytes, t: bytes)
    requires |s| == |t|
    ensures FromBE(Sum(s, t)) == (FromBE(s) + FromBE(t)) % Modulus(s)
  {
    FromToBE((FromBE(s) + FromBE(t)) % Modulus(s), |s|);
  }

  lemma DifferenceValue(s: bytes, t: bytes)
    requires |s| == |t|
    ensures FromBE(Difference(s, t)) == (FromBE(s) - FromBE(t)) % Modulus(s)
  {
    FromToBE((FromBE(s) - FromBE(t)) % Modulus(s), |s|);
  }

  /** `x` modulo `m`, from its distance to the range. */
  lemma OneModulusAway(x: int, m: int, carry: int, r: int)
    requires m > 0 && 0 <= r < m && x == r + carry * m
    ensures x % m == r
  {
    Remainder(x, carry, m, r);
  }

  /** The carry that a sum loses. */
  lemma SumSplit(s: bytes, t: bytes) returns (carry: int)
    requires |s| == |t|
    ensures 0 <= carry <= 1 && FromBE(Sum(s, t)) + carry * Modulus(s) == FromBE(s) + FromBE(t)
  {
    var (x, y, m) := (FromBE(s), FromBE(t), Modulus(s));
    FromBEBound(s);
    FromBEBound(t);
    carry := if x + y < m then 0 else 1;
    OneModulusAway(x + y, m, carry, x + y - carry * m);
    SumValue(s, t);
  }

  /** The borrow that a difference loses. */
  lemma DifferenceSplit(s: bytes, t: bytes) returns (borrow: int)
    requires |s| == |t|
    ensures 0 <= borrow <= 1 && FromBE(Difference(s, t)) - borrow * Modulus(s) == FromBE(s) - FromBE(t)
    ensures borrow == 0 <==> FromBE(s) >= FromBE(t)
  {
    var (x, y, m) := (FromBE(s), FromBE(t), Modulus(s));
    FromBEBound(s);
    FromBEBound(t);
    borrow := if x >= y then 0 else 1;
    OneModulusAway(x - y, m, -borrow, x - y + borrow * m);
    DifferenceValue(s, t);
  }

  /** Without a borrow the difference is exact. */
  lemma DifferenceOfSmaller(s: bytes, t: bytes)
    requires |s| == |t| && FromBE(t) <= FromBE(s)
    ensures |Difference(s, t)| == |s| && FromBE(Difference(s, t)) == FromBE(s) - FromBE(t)
  {
    var borrow := DifferenceSplit(s, t);
  }

  lemma SameResidue(x: nat, y: nat, m: nat, b: int, c: int)
    requires x < m && y < m && x - b * m == y - c * m
    ensures x == y
  {
    assert x == (b - c) * m + y;
    Remainder(x, b - c, m, y);
    Remainder(x, 0, m, x);
  }

  lemma SameWithinModulus(s: bytes, t: bytes, c: int, b: int)
    requires |s| == |t| && FromBE(s) - b * Modulus(s) == FromBE(t) - c * Modulus(s)
    ensures s == t
  {
    FromBEBound(s);
    FromBEBound(t);
    SameResidue(FromBE(s), FromBE(t), Modulus(s), b, c);
    FromBEInjective(s, t);
  }

  /** Subtracting undoes adding, and adding undoes subtracting, also when they wrap around. */
  lemma SubtractUndoesAdd(s: bytes, t: bytes)
    requires |s| == |t|
    ensures Difference(Sum(s, t), t) == s && Sum(Difference(s, t), t) == s
  {
    var carry := SumSplit(s, t);
    var borrow := DifferenceSplit(Sum(s, t), t);
    SameWithinModulus(Difference(Sum(s, t), t), s, carry, borrow);
    borrow := DifferenceSplit(s, t);
    carry := SumSplit(Difference(s, t), t);
    SameWithinModulus(Sum(Difference(s, t), t), s, carry, borrow);
  }

  // ---------------------------------------------------------------------------------------
  // One digit after the other, from the last one
  // ---------------------------------------------------------------------------------------

  /** The digits from `i` on: `r` is the sum of `s` and `t`, but for a carry. */
  ghost predicate Added(s: bytes, t: bytes, r: bytes, i: nat, carry: int) {
    && i <= |s| == |t| == |r| && 0 <= carry <= 1
    && FromBE(r[i..]) + carry * Pow256(|s| - i) == FromBE(s[i..]) + FromBE(t[i..])
  }

  /** The digits from `i` on: `r` is the difference of `s` and `t`, but for a borrow. */
  ghost predicate Subtracted(s: bytes, t: bytes, r: bytes, i: nat, borrow: int) {
    && i <= |s| == |t| == |r| && 0 <= borrow <= 1
    && FromBE(r[i..]) - borrow * Pow256(|s| - i) == FromBE(s[i..]) - FromBE(t[i..])
  }

  lemma FirstDigit(s: bytes, i: nat)
    requires i < |s|
    ensures FromBE(s[i..]) == s[i] * Pow256(|s| - i - 1) + FromBE(s[i + 1..])
  {
    var head := [s[i]];
    assert s[i..] == head + s[i + 1..];
    FromBEConcat(head, s[i + 1..]);
    assert head[..0] == [] && FromBE(head) == 256 * FromBE([]) + s[i];
  }

  /** One digit of a sum, with the tails of the numbers: `c` is the carry into it, `k` the carry out of it. */
  lemma DigitSum(a: int, b: int, c: int, d: int, k: int, p: int, x: int, y: int, z: int)
    requires z + c * p == x + y && a + b + c == 256 * k + d
    ensures d * p + z + k * (256 * p) == (a * p + x) + (b * p + y)
  {
    assert (a + b + c) * p == a * p + b * p + c * p;
    assert (256 * k + d) * p == k * (256 * p) + d * p;
  }

  lemma AddDigit(s: bytes, t: bytes, r: bytes, i: nat, carry: int, next: bytes)
    requires i < |s| && Added(s, t, r, i + 1, carry)
    requires next == r[i := (s[i] as int + t[i] as int + carry) % 256]
    ensures Added(s, t, next, i, (s[i] as int + t[i] as int + carry) / 256)
  {
    var (p, total) := (Pow256(|s| - i - 1), s[i] as int + t[i] as int + carry);
    FirstDigit(s, i);
    FirstDigit(t, i);
    FirstDigit(next, i);
    assert next[i + 1..] == r[i + 1..];
    DigitSum(s[i], t[i], carry, total % 256, total / 256, p, FromBE(s[i + 1..]), FromBE(t[i + 1..]), FromBE(r[i + 1..]));
  }

  lemma DigitDifference(a: int, b: int, c: int, d: int, k: int, p: int, x: int, y: int, z: int)
    requires z - c * p == x - y && a - b - c == d - 256 * k
    ensures d * p + z - k * (256 * p) == (a * p + x) - (b * p + y)
  {
    assert (a - b - c) * p == a * p - b * p - c * p;
    assert (d - 256 * k) * p == d * p - k * (256 * p);
  }

  lemma SubtractDigit(s: bytes, t: bytes, r: bytes, i: nat, borrow: int, next: bytes)
    requires i < |s| && Subtracted(s, t, r, i + 1, borrow)
    requires var d := s[i] as int - t[i] as int - borrow; next == r[i := if d >= 0 then d else d + 256]
    ensures Subtracted(s, t, next, i, if s[i] as int - t[i] as int - borrow >= 0 then 0 else 1)
  {
    var (p, d) := (Pow256(|s| - i - 1), s[i] as int - t[i] as int - borrow);
    FirstDigit(s, i);
    FirstDigit(t, i);
    FirstDigit(next, i);
    assert next[i + 1..] == r[i + 1..];
    DigitDifference(s[i], t[i], borrow, next[i], if d >= 0 then 0 else 1, p,
                    FromBE(s[i + 1..]), FromBE(t[i + 1..]), FromBE(r[i + 1..]));
  }

  lemma AddedAll(s: bytes, t: bytes, r: bytes, carry: int)
    requires Added(s, t, r, 0, carry)
    ensures r == Sum(s, t)
  {
    assert r[0..] == r && s[0..] == s && t[0..] == t;
    FromBEBound(r);
    OneModulusAway(FromBE(s) + FromBE(t), Modulus(s), carry, FromBE(r));
    ToFromBE(r);
  }

  lemma SubtractedValue(s: bytes, t: bytes, r: bytes, borrow: int)
    requires Subtracted(s, t, r, 0, borrow)
    ensures |s| == |t| == |r| && 0 <= borrow <= 1
    ensures FromBE(r) - borrow * Modulus(s) == FromBE(s) - FromBE(t)
  {
    assert r[0..] == r && s[0..] == s && t[0..] == t;
  }

  lemma SubtractedAll(s: bytes, t: bytes, r: bytes, borrow: int)
    requires Subtracted(s, t, r, 0, borrow)
    ensures r == Difference(s, t) && (borrow == 0 <==> FromBE(s) >= FromBE(t))
  {
    SubtractedValue(s, t, r, borrow);
    FromBEBound(r);
    FromBEBound(s);
    FromBEBound(t);
    BorrowDecides(FromBE(s), FromBE(t), FromBE(r), Modulus(s), borrow);
    ToFromBE(r);
  }

  lemma BorrowDecides(x: nat, y: nat, r: nat, m: nat, borrow: int)
    requires x < m && y < m && r < m && 0 <= borrow <= 1 && r - borrow * m == x - y
    ensures r == (x - y) % m && (borrow == 0 <==> x >= y)
  {
    OneModulusAway(x - y, m, -borrow, r);
  }

  // ---------------------------------------------------------------------------------------
  // Numbers
  // ---------------------------------------------------------------------------------------

  class BigNum {
    const buffer: array<u8>

    /** `from_be_bytes` */
    constructor (digits: bytes)
      ensures fresh(buffer) && buffer[..] == digits
    {
      buffer := new u8[|digits|](i requires 0 <= i < |digits| => digits[i]);
    }

    /** `add` */
    method Add(other: BigNum) returns (r: BigNum)
      requires buffer.Length == other.buffer.Length
      ensures fresh(r) && fresh(r.buffer) && r.buffer[..] == Sum(buffer[..], other.buffer[..])
    {
      ghost var s, t := buffer[..], other.buffer[..];
      var result := new u8[buffer.Length](_ => 0);
      var carry, i := 0, buffer.Length;
      while i > 0
        invariant 0 <= i <= buffer.Length && buffer[..] == s && other.buffer[..] == t
        invariant Added(s, t, result[..], i, carry)
      {
        i := i - 1;
        ghost var before := result[..];
        var total := buffer[i] as int + other.buffer[i] as int + carry;
        result[i] := total % 256;
        AddDigit(s, t, before, i, carry, result[..]);
        carry := total / 256;
      }
      AddedAll(s, t, result[..], carry);
      r := new BigNum(result[..]);
    }

    /** `add_assign` */
    method AddAssign(other: BigNum)
      requires buffer.Length == other.buffer.Length && buffer != other.buffer
      modifies buffer
      ensures buffer[..] == Sum(old(buffer[..]), other.buffer[..])
    {
      ghost var s, t := buffer[..], other.buffer[..];
      var carry, i := 0, buffer.Length;
      while i > 0
        invariant 0 <= i <= buffer.Length && buffer[..i] == s[..i] && other.buffer[..] == t
        invariant Added(s, t, buffer[..], i, carry)
      {
        i := i - 1;
        ghost var before := buffer[..];
        assert buffer[i] == s[..i + 1][i];
        var total := buffer[i] as int + other.buffer[i] as int + carry;
        buffer[i] := total % 256;
        AddDigit(s, t, before, i, carry, buffer[..]);
        carry := total / 256;
      }
      AddedAll(s, t, buffer[..], carry);
    }

    /** `sub` */
    method Sub(other: BigNum) returns (r: BigNum)
      requires buffer.Length == other.buffer.Length
      ensures fresh(r) && fresh(r.buffer) && r.buffer[..] == Difference(buffer[..], other.buffer[..])
    {
      ghost var s, t := buffer[..], other.buffer[..];
      var result := new u8[buffer.Length](_ => 0);
      var borrow, i := 0, buffer.Length;
      while i > 0
        invariant 0 <= i <= buffer.Length && buffer[..] == s && other.buffer[..] == t
        invariant Subtracted(s, t, result[..], i, borrow)
      {
        i := i - 1;
        ghost var before, taken := result[..], borrow;
        var diff := buffer[i] as int - other.buffer[i] as int - borrow;
        if diff >= 0 {
          result[i] := diff;
          borrow := 0;
        } else {
          result[i] := diff + 256;
          borrow := 1;
        }
        SubtractDigit(s, t, before, i, taken, result[..]);
      }
      SubtractedAll(s, t, result[..], borrow);
      r := new BigNum(result[..]);
    }

    /** `sub_assign` */
    method SubAssign(other: BigNum)
      requires buffer.Length == other.buffer.Length && buffer != other.buffer
      modifies buffer
      ensures buffer[..] == Difference(old(buffer[..]), other.buffer[..])
    {
      ghost var s, t := buffer[..], other.buffer[..];
      var borrow, i := 0, buffer.Length;
      while i > 0
        invariant 0 <= i <= buffer.Length && buffer[..i] == s[..i] && other.buffer[..] == t
        invariant Subtracted(s, t, buffer[..], i, borrow)
      {
        i := i - 1;
        ghost var before, taken := buffer[..], borrow;
        assert buffer[i] == s[..i + 1][i];
        var diff := buffer[i] as int - other.buffer[i] as int - borrow;
        if diff >= 0 {
          buffer[i] := diff;
          borrow := 0;
        } else {
          buffer[i] := diff + 256;
          borrow := 1;
        }
        SubtractDigit(s, t, before, i, taken, buffer[..]);
      }
      SubtractedAll(s, t, buffer[..], borrow);
    }
  }
}
