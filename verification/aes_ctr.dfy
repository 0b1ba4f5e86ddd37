/**
 AES in counter mode, as in vm/src/aes.rs, over any block function: increments of the nonce and of the
 counter block in place, and the chunks of a message. Section 6.5 of NIST SP 800-38A.
 */
module AesCtrMode {
  import opened MachineInts
  import opened BigEndian

  datatype AesError = InvalidInputLength | EncryptionFailed

  type Block = b: bytes | |b| == 16 witness Zeros(16)

  /** `AesKey::encrypt_block` of one key: a block, or the failure of the device. */
  type Cipher = Block -> Result<Block, AesError>

  // ---------------------------------------------------------------------------------------
  // Incrementing
  // ---------------------------------------------------------------------------------------

  /** The byte string of the next number; after the largest one comes zero. */
  function Increment(s: bytes): (r: bytes)
    ensures |r| == |s|
  {
    if s == [] then []
    else if s[|s| - 1] == 255 then Increment(s[..|s| - 1]) + [0]
    else s[..|s| - 1] + [s[|s| - 1] + 1]
  }

  lemma {:induction false} IncrementAddsOne(s: bytes)
    ensures FromBE(Increment(s)) == (FromBE(s) + 1) % Pow256(|s|)
  {
    if s == [] {
      assert Increment(s) == [];
    } else {
      var (front, last) := (s[..|s| - 1], s[|s| - 1]);
      FromBEBound(front);
      if last == 255 {
        IncrementAddsOne(front);
        assert Increment(s)[..|s| - 1] == Increment(front);
        CarryOut(FromBE(front) + 1, Pow256(|front|));
      } else {
        assert Increment(s)[..|s| - 1] == front;
        NoCarryOut(FromBE(front), last + 1, Pow256(|front|));
      }
    }
  }

  lemma CarryOut(n: nat, p: nat)
    requires 0 < n <= p
    ensures 256 * n % (256 * p) == 256 * (n % p)
  {
    if n < p {
      Remainder(n, 0, p, n);
      Remainder(256 * n, 0, 256 * p, 256 * n);
    } else {
      Remainder(n, 1, p, 0);
      Remainder(256 * n, 1, 256 * p, 0);
    }
  }

  lemma NoCarryOut(n: nat, last: nat, p: nat)
    requires n < p && last < 256
    ensures (256 * n + last) % (256 * p) == 256 * n + last
  {
    MulOrder(n, p, 256);
    Remainder(256 * n + last, 0, 256 * p, 256 * n + last);
  }

  /** `increment_be_slice` */
  method IncrementBESlice(counter: array<u8>)
    modifies counter
    ensures counter[..] == Increment(old(counter[..]))
  {
    ghost var before := counter[..];
    var i := counter.Length;
    assert before[..i] == before && Increment(before) == Increment(before) + counter[i..];
    while i > 0
      invariant 0 <= i <= counter.Length
      invariant counter[..i] == before[..i]
      invariant Increment(before) == Increment(before[..i]) + counter[i..]
    {
      i := i - 1;
      ghost var front, tail := before[..i], counter[i + 1..];
      assert before[..i + 1][..i] == front && before[..i + 1][i] == counter[i];
      counter[i] := if counter[i] == 255 then 0 else counter[i] + 1;
      assert counter[i + 1..] == tail && counter[..i] == front;
      assert counter[i..] == [counter[i]] + tail;
      if counter[i] != 0 {
        assert counter[..] == front + ([counter[i]] + tail);
        return;
      }
    }
    assert counter[..] == counter[0..];
  }

  // ---------------------------------------------------------------------------------------
  // Processing a message
  // ---------------------------------------------------------------------------------------

  const BLOCKS: nat := Pow256(16)

  /** The exclusive or of the low `k` bits. */
  function XorBits(a: nat, b: nat, k: nat): (r: nat)
    ensures r < Pow2(k)
  {
    if k == 0 then 0 else 2 * XorBits(a / 2, b / 2, k - 1) + (if a % 2 == b % 2 then 0 else 1)
  }

  lemma {:induction false} XorBitsTwice(a: nat, b: nat, k: nat)
    requires a < Pow2(k)
    ensures XorBits(XorBits(a, b, k), b, k) == a
  {
    if k > 0 {
      XorBitsTwice(a / 2, b / 2, k - 1);
      var r := XorBits(a, b, k);
      assert r / 2 == XorBits(a / 2, b / 2, k - 1) && (r % 2 == 0 <==> a % 2 == b % 2);
    }
  }

  lemma Pow2Of8()
    ensures Pow2(8) == TWO_8
  {
    assert Pow2(4) == 16;
  }

  const BYTE_BITS: nat := 8

  function Xor(a: u8, b: u8): u8 {
    Pow2Of8();
    XorBits(a, b, BYTE_BITS)
  }

  lemma XorTwice(a: u8, b: u8)
    ensures Xor(Xor(a, b), b) == a
  {
    Pow2Of8();
    XorBitsTwice(a, b, BYTE_BITS);
  }

  // What `Xor` does to the bits of bytes

  lemma HalfOfByte(a: bv8, half: bv8)
    requires half == a >> 1
    ensures a as int == 2 * (half as int) + (if a & 1 == 1 then 1 else 0)
  {
  }

  /** The number that the low `k` bits of a byte stand for. */
  function LowBits(a: bv8, k: nat): nat {
    if k == 0 then 0 else (if a & 1 == 1 then 1 else 0) + 2 * LowBits(a >> 1, k - 1)
  }

  lemma LowBitsUnfold(a: bv8, half: bv8, k: nat)
    requires k > 0 && half == a >> 1
    ensures LowBits(a, k) == (if a & 1 == 1 then 1 else 0) + 2 * LowBits(half, k - 1)
  {
  }

  lemma {:induction false} LowBitsAreAll(a: bv8, k: nat)
    requires a as int < Pow2(k)
    ensures LowBits(a, k) == a as int
  {
    if k > 0 {
      HalfOfByte(a, a >> 1);
      LowBitsUnfold(a, a >> 1, k);
      LowBitsAreAll(a >> 1, k - 1);
    }
  }

  lemma HalvesOfXor(a: bv8, b: bv8, x: bv8) returns (halfA: bv8, halfB: bv8, halfX: bv8)
    requires x == a ^ b
    ensures halfA == a >> 1 && halfB == b >> 1 && halfX == x >> 1 && halfX == halfA ^ halfB
    ensures x & 1 == 1 <==> (a & 1 == 1 <==> b & 1 != 1)
  {
    halfA, halfB, halfX := a >> 1, b >> 1, x >> 1;
  }

  lemma XorBitsStep(a: nat, halfA: nat, bitA: bool, b: nat, halfB: nat, bitB: bool, k: nat)
    requires k > 0 && a == (if bitA then 1 else 0) + 2 * halfA && b == (if bitB then 1 else 0) + 2 * halfB
    ensures XorBits(a, b, k) == (if bitA == bitB then 0 else 1) + 2 * XorBits(halfA, halfB, k - 1)
  {
    assert a / 2 == halfA && b / 2 == halfB;
  }

  lemma {:induction false} XorOfLowBits(a: bv8, b: bv8, x: bv8, k: nat)
    requires x == a ^ b
    ensures XorBits(LowBits(a, k), LowBits(b, k), k) == LowBits(x, k)
    decreases k
  {
    if k > 0 {
      var halfA, halfB, halfX := HalvesOfXor(a, b, x);
      LowBitsUnfold(a, halfA, k);
      LowBitsUnfold(b, halfB, k);
      LowBitsUnfold(x, halfX, k);
      XorBitsStep(LowBits(a, k), LowBits(halfA, k - 1), a & 1 == 1, LowBits(b, k), LowBits(halfB, k - 1), b & 1 == 1, k);
      XorOfLowBits(halfA, halfB, halfX, k - 1);
    }
  }

  lemma XorBitsOf(a: bv8, b: bv8, x: bv8)
    requires x == a ^ b
    ensures XorBits(a as int, b as int, BYTE_BITS) == x as int
  {
    Pow2Of8();
    LowBitsAreAll(a, BYTE_BITS);
    LowBitsAreAll(b, BYTE_BITS);
    LowBitsAreAll(x, BYTE_BITS);
    XorOfLowBits(a, b, x, BYTE_BITS);
  }

  lemma Doubled(half: bv8, bit: bool) returns (a: bv8)
    requires half as int < 128
    ensures a >> 1 == half && (a & 1 == 1 <==> bit)
  {
    a := (half << 1) | (if bit then 1 else 0);
  }

  /** Every number below 256 is that of a byte. */
  lemma {:induction false} ByteOf(n: u8) returns (a: bv8)
    ensures a as int == n
    decreases n
  {
    a := 0;
    if n > 0 {
      var half := ByteOf(n / 2);
      a := Doubled(half, n % 2 == 1);
      HalfOfByte(a, half);
    }
  }

  lemma PatternAndBack(x: bv8, n: u8)
    requires n == x as int
    ensures n as bv8 == x
  {
  }

  lemma ByteAndBack(n: u8) returns (a: bv8)
    ensures a == n as bv8 && a as int == n
  {
    a := ByteOf(n);
    PatternAndBack(a, n);
  }

  /** `x` is `a ^ b`. */
  predicate IsXor(x: u8, a: u8, b: u8) {
    x as bv8 == (a as bv8) ^ (b as bv8)
  }

  lemma XorIsXor(a: u8, b: u8)
    ensures IsXor(Xor(a, b), a, b)
  {
    var p := ByteAndBack(a);
    var q := ByteAndBack(b);
    XorBitsOf(p, q, p ^ q);
    PatternAndBack(p ^ q, Xor(a, b));
  }

  function XorAll(s: bytes, key: bytes): (r: bytes)
    requires |s| <= |key|
    ensures |r| == |s| && forall i :: 0 <= i < |s| ==> r[i] == Xor(s[i], key[i])
  {
    seq(|s|, i requires 0 <= i < |s| => Xor(s[i], key[i]))
  }

  lemma XorAllTwice(s: bytes, key: bytes)
    requires |s| <= |key|
    ensures XorAll(XorAll(s, key), key) == s
  {
    forall i | 0 <= i < |s| ensures XorAll(XorAll(s, key), key)[i] == s[i] {
      XorTwice(s[i], key[i]);
    }
  }

  /** The counter block of a number. */
  function CounterBlock(value: nat): Block {
    ToBE(value % BLOCKS, 16)
  }

  /** `input`, each chunk of 16 bytes combined with the encryption of its counter block. */
  function Processed(cipher: Cipher, input: bytes, value: nat): Result<bytes, AesError>
    decreases |input|
  {
    if input == [] then Ok([])
    else
      var n := Min(16, |input|);
      match cipher(CounterBlock(value))
      case Err(e) => Err(e)
      case Ok(key) =>
        match Processed(cipher, input[n..], value + 1)
        case Err(e) => Err(e)
        case Ok(rest) => Ok(XorAll(input[..n], key) + rest)
  }

  /** Processing twice from the same counter gives the input back, whatever the block function is. */
  lemma {:induction false} ProcessedTwice(cipher: Cipher, input: bytes, value: nat)
    requires Processed(cipher, input, value).Ok?
    ensures |Processed(cipher, input, value).value| == |input|
    ensures Processed(cipher, Processed(cipher, input, value).value, value) == Ok(input)
    decreases |input|
  {
    if input != [] {
      var n := Min(16, |input|);
      var key := cipher(CounterBlock(value)).value;
      var rest := Processed(cipher, input[n..], value + 1).value;
      var output := XorAll(input[..n], key) + rest;
      ProcessedTwice(cipher, input[n..], value + 1);
      XorAllTwice(input[..n], key);
      assert output[..n] == XorAll(input[..n], key) && output[n..] == rest;
      assert input == input[..n] + input[n..];
    }
  }

  // ---------------------------------------------------------------------------------------
  // What each byte of the output is
  // ---------------------------------------------------------------------------------------

  /**
   Byte `k` of the output is byte `k` of the input `^` byte `k % 16` of the encryption of the block that
   holds the number `first + k / 16`, modulo 2^128, in big-endian order.
   */
  ghost predicate KeystreamedAt(cipher: Cipher, input: bytes, output: bytes, first: nat, k: nat, block: Block) {
    k < |input| && FromBE(block) == (first + k / 16) % BLOCKS ==>
      k < |output| && cipher(block).Ok? && IsXor(output[k], input[k], cipher(block).value[k % 16])
  }

  ghost predicate Keystreamed(cipher: Cipher, input: bytes, output: bytes, first: nat) {
    |output| == |input| && forall k: nat, block: Block :: KeystreamedAt(cipher, input, output, first, k, block)
  }

  lemma BlockOfNumber(block: Block, value: nat)
    requires FromBE(block) == value % BLOCKS
    ensures block == CounterBlock(value)
  {
    FromToBE(value % BLOCKS, 16);
    FromBEInjective(block, CounterBlock(value));
  }

  lemma FirstBytes(cipher: Cipher, input: bytes, value: nat, i: nat)
    requires Processed(cipher, input, value).Ok? && i < 16 && i < |input|
    ensures |Processed(cipher, input, value).value| == |input| && cipher(CounterBlock(value)).Ok?
    ensures Processed(cipher, input, value).value[i] == Xor(input[i], cipher(CounterBlock(value)).value[i])
  {
    ProcessedTwice(cipher, input, value);
  }

  lemma NextChunk(cipher: Cipher, input: bytes, value: nat) returns (output: bytes, rest: bytes)
    requires Processed(cipher, input, value).Ok? && |input| > 16
    ensures Processed(cipher, input, value) == Ok(output) && Processed(cipher, input[16..], value + 1) == Ok(rest)
    ensures |output| == 16 + |rest| && output[16..] == rest
  {
    ProcessedTwice(cipher, input[16..], value + 1);
    output, rest := Processed(cipher, input, value).value, Processed(cipher, input[16..], value + 1).value;
  }

  /** Byte `i` of chunk `j` of the output. */
  lemma {:induction false} ProcessedByte(cipher: Cipher, input: bytes, output: bytes, value: nat, j: nat, i: nat,
                                         k: nat, number: nat)
    requires Processed(cipher, input, value) == Ok(output)
    requires i < 16 && k == 16 * j + i < |input| && number == value + j
    ensures |output| == |input| && cipher(CounterBlock(number)).Ok?
    ensures output[k] == Xor(input[k], cipher(CounterBlock(number)).value[i])
    decreases j
  {
    if j == 0 {
      FirstBytes(cipher, input, value, i);
    } else {
      var whole, rest := NextChunk(cipher, input, value);
      ProcessedByte(cipher, input[16..], rest, value + 1, j - 1, i, k - 16, number);
      assert output[k] == rest[k - 16];
    }
  }

  lemma KeystreamByte(cipher: Cipher, input: bytes, output: bytes, value: nat, k: nat, block: Block, number: nat)
    requires Processed(cipher, input, value) == Ok(output)
    requires k < |input| && number == value + k / 16 && FromBE(block) == number % BLOCKS
    ensures k < |output| && cipher(block).Ok? && IsXor(output[k], input[k], cipher(block).value[k % 16])
  {
    BlockOfNumber(block, number);
    ProcessedByte(cipher, input, output, value, k / 16, k % 16, k, number);
    XorIsXor(input[k], cipher(block).value[k % 16]);
  }

  lemma ProcessedIsKeystreamed(cipher: Cipher, input: bytes, value: nat)
    ensures Processed(cipher, input, value).Ok? ==>
              Keystreamed(cipher, input, Processed(cipher, input, value).value, value)
  {
    if Processed(cipher, input, value).Ok? {
      var output := Processed(cipher, input, value).value;
      ProcessedTwice(cipher, input, value);
      forall k: nat, block: Block ensures KeystreamedAt(cipher, input, output, value, k, block) {
        if k < |input| && FromBE(block) == (value + k / 16) % BLOCKS {
          KeystreamByte(cipher, input, output, value, k, block, value + k / 16);
        }
      }
    }
  }

  lemma NumbersAgree(value: nat, other: nat, j: nat, b: nat)
    requires b > 0 && value % b == other % b
    ensures (value + j) % b == (other + j) % b
  {
    var (q, e, s) := (other / b - value / b, (value + j) / b, (value + j) % b);
    assert value == value / b * b + value % b && other == other / b * b + value % b;
    assert value + j == e * b + s;
    assert other - value == q * b;
    assert other + j == (e + q) * b + s;
    Remainder(other + j, e + q, b, s);
  }

  lemma KeystreamOfNumber(cipher: Cipher, input: bytes, output: bytes, value: nat, other: nat)
    requires Keystreamed(cipher, input, output, value) && value % BLOCKS == other % BLOCKS
    ensures Keystreamed(cipher, input, output, other)
  {
    forall k: nat, block: Block ensures KeystreamedAt(cipher, input, output, other, k, block) {
      NumbersAgree(value, other, k / 16, BLOCKS);
      assert KeystreamedAt(cipher, input, output, value, k, block);
    }
  }

  predicate BlockSucceeds(cipher: Cipher, value: nat) {
    cipher(CounterBlock(value)).Ok?
  }

  /** The block function succeeds for `n` counter blocks from a number on. */
  ghost predicate AllSucceed(cipher: Cipher, value: nat, n: nat) {
    forall number :: value <= number < value + n ==> BlockSucceeds(cipher, number)
  }

  lemma FirstSucceeds(cipher: Cipher, value: nat, n: nat)
    requires n > 0
    ensures AllSucceed(cipher, value, n) <==> BlockSucceeds(cipher, value) && AllSucceed(cipher, value + 1, n - 1)
  {
  }

  lemma ProcessedSucceeds(cipher: Cipher, input: bytes, value: nat, rest: bytes)
    requires input != [] && rest == input[Min(16, |input|)..]
    ensures Processed(cipher, input, value).Ok? <==> BlockSucceeds(cipher, value) && Processed(cipher, rest, value + 1).Ok?
  {
  }

  /** Processing succeeds exactly if the block function does for every block of the message. */
  lemma {:induction false} SucceedsExactly(cipher: Cipher, input: bytes, value: nat)
    ensures Processed(cipher, input, value).Ok? <==> AllSucceed(cipher, value, BlockCount(|input|))
    decreases |input|
  {
    if input != [] {
      var rest := input[Min(16, |input|)..];
      FirstChunk(|input|);
      ProcessedSucceeds(cipher, input, value, rest);
      SucceedsExactly(cipher, rest, value + 1);
      FirstSucceeds(cipher, value, BlockCount(|input|));
    }
  }

  /** The counter blocks from a number on. */
  function CounterBlocks(value: nat, n: nat): (blocks: seq<Block>)
    ensures |blocks| == n && forall j :: 0 <= j < n ==> blocks[j] == CounterBlock(value + j)
  {
    seq<Block>(n, (j: nat) => CounterBlock(value + j))
  }

  lemma NextRemainder(value: nat, b: nat)
    requires b > 0
    ensures (value % b + 1) % b == (value + 1) % b
  {
    var (q, r) := (value / b, value % b);
    assert value == q * b + r;
    if r + 1 < b {
      Remainder(value + 1, q, b, r + 1);
      Remainder(r + 1, 0, b, r + 1);
    } else {
      assert value + 1 == (q + 1) * b;
      Remainder(value + 1, q + 1, b, 0);
      Remainder(r + 1, 1, b, 0);
    }
  }

  lemma NextCounterBlock(value: nat)
    ensures Increment(CounterBlock(value)) == CounterBlock(value + 1)
  {
    FromToBE(value % BLOCKS, 16);
    FromToBE((value + 1) % BLOCKS, 16);
    IncrementAddsOne(CounterBlock(value));
    NextRemainder(value, BLOCKS);
    FromBEInjective(Increment(CounterBlock(value)), CounterBlock(value + 1));
  }

  // ---------------------------------------------------------------------------------------
  // Counter blocks of messages
  // ---------------------------------------------------------------------------------------

  /** `create_counter_block` */
  function CreateCounterBlock(nonce: bytes, initialCounter: u32): Block
    requires |nonce| == 12
  {
    nonce + ToBE(initialCounter, 4)
  }

  lemma CreatedCounterBlock(nonce: bytes, initialCounter: u32)
    requires |nonce| == 12
    ensures CreateCounterBlock(nonce, initialCounter) == CounterBlock(FromBE(nonce) * TWO_32 + initialCounter)
  {
    var (block, value) := (CreateCounterBlock(nonce, initialCounter), FromBE(nonce) * TWO_32 + initialCounter);
    Pow256Widths();
    FromBEConcat(nonce, ToBE(initialCounter, 4));
    FromToBE(initialCounter, 4);
    FromBEBound(block);
    ToFromBE(block);
    Remainder(value, 0, BLOCKS, value);
  }

  lemma CounterBlockValue(value: nat)
    requires value < BLOCKS
    ensures FromBE(CounterBlock(value)) == value
  {
    Remainder(value, 0, BLOCKS, value);
    FromToBE(value, 16);
  }

  /** Different numbers below 2^128 have different counter blocks. */
  lemma CounterBlocksDiffer(a: nat, b: nat)
    requires a < BLOCKS && b < BLOCKS && CounterBlock(a) == CounterBlock(b)
    ensures a == b
  {
    CounterBlockValue(a);
    CounterBlockValue(b);
  }

  /** How many blocks a message of this length takes. */
  function BlockCount(length: nat): nat {
    (length + 15) / 16
  }

  lemma FirstChunk(length: nat)
    requires length > 0
    ensures BlockCount(length) == 1 + BlockCount(length - Min(16, length))
  {
  }

  /** A message is processed: `output` so far, and then the rest. */
  ghost predicate Continues(whole: Result<bytes, AesError>, output: bytes, rest: Result<bytes, AesError>) {
    match rest
    case Ok(r) => whole == Ok(output + r)
    case Err(e) => whole == Err(e)
  }

  /** The inner loop of `process_with_counter`. */
  method XorChunk(output: bytes, chunk: bytes, keystream: Block) returns (longer: bytes)
    requires |chunk| <= 16
    ensures longer == output + XorAll(chunk, keystream)
  {
    longer := output;
    for i := 0 to |chunk|
      invariant longer == output + XorAll(chunk, keystream)[..i]
    {
      longer := longer + [Xor(chunk[i], keystream[i])];
    }
  }

  /** The block function fails for the next chunk. */
  lemma ContinuesFailed(cipher: Cipher, whole: Result<bytes, AesError>, output: bytes, rest: bytes, value: nat)
    requires rest != [] && Continues(whole, output, Processed(cipher, rest, value))
    requires cipher(CounterBlock(value)).Err?
    ensures whole == Err(cipher(CounterBlock(value)).error)
  {
  }

  lemma ContinuesChunk(cipher: Cipher, whole: Result<bytes, AesError>, output: bytes, rest: bytes, value: nat, n: nat)
    requires rest != [] && Continues(whole, output, Processed(cipher, rest, value))
    requires n == Min(16, |rest|) && cipher(CounterBlock(value)).Ok?
    ensures Continues(whole, output + XorAll(rest[..n], cipher(CounterBlock(value)).value),
                      Processed(cipher, rest[n..], value + 1))
  {
    var (chunk, next) := (XorAll(rest[..n], cipher(CounterBlock(value)).value), Processed(cipher, rest[n..], value + 1));
    if next.Ok? {
      assert output + (chunk + next.value) == (output + chunk) + next.value;
    }
  }

  lemma OneMoreBlock(value: nat, n: nat)
    ensures CounterBlocks(value, n) + [CounterBlock(value + n)] == CounterBlocks(value, n + 1)
  {
  }

  /**
   `process_with_counter`; `used` are the counter blocks given to the block function, all of them unless
   it fails.
   */
  method ProcessWithCounter(cipher: Cipher, input: bytes, counter: array<u8>, ghost value: nat)
    returns (r: Result<bytes, AesError>, ghost used: seq<Block>)
    requires counter.Length == 16 && counter[..] == CounterBlock(value)
    modifies counter
    ensures r == Processed(cipher, input, value)
    ensures r.Ok? ==> Keystreamed(cipher, input, r.value, value)
    ensures |used| <= BlockCount(|input|) && used == CounterBlocks(value, |used|)
    ensures r.Ok? ==> |used| == BlockCount(|input|)
  {
    ghost var whole := Processed(cipher, input, value);
    var output, rest := [], input;
    used := [];
    assert whole.Ok? ==> [] + whole.value == whole.value;
    while rest != []
      invariant |used| + BlockCount(|rest|) == BlockCount(|input|)
      invariant counter[..] == CounterBlock(value + |used|)
      invariant used == CounterBlocks(value, |used|)
      invariant Continues(whole, output, Processed(cipher, rest, value + |used|))
      decreases |rest|
    {
      ghost var k := |used|;
      var n := Min(16, |rest|);
      var keystream := cipher(counter[..]);
      OneMoreBlock(value, k);
      FirstChunk(|rest|);
      used := used + [counter[..]];
      if keystream.Err? {
        ContinuesFailed(cipher, whole, output, rest, value + k);
        return Err(keystream.error), used;
      }
      ContinuesChunk(cipher, whole, output, rest, value + k, n);
      NextCounterBlock(value + k);
      output := XorChunk(output, rest[..n], keystream.value);
      IncrementBESlice(counter);
      rest := rest[n..];
    }
    assert output + [] == output;
    ProcessedIsKeystreamed(cipher, input, value);
    return Ok(output), used;
  }

  // ---------------------------------------------------------------------------------------
  // Runs of messages
  // ---------------------------------------------------------------------------------------

  const MESSAGES: nat := Pow256(12)

  lemma BlocksOfMessages()
    ensures BLOCKS == MESSAGES * TWO_32
  {
    assert Pow256(13) == 256 * MESSAGES;
    assert Pow256(14) == 256 * Pow256(13);
    assert Pow256(15) == 256 * Pow256(14);
  }

  /** The counter blocks of a run: below those of message `messages`, and no two are equal. */
  ghost predicate NeverRepeats(used: seq<Block>, messages: nat) {
    && (forall i :: 0 <= i < |used| ==> FromBE(used[i]) < messages * TWO_32)
    && (forall i, j :: 0 <= i < j < |used| ==> used[i] != used[j])
  }

  lemma NumbersOfBlocks(messages: nat, n: nat)
    requires messages < MESSAGES && n <= TWO_32
    ensures forall j :: 0 <= j < n ==> FromBE(CounterBlocks(messages * TWO_32, n)[j]) == messages * TWO_32 + j
  {
    BlocksOfMessages();
    MulOrder(messages, MESSAGES, TWO_32);
    var blocks := CounterBlocks(messages * TWO_32, n);
    forall j | 0 <= j < n ensures FromBE(blocks[j]) == messages * TWO_32 + j {
      CounterBlockValue(messages * TWO_32 + j);
    }
  }

  /** The blocks of one more message are new. */
  lemma NextMessage(used: seq<Block>, messages: nat, n: nat)
    requires NeverRepeats(used, messages) && messages < MESSAGES && n <= TWO_32
    ensures NeverRepeats(used + CounterBlocks(messages * TWO_32, n), messages + 1)
  {
    var more := CounterBlocks(messages * TWO_32, n);
    NumbersOfBlocks(messages, n);
    var all := used + more;
    forall i, j | 0 <= i < j < |all| ensures all[i] != all[j] {
      if j >= |used| {
        assert FromBE(all[j]) == messages * TWO_32 + (j - |used|);
        if i >= |used| {
          assert FromBE(all[i]) == messages * TWO_32 + (i - |used|);
        }
      }
    }
  }

  /** No counter block was used twice, as long as neither the nonce nor the counter wrapped around. */
  ghost predicate Unrepeated(used: seq<Block>, messages: nat, short: bool) {
    messages <= MESSAGES && short ==> NeverRepeats(used, messages)
  }

  lemma NextUnrepeated(used: seq<Block>, messages: nat, short: bool, length: nat, n: nat)
    requires Unrepeated(used, messages, short) && n <= BlockCount(length)
    ensures Unrepeated(used + CounterBlocks(FirstBlock(messages), n), messages + 1, short && BlockCount(length) <= TWO_32)
  {
    if messages < MESSAGES && short && BlockCount(length) <= TWO_32 {
      SmallFirstBlock(messages);
      NextMessage(used, messages, n);
    }
  }

  class AesCtr {
    const cipher: Cipher
    const nonce: array<u8>
    ghost var messages: nat // messages encrypted so far
    ghost var used: seq<Block> // counter blocks given to the block function by `encrypt`
    ghost var short: bool // no message had more than 2^32 blocks

    ghost predicate Valid()
      reads this, nonce
    {
      && nonce.Length == 12 && nonce[..] == ToBE(messages, nonce.Length)
      && Unrepeated(used, messages, short)
    }

    /** `new` */
    constructor (cipher: Cipher)
      ensures Valid() && fresh(nonce) && messages == 0 && used == [] && short && this.cipher == cipher
    {
      this.cipher := cipher;
      nonce := new u8[12](_ => 0);
      messages, used, short := 0, [], true;
      new;
      ZeroNonce(12);
      assert nonce[..] == Zeros(12);
    }

    /**
     `encrypt`: the nonce counts messages, block `j` of message `i` takes the counter block `i * 2^32 + j`,
     and no counter block is used twice in the first 2^96 messages of at most 2^32 blocks. After them the
     nonce starts again from zero. `n` blocks are used, all of the message unless the block function fails.
     */
    method Encrypt(plaintext: bytes) returns (r: Result<(bytes, bytes), AesError>, ghost n: nat)
      requires Valid()
      modifies this`messages, this`used, this`short, nonce
      ensures Valid() && messages == old(messages) + 1
      ensures short == (old(short) && BlockCount(|plaintext|) <= TWO_32)
      ensures used == old(used) + CounterBlocks(FirstBlock(old(messages)), n)
      ensures n <= BlockCount(|plaintext|) && (r.Ok? ==> n == BlockCount(|plaintext|))
      ensures match Processed(cipher, plaintext, FirstBlock(old(messages)))
              case Ok(ciphertext) => r == Ok((ToBE(old(messages), 12), ciphertext))
              case Err(e) => r == Err(e)
      ensures r.Ok? ==> Keystreamed(cipher, plaintext, r.value.1, old(messages) * TWO_32)
    {
      ghost var before, message, wasShort := used, messages, short;
      var copy := TakeNonce();
      var counter := StartOfMessage(copy);
      var output;
      ghost var blocks;
      output, blocks := ProcessWithCounter(cipher, plaintext, counter, FirstBlock(message));
      NextUnrepeated(before, message, wasShort, |plaintext|, |blocks|);
      used, short := before + blocks, wasShort && BlockCount(|plaintext|) <= TWO_32;
      n := |blocks|;
      if output.Ok? {
        KeystreamOfMessage(cipher, plaintext, output.value, message);
      }
      r := if output.Ok? then Ok((copy, output.value)) else Err(output.error);
    }

    /** The nonce of the next message; afterwards the field holds that of the one after. */
    method TakeNonce() returns (copy: bytes)
      requires nonce.Length == 12 && nonce[..] == ToBE(messages, 12)
      modifies this`messages, nonce
      ensures messages == old(messages) + 1 && nonce[..] == ToBE(messages, 12)
      ensures copy == ToBE(old(messages), 12) && FromBE(copy) * TWO_32 == FirstBlock(old(messages))
    {
      copy := nonce[..];
      NonceValue(messages);
      IncrementBESlice(nonce);
      NextNonce(messages);
      messages := messages + 1;
    }

    /** The counter of a message, before its first block. */
    static method StartOfMessage(nonce: bytes) returns (counter: array<u8>)
      requires |nonce| == 12
      ensures fresh(counter) && counter.Length == 16
      ensures counter[..] == CounterBlock(FromBE(nonce) * TWO_32)
    {
      var block := CreateCounterBlock(nonce, 0);
      counter := new u8[16](i requires 0 <= i < 16 => block[i]);
      assert counter[..] == block;
      CreatedCounterBlock(nonce, 0);
    }

    /** `decrypt` */
    method Decrypt(nonce: bytes, ciphertext: bytes) returns (r: Result<bytes, AesError>)
      requires |nonce| == 12
      ensures r == Processed(cipher, ciphertext, FromBE(nonce) * TWO_32)
      ensures r.Ok? ==> Keystreamed(cipher, ciphertext, r.value, FromBE(nonce) * TWO_32)
    {
      var counter := StartOfMessage(nonce);
      ghost var blocks;
      r, blocks := ProcessWithCounter(cipher, ciphertext, counter, FromBE(nonce) * TWO_32);
    }
  }

  lemma {:induction false} ZeroNonce(n: nat)
    ensures ToBE(0, n) == Zeros(n)
  {
    if n > 0 {
      ZeroNonce(n - 1);
    }
  }

  /** The nonce of message `messages`, as a number. */
  lemma NonceValue(messages: nat)
    ensures FromBE(ToBE(messages, 12)) == messages % MESSAGES
  {
    TruncatedBE(messages, 12);
  }

  lemma {:induction false} TruncatedBE(value: nat, width: nat)
    ensures FromBE(ToBE(value, width)) == value % Pow256(width)
  {
    if width > 0 {
      TruncatedBE(value / 256, width - 1);
      assert ToBE(value, width)[..width - 1] == ToBE(value / 256, width - 1);
      DigitOfRemainder(value, Pow256(width - 1));
    }
  }

  lemma DigitOfRemainder(value: nat, p: nat)
    requires p > 0
    ensures value % (256 * p) == 256 * (value / 256 % p) + value % 256
  {
    var (q, r) := (value / 256 / p, value / 256 % p);
    assert value / 256 == q * p + r;
    assert value == q * (256 * p) + (256 * r + value % 256);
    Remainder(value, q, 256 * p, 256 * r + value % 256);
  }

  /** The number of the first counter block of a message. */
  function FirstBlock(messages: nat): nat {
    messages % MESSAGES * TWO_32
  }

  lemma FirstBlockModulo(messages: nat)
    ensures FirstBlock(messages) % BLOCKS == messages * TWO_32 % BLOCKS
  {
    var (q, i) := (messages / MESSAGES, messages % MESSAGES);
    BlocksOfMessages();
    assert messages == q * MESSAGES + i;
    assert messages * TWO_32 == q * BLOCKS + i * TWO_32;
    MulOrder(i, MESSAGES, TWO_32);
    Remainder(messages * TWO_32, q, BLOCKS, i * TWO_32);
    Remainder(i * TWO_32, 0, BLOCKS, i * TWO_32);
  }

  /** The blocks of message `i` hold the numbers from `i * 2^32` on. */
  lemma KeystreamOfMessage(cipher: Cipher, input: bytes, output: bytes, messages: nat)
    requires Keystreamed(cipher, input, output, FirstBlock(messages))
    ensures Keystreamed(cipher, input, output, messages * TWO_32)
  {
    FirstBlockModulo(messages);
    KeystreamOfNumber(cipher, input, output, FirstBlock(messages), messages * TWO_32);
  }

  lemma SmallFirstBlock(messages: nat)
    requires messages < MESSAGES
    ensures FirstBlock(messages) == messages * TWO_32
  {
    Remainder(messages, 0, MESSAGES, messages);
  }

  lemma NextNonce(messages: nat)
    ensures Increment(ToBE(messages, 12)) == ToBE(messages + 1, 12)
  {
    NonceValue(messages);
    NonceValue(messages + 1);
    IncrementAddsOne(ToBE(messages, 12));
    NextRemainder(messages, MESSAGES);
    FromBEInjective(Increment(ToBE(messages, 12)), ToBE(messages + 1, 12));
  }

  /** Decrypting what was encrypted, by any object with the same block function, gives the plaintext. */
  method RoundTrip(alice: AesCtr, bob: AesCtr, plaintext: bytes) returns (r: Result<bytes, AesError>)
    requires alice.Valid() && alice.cipher == bob.cipher
    modifies alice`messages, alice`used, alice`short, alice.nonce
    ensures match Processed(alice.cipher, plaintext, FirstBlock(old(alice.messages)))
            case Ok(_) => r == Ok(plaintext)
            case Err(e) => r == Err(e)
  {
    ghost var value := FirstBlock(alice.messages);
    NonceValue(alice.messages);
    var sealed;
    ghost var n;
    sealed, n := alice.Encrypt(plaintext);
    if sealed.Err? {
      return Err(sealed.error);
    }
    ProcessedTwice(alice.cipher, plaintext, value);
    r := bob.Decrypt(sealed.value.0, sealed.value.1);
  }
}
