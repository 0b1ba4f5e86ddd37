/** The check for UTF-8 that the decoder of strings makes, against section 3 of RFC 3629. */
module Utf8 {
  import opened MachineInts
  import opened Codec

  /** A Unicode scalar value: a code point that is not a surrogate. */
  predicate IsScalar(c: nat) {
    c < 0xd800 || 0xe000 <= c < 0x11_0000
  }

  /** The bytes of a character: one to four, and all but the first hold six bits each. */
  function Encoded(c: nat): (s: bytes)
    requires IsScalar(c)
    ensures 1 <= |s| <= 4
  {
    if c < 0x80 then [c]
    else if c < 0x800 then [0xc0 + c / 0x40, 0x80 + c % 0x40]
    else if c < 0x1_0000 then [0xe0 + c / 0x1000, 0x80 + c / 0x40 % 0x40, 0x80 + c % 0x40]
    else [0xf0 + c / 0x4_0000, 0x80 + c / 0x1000 % 0x40, 0x80 + c / 0x40 % 0x40, 0x80 + c % 0x40]
  }

  /** The character that starts a byte string. */
  function FirstChar(s: bytes): (c: nat)
    requires Utf8Char(s) > 0
  {
    var n := Utf8Char(s);
    if n == 1 then s[0]
    else if n == 2 then 0x40 * (s[0] as int - 0xc0) + (s[1] as int - 0x80)
    else if n == 3 then 0x1000 * (s[0] as int - 0xe0) + 0x40 * (s[1] as int - 0x80) + (s[2] as int - 0x80)
    else 0x4_0000 * (s[0] as int - 0xf0) + 0x1000 * (s[1] as int - 0x80) + 0x40 * (s[2] as int - 0x80) + (s[3] as int - 0x80)
  }

  /** Two, three and four numbers of six bits, put together and taken apart. */
  lemma SixBits(a: nat, b: nat)
    requires b < 0x40
    ensures (0x40 * a + b) / 0x40 == a && (0x40 * a + b) % 0x40 == b
  {
  }

  lemma SixBitsTwice(a: nat, b: nat, c: nat, n: nat)
    requires b < 0x40 && c < 0x40 && n == 0x1000 * a + 0x40 * b + c
    ensures n / 0x40 == 0x40 * a + b && n / 0x1000 == a && n / 0x40 % 0x40 == b && n % 0x40 == c
  {
    SixBits(0x40 * a + b, c);
    SixBits(a, b);
  }

  lemma SixBitsThrice(a: nat, b: nat, c: nat, d: nat, n: nat)
    requires b < 0x40 && c < 0x40 && d < 0x40 && n == 0x4_0000 * a + 0x1000 * b + 0x40 * c + d
    ensures n / 0x4_0000 == a && n / 0x1000 % 0x40 == b && n / 0x40 % 0x40 == c && n % 0x40 == d
  {
    SixBits(0x1000 * a + 0x40 * b + c, d);
    SixBitsTwice(a, b, c, n / 0x40);
  }

  lemma FirstCharEncoded(s: bytes)
    requires Utf8Char(s) > 0
    ensures IsScalar(FirstChar(s)) && Encoded(FirstChar(s)) == s[..Utf8Char(s)]
  {
    var n := Utf8Char(s);
    if n == 2 {
      SixBits(s[0] as int - 0xc0, s[1] as int - 0x80);
    } else if n == 3 {
      SixBitsTwice(s[0] as int - 0xe0, s[1] as int - 0x80, s[2] as int - 0x80, FirstChar(s));
    } else if n == 4 {
      SixBitsThrice(s[0] as int - 0xf0, s[1] as int - 0x80, s[2] as int - 0x80, s[3] as int - 0x80, FirstChar(s));
    }
  }

  lemma EncodedIsChar(c: nat, rest: bytes)
    requires IsScalar(c)
    ensures Utf8Char(Encoded(c) + rest) == |Encoded(c)|
  {
  }

  /** The characters one after the other. */
  ghost function Text(chars: seq<nat>): bytes
    requires forall i :: 0 <= i < |chars| ==> IsScalar(chars[i])
  {
    if chars == [] then [] else Encoded(chars[0]) + Text(chars[1..])
  }

  lemma {:induction false} ValidIsText(s: bytes) returns (chars: seq<nat>)
    requires ValidUtf8(s)
    ensures forall i :: 0 <= i < |chars| ==> IsScalar(chars[i])
    ensures Text(chars) == s
    decreases |s|
  {
    chars := [];
    if s != [] {
      FirstCharEncoded(s);
      var rest := ValidIsText(s[Utf8Char(s)..]);
      chars := [FirstChar(s)] + rest;
      assert chars[1..] == rest;
    }
  }

  /** Every text in UTF-8 passes the check. */
  lemma {:induction false} TextIsValid(chars: seq<nat>)
    requires forall i :: 0 <= i < |chars| ==> IsScalar(chars[i])
    ensures ValidUtf8(Text(chars))
  {
    if chars != [] {
      var (first, rest) := (Encoded(chars[0]), Text(chars[1..]));
      TextIsValid(chars[1..]);
      EncodedIsChar(chars[0], rest);
      assert (first + rest)[|first|..] == rest;
    }
  }

  /** The check accepts exactly the encodings of sequences of scalar values. */
  lemma ValidExactlyText(s: bytes)
    ensures ValidUtf8(s)
            <==> exists chars: seq<nat> :: (forall i :: 0 <= i < |chars| ==> IsScalar(chars[i])) && Text(chars) == s
  {
    if ValidUtf8(s) {
      var chars := ValidIsText(s);
    } else {
      forall chars: seq<nat> | forall i :: 0 <= i < |chars| ==> IsScalar(chars[i]) ensures Text(chars) != s {
        TextIsValid(chars);
      }
    }
  }
}
