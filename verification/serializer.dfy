/**
 The serializer as it runs: `serialize` writes into a buffer at a position that it moves forward, and
 the decoder of vectors loops. Each is proved to do what `Codec` says.
 */
module Serializer {
  import opened MachineInts
  import opened BigEndian
  import opened Buffers
  import opened Codec
  import opened CodecProofs
  import opened WireFormat

  lemma ToBE1(n: nat)
    requires n < TWO_8
    ensures ToBE(n, 1) == [n]
  {
    assert ToBE(n / 256, 0) == [];
  }

  lemma ToBE2(n: nat)
    requires n < TWO_16
    ensures ToBE(n, 2) == [n / 256, n % 256]
  {
    ToBE1(n / 256);
    assert ToBE(n / 256, 1) == [n / 256];
  }

  lemma ToBE4(n: nat)
    requires n < TWO_32
    ensures ToBE(n, 4) == [n / 16777216, n / 65536 % 256, n / 256 % 256, n % 256]
  {
    var q := n / 65536;
    ToBE2(q);
    assert ToBE(n / 256, 3) == ToBE(q, 2) + [n / 256 % 256] by {
      assert n / 256 / 256 == q;
    }
    assert q / 256 == n / 16777216;
  }

  /** The encoding of `v` fits into `buf` from `pos` on. */
  ghost predicate Fits(s: Schema, v: Value, buf: array<u8>, pos: nat) {
    HasType(s, v) && pos + |Encode(s, v)| <= buf.Length
  }

  /** `serialize` of `u8`. */
  method WriteU8(n: u8, buf: array<u8>, pos: nat) returns (pos': nat)
    requires pos < buf.Length
    modifies buf
    ensures pos' == pos + 1 && buf[..] == Overwrite(old(buf[..]), pos, ToBE(n, 1))
  {
    ToBE1(n);
    OverwriteOne(buf[..], pos, n);
    buf[pos] := n;
    pos' := pos + 1;
  }

  /** `serialize` of `u16`. */
  method WriteU16(n: u16, buf: array<u8>, pos: nat) returns (pos': nat)
    requires pos + 2 <= buf.Length
    modifies buf
    ensures pos' == pos + 2 && buf[..] == Overwrite(old(buf[..]), pos, ToBE(n, 2))
  {
    ToBE2(n);
    OverwriteTwo(buf[..], pos, n / 256, n % 256);
    buf[pos] := n / 256;
    buf[pos + 1] := n % 256;
    pos' := pos + 2;
  }

  /** `serialize` of `u32`. */
  method WriteU32(n: u32, buf: array<u8>, pos: nat) returns (pos': nat)
    requires pos + 4 <= buf.Length
    modifies buf
    ensures pos' == pos + 4 && buf[..] == Overwrite(old(buf[..]), pos, ToBE(n, 4))
  {
    ToBE4(n);
    OverwriteFour(buf[..], pos, n / 16777216, n / 65536 % 256, n / 256 % 256, n % 256);
    buf[pos] := n / 16777216;
    buf[pos + 1] := n / 65536 % 256;
    buf[pos + 2] := n / 256 % 256;
    buf[pos + 3] := n % 256;
    pos' := pos + 4;
  }

  /** `copy_nonoverlapping` of a whole byte string into the buffer. */
  method WriteBytes(data: bytes, buf: array<u8>, pos: nat) returns (pos': nat)
    requires pos + |data| <= buf.Length
    modifies buf
    ensures pos' == pos + |data| && buf[..] == Overwrite(old(buf[..]), pos, data)
  {
    forall i | 0 <= i < |data| {
      buf[pos + i] := data[i];
    }
    pos' := pos + |data|;
  }

  /** `serialize` of a string that is not too long: its length and its bytes. */
  method WriteString(utf8: bytes, buf: array<u8>, pos: nat) returns (pos': nat)
    requires |utf8| < TWO_16 && pos + 2 + |utf8| <= buf.Length
    modifies buf
    ensures pos' == pos + 2 + |utf8|
    ensures buf[..] == Overwrite(old(buf[..]), pos, ToBE(|utf8|, 2) + utf8)
  {
    ghost var before := buf[..];
    pos' := WriteU16(|utf8|, buf, pos);
    pos' := WriteBytes(utf8, buf, pos');
    OverwriteAppend(before, pos, ToBE(|utf8|, 2), utf8);
  }

  /** `serialize`: exactly the encoding is written, from `pos` on, and the position moves behind it. */
  method Serialize(s: Schema, v: Value, buf: array<u8>, pos: nat) returns (pos': nat)
    requires Fits(s, v, buf, pos)
    modifies buf
    ensures pos' == pos + |Encode(s, v)|
    ensures buf[..] == Overwrite(old(buf[..]), pos, Encode(s, v))
    decreases s, 0, 0
  {
    match s
    case SBool => pos' := WriteFlag(v.flag, buf, pos);
    case SU8 => pos' := WriteU8(v.n, buf, pos);
    case SU16 => pos' := WriteU16(v.n, buf, pos);
    case SU32 => pos' := WriteU32(v.n, buf, pos);
    case SString =>
      pos' := WriteString(v.utf8, buf, pos);
    case SOption(elem) =>
      if v.VSome? {
        pos' := SerializeSome(elem, v.value, buf, pos);
      } else {
        pos' := WriteFlag(false, buf, pos);
      }
    case SVec(elem) => pos' := SerializeVec(elem, v.items, buf, pos);
    case SStruct(fields) => pos' := SerializeFields(fields, v.fields, buf, pos);
    case SEnum(variants) => pos' := SerializeVariant(v.tag % 256, variants[v.tag].fields, v.fields, buf, pos);
  }

  /** `serialize` of an option that holds a value. */
  method SerializeSome(elem: Schema, v: Value, buf: array<u8>, pos: nat) returns (pos': nat)
    requires HasType(elem, v) && pos + 1 + |Encode(elem, v)| <= buf.Length
    modifies buf
    ensures pos' == pos + 1 + |Encode(elem, v)|
    ensures buf[..] == Overwrite(old(buf[..]), pos, [1] + Encode(elem, v))
    decreases elem, 2, 0
  {
    ghost var before := buf[..];
    pos' := WriteFlag(true, buf, pos);
    pos' := Serialize(elem, v, buf, pos');
    OverwriteAppend(before, pos, [1], Encode(elem, v));
  }

  /** `serialize` of a slice that is not too long: its length and its items. */
  method SerializeVec(elem: Schema, items: seq<Value>, buf: array<u8>, pos: nat) returns (pos': nat)
    requires |items| < TWO_32 && ItemsHaveType(elem, items) && pos + 4 + |EncodeItems(elem, items)| <= buf.Length
    modifies buf
    ensures pos' == pos + 4 + |EncodeItems(elem, items)|
    ensures buf[..] == Overwrite(old(buf[..]), pos, ToBE(|items|, 4) + EncodeItems(elem, items))
    decreases elem, 2, 0
  {
    ghost var before := buf[..];
    pos' := WriteU32(|items|, buf, pos);
    pos' := SerializeItems(elem, items, buf, pos');
    OverwriteAppend(before, pos, ToBE(|items|, 4), EncodeItems(elem, items));
  }

  /** The tag of a variant and its fields. */
  method SerializeVariant(tag: u8, fields: seq<Schema>, values: seq<Value>, buf: array<u8>, pos: nat) returns (pos': nat)
    requires FieldsHaveType(fields, values) && pos + 1 + |EncodeFields(fields, values)| <= buf.Length
    modifies buf
    ensures pos' == pos + 1 + |EncodeFields(fields, values)|
    ensures buf[..] == Overwrite(old(buf[..]), pos, [tag] + EncodeFields(fields, values))
    decreases fields, 1, 0
  {
    ghost var before := buf[..];
    ToBE1(tag);
    pos' := WriteU8(tag, buf, pos);
    pos' := SerializeFields(fields, values, buf, pos');
    OverwriteAppend(before, pos, [tag], EncodeFields(fields, values));
  }

  /** A flag byte, for a boolean or the tag of an option. */
  method WriteFlag(flag: bool, buf: array<u8>, pos: nat) returns (pos': nat)
    requires pos < buf.Length
    modifies buf
    ensures pos' == pos + 1 && buf[..] == Overwrite(old(buf[..]), pos, [if flag then 1 else 0])
  {
    OverwriteOne(buf[..], pos, if flag then 1 else 0);
    buf[pos] := if flag then 1 else 0;
    pos' := pos + 1;
  }

  /** The first `i` items are written: `done`, from `pos` to `pos'`. */
  ghost predicate ItemsWritten(elem: Schema, items: seq<Value>, i: nat, before: bytes, pos: nat, done: bytes,
                               now: bytes, pos': nat)
  {
    && i <= |items| && ItemsHaveType(elem, items) && ItemsHaveType(elem, items[i..])
    && done + EncodeItems(elem, items[i..]) == EncodeItems(elem, items)
    && pos' == pos + |done| <= |before| && now == Overwrite(before, pos, done)
  }

  lemma FirstItem(elem: Schema, items: seq<Value>, i: nat, done: bytes)
    requires i < |items| && ItemsHaveType(elem, items[i..])
    ensures HasType(elem, items[i]) && ItemsHaveType(elem, items[i + 1..])
    ensures done + EncodeItems(elem, items[i..]) == (done + Encode(elem, items[i])) + EncodeItems(elem, items[i + 1..])
  {
    var rest := items[i + 1..];
    assert items[i..][0] == items[i] && items[i..][1..] == rest;
    var (item, tail) := (Encode(elem, items[i]), EncodeItems(elem, rest));
    Regroup(done + (item + tail), done, item + tail, item, tail);
  }

  lemma NextItem(elem: Schema, items: seq<Value>, i: nat, before: bytes, pos: nat, done: bytes, now: bytes, pos': nat)
    requires ItemsWritten(elem, items, i, before, pos, done, now, pos') && i < |items|
    requires pos + |EncodeItems(elem, items)| <= |before|
    ensures HasType(elem, items[i]) && |now| == |before| && pos' + |Encode(elem, items[i])| <= |now|
    ensures var item := Encode(elem, items[i]);
            ItemsWritten(elem, items, i + 1, before, pos, done + item, Overwrite(now, pos', item), pos' + |item|)
  {
    FirstItem(elem, items, i, done);
    OverwriteAppend(before, pos, done, Encode(elem, items[i]));
  }

  /** The loop over the items of a vector. */
  method SerializeItems(elem: Schema, items: seq<Value>, buf: array<u8>, pos: nat) returns (pos': nat)
    requires ItemsHaveType(elem, items) && pos + |EncodeItems(elem, items)| <= buf.Length
    modifies buf
    ensures pos' == pos + |EncodeItems(elem, items)|
    ensures buf[..] == Overwrite(old(buf[..]), pos, EncodeItems(elem, items))
    decreases elem, 1, 0
  {
    ghost var before, done := buf[..], [];
    pos' := pos;
    OverwriteNothing(before, pos);
    for i := 0 to |items|
      invariant ItemsWritten(elem, items, i, before, pos, done, buf[..], pos')
    {
      NextItem(elem, items, i, before, pos, done, buf[..], pos');
      done := done + Encode(elem, items[i]);
      pos' := Serialize(elem, items[i], buf, pos');
    }
    assert done + [] == done;
  }

  /** The fields of a struct or of a variant, in order. */
  method SerializeFields(fields: seq<Schema>, values: seq<Value>, buf: array<u8>, pos: nat) returns (pos': nat)
    requires FieldsHaveType(fields, values) && pos + |EncodeFields(fields, values)| <= buf.Length
    modifies buf
    ensures pos' == pos + |EncodeFields(fields, values)|
    ensures buf[..] == Overwrite(old(buf[..]), pos, EncodeFields(fields, values))
    decreases fields, 0, 0
  {
    pos' := pos;
    if fields == [] {
      OverwriteNothing(buf[..], pos);
    } else {
      ghost var before := buf[..];
      pos' := Serialize(fields[0], values[0], buf, pos');
      pos' := SerializeFields(fields[1..], values[1..], buf, pos');
      OverwriteAppend(before, pos, Encode(fields[0], values[0]), EncodeFields(fields[1..], values[1..]));
    }
  }

  /** `serialized`: a fresh buffer of `get_serialized_length` bytes is filled completely. */
  method Serialized(s: Schema, v: Value) returns (result: bytes)
    requires HasType(s, v)
    ensures result == Encode(s, v) && IsWire(s, v, result)
  {
    EncodeIsWire(s, v);
    LengthIsExact(s, v);
    var len := Length(s, v);
    var buf := new u8[len](_ => 0);
    var pos := 0;
    pos := Serialize(s, v, buf, pos);
    result := buf[..];
  }
}
