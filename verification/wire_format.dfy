/**
 The serialized format, said about the bytes themselves, as common/src/ux/codec.rs documents it, and the
 proof that the encoder produces exactly these bytes.
 */
module WireFormat {
  import opened MachineInts
  import opened BigEndian
  import opened Codec

  /** The parts one after the other. */
  ghost function Joined(parts: seq<bytes>): bytes {
    if parts == [] then [] else parts[0] + Joined(parts[1..])
  }

  /** `r` is the number `n` in `width` bytes, the most significant one first. */
  ghost predicate IsNumber(r: bytes, width: nat, n: nat) {
    |r| == width && FromBE(r) == n
  }

  /** `r` holds the items in order and nothing else. */
  ghost predicate AreItems(elem: Schema, items: seq<Value>, r: bytes, parts: seq<bytes>)
    decreases elem, 1
  {
    && |parts| == |items| && r == Joined(parts)
    && forall i :: 0 <= i < |items| ==> IsWire(elem, items[i], parts[i])
  }

  /** `r` holds the fields in order and nothing else. */
  ghost predicate AreFields(fields: seq<Schema>, values: seq<Value>, r: bytes, parts: seq<bytes>)
    decreases fields, 1
  {
    && |parts| == |fields| == |values| && r == Joined(parts)
    && forall i :: 0 <= i < |fields| ==> IsWire(fields[i], values[i], parts[i])
  }

  /**
   The bytes of a value. A boolean is one byte, 1 or 0. Numbers are big-endian. A string is its length in
   two bytes and then itself. An option is a byte 1 and its value, or a byte 0. A vector is its length in
   four bytes and then its items. A struct is its fields, an enum the position of its variant and its fields.
   */
  ghost predicate IsWire(s: Schema, v: Value, r: bytes)
    decreases s, 0
  {
    match s
    case SBool => v.VBool? && r == if v.flag then [1] else [0]
    case SU8 => v.VNum? && IsNumber(r, 1, v.n)
    case SU16 => v.VNum? && IsNumber(r, 2, v.n)
    case SU32 => v.VNum? && IsNumber(r, 4, v.n)
    case SString => v.VString? && |r| >= 2 && IsNumber(r[..2], 2, |v.utf8|) && r[2..] == v.utf8
    case SOption(elem) =>
      if v.VSome? then |r| >= 1 && r[0] == 1 && IsWire(elem, v.value, r[1..]) else v.VNone? && r == [0]
    case SVec(elem) =>
      && v.VVec? && |r| >= 4 && IsNumber(r[..4], 4, |v.items|)
      && exists parts :: AreItems(elem, v.items, r[4..], parts)
    case SStruct(fields) => v.VStruct? && exists parts :: AreFields(fields, v.fields, r, parts)
    case SEnum(variants) =>
      && v.VEnum? && v.tag < |variants| && |r| >= 1 && r[0] == v.tag % 256
      && exists parts :: AreFields(variants[v.tag].fields, v.fields, r[1..], parts)
  }

  // ---------------------------------------------------------------------------------------
  // The encoder produces the format
  // ---------------------------------------------------------------------------------------

  lemma {:induction false} ItemsJoined(elem: Schema, items: seq<Value>) returns (parts: seq<bytes>)
    requires ItemsHaveType(elem, items)
    ensures |parts| == |items| && Joined(parts) == EncodeItems(elem, items)
    ensures forall i :: 0 <= i < |items| ==> HasType(elem, items[i]) && parts[i] == Encode(elem, items[i])
  {
    parts := [];
    if items != [] {
      var rest := ItemsJoined(elem, items[1..]);
      parts := [Encode(elem, items[0])] + rest;
      assert parts[1..] == rest;
    }
  }

  lemma {:induction false} FieldsJoined(fields: seq<Schema>, values: seq<Value>) returns (parts: seq<bytes>)
    requires FieldsHaveType(fields, values)
    ensures |parts| == |fields| && Joined(parts) == EncodeFields(fields, values)
    ensures forall i :: 0 <= i < |fields| ==> HasType(fields[i], values[i]) && parts[i] == Encode(fields[i], values[i])
  {
    parts := [];
    if fields != [] {
      var rest := FieldsJoined(fields[1..], values[1..]);
      parts := [Encode(fields[0], values[0])] + rest;
      assert parts[1..] == rest;
    }
  }

  lemma ToBEIsNumber(n: nat, width: nat)
    requires n < Pow256(width)
    ensures IsNumber(ToBE(n, width), width, n)
  {
    FromToBE(n, width);
  }

  lemma {:induction false} EncodeItemsIsWire(elem: Schema, items: seq<Value>) returns (parts: seq<bytes>)
    requires ItemsHaveType(elem, items)
    ensures AreItems(elem, items, EncodeItems(elem, items), parts)
    decreases elem, 1
  {
    parts := ItemsJoined(elem, items);
    forall i | 0 <= i < |items| ensures IsWire(elem, items[i], parts[i]) {
      EncodeIsWire(elem, items[i]);
    }
  }

  lemma {:induction false} EncodeFieldsIsWire(fields: seq<Schema>, values: seq<Value>) returns (parts: seq<bytes>)
    requires FieldsHaveType(fields, values)
    ensures AreFields(fields, values, EncodeFields(fields, values), parts)
    decreases fields, 1
  {
    parts := FieldsJoined(fields, values);
    forall i | 0 <= i < |fields| ensures IsWire(fields[i], values[i], parts[i]) {
      EncodeIsWire(fields[i], values[i]);
    }
  }

  lemma {:induction false} EncodeIsWire(s: Schema, v: Value)
    requires HasType(s, v)
    ensures IsWire(s, v, Encode(s, v))
    decreases s, 0
  {
    Pow256Widths();
    var r := Encode(s, v);
    match s {
      case SBool =>
      case SU8 => ToBEIsNumber(v.n, 1);
      case SU16 => ToBEIsNumber(v.n, 2);
      case SU32 => ToBEIsNumber(v.n, 4);
      case SString =>
        ToBEIsNumber(|v.utf8|, 2);
        assert r[..2] == ToBE(|v.utf8|, 2) && r[2..] == v.utf8;
      case SOption(elem) =>
        if v.VSome? {
          EncodeIsWire(elem, v.value);
          assert r[1..] == Encode(elem, v.value);
        }
      case SVec(elem) =>
        ToBEIsNumber(|v.items|, 4);
        var parts := EncodeItemsIsWire(elem, v.items);
        assert r[..4] == ToBE(|v.items|, 4) && r[4..] == EncodeItems(elem, v.items);
      case SStruct(fields) =>
        var parts := EncodeFieldsIsWire(fields, v.fields);
      case SEnum(variants) =>
        var parts := EncodeFieldsIsWire(variants[v.tag].fields, v.fields);
        assert r[1..] == EncodeFields(variants[v.tag].fields, v.fields);
    }
  }

  // ---------------------------------------------------------------------------------------
  // and nothing else has the format
  // ---------------------------------------------------------------------------------------

  lemma NumberIsToBE(r: bytes, width: nat, n: nat)
    requires IsNumber(r, width, n)
    ensures r == ToBE(n, width)
  {
    ToFromBE(r);
  }

  lemma {:induction false} SameJoined(elem: Schema, items: seq<Value>, parts: seq<bytes>)
    requires ItemsHaveType(elem, items) && |parts| == |items|
    requires forall i :: 0 <= i < |items| ==> HasType(elem, items[i]) ==> parts[i] == Encode(elem, items[i])
    ensures Joined(parts) == EncodeItems(elem, items)
  {
    var encoded := ItemsJoined(elem, items);
    assert parts == encoded;
  }

  lemma {:induction false} SameFields(fields: seq<Schema>, values: seq<Value>, parts: seq<bytes>)
    requires FieldsHaveType(fields, values) && |parts| == |fields|
    requires forall i :: 0 <= i < |fields| ==> HasType(fields[i], values[i]) ==> parts[i] == Encode(fields[i], values[i])
    ensures Joined(parts) == EncodeFields(fields, values)
  {
    var encoded := FieldsJoined(fields, values);
    assert parts == encoded;
  }

  lemma {:induction false} WireItemsAreEncoded(elem: Schema, items: seq<Value>, r: bytes, parts: seq<bytes>)
    requires ItemsHaveType(elem, items) && AreItems(elem, items, r, parts)
    ensures r == EncodeItems(elem, items)
    decreases elem, 1
  {
    forall i | 0 <= i < |items| && HasType(elem, items[i]) ensures parts[i] == Encode(elem, items[i]) {
      WireIsEncoded(elem, items[i], parts[i]);
    }
    SameJoined(elem, items, parts);
  }

  lemma {:induction false} WireFieldsAreEncoded(fields: seq<Schema>, values: seq<Value>, r: bytes, parts: seq<bytes>)
    requires FieldsHaveType(fields, values) && AreFields(fields, values, r, parts)
    ensures r == EncodeFields(fields, values)
    decreases fields, 1
  {
    forall i | 0 <= i < |fields| && HasType(fields[i], values[i]) ensures parts[i] == Encode(fields[i], values[i]) {
      WireIsEncoded(fields[i], values[i], parts[i]);
    }
    SameFields(fields, values, parts);
  }

  lemma {:induction false} WireIsEncoded(s: Schema, v: Value, r: bytes)
    requires HasType(s, v) && IsWire(s, v, r)
    ensures r == Encode(s, v)
    decreases s, 0
  {
    match s {
      case SBool =>
      case SU8 => NumberIsToBE(r, 1, v.n);
      case SU16 => NumberIsToBE(r, 2, v.n);
      case SU32 => NumberIsToBE(r, 4, v.n);
      case SString =>
        NumberIsToBE(r[..2], 2, |v.utf8|);
        assert r == r[..2] + r[2..];
      case SOption(elem) =>
        if v.VSome? {
          WireIsEncoded(elem, v.value, r[1..]);
          assert r == [1] + r[1..];
        }
      case SVec(elem) =>
        NumberIsToBE(r[..4], 4, |v.items|);
        var parts :| AreItems(elem, v.items, r[4..], parts);
        WireItemsAreEncoded(elem, v.items, r[4..], parts);
        assert r == r[..4] + r[4..];
      case SStruct(fields) =>
        var parts :| AreFields(fields, v.fields, r, parts);
        WireFieldsAreEncoded(fields, v.fields, r, parts);
      case SEnum(variants) =>
        var parts :| AreFields(variants[v.tag].fields, v.fields, r[1..], parts);
        WireFieldsAreEncoded(variants[v.tag].fields, v.fields, r[1..], parts);
        assert r == [r[0]] + r[1..];
    }
  }

  /** The encoding of a value is the one byte string in the format. */
  lemma OnlyEncodingIsWire(s: Schema, v: Value, r: bytes)
    requires HasType(s, v)
    ensures IsWire(s, v, r) <==> r == Encode(s, v)
  {
    EncodeIsWire(s, v);
    if IsWire(s, v, r) {
      WireIsEncoded(s, v, r);
    }
  }

  // ---------------------------------------------------------------------------------------
  // What is not decoded
  // ---------------------------------------------------------------------------------------

  /** The first byte or the length decides how decoding fails; inside a value its own decoding does. */
  lemma FirstError(s: Schema, slice: bytes, e: DecodeError)
    ensures s.SBool? ==>
              (Decode(s, slice) == Err(e) <==>
                 (slice == [] && e == SliceTooShort) || (slice != [] && slice[0] > 1 && e == InvalidBoolean))
    ensures s.SU8? || s.SU16? || s.SU32? ==>
              (Decode(s, slice) == Err(e) <==>
                 |slice| < (if s.SU8? then 1 else if s.SU16? then 2 else 4) && e == SliceTooShort)
    ensures s.SString? && |slice| >= 2 ==>
              var (n, rest) := (256 * slice[0] as int + slice[1] as int, slice[2..]);
              (Decode(s, slice) == Err(e) <==>
                 (|rest| < n && e == SliceTooShort) || (|rest| >= n && !ValidUtf8(rest[..n]) && e == InvalidUtf8))
    ensures s.SOption? && (slice == [] || slice[0] > 1) ==>
              Decode(s, slice) == Err(if slice == [] then SliceTooShort else InvalidOptionTag)
    ensures s.SEnum? && (slice == [] || slice[0] >= |s.variants|) ==>
              Decode(s, slice) == Err(if slice == [] then SliceTooShort else UnknownTag)
    ensures (s.SString? && |slice| < 2) || (s.SVec? && |slice| < 4) ==> Decode(s, slice) == Err(SliceTooShort)
  {
    if s.SString? && |slice| >= 2 {
      TwoBytes(slice[..2]);
    }
  }

  lemma TwoBytes(s: bytes)
    requires |s| == 2
    ensures FromBE(s) == 256 * s[0] as int + s[1] as int
  {
    assert s[..1][..0] == [] && FromBE(s[..1]) == s[0];
  }
}
