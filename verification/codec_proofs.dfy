/** What the serializer is for: round trips, canonical encodings, and exact lengths, for every schema. */
module CodecProofs {
  import opened MachineInts
  import opened BigEndian
  import opened Codec

  // ---------------------------------------------------------------------------------------
  // Lengths
  // ---------------------------------------------------------------------------------------

  /** Exactly `get_serialized_length` bytes are written. */
  lemma {:induction false} LengthIsExact(s: Schema, v: Value)
    requires HasType(s, v)
    ensures |Encode(s, v)| == Length(s, v)
    decreases s, 0, 0
  {
    match s
    case SOption(elem) =>
      if v.VSome? {
        LengthIsExact(elem, v.value);
      }
    case SVec(elem) => LengthOfItemsIsExact(elem, v.items);
    case SStruct(fields) => LengthOfFieldsIsExact(fields, v.fields);
    case SEnum(variants) => LengthOfFieldsIsExact(variants[v.tag].fields, v.fields);
    case _ =>
  }

  lemma {:induction false} LengthOfItemsIsExact(elem: Schema, items: seq<Value>)
    requires ItemsHaveType(elem, items)
    ensures |EncodeItems(elem, items)| == LengthOfItems(elem, items)
    decreases elem, 1, |items|
  {
    if items != [] {
      LengthIsExact(elem, items[0]);
      LengthOfItemsIsExact(elem, items[1..]);
    }
  }

  lemma {:induction false} LengthOfFieldsIsExact(fields: seq<Schema>, values: seq<Value>)
    requires FieldsHaveType(fields, values)
    ensures |EncodeFields(fields, values)| == LengthOfFields(fields, values)
    decreases fields, 0, 0
  {
    if fields != [] {
      LengthIsExact(fields[0], values[0]);
      LengthOfFieldsIsExact(fields[1..], values[1..]);
    }
  }

  // ---------------------------------------------------------------------------------------
  // Decoding what was encoded
  // ---------------------------------------------------------------------------------------

  lemma NumRoundTrip(n: nat, width: nat, rest: bytes, slice: bytes)
    requires n < Pow256(width) && slice == ToBE(n, width) + rest
    ensures DecodeNum(width, slice) == Ok((n, rest))
  {
    FromToBE(n, width);
    assert slice[..width] == ToBE(n, width) && slice[width..] == rest;
  }

  lemma TagAndRest(tag: u8, rest: bytes, slice: bytes)
    requires slice == [tag] + rest
    ensures slice != [] && slice[0] == tag && slice[1..] == rest
  {
  }

  /**
   Every value of every schema is read back, whatever follows it. `slice` is the encoding of `v`
   followed by `rest`.
   */
  lemma {:induction false} RoundTrip(s: Schema, v: Value, rest: bytes, slice: bytes)
    requires SmallEnums(s) && HasType(s, v) && slice == Encode(s, v) + rest
    ensures Decode(s, slice) == Ok((v, rest))
    decreases s, 0, 0
  {
    Pow256Widths();
    match s
    case SBool => TagAndRest(if v.flag then 1 else 0, rest, slice);
    case SU8 => NumRoundTrip(v.n, 1, rest, slice);
    case SU16 => NumRoundTrip(v.n, 2, rest, slice);
    case SU32 => NumRoundTrip(v.n, 4, rest, slice);
    case SString =>
      var tail := v.utf8 + rest;
      assert slice == ToBE(|v.utf8|, 2) + tail;
      NumRoundTrip(|v.utf8|, 2, tail, slice);
      assert tail[..|v.utf8|] == v.utf8 && tail[|v.utf8|..] == rest;
    case SOption(elem) =>
      if v.VSome? {
        var tail := Encode(elem, v.value) + rest;
        assert slice == [1] + tail;
        TagAndRest(1, tail, slice);
        RoundTrip(elem, v.value, rest, tail);
      } else {
        TagAndRest(0, rest, slice);
      }
    case SVec(elem) =>
      var tail := EncodeItems(elem, v.items) + rest;
      assert slice == ToBE(|v.items|, 4) + tail;
      NumRoundTrip(|v.items|, 4, tail, slice);
      ItemsRoundTrip(elem, v.items, rest, tail);
    case SStruct(fields) => FieldsRoundTrip(fields, v.fields, rest, slice);
    case SEnum(variants) =>
      var tail := EncodeFields(variants[v.tag].fields, v.fields) + rest;
      assert slice == [v.tag % 256] + tail;
      TagAndRest(v.tag % 256, tail, slice);
      FieldsRoundTrip(variants[v.tag].fields, v.fields, rest, tail);
  }

  lemma {:induction false} ItemsRoundTrip(elem: Schema, items: seq<Value>, rest: bytes, slice: bytes)
    requires SmallEnums(elem) && ItemsHaveType(elem, items) && slice == EncodeItems(elem, items) + rest
    ensures DecodeItems(elem, |items|, slice) == Ok((items, rest))
    decreases elem, 1, |items|
  {
    if items == [] {
      assert slice == rest;
    } else {
      var tail := EncodeItems(elem, items[1..]) + rest;
      assert slice == Encode(elem, items[0]) + tail;
      RoundTrip(elem, items[0], tail, slice);
      ItemsRoundTrip(elem, items[1..], rest, tail);
      assert [items[0]] + items[1..] == items;
    }
  }

  lemma {:induction false} FieldsRoundTrip(fields: seq<Schema>, values: seq<Value>, rest: bytes, slice: bytes)
    requires SmallEnumsIn(fields) && FieldsHaveType(fields, values) && slice == EncodeFields(fields, values) + rest
    ensures DecodeFields(fields, slice) == Ok((values, rest))
    decreases fields, 0, 0
  {
    if fields == [] {
      assert slice == rest && values == [];
    } else {
      var tail := EncodeFields(fields[1..], values[1..]) + rest;
      assert slice == Encode(fields[0], values[0]) + tail;
      RoundTrip(fields[0], values[0], tail, slice);
      FieldsRoundTrip(fields[1..], values[1..], rest, tail);
      assert [values[0]] + values[1..] == values;
    }
  }

  // ---------------------------------------------------------------------------------------
  // Encoding what was decoded
  // ---------------------------------------------------------------------------------------

  lemma Regroup(whole: bytes, a: bytes, tail: bytes, b: bytes, rest: bytes)
    requires whole == a + tail && tail == b + rest
    ensures whole == a + b + rest
  {
  }

  lemma NumCanonical(width: nat, slice: bytes)
    requires DecodeNum(width, slice).Ok?
    ensures var (n, rest) := DecodeNum(width, slice).value;
            n < Pow256(width) && slice == ToBE(n, width) + rest
  {
    FromBEBound(slice[..width]);
    ToFromBE(slice[..width]);
  }

  lemma StringCanonical(slice: bytes)
    requires Decode(SString, slice).Ok?
    ensures var (v, rest) := Decode(SString, slice).value;
            HasType(SString, v) && slice == Encode(SString, v) + rest
  {
    Pow256Widths();
    NumCanonical(2, slice);
    var ((len, tail), (v, rest)) := (DecodeNum(2, slice).value, Decode(SString, slice).value);
    Regroup(slice, ToBE(len, 2), tail, v.utf8, rest);
  }

  /** Accepted bytes are the encoding of the value they give: there is no second encoding of a value. */
  lemma {:induction false} Canonical(s: Schema, slice: bytes)
    requires Decode(s, slice).Ok?
    ensures var (v, rest) := Decode(s, slice).value;
            HasType(s, v) && slice == Encode(s, v) + rest
    decreases s, 0, 0
  {
    Pow256Widths();
    var (v, rest) := Decode(s, slice).value;
    match s
    case SBool => assert slice == [slice[0]] + rest;
    case SU8 => NumCanonical(1, slice);
    case SU16 => NumCanonical(2, slice);
    case SU32 => NumCanonical(4, slice);
    case SString => StringCanonical(slice);
    case SOption(elem) =>
      if v.VSome? {
        Canonical(elem, slice[1..]);
        Regroup(slice, [1], slice[1..], Encode(elem, v.value), rest);
      } else {
        assert slice == [0] + rest;
      }
    case SVec(elem) =>
      NumCanonical(4, slice);
      var (len, tail) := DecodeNum(4, slice).value;
      ItemsCanonical(elem, len, tail);
      Regroup(slice, ToBE(len, 4), tail, EncodeItems(elem, v.items), rest);
    case SStruct(fields) => FieldsCanonical(fields, slice);
    case SEnum(variants) =>
      FieldsCanonical(variants[slice[0]].fields, slice[1..]);
      Regroup(slice, [slice[0]], slice[1..], EncodeFields(variants[slice[0]].fields, v.fields), rest);
  }

  lemma {:induction false} ItemsCanonical(elem: Schema, len: nat, slice: bytes)
    requires DecodeItems(elem, len, slice).Ok?
    ensures var (items, rest) := DecodeItems(elem, len, slice).value;
            |items| == len && ItemsHaveType(elem, items) && slice == EncodeItems(elem, items) + rest
    decreases elem, 1, len
  {
    if len > 0 {
      Canonical(elem, slice);
      var (item, tail) := Decode(elem, slice).value;
      ItemsCanonical(elem, len - 1, tail);
      var (items, rest) := DecodeItems(elem, len - 1, tail).value;
      assert ([item] + items)[1..] == items;
      Regroup(slice, Encode(elem, item), tail, EncodeItems(elem, items), rest);
    }
  }

  lemma {:induction false} FieldsCanonical(fields: seq<Schema>, slice: bytes)
    requires DecodeFields(fields, slice).Ok?
    ensures var (values, rest) := DecodeFields(fields, slice).value;
            FieldsHaveType(fields, values) && slice == EncodeFields(fields, values) + rest
    decreases fields, 0, 0
  {
    if fields != [] {
      Canonical(fields[0], slice);
      var (value, tail) := Decode(fields[0], slice).value;
      FieldsCanonical(fields[1..], tail);
      var (values, rest) := DecodeFields(fields[1..], tail).value;
      assert ([value] + values)[1..] == values;
      Regroup(slice, Encode(fields[0], value), tail, EncodeFields(fields[1..], values), rest);
    }
  }

  // ---------------------------------------------------------------------------------------
  // Consequences
  // ---------------------------------------------------------------------------------------

  /** Decoding accepts exactly the encodings of values, each followed by anything. */
  lemma DecodesExactlyEncodings(s: Schema, slice: bytes, v: Value, rest: bytes)
    requires SmallEnums(s)
    ensures Decode(s, slice) == Ok((v, rest)) <==> HasType(s, v) && slice == Encode(s, v) + rest
  {
    if Decode(s, slice) == Ok((v, rest)) {
      Canonical(s, slice);
    }
    if HasType(s, v) && slice == Encode(s, v) + rest {
      RoundTrip(s, v, rest, slice);
    }
  }

  /** A whole string decodes to `v` exactly when it is the encoding of `v`. */
  lemma DecodeFullInvertsEncode(s: Schema, slice: bytes, v: Value)
    requires SmallEnums(s)
    ensures DecodeFull(s, slice) == Some(v) <==> HasType(s, v) && slice == Encode(s, v)
  {
    DecodesExactlyEncodings(s, slice, v, []);
    if HasType(s, v) {
      assert Encode(s, v) + [] == Encode(s, v);
    }
  }

  /** No encoding continues another one: the codes are prefix-free, and so injective. */
  lemma PrefixFree(s: Schema, v0: Value, rest0: bytes, v1: Value, rest1: bytes)
    requires SmallEnums(s) && HasType(s, v0) && HasType(s, v1)
    requires Encode(s, v0) + rest0 == Encode(s, v1) + rest1
    ensures v0 == v1 && rest0 == rest1
  {
    RoundTrip(s, v0, rest0, Encode(s, v0) + rest0);
    RoundTrip(s, v1, rest1, Encode(s, v1) + rest1);
  }

  /**
   The limit of 256 variants: with more, the tag is cut to a byte, and a value is read back if and
   only if its tag is below 256.
   */
  lemma TagLimit(variants: seq<Variant>, v: Value, rest: bytes)
    requires forall i :: 0 <= i < |variants| ==> SmallEnumsIn(variants[i].fields)
    requires HasType(SEnum(variants), v)
    ensures Decode(SEnum(variants), Encode(SEnum(variants), v) + rest) == Ok((v, rest)) <==> v.tag < 256
  {
    var fields := EncodeFields(variants[v.tag].fields, v.fields);
    var slice := Encode(SEnum(variants), v) + rest;
    assert slice == [v.tag % 256] + (fields + rest);
    TagAndRest(v.tag % 256, fields + rest, slice);
    if v.tag < 256 {
      FieldsRoundTrip(variants[v.tag].fields, v.fields, rest, fields + rest);
    }
  }
}
