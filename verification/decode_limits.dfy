/**
 What the memory of a device adds to decoding: the decoder of a vector reserves the announced number of
 items before it reads the first one, and panics if no vector can have that many.
 */
module DecodeLimits {
  import opened MachineInts
  import opened BigEndian
  import opened Codec
  import opened CodecProofs

  /**
   How many values of a type a vector can have: `isize::MAX` divided by their size in memory. Values without
   a size have no limit, which any number from 2^32 on stands for: no announced length is larger.
   */
  type Capacity = Schema -> nat

  /** Decoding panics at a vector, before any error. */
  predicate Overflows(cap: Capacity, s: Schema, slice: bytes)
    decreases s, 0, 0
  {
    match s
    case SOption(elem) => slice != [] && slice[0] == 1 && Overflows(cap, elem, slice[1..])
    case SVec(elem) =>
      (match DecodeNum(4, slice)
       case Err(_) => false
       case Ok((len, rest)) => len > cap(elem) || ItemsOverflow(cap, elem, len, rest))
    case SStruct(fields) => FieldsOverflow(cap, fields, slice)
    case SEnum(variants) =>
      slice != [] && slice[0] < |variants| && FieldsOverflow(cap, variants[slice[0]].fields, slice[1..])
    case _ => false
  }

  predicate ItemsOverflow(cap: Capacity, elem: Schema, len: nat, slice: bytes)
    decreases elem, 1, len
  {
    len > 0 && (Overflows(cap, elem, slice)
                || (Decode(elem, slice).Ok? && ItemsOverflow(cap, elem, len - 1, Decode(elem, slice).value.1)))
  }

  predicate FieldsOverflow(cap: Capacity, fields: seq<Schema>, slice: bytes)
    decreases fields, 0, 0
  {
    fields != [] && (Overflows(cap, fields[0], slice)
                     || (Decode(fields[0], slice).Ok?
                         && FieldsOverflow(cap, fields[1..], Decode(fields[0], slice).value.1)))
  }

  /** `deserialize` on a device: `None` is a panic. */
  function Deserialize(cap: Capacity, s: Schema, slice: bytes): (r: Option<Decoded<Value>>) {
    if Overflows(cap, s, slice) then None else Some(Decode(s, slice))
  }

  // ---------------------------------------------------------------------------------------
  // What a device can read back
  // ---------------------------------------------------------------------------------------

  /** No vector in `v` has more items than a vector can have. */
  ghost predicate CanHold(cap: Capacity, s: Schema, v: Value)
    requires HasType(s, v)
    decreases s, 0, 0
  {
    match s
    case SOption(elem) => v.VSome? ==> CanHold(cap, elem, v.value)
    case SVec(elem) => |v.items| <= cap(elem) && CanHoldItems(cap, elem, v.items)
    case SStruct(fields) => CanHoldFields(cap, fields, v.fields)
    case SEnum(variants) => CanHoldFields(cap, variants[v.tag].fields, v.fields)
    case _ => true
  }

  ghost predicate CanHoldItems(cap: Capacity, elem: Schema, items: seq<Value>)
    requires ItemsHaveType(elem, items)
    decreases elem, 1, |items|
  {
    items != [] ==> CanHold(cap, elem, items[0]) && CanHoldItems(cap, elem, items[1..])
  }

  ghost predicate CanHoldFields(cap: Capacity, fields: seq<Schema>, values: seq<Value>)
    requires FieldsHaveType(fields, values)
    decreases fields, 0, 0
  {
    fields != [] ==> CanHold(cap, fields[0], values[0]) && CanHoldFields(cap, fields[1..], values[1..])
  }

  /** Reading back a value panics exactly if the device cannot hold it. */
  lemma {:induction false} EncodingOverflows(cap: Capacity, s: Schema, v: Value, rest: bytes, slice: bytes)
    requires SmallEnums(s) && HasType(s, v) && slice == Encode(s, v) + rest
    ensures Overflows(cap, s, slice) <==> !CanHold(cap, s, v)
    decreases s, 0, 0
  {
    match s
    case SOption(elem) =>
      if v.VSome? {
        var tail := Encode(elem, v.value) + rest;
        assert slice == [1] + tail;
        TagAndRest(1, tail, slice);
        EncodingOverflows(cap, elem, v.value, rest, tail);
      } else {
        TagAndRest(0, rest, slice);
      }
    case SVec(elem) =>
      var tail := EncodeItems(elem, v.items) + rest;
      assert slice == ToBE(|v.items|, 4) + tail;
      Pow256Widths();
      NumRoundTrip(|v.items|, 4, tail, slice);
      ItemsEncodingOverflows(cap, elem, v.items, rest, tail);
    case SStruct(fields) => FieldsEncodingOverflows(cap, fields, v.fields, rest, slice);
    case SEnum(variants) =>
      var tail := EncodeFields(variants[v.tag].fields, v.fields) + rest;
      assert slice == [v.tag % 256] + tail;
      TagAndRest(v.tag % 256, tail, slice);
      FieldsEncodingOverflows(cap, variants[v.tag].fields, v.fields, rest, tail);
    case _ =>
  }

  lemma {:induction false} ItemsEncodingOverflows(cap: Capacity, elem: Schema, items: seq<Value>, rest: bytes, slice: bytes)
    requires SmallEnums(elem) && ItemsHaveType(elem, items) && slice == EncodeItems(elem, items) + rest
    ensures ItemsOverflow(cap, elem, |items|, slice) <==> !CanHoldItems(cap, elem, items)
    decreases elem, 1, |items|
  {
    if items != [] {
      var tail := EncodeItems(elem, items[1..]) + rest;
      assert slice == Encode(elem, items[0]) + tail;
      RoundTrip(elem, items[0], tail, slice);
      EncodingOverflows(cap, elem, items[0], tail, slice);
      ItemsEncodingOverflows(cap, elem, items[1..], rest, tail);
    }
  }

  lemma {:induction false} FieldsEncodingOverflows(cap: Capacity, fields: seq<Schema>, values: seq<Value>,
                                                   rest: bytes, slice: bytes)
    requires SmallEnumsIn(fields) && FieldsHaveType(fields, values) && slice == EncodeFields(fields, values) + rest
    ensures FieldsOverflow(cap, fields, slice) <==> !CanHoldFields(cap, fields, values)
    decreases fields, 0, 0
  {
    if fields != [] {
      var tail := EncodeFields(fields[1..], values[1..]) + rest;
      assert slice == Encode(fields[0], values[0]) + tail;
      RoundTrip(fields[0], values[0], tail, slice);
      EncodingOverflows(cap, fields[0], values[0], tail, slice);
      FieldsEncodingOverflows(cap, fields[1..], values[1..], rest, tail);
    }
  }

  /** A device reads back exactly the values that it can hold. */
  lemma DeviceRoundTrip(cap: Capacity, s: Schema, v: Value, rest: bytes)
    requires SmallEnums(s) && HasType(s, v)
    ensures Deserialize(cap, s, Encode(s, v) + rest) == Some(Ok((v, rest))) <==> CanHold(cap, s, v)
    ensures Deserialize(cap, s, Encode(s, v) + rest) == None <==> !CanHold(cap, s, v)
  {
    RoundTrip(s, v, rest, Encode(s, v) + rest);
    EncodingOverflows(cap, s, v, rest, Encode(s, v) + rest);
  }

  // ---------------------------------------------------------------------------------------
  // Bytes from elsewhere
  // ---------------------------------------------------------------------------------------

  /** Where every 32-bit length can be reserved, decoding never panics. */
  lemma {:induction false} WideNeverOverflows(cap: Capacity, s: Schema, slice: bytes)
    requires forall elem :: cap(elem) >= TWO_32 - 1
    ensures !Overflows(cap, s, slice)
    decreases s, 0, 0
  {
    match s
    case SOption(elem) =>
      if slice != [] {
        WideNeverOverflows(cap, elem, slice[1..]);
      }
    case SVec(elem) =>
      if |slice| >= 4 {
        Pow256Widths();
        FromBEBound(slice[..4]);
        WideItems(cap, elem, FromBE(slice[..4]), slice[4..]);
      }
    case SStruct(fields) => WideFields(cap, fields, slice);
    case SEnum(variants) =>
      if slice != [] && slice[0] < |variants| {
        WideFields(cap, variants[slice[0]].fields, slice[1..]);
      }
    case _ =>
  }

  lemma {:induction false} WideItems(cap: Capacity, elem: Schema, len: nat, slice: bytes)
    requires forall elem :: cap(elem) >= TWO_32 - 1
    ensures !ItemsOverflow(cap, elem, len, slice)
    decreases elem, 1, len
  {
    if len > 0 {
      WideNeverOverflows(cap, elem, slice);
      if Decode(elem, slice).Ok? {
        WideItems(cap, elem, len - 1, Decode(elem, slice).value.1);
      }
    }
  }

  lemma {:induction false} WideFields(cap: Capacity, fields: seq<Schema>, slice: bytes)
    requires forall elem :: cap(elem) >= TWO_32 - 1
    ensures !FieldsOverflow(cap, fields, slice)
    decreases fields, 0, 0
  {
    if fields != [] {
      WideNeverOverflows(cap, fields[0], slice);
      if Decode(fields[0], slice).Ok? {
        WideFields(cap, fields[1..], Decode(fields[0], slice).value.1);
      }
    }
  }

  /** Elsewhere four bytes are enough: they announce more items than the device can reserve. */
  lemma FourBytesOverflow(cap: Capacity, elem: Schema)
    requires cap(elem) < TWO_32 - 1
    ensures Deserialize(cap, SVec(elem), ToBE(TWO_32 - 1, 4)) == None
  {
    var slice := ToBE(TWO_32 - 1, 4);
    Pow256Widths();
    assert slice == ToBE(TWO_32 - 1, 4) + [];
    NumRoundTrip(TWO_32 - 1, 4, [], slice);
  }

  // ---------------------------------------------------------------------------------------
  // The loop
  // ---------------------------------------------------------------------------------------

  /** `vec` has been read, and `rem` is left of the bytes. */
  ghost predicate SoFar(cap: Capacity, elem: Schema, len: nat, rest: bytes, vec: seq<Value>, rem: bytes) {
    && |vec| <= len
    && DecodeItems(elem, len, rest) == PrependItems(vec, DecodeItems(elem, len - |vec|, rem))
    && ItemsOverflow(cap, elem, len, rest) == ItemsOverflow(cap, elem, len - |vec|, rem)
  }

  lemma SoFarNext(cap: Capacity, elem: Schema, len: nat, rest: bytes, vec: seq<Value>, rem: bytes, item: Value, next: bytes)
    requires SoFar(cap, elem, len, rest, vec, rem) && |vec| < len
    requires Deserialize(cap, elem, rem) == Some(Ok((item, next)))
    ensures SoFar(cap, elem, len, rest, vec + [item], next)
  {
    PrependStep(vec, item, DecodeItems(elem, len - |vec| - 1, next));
  }

  lemma SoFarFails(cap: Capacity, elem: Schema, len: nat, rest: bytes, vec: seq<Value>, rem: bytes)
    requires SoFar(cap, elem, len, rest, vec, rem) && |vec| < len
    ensures Deserialize(cap, elem, rem) == None ==> ItemsOverflow(cap, elem, len, rest)
    ensures Deserialize(cap, elem, rem).Some? && Deserialize(cap, elem, rem).value.Err? ==>
              !ItemsOverflow(cap, elem, len, rest)
              && DecodeItems(elem, len, rest) == Err(Deserialize(cap, elem, rem).value.error)
  {
  }

  lemma SoFarDone(cap: Capacity, elem: Schema, len: nat, rest: bytes, vec: seq<Value>, rem: bytes)
    requires SoFar(cap, elem, len, rest, vec, rem) && |vec| == len
    ensures !ItemsOverflow(cap, elem, len, rest) && DecodeItems(elem, len, rest) == Ok((vec, rem))
  {
    assert vec + [] == vec;
  }

  /** `deserialize` of a vector. */
  method DeserializeVec(cap: Capacity, elem: Schema, slice: bytes) returns (r: Option<Decoded<Value>>)
    ensures r == Deserialize(cap, SVec(elem), slice)
  {
    match DecodeNum(4, slice)
    case Err(e) => return Some(Err(e));
    case Ok((len, rest)) =>
      if len > cap(elem) {
        return None; // no vector has this capacity
      }
      var rem, vec := rest, [];
      PrependNothing(DecodeItems(elem, len, rest));
      for i := 0 to len
        invariant |vec| == i && SoFar(cap, elem, len, rest, vec, rem)
      {
        SoFarFails(cap, elem, len, rest, vec, rem);
        match Deserialize(cap, elem, rem)
        case None => return None;
        case Some(Err(e)) => return Some(Err(e));
        case Some(Ok((item, next))) =>
          SoFarNext(cap, elem, len, rest, vec, rem, item, next);
          vec := vec + [item];
          rem := next;
      }
      SoFarDone(cap, elem, len, rest, vec, rem);
      r := Some(Ok((VVec(vec), rem)));
  }

  function PrependItems(vec: seq<Value>, r: Decoded<seq<Value>>): Decoded<seq<Value>> {
    match r
    case Ok((items, rest)) => Ok((vec + items, rest))
    case Err(e) => Err(e)
  }

  lemma PrependNothing(r: Decoded<seq<Value>>)
    ensures PrependItems([], r) == r
  {
    if r.Ok? {
      assert [] + r.value.0 == r.value.0;
    }
  }

  lemma PrependStep(vec: seq<Value>, item: Value, r: Decoded<seq<Value>>)
    ensures PrependItems(vec + [item], r) == PrependItems(vec, PrependItems([item], r))
  {
    if r.Ok? {
      assert vec + [item] + r.value.0 == vec + ([item] + r.value.0);
    }
  }
}
