/**
 The serializer of common/src/ux/codec.rs, with the structs and enums that
 macros/src/derive_serializable.rs derives, over any schema: one encoder, one decoder.
 */
module Codec {
  import opened MachineInts
  import opened BigEndian

  /** The types that can be serialized. */
  datatype Schema =
    | SBool | SU8 | SU16 | SU32 | SString
    | SOption(elem: Schema)
    | SVec(elem: Schema)
    | SStruct(fields: seq<Schema>)
    | SEnum(variants: seq<Variant>)

  datatype Variant = Variant(fields: seq<Schema>)

  datatype Value =
    | VBool(flag: bool)
    | VNum(n: nat)
    | VString(utf8: bytes)
    | VNone
    | VSome(value: Value)
    | VVec(items: seq<Value>)
    | VStruct(fields: seq<Value>)
    | VEnum(tag: nat, fields: seq<Value>)

  // ---------------------------------------------------------------------------------------
  // UTF-8, section 4 of RFC 3629
  // ---------------------------------------------------------------------------------------

  predicate IsTail(b: u8) {
    0x80 <= b <= 0xBF
  }

  /** The length of the character that starts `s`, or 0. */
  function Utf8Char(s: bytes): (n: nat)
    ensures n <= |s|
  {
    if |s| >= 1 && s[0] <= 0x7F then 1
    else if |s| >= 2 && 0xC2 <= s[0] <= 0xDF && IsTail(s[1]) then 2
    else if |s| >= 3 && IsTail(s[2])
            && ((s[0] == 0xE0 && 0xA0 <= s[1] <= 0xBF) || (0xE1 <= s[0] <= 0xEC && IsTail(s[1]))
                || (s[0] == 0xED && 0x80 <= s[1] <= 0x9F) || (0xEE <= s[0] <= 0xEF && IsTail(s[1]))) then 3
    else if |s| >= 4 && IsTail(s[2]) && IsTail(s[3])
            && ((s[0] == 0xF0 && 0x90 <= s[1] <= 0xBF) || (0xF1 <= s[0] <= 0xF3 && IsTail(s[1]))
                || (s[0] == 0xF4 && 0x80 <= s[1] <= 0x8F)) then 4
    else 0
  }

  predicate ValidUtf8(s: bytes)
    decreases |s|
  {
    s == [] || (Utf8Char(s) > 0 && ValidUtf8(s[Utf8Char(s)..]))
  }

  // ---------------------------------------------------------------------------------------
  // Values of a schema
  // ---------------------------------------------------------------------------------------

  /** `v` is a value of the type `s`, with lengths that the format can express. */
  ghost predicate HasType(s: Schema, v: Value)
    decreases s, 0, 0
  {
    match s
    case SBool => v.VBool?
    case SU8 => v.VNum? && v.n < TWO_8
    case SU16 => v.VNum? && v.n < TWO_16
    case SU32 => v.VNum? && v.n < TWO_32
    case SString => v.VString? && |v.utf8| < TWO_16 && ValidUtf8(v.utf8)
    case SOption(elem) => v.VNone? || (v.VSome? && HasType(elem, v.value))
    case SVec(elem) => v.VVec? && |v.items| < TWO_32 && ItemsHaveType(elem, v.items)
    case SStruct(fields) => v.VStruct? && FieldsHaveType(fields, v.fields)
    case SEnum(variants) => v.VEnum? && v.tag < |variants| && FieldsHaveType(variants[v.tag].fields, v.fields)
  }

  ghost predicate ItemsHaveType(elem: Schema, items: seq<Value>)
    decreases elem, 1, |items|
  {
    items == [] || (HasType(elem, items[0]) && ItemsHaveType(elem, items[1..]))
  }

  ghost predicate FieldsHaveType(fields: seq<Schema>, values: seq<Value>)
    decreases fields, 0, 0
  {
    && |fields| == |values|
    && (fields == [] || (HasType(fields[0], values[0]) && FieldsHaveType(fields[1..], values[1..])))
  }

  /** Every enum in the schema has at most 256 variants, so that a tag fits in a byte. */
  ghost predicate SmallEnums(s: Schema)
    decreases s, 0, 0
  {
    match s
    case SOption(elem) => SmallEnums(elem)
    case SVec(elem) => SmallEnums(elem)
    case SStruct(fields) => SmallEnumsIn(fields)
    case SEnum(variants) =>
      |variants| <= 256 && forall i :: 0 <= i < |variants| ==> SmallEnumsIn(variants[i].fields)
    case _ => true
  }

  ghost predicate SmallEnumsIn(fields: seq<Schema>)
    decreases fields, 0, 0
  {
    fields == [] || (SmallEnums(fields[0]) && SmallEnumsIn(fields[1..]))
  }

  // ---------------------------------------------------------------------------------------
  // Encoding
  // ---------------------------------------------------------------------------------------

  /** The bytes that `serialize` writes. A tag is the position of the variant, cast to `u8`. */
  function Encode(s: Schema, v: Value): (e: bytes)
    requires HasType(s, v)
    decreases s, 0, 0
  {
    match s
    case SBool => [if v.flag then 1 else 0]
    case SU8 => ToBE(v.n, 1)
    case SU16 => ToBE(v.n, 2)
    case SU32 => ToBE(v.n, 4)
    case SString => ToBE(|v.utf8|, 2) + v.utf8
    case SOption(elem) => if v.VSome? then [1] + Encode(elem, v.value) else [0]
    case SVec(elem) => ToBE(|v.items|, 4) + EncodeItems(elem, v.items)
    case SStruct(fields) => EncodeFields(fields, v.fields)
    case SEnum(variants) => [v.tag % 256] + EncodeFields(variants[v.tag].fields, v.fields)
  }

  function EncodeItems(elem: Schema, items: seq<Value>): (e: bytes)
    requires ItemsHaveType(elem, items)
    decreases elem, 1, |items|
  {
    if items == [] then [] else Encode(elem, items[0]) + EncodeItems(elem, items[1..])
  }

  function EncodeFields(fields: seq<Schema>, values: seq<Value>): (e: bytes)
    requires FieldsHaveType(fields, values)
    decreases fields, 0, 0
  {
    if fields == [] then [] else Encode(fields[0], values[0]) + EncodeFields(fields[1..], values[1..])
  }

  /** `get_serialized_length`. */
  function Length(s: Schema, v: Value): nat
    requires HasType(s, v)
    decreases s, 0, 0
  {
    match s
    case SBool => 1
    case SU8 => 1
    case SU16 => 2
    case SU32 => 4
    case SString => 2 + |v.utf8|
    case SOption(elem) => 1 + if v.VSome? then Length(elem, v.value) else 0
    case SVec(elem) => 4 + LengthOfItems(elem, v.items)
    case SStruct(fields) => LengthOfFields(fields, v.fields)
    case SEnum(variants) => 1 + LengthOfFields(variants[v.tag].fields, v.fields)
  }

  function LengthOfItems(elem: Schema, items: seq<Value>): nat
    requires ItemsHaveType(elem, items)
    decreases elem, 1, |items|
  {
    if items == [] then 0 else Length(elem, items[0]) + LengthOfItems(elem, items[1..])
  }

  function LengthOfFields(fields: seq<Schema>, values: seq<Value>): nat
    requires FieldsHaveType(fields, values)
    decreases fields, 0, 0
  {
    if fields == [] then 0 else Length(fields[0], values[0]) + LengthOfFields(fields[1..], values[1..])
  }

  // ---------------------------------------------------------------------------------------
  // Decoding
  // ---------------------------------------------------------------------------------------

  datatype DecodeError = SliceTooShort | InvalidBoolean | InvalidUtf8 | InvalidOptionTag | UnknownTag

  type Decoded<T> = Result<(T, bytes), DecodeError>

  /** The number in the first `width` bytes. */
  function DecodeNum(width: nat, slice: bytes): Decoded<nat> {
    if |slice| < width then Err(SliceTooShort) else Ok((FromBE(slice[..width]), slice[width..]))
  }

  /** `deserialize`: the value and the rest. */
  function Decode(s: Schema, slice: bytes): (r: Decoded<Value>)
    decreases s, 0, 0
  {
    match s
    case SBool =>
      if slice == [] then Err(SliceTooShort)
      else if slice[0] == 0 then Ok((VBool(false), slice[1..]))
      else if slice[0] == 1 then Ok((VBool(true), slice[1..]))
      else Err(InvalidBoolean)
    case SU8 => AsNum(DecodeNum(1, slice))
    case SU16 => AsNum(DecodeNum(2, slice))
    case SU32 => AsNum(DecodeNum(4, slice))
    case SString =>
      (match DecodeNum(2, slice)
       case Err(e) => Err(e)
       case Ok((len, rest)) =>
         if |rest| < len then Err(SliceTooShort)
         else if !ValidUtf8(rest[..len]) then Err(InvalidUtf8)
         else Ok((VString(rest[..len]), rest[len..])))
    case SOption(elem) =>
      if slice == [] then Err(SliceTooShort)
      else if slice[0] == 0 then Ok((VNone, slice[1..]))
      else if slice[0] == 1 then
        (match Decode(elem, slice[1..])
         case Err(e) => Err(e)
         case Ok((v, rest)) => Ok((VSome(v), rest)))
      else Err(InvalidOptionTag)
    case SVec(elem) =>
      (match DecodeNum(4, slice)
       case Err(e) => Err(e)
       case Ok((len, rest)) =>
         match DecodeItems(elem, len, rest)
         case Err(e) => Err(e)
         case Ok((items, rest')) => Ok((VVec(items), rest')))
    case SStruct(fields) =>
      (match DecodeFields(fields, slice)
       case Err(e) => Err(e)
       case Ok((values, rest)) => Ok((VStruct(values), rest)))
    case SEnum(variants) =>
      // the arms are tried in order, so the first one for a byte is the variant at that position
      if slice == [] then Err(SliceTooShort)
      else if slice[0] >= |variants| then Err(UnknownTag)
      else
        (match DecodeFields(variants[slice[0]].fields, slice[1..])
         case Err(e) => Err(e)
         case Ok((values, rest)) => Ok((VEnum(slice[0], values), rest)))
  }

  function AsNum(r: Decoded<nat>): Decoded<Value> {
    match r
    case Err(e) => Err(e)
    case Ok((n, rest)) => Ok((VNum(n), rest))
  }

  function DecodeItems(elem: Schema, len: nat, slice: bytes): (r: Decoded<seq<Value>>)
    ensures r.Ok? ==> |r.value.0| == len
    decreases elem, 1, len
  {
    if len == 0 then Ok(([], slice))
    else
      match Decode(elem, slice)
      case Err(e) => Err(e)
      case Ok((item, rest)) =>
        match DecodeItems(elem, len - 1, rest)
        case Err(e) => Err(e)
        case Ok((items, rest')) => Ok(([item] + items, rest'))
  }

  function DecodeFields(fields: seq<Schema>, slice: bytes): (r: Decoded<seq<Value>>)
    decreases fields, 0, 0
  {
    if fields == [] then Ok(([], slice))
    else
      match Decode(fields[0], slice)
      case Err(e) => Err(e)
      case Ok((value, rest)) =>
        match DecodeFields(fields[1..], rest)
        case Err(e) => Err(e)
        case Ok((values, rest')) => Ok(([value] + values, rest'))
  }

  /** `deserialize_full`: nothing may remain. `None` stands for either error. */
  function DecodeFull(s: Schema, slice: bytes): Option<Value> {
    match Decode(s, slice)
    case Ok((v, rest)) => if rest == [] then Some(v) else None
    case Err(_) => None
  }
}
