/**
 Wrapped serialization: an object of which some parts are known when the program is built and others
 only at run time is serialized in parts (common/src/ux/codec.rs, macros/src/derive_serializable.rs),
 and app-sdk/build_utils/mod.rs merges the parts and makes a function that fills them in.
 */
module Staged {
  import opened MachineInts
  import opened BigEndian
  import opened Buffers
  import opened Codec
  import opened CodecProofs
  import opened Serializer

  /** An object with runtime arguments in the place of some of its parts. */
  datatype Wrapped =
    | Const(value: Value) // `MaybeConst::Const`
    | Runtime(argName: string, argType: string) // `MaybeConst::Runtime`, `MaybeConstStr::Runtime`
    | ConstStr(utf8: bytes) // `MaybeConstStr::Const`
    | WNone
    | WSome(inner: Wrapped)
    | WStruct(fields: seq<Wrapped>)
    | WEnum(tag: nat, fields: seq<Wrapped>)

  datatype Part = Static(bytes: bytes) | RuntimePart(argName: string, argType: string)

  /** A runtime argument: a value and its type. */
  datatype Argument = Argument(schema: Schema, value: Value)

  type Arguments = map<string, Argument>

  /**
   `w` is a wrapped object of type `s`, its constants are values, and every runtime argument in it is
   given a value of the right type.
   */
  ghost predicate Fitting(s: Schema, w: Wrapped, args: Arguments)
    decreases s, 0, 0
  {
    match w
    case Const(value) => HasType(s, value)
    case Runtime(name, _) => name in args && args[name].schema == s && HasType(s, args[name].value)
    case ConstStr(utf8) => s.SString? && HasType(SString, VString(utf8))
    case WNone => s.SOption?
    case WSome(inner) => s.SOption? && Fitting(s.elem, inner, args)
    case WStruct(fields) => s.SStruct? && FieldsFitting(s.fields, fields, args)
    case WEnum(tag, fields) => s.SEnum? && tag < |s.variants| && FieldsFitting(s.variants[tag].fields, fields, args)
  }

  ghost predicate FieldsFitting(schemas: seq<Schema>, fields: seq<Wrapped>, args: Arguments)
    decreases schemas, 0, 0
  {
    && |schemas| == |fields|
    && (schemas == [] || (Fitting(schemas[0], fields[0], args) && FieldsFitting(schemas[1..], fields[1..], args)))
  }

  /** The plain object: runtime arguments are replaced by their values. */
  ghost function Plain(s: Schema, w: Wrapped, args: Arguments): (v: Value)
    requires Fitting(s, w, args)
    ensures HasType(s, v)
    decreases s, 0, 0
  {
    match w
    case Const(value) => value
    case Runtime(name, _) => args[name].value
    case ConstStr(utf8) => VString(utf8)
    case WNone => VNone
    case WSome(inner) => VSome(Plain(s.elem, inner, args))
    case WStruct(fields) => VStruct(PlainFields(s.fields, fields, args))
    case WEnum(tag, fields) => VEnum(tag, PlainFields(s.variants[tag].fields, fields, args))
  }

  ghost function PlainFields(schemas: seq<Schema>, fields: seq<Wrapped>, args: Arguments): (vs: seq<Value>)
    requires FieldsFitting(schemas, fields, args)
    ensures FieldsHaveType(schemas, vs)
    decreases schemas, 0, 0
  {
    if schemas == [] then []
    else
      var (first, rest) := (Plain(schemas[0], fields[0], args), PlainFields(schemas[1..], fields[1..], args));
      assert ([first] + rest)[1..] == rest;
      [first] + rest
  }

  // ---------------------------------------------------------------------------------------
  // Parts
  // ---------------------------------------------------------------------------------------

  /** `serialize_wrapped`. The length of a constant string is cast to `u16`. */
  function SerializeWrapped(s: Schema, w: Wrapped, ghost args: Arguments): (parts: seq<Part>)
    requires Fitting(s, w, args)
    decreases s, 0, 0
  {
    match w
    case Const(value) => [Static(Encode(s, value))]
    case Runtime(name, argType) => [RuntimePart(name, argType)]
    case ConstStr(utf8) => [Static(ConstStrBytes(utf8))]
    case WNone => [Static([0])]
    case WSome(inner) => [Static([1])] + SerializeWrapped(s.elem, inner, args)
    case WStruct(fields) => SerializeWrappedFields(s.fields, fields, args)
    case WEnum(tag, fields) => [Static([tag % 256])] + SerializeWrappedFields(s.variants[tag].fields, fields, args)
  }

  function SerializeWrappedFields(schemas: seq<Schema>, fields: seq<Wrapped>, ghost args: Arguments): (parts: seq<Part>)
    requires FieldsFitting(schemas, fields, args)
    decreases schemas, 0, 0
  {
    if schemas == [] then []
    else SerializeWrapped(schemas[0], fields[0], args) + SerializeWrappedFields(schemas[1..], fields[1..], args)
  }

  function ConstStrBytes(utf8: bytes): bytes {
    ToBE(|utf8| % TWO_16, 2) + utf8
  }

  /** All runtime arguments of the parts have values. */
  ghost predicate Filled(parts: seq<Part>, args: Arguments) {
    forall i :: 0 <= i < |parts| && parts[i].RuntimePart? ==> ArgumentOk(parts[i].argName, args)
  }

  ghost predicate ArgumentOk(name: string, args: Arguments) {
    name in args && HasType(args[name].schema, args[name].value)
  }

  function FillPart(part: Part, args: Arguments): bytes
    requires part.RuntimePart? ==> ArgumentOk(part.argName, args)
  {
    match part
    case Static(data) => data
    case RuntimePart(name, _) => Encode(args[name].schema, args[name].value)
  }

  /** The bytes of the parts, with the runtime arguments filled in. */
  function Fill(parts: seq<Part>, args: Arguments): bytes
    requires Filled(parts, args)
  {
    if parts == [] then [] else FillPart(parts[0], args) + Fill(parts[1..], args)
  }

  lemma {:induction false} FillConcat(a: seq<Part>, b: seq<Part>, args: Arguments)
    requires Filled(a, args) && Filled(b, args)
    ensures Filled(a + b, args) && Fill(a + b, args) == Fill(a, args) + Fill(b, args)
  {
    if a == [] {
      assert a + b == b;
    } else {
      assert (a + b)[1..] == a[1..] + b;
      FillConcat(a[1..], b, args);
    }
  }

  lemma FillOne(part: Part, args: Arguments)
    requires part.RuntimePart? ==> ArgumentOk(part.argName, args)
    ensures Filled([part], args) && Fill([part], args) == FillPart(part, args)
  {
    assert [part][1..] == [];
  }

  lemma FillAfterTag(tag: u8, parts: seq<Part>, args: Arguments)
    requires Filled(parts, args)
    ensures Filled([Static([tag])] + parts, args)
    ensures Fill([Static([tag])] + parts, args) == [tag] + Fill(parts, args)
  {
    FillOne(Static([tag]), args);
    FillConcat([Static([tag])], parts, args);
  }

  /**
   Staging is correct: the parts of a wrapped object, filled in, are the encoding of the plain object.
   */
  lemma {:induction false} PartsOfWrapped(s: Schema, w: Wrapped, args: Arguments)
    requires Fitting(s, w, args)
    ensures Filled(SerializeWrapped(s, w, args), args)
    ensures Fill(SerializeWrapped(s, w, args), args) == Encode(s, Plain(s, w, args))
    decreases s, 0, 0
  {
    match w
    case Const(value) => FillOne(Static(Encode(s, value)), args);
    case Runtime(name, argType) => FillOne(RuntimePart(name, argType), args);
    case ConstStr(utf8) => FillOne(Static(ConstStrBytes(utf8)), args);
    case WNone => FillOne(Static([0]), args);
    case WSome(inner) =>
      PartsOfWrapped(s.elem, inner, args);
      FillAfterTag(1, SerializeWrapped(s.elem, inner, args), args);
    case WStruct(fields) => PartsOfFields(s.fields, fields, args);
    case WEnum(tag, fields) =>
      PartsOfFields(s.variants[tag].fields, fields, args);
      FillAfterTag(tag % 256, SerializeWrappedFields(s.variants[tag].fields, fields, args), args);
  }

  lemma {:induction false} PartsOfFields(schemas: seq<Schema>, fields: seq<Wrapped>, args: Arguments)
    requires FieldsFitting(schemas, fields, args)
    ensures Filled(SerializeWrappedFields(schemas, fields, args), args)
    ensures Fill(SerializeWrappedFields(schemas, fields, args), args)
         == EncodeFields(schemas, PlainFields(schemas, fields, args))
    decreases schemas, 0, 0
  {
    if schemas != [] {
      PartsOfWrapped(schemas[0], fields[0], args);
      PartsOfFields(schemas[1..], fields[1..], args);
      FillConcat(SerializeWrapped(schemas[0], fields[0], args),
                 SerializeWrappedFields(schemas[1..], fields[1..], args), args);
      var vs := PlainFields(schemas, fields, args);
      assert vs[1..] == PlainFields(schemas[1..], fields[1..], args);
    }
  }

  /**
   A constant string is cut down to a 16-bit length without a panic, unlike a plain string: its bytes
   are read back as the same string if and only if it is shorter than 2^16 bytes.
   */
  lemma ConstStrLimit(utf8: bytes)
    requires ValidUtf8(utf8)
    ensures DecodeFull(SString, ConstStrBytes(utf8)) == Some(VString(utf8)) <==> |utf8| < TWO_16
  {
    var v := VString(utf8);
    assert HasType(SString, v) <==> |utf8| < TWO_16;
    DecodeFullInvertsEncode(SString, ConstStrBytes(utf8), v);
    if |utf8| < TWO_16 {
      ConstStrIsEncoded(utf8);
    }
  }

  lemma ConstStrIsEncoded(utf8: bytes)
    requires HasType(SString, VString(utf8))
    ensures ConstStrBytes(utf8) == Encode(SString, VString(utf8))
  {
    assert |utf8| % TWO_16 == |utf8|;
  }

  // ---------------------------------------------------------------------------------------
  // Merging
  // ---------------------------------------------------------------------------------------

  ghost predicate NoAdjacentStatics(parts: seq<Part>) {
    forall i :: 0 <= i < |parts| - 1 ==> !(parts[i].Static? && parts[i + 1].Static?)
  }

  /** The runtime parts, in order: the arguments of the function that is made. */
  function RuntimeParts(parts: seq<Part>): seq<Part> {
    if parts == [] then []
    else RuntimeParts(parts[..|parts| - 1]) + if parts[|parts| - 1].RuntimePart? then [parts[|parts| - 1]] else []
  }

  /**
   `merge_static_parts`: no two adjacent static parts remain, the runtime parts are the same, and
   nothing changes in the bytes, whatever the arguments are.
   */
  method MergeStaticParts(parts: seq<Part>) returns (result: seq<Part>)
    ensures NoAdjacentStatics(result) && RuntimeParts(result) == RuntimeParts(parts)
    ensures forall args :: Filled(parts, args) ==> Filled(result, args) && Fill(result, args) == Fill(parts, args)
  {
    result := [];
    assert parts[..0] == [];
    for i := 0 to |parts|
      invariant NoAdjacentStatics(result) && RuntimeParts(result) == RuntimeParts(parts[..i])
      invariant forall args :: Filled(parts[..i], args) ==>
                  Filled(result, args) && Fill(result, args) == Fill(parts[..i], args)
    {
      ghost var before := result;
      match parts[i] {
        case Static(vec) =>
          if |result| > 0 && result[|result| - 1].Static? {
            result := result[|result| - 1 := Static(result[|result| - 1].bytes + vec)];
          } else {
            result := result + [Static(vec)];
          }
        case RuntimePart(argName, argType) =>
          result := result + [RuntimePart(argName, argType)];
      }
      MergeStep(parts, i, before, result);
    }
    assert parts[..|parts|] == parts;
  }

  /** `after` is `before` with one more part: pushed, or added to the static part at the end. */
  ghost predicate Extends(before: seq<Part>, part: Part, after: seq<Part>) {
    || (after == before + [part] && (before == [] || part.RuntimePart? || before[|before| - 1].RuntimePart?))
    || (&& before != [] && before[|before| - 1].Static? && part.Static?
        && after == before[..|before| - 1] + [Static(before[|before| - 1].bytes + part.bytes)])
  }

  lemma MergeStep(parts: seq<Part>, i: nat, before: seq<Part>, after: seq<Part>)
    requires i < |parts| && Extends(before, parts[i], after)
    requires NoAdjacentStatics(before) && RuntimeParts(before) == RuntimeParts(parts[..i])
    requires forall args :: Filled(parts[..i], args) ==>
               Filled(before, args) && Fill(before, args) == Fill(parts[..i], args)
    ensures NoAdjacentStatics(after) && RuntimeParts(after) == RuntimeParts(parts[..i + 1])
    ensures forall args :: Filled(parts[..i + 1], args) ==>
              Filled(after, args) && Fill(after, args) == Fill(parts[..i + 1], args)
  {
    assert parts[..i + 1] == parts[..i] + [parts[i]] && parts[..i + 1][..i] == parts[..i];
    ExtendsRuntimeParts(before, parts[i], after);
    forall args | Filled(parts[..i + 1], args)
      ensures Filled(after, args) && Fill(after, args) == Fill(parts[..i + 1], args)
    {
      FilledFront(parts[..i], parts[i], args);
      FillOne(parts[i], args);
      FillConcat(parts[..i], [parts[i]], args);
      ExtendsFill(before, parts[i], after, args);
    }
  }

  lemma FilledFront(parts: seq<Part>, part: Part, args: Arguments)
    requires Filled(parts + [part], args)
    ensures Filled(parts, args) && (part.RuntimePart? ==> ArgumentOk(part.argName, args))
  {
    assert (parts + [part])[|parts|] == part;
    assert forall i :: 0 <= i < |parts| ==> (parts + [part])[i] == parts[i];
  }

  lemma ExtendsRuntimeParts(before: seq<Part>, part: Part, after: seq<Part>)
    requires Extends(before, part, after)
    ensures RuntimeParts(after) == RuntimeParts(before) + if part.RuntimePart? then [part] else []
  {
    if after == before + [part] {
      assert after[..|before|] == before;
    } else {
      assert after[..|before| - 1] == before[..|before| - 1];
      assert RuntimeParts(before) + [] == RuntimeParts(before);
    }
  }

  lemma ExtendsFill(before: seq<Part>, part: Part, after: seq<Part>, args: Arguments)
    requires Extends(before, part, after) && Filled(before, args)
    requires part.RuntimePart? ==> ArgumentOk(part.argName, args)
    ensures Filled(after, args) && Fill(after, args) == Fill(before, args) + FillPart(part, args)
  {
    if after == before + [part] {
      FillOne(part, args);
      FillConcat(before, [part], args);
    } else {
      ExtendedLast(before[..|before| - 1], before[|before| - 1].bytes, part.bytes, args, before, after);
    }
  }

  lemma ExtendedLast(front: seq<Part>, last: bytes, more: bytes, args: Arguments, before: seq<Part>, after: seq<Part>)
    requires before == front + [Static(last)] && after == front + [Static(last + more)] && Filled(before, args)
    ensures Filled(after, args) && Fill(after, args) == Fill(before, args) + more
  {
    FilledFront(front, Static(last), args);
    FillOne(Static(last), args);
    FillOne(Static(last + more), args);
    FillConcat(front, [Static(last)], args);
    FillConcat(front, [Static(last + more)], args);
    ConcatAssociative(Fill(front, args), last, more);
  }

  // ---------------------------------------------------------------------------------------
  // The function that is made
  // ---------------------------------------------------------------------------------------

  function PartLength(part: Part, args: Arguments): (n: nat)
    requires part.RuntimePart? ==> ArgumentOk(part.argName, args)
    ensures n == |FillPart(part, args)|
  {
    match part
    case Static(data) => |data|
    case RuntimePart(name, _) =>
      LengthIsExact(args[name].schema, args[name].value);
      Length(args[name].schema, args[name].value)
  }

  /** The first `i` parts are written: `done`, up to the cursor. */
  ghost predicate PartsWritten(parts: seq<Part>, args: Arguments, i: nat, before: bytes, done: bytes, now: bytes, cur: nat)
  {
    && i <= |parts| && Filled(parts, args)
    && done + Fill(parts[i..], args) == Fill(parts, args)
    && cur == |done| <= |before| && now == Overwrite(before, 0, done)
  }

  lemma NextPart(parts: seq<Part>, args: Arguments, i: nat, before: bytes, done: bytes, now: bytes, cur: nat)
    requires PartsWritten(parts, args, i, before, done, now, cur) && i < |parts| && |before| == |Fill(parts, args)|
    ensures var piece := FillPart(parts[i], args);
            && cur + |piece| <= |now| == |before|
            && PartsWritten(parts, args, i + 1, before, done + piece, Overwrite(now, cur, piece), cur + |piece|)
  {
    var (piece, rest) := (FillPart(parts[i], args), Fill(parts[i + 1..], args));
    assert parts[i..][0] == parts[i] && parts[i..][1..] == parts[i + 1..];
    Regroup(Fill(parts, args), done, piece + rest, piece, rest);
    OverwriteAppend(before, 0, done, piece);
  }

  /**
   What a generated `make_*` function does: it adds up the lengths of the parts, and then writes each
   part at the cursor into a vector of that length, which it fills completely.
   */
  method Make(parts: seq<Part>, args: Arguments) returns (serialized: bytes)
    requires Filled(parts, args)
    ensures serialized == Fill(parts, args)
  {
    var totalLen := 0;
    for i := 0 to |parts|
      invariant totalLen + |Fill(parts[i..], args)| == |Fill(parts, args)|
    {
      assert parts[i..][1..] == parts[i + 1..];
      totalLen := totalLen + PartLength(parts[i], args);
    }
    var slice := new u8[totalLen](_ => 0);
    var cur: nat := 0;
    ghost var before, done := slice[..], [];
    OverwriteNothing(before, 0);
    for i := 0 to |parts|
      invariant PartsWritten(parts, args, i, before, done, slice[..], cur)
    {
      NextPart(parts, args, i, before, done, slice[..], cur);
      done := done + FillPart(parts[i], args);
      match parts[i] {
        case Static(vec) => cur := WriteBytes(vec, slice, cur);
        case RuntimePart(name, _) => cur := Serialize(args[name].schema, args[name].value, slice, cur);
      }
    }
    assert done + [] == done;
    serialized := slice[..];
  }

  /**
   From a wrapped object to bytes, as the build script and the generated function do it together: the
   result is the plain object's encoding, which a decoder reads back as the plain object.
   */
  method MakeWrapped(s: Schema, w: Wrapped, args: Arguments) returns (serialized: bytes)
    requires Fitting(s, w, args)
    ensures serialized == Encode(s, Plain(s, w, args))
    ensures SmallEnums(s) ==> DecodeFull(s, serialized) == Some(Plain(s, w, args))
  {
    PartsOfWrapped(s, w, args);
    var parts := MergeStaticParts(SerializeWrapped(s, w, args));
    serialized := Make(parts, args);
    if SmallEnums(s) {
      DecodeFullInvertsEncode(s, serialized, Plain(s, w, args));
    }
  }
}
