/**
 Descriptor templates (apps/bitcoin/bip388/src/lib.rs), the patterns of apps/bitcoin/bip388/build.rs, and
 what it means that a pattern matches a descriptor.
 */
module DescriptorPatterns {
  import opened MachineInts

  // ---------------------------------------------------------------------------------------
  // Descriptors
  // ---------------------------------------------------------------------------------------

  datatype KeyType = PlainKey(index: u32) | Musig(indices: seq<u32>)

  datatype Key = Key(keyType: KeyType, num1: u32, num2: u32) {
    predicate IsPlain() {
      keyType.PlainKey?
    }

    predicate IsMusig() {
      keyType.Musig?
    }
  }

  datatype Variant =
    | Sh | Wsh | Pkh | Wpkh | Sortedmulti | SortedmultiA | Tr | Zero | One | Pk | PkK | PkH | Older | After
    | Sha256 | Ripemd160 | Hash256 | Hash160 | Andor | AndV | AndB | AndN | OrB | OrC | OrD | OrI
    | Thresh | Multi | MultiA | A | S | C | T | D | V | J | N | L | U

  datatype Timelock = Relative(n: u32) | Absolute(n: u32)

  datatype TapTree = Script(descriptor: Descriptor) | Fork(left: TapTree, right: TapTree)

  /** A `DescriptorTemplate`: the variant and the values it holds. */
  datatype Descriptor = Node(variant: Variant, fields: seq<Value>)

  /** What descriptors hold and what patterns capture. */
  datatype Value =
    | KeyV(key: Key) | NumV(num: u32) | KeysV(keys: seq<Key>) | NodeV(node: Descriptor) | TimeV(lock: Timelock)
    | NodesV(nodes: seq<Descriptor>) | TreeV(tree: Option<TapTree>) | HashV(hash: bytes)

  datatype ArgKind = KeyArg | NumArg | KeyListArg | SubArg | TreeArg

  /** `variant_arg_kinds` */
  function ArgKinds(v: Variant): seq<ArgKind> {
    match v
    case Pk | PkK | PkH | Pkh | Wpkh => [KeyArg]
    case Older | After => [NumArg]
    case Multi | MultiA | Sortedmulti | SortedmultiA => [NumArg, KeyListArg]
    case Tr => [KeyArg, TreeArg]
    case AndV | AndB | AndN | OrB | OrC | OrD | OrI => [SubArg, SubArg]
    case Andor => [SubArg, SubArg, SubArg]
    case Sh | Wsh | A | S | C | T | D | V | J | N | L | U => [SubArg]
    case Zero | One | Sha256 | Ripemd160 | Hash256 | Hash160 | Thresh => []
  }

  predicate IsWrapper(v: Variant) {
    v.A? || v.S? || v.C? || v.T? || v.D? || v.V? || v.J? || v.N? || v.L? || v.U?
  }

  /** The descriptor is a value of the type `DescriptorTemplate`. */
  predicate Typed(d: Descriptor)
    decreases d, 0
  {
    match d.variant
    case Zero | One => d.fields == []
    case Sha256 | Ripemd160 | Hash256 | Hash160 => |d.fields| == 1 && d.fields[0].HashV?
    case Thresh => |d.fields| == 2 && d.fields[0].NumV? && d.fields[1].NodesV?
    case _ => FieldsTyped(d.fields, ArgKinds(d.variant))
  }

  predicate FieldsTyped(fields: seq<Value>, kinds: seq<ArgKind>)
    decreases fields, 0
  {
    && |fields| == |kinds|
    && (fields == [] || (ValueTyped(fields[0], kinds[0]) && FieldsTyped(fields[1..], kinds[1..])))
  }

  predicate ValueTyped(v: Value, kind: ArgKind)
    decreases v, 0
  {
    match kind
    case KeyArg => v.KeyV?
    case NumArg => v.NumV?
    case KeyListArg => v.KeysV?
    case SubArg => v.NodeV? && Typed(v.node)
    case TreeArg => v.TreeV?
  }

  // ---------------------------------------------------------------------------------------
  // Patterns
  // ---------------------------------------------------------------------------------------

  /** The kinds of bindings, without `$leaves` and `$sub`. */
  datatype BindingKind = KeyBinding | KeyListBinding | ThresholdBinding | TimelockBinding

  /** A pattern, with its keyword already looked up. */
  datatype Pattern = Pattern(variant: Variant, args: seq<Arg>)

  datatype Arg =
    | Binding(name: string, kind: BindingKind)
    | MusigOf(threshold: string, keys: string)
    | Sub(wrappers: seq<Variant>, inner: Pattern)

  /** What the parser of patterns and the types of the generated code accept. */
  predicate WellFormed(p: Pattern)
    decreases p, 0
  {
    p.args != [] && ArgsWellFormed(p.args, ArgKinds(p.variant))
  }

  predicate ArgsWellFormed(args: seq<Arg>, kinds: seq<ArgKind>)
    decreases args, 0
  {
    && |args| == |kinds|
    && (args == [] || (ArgWellFormed(args[0], kinds[0]) && ArgsWellFormed(args[1..], kinds[1..])))
  }

  /** `check_kind_matches`; musig only for a key, nested patterns only for descriptors. */
  predicate ArgWellFormed(arg: Arg, kind: ArgKind)
    decreases arg, 0
  {
    match arg
    case Binding(_, KeyBinding) => kind == KeyArg
    case Binding(_, KeyListBinding) => kind == KeyListArg
    case Binding(_, ThresholdBinding) => kind == NumArg
    case Binding(_, TimelockBinding) => kind == SubArg
    case MusigOf(_, _) => kind == KeyArg
    case Sub(wrappers, inner) =>
      kind == SubArg && (forall w :: w in wrappers ==> IsWrapper(w)) && WellFormed(inner)
  }

  /** The names that a pattern binds: `pattern_bindings`. */
  function Names(p: Pattern): set<string>
    decreases p, 0
  {
    ArgsNames(p.args)
  }

  function ArgsNames(args: seq<Arg>): set<string>
    decreases args, 0
  {
    if args == [] then {} else ArgNames(args[0]) + ArgsNames(args[1..])
  }

  function ArgNames(arg: Arg): set<string>
    decreases arg, 0
  {
    match arg
    case Binding(name, _) => {name}
    case MusigOf(threshold, keys) => {threshold, keys}
    case Sub(_, inner) => Names(inner)
  }

  /** No name is bound twice. */
  predicate Distinct(p: Pattern)
    decreases p, 0
  {
    ArgsDistinct(p.args)
  }

  predicate ArgsDistinct(args: seq<Arg>)
    decreases args, 0
  {
    args == [] || (ArgDistinct(args[0]) && ArgNames(args[0]) !! ArgsNames(args[1..]) && ArgsDistinct(args[1..]))
  }

  predicate ArgDistinct(arg: Arg)
    decreases arg, 0
  {
    match arg
    case Binding(_, _) => true
    case MusigOf(threshold, keys) => threshold != keys
    case Sub(_, inner) => Distinct(inner)
  }

  // ---------------------------------------------------------------------------------------
  // Matching
  // ---------------------------------------------------------------------------------------

  type Captures = map<string, Value>

  const SEQUENCE_LOCKTIME_TYPE_FLAG: int := 0x40_0000
  const RELATIVE_LOCK_LIMIT: int := 0x1_0000

  /** `is_valid_relative_locktime` */
  predicate IsValidRelativeLocktime(n: u32) {
    || 1 <= n < RELATIVE_LOCK_LIMIT
    || SEQUENCE_LOCKTIME_TYPE_FLAG + 1 <= n < SEQUENCE_LOCKTIME_TYPE_FLAG + RELATIVE_LOCK_LIMIT
  }

  /** BIP 68: apart from the flag in bit 22 only the low sixteen bits may be set, and at least one of them is. */
  lemma RelativeLocktimeBits(n: u32)
    ensures IsValidRelativeLocktime(n) <==> n % 0x1_0000 != 0 && (n / 0x1_0000 == 0 || n / 0x1_0000 == 0x40)
  {
  }

  /** `is_valid_absolute_locktime` */
  predicate IsValidAbsoluteLocktime(n: u32) {
    n >= 1
  }

  /** The timelock that a descriptor node is, if it is one. */
  function TimelockIn(d: Descriptor): Option<Timelock> {
    if |d.fields| != 1 || !d.fields[0].NumV? then None
    else if d.variant.Older? && IsValidRelativeLocktime(d.fields[0].num) then Some(Relative(d.fields[0].num))
    else if d.variant.After? && IsValidAbsoluteLocktime(d.fields[0].num) then Some(Absolute(d.fields[0].num))
    else None
  }

  /** `older` and `after` with one number, in the ranges that BIP 68 and BIP 65 give a meaning, and nothing else. */
  lemma TimelockExactly(d: Descriptor, n: u32)
    ensures TimelockIn(d) == Some(Relative(n))
            <==> d.variant.Older? && d.fields == [NumV(n)] && n % 0x1_0000 != 0 && (n / 0x1_0000 == 0 || n / 0x1_0000 == 0x40)
    ensures TimelockIn(d) == Some(Absolute(n)) <==> d.variant.After? && d.fields == [NumV(n)] && n != 0
  {
    RelativeLocktimeBits(n);
  }

  /** The keys of an aggregate, each with the derivation pair of the aggregate. */
  function KeysOfMusig(k: Key): seq<Key>
    requires k.IsMusig()
  {
    seq(|k.keyType.indices|, i requires 0 <= i < |k.keyType.indices| =>
      Key(PlainKey(k.keyType.indices[i]), k.num1, k.num2))
  }

  predicate AllPlain(keys: seq<Key>) {
    forall i :: 0 <= i < |keys| ==> keys[i].IsPlain()
  }

  /** How the number of keys is held. */
  function Count(keys: seq<Key>): u32 {
    |keys| % TWO_32
  }

  /** What a pattern captures from a descriptor, if it matches. */
  function MatchPattern(p: Pattern, d: Descriptor): Option<Captures>
    decreases p, 0
  {
    if d.variant == p.variant then MatchArgs(p.args, d.fields) else None
  }

  function MatchArgs(args: seq<Arg>, fields: seq<Value>): Option<Captures>
    decreases args, 0
  {
    if |args| != |fields| then None
    else if args == [] then Some(map[])
    else
      var (first, rest) := (MatchArg(args[0], fields[0]), MatchArgs(args[1..], fields[1..]));
      if first.Some? && rest.Some? then Some(first.value + rest.value) else None
  }

  function MatchArg(arg: Arg, v: Value): Option<Captures>
    decreases arg, 0
  {
    match arg
    case Binding(name, KeyBinding) => if v.KeyV? && v.key.IsPlain() then Some(map[name := v]) else None
    case Binding(name, KeyListBinding) => if v.KeysV? && AllPlain(v.keys) then Some(map[name := v]) else None
    case Binding(name, ThresholdBinding) => if v.NumV? then Some(map[name := v]) else None
    case Binding(name, TimelockBinding) =>
      if v.NodeV? && TimelockIn(v.node).Some? then Some(map[name := TimeV(TimelockIn(v.node).value)]) else None
    case MusigOf(threshold, keys) =>
      if v.KeyV? && v.key.IsMusig() then
        Some(map[threshold := NumV(Count(KeysOfMusig(v.key))), keys := KeysV(KeysOfMusig(v.key))])
      else None
    case Sub(wrappers, inner) =>
      var d := Unwrapped(wrappers, v);
      if d.Some? && d.value.NodeV? then MatchPattern(inner, d.value.node) else None
  }

  /** What is left of a descriptor below its wrappers, if they are the given ones. */
  function Unwrapped(wrappers: seq<Variant>, v: Value): Option<Value> {
    if wrappers == [] then Some(v)
    else if v.NodeV? && v.node.variant == wrappers[0] && |v.node.fields| == 1 then
      Unwrapped(wrappers[1..], v.node.fields[0])
    else None
  }

  lemma MatchNames(p: Pattern, d: Descriptor)
    ensures MatchPattern(p, d).Some? ==> MatchPattern(p, d).value.Keys == Names(p)
    decreases p, 0
  {
    MatchArgsNames(p.args, d.fields);
  }

  lemma MatchArgsNames(args: seq<Arg>, fields: seq<Value>)
    ensures MatchArgs(args, fields).Some? ==> MatchArgs(args, fields).value.Keys == ArgsNames(args)
    decreases args, 0
  {
    if |args| == |fields| && args != [] {
      MatchArgNames(args[0], fields[0]);
      MatchArgsNames(args[1..], fields[1..]);
    }
  }

  lemma MatchArgNames(arg: Arg, v: Value)
    ensures MatchArg(arg, v).Some? ==> MatchArg(arg, v).value.Keys == ArgNames(arg)
    decreases arg, 0
  {
    if arg.Sub? && Unwrapped(arg.wrappers, v).Some? && Unwrapped(arg.wrappers, v).value.NodeV? {
      MatchNames(arg.inner, Unwrapped(arg.wrappers, v).value.node);
    }
  }
}
