/**
 Building descriptors back from captured fields (apps/bitcoin/bip388/build.rs, the second generator), and
 the round trips between matching and building.
 */
module PatternRebuild {
  import opened MachineInts
  import opened DescriptorPatterns
  import opened PatternCompiler
  import opened PatternMatching

  // ---------------------------------------------------------------------------------------
  // The generated construction
  // ---------------------------------------------------------------------------------------

  /** The fields of a class have the types of their bindings. */
  predicate Supplied(p: Pattern, f: Captures)
    decreases p, 0
  {
    ArgsSupplied(p.args, f)
  }

  predicate ArgsSupplied(args: seq<Arg>, f: Captures)
    decreases args, 0
  {
    args == [] || (ArgSupplied(args[0], f) && ArgsSupplied(args[1..], f))
  }

  predicate ArgSupplied(arg: Arg, f: Captures)
    decreases arg, 0
  {
    match arg
    case Binding(name, KeyBinding) => name in f && f[name].KeyV?
    case Binding(name, KeyListBinding) => name in f && f[name].KeysV?
    case Binding(name, ThresholdBinding) => name in f && f[name].NumV?
    case Binding(name, TimelockBinding) => name in f && f[name].TimeV?
    case MusigOf(threshold, keys) => threshold in f && f[threshold].NumV? && keys in f && f[keys].KeysV?
    case Sub(_, inner) => Supplied(inner, f)
  }

  /** No `expect("plain key")` panics. */
  predicate Constructible(p: Pattern, f: Captures)
    requires Supplied(p, f)
    decreases p, 0
  {
    ArgsConstructible(p.args, f)
  }

  predicate ArgsConstructible(args: seq<Arg>, f: Captures)
    requires ArgsSupplied(args, f)
    decreases args, 0
  {
    args == [] || (ArgConstructible(args[0], f) && ArgsConstructible(args[1..], f))
  }

  predicate ArgConstructible(arg: Arg, f: Captures)
    requires ArgSupplied(arg, f)
    decreases arg, 0
  {
    match arg
    case Binding(_, _) => true
    case MusigOf(_, keys) => AllPlain(f[keys].keys)
    case Sub(_, inner) => Constructible(inner, f)
  }

  /** `KeyExpression::musig` of the indices of `keys`, with the derivation pair of the first one. */
  function MusigFrom(keys: seq<Key>): Key
    requires AllPlain(keys)
  {
    Key(Musig(seq(|keys|, i requires 0 <= i < |keys| => keys[i].keyType.index)),
        if keys == [] then 0 else keys[0].num1, if keys == [] then 1 else keys[0].num2)
  }

  /** `Timelock::to_descriptor` */
  function ToDescriptor(lock: Timelock): Descriptor {
    match lock
    case Relative(n) => Node(Older, [NumV(n)])
    case Absolute(n) => Node(After, [NumV(n)])
  }

  function Wrap(wrappers: seq<Variant>, d: Descriptor): Descriptor {
    if wrappers == [] then d else Node(wrappers[0], [NodeV(Wrap(wrappers[1..], d))])
  }

  /** `build_construction_expr` */
  function Construct(p: Pattern, f: Captures): Descriptor
    requires Supplied(p, f) && Constructible(p, f)
    decreases p, 0
  {
    Node(p.variant, ConstructArgs(p.args, f))
  }

  function ConstructArgs(args: seq<Arg>, f: Captures): seq<Value>
    requires ArgsSupplied(args, f) && ArgsConstructible(args, f)
    decreases args, 0
  {
    if args == [] then [] else [ConstructArg(args[0], f)] + ConstructArgs(args[1..], f)
  }

  /** `build_arg_expr` */
  function ConstructArg(arg: Arg, f: Captures): Value
    requires ArgSupplied(arg, f) && ArgConstructible(arg, f)
    decreases arg, 0
  {
    match arg
    case Binding(name, TimelockBinding) => NodeV(ToDescriptor(f[name].lock))
    case Binding(name, _) => f[name]
    case MusigOf(_, keys) => KeyV(MusigFrom(f[keys].keys))
    case Sub(wrappers, inner) => NodeV(Wrap(wrappers, Construct(inner, f)))
  }

  /** `pattern_uses_musig` */
  predicate UsesMusig(p: Pattern)
    decreases p, 0
  {
    ArgsUseMusig(p.args)
  }

  predicate ArgsUseMusig(args: seq<Arg>)
    decreases args, 0
  {
    args != [] && (ArgUsesMusig(args[0]) || ArgsUseMusig(args[1..]))
  }

  predicate ArgUsesMusig(arg: Arg)
    decreases arg, 0
  {
    match arg
    case Binding(_, _) => false
    case MusigOf(_, _) => true
    case Sub(_, inner) => UsesMusig(inner)
  }

  /** The guard of a pattern with a musig reads the fields of these names, whatever the musig binds. */
  predicate GuardReads(f: Captures) {
    "threshold" in f && f["threshold"].NumV? && "keys" in f && f["keys"].KeysV?
  }

  predicate Guard(f: Captures)
    requires GuardReads(f)
  {
    f["threshold"].num == |f["keys"].keys| && AllPlain(f["keys"].keys)
  }

  datatype Rebuilt = Skipped | Panics | Built(descriptor: Descriptor)

  /** `emit_pattern_construction_block` for one pattern. */
  function Rebuild(p: Pattern, f: Captures): Rebuilt
    requires Supplied(p, f) && (UsesMusig(p) ==> GuardReads(f))
  {
    if UsesMusig(p) && !Guard(f) then Skipped
    else if !Constructible(p, f) then Panics
    else Built(Construct(p, f))
  }

  // ---------------------------------------------------------------------------------------
  // Building what was matched
  // ---------------------------------------------------------------------------------------

  /** Every aggregate without keys that the pattern meets has the derivation pair that building gives it. */
  predicate PairsKept(p: Pattern, d: Descriptor)
    decreases p, 0
  {
    ArgsPairsKept(p.args, d.fields)
  }

  predicate ArgsPairsKept(args: seq<Arg>, fields: seq<Value>)
    decreases args, 0
  {
    |args| == |fields| && (args == [] || (ArgPairsKept(args[0], fields[0]) && ArgsPairsKept(args[1..], fields[1..])))
  }

  predicate ArgPairsKept(arg: Arg, v: Value)
    decreases arg, 0
  {
    match arg
    case Binding(_, _) => true
    case MusigOf(_, _) =>
      v.KeyV? && v.key.IsMusig() && (v.key.keyType.indices == [] ==> v.key.num1 == 0 && v.key.num2 == 1)
    case Sub(wrappers, inner) =>
      var u := Unwrapped(wrappers, v);
      u.Some? && u.value.NodeV? && PairsKept(inner, u.value.node)
  }

  ghost predicate Within(g: Captures, f: Captures) {
    forall name :: name in g ==> name in f && f[name] == g[name]
  }

  lemma {:induction false} WrapUnwrapped(wrappers: seq<Variant>, v: Value, d: Descriptor)
    requires v.NodeV? && Unwrapped(wrappers, v).Some? && Unwrapped(wrappers, v).value.NodeV?
    ensures NodeV(Wrap(wrappers, d)) == v <==> d == Unwrapped(wrappers, v).value.node
  {
    if wrappers != [] {
      var below := v.node.fields[0];
      assert v.node.fields == [below];
      if below.NodeV? {
        WrapUnwrapped(wrappers[1..], below, d);
      }
    }
  }

  lemma MusigRebuilt(k: Key)
    requires k.IsMusig()
    ensures AllPlain(KeysOfMusig(k))
    ensures MusigFrom(KeysOfMusig(k)) == k <==> (k.keyType.indices == [] ==> k.num1 == 0 && k.num2 == 1)
  {
    var rebuilt := MusigFrom(KeysOfMusig(k));
    assert rebuilt.keyType.indices == k.keyType.indices;
  }

  lemma TimelockRebuilt(d: Descriptor)
    requires TimelockIn(d).Some?
    ensures ToDescriptor(TimelockIn(d).value) == d
  {
    assert d.fields == [d.fields[0]];
  }

  lemma ConstructsMatched(p: Pattern, d: Descriptor, g: Captures, f: Captures)
    requires Distinct(p) && MatchPattern(p, d) == Some(g) && Within(g, f)
    ensures Supplied(p, f) && Constructible(p, f)
    ensures Construct(p, f) == d <==> PairsKept(p, d)
    decreases p, 0
  {
    ConstructsMatchedArgs(p.args, d.fields, g, f);
  }

  lemma ConstructsMatchedArgs(args: seq<Arg>, fields: seq<Value>, g: Captures, f: Captures)
    requires ArgsDistinct(args) && MatchArgs(args, fields) == Some(g) && Within(g, f)
    ensures ArgsSupplied(args, f) && ArgsConstructible(args, f)
    ensures ConstructArgs(args, f) == fields <==> ArgsPairsKept(args, fields)
    decreases args, 0
  {
    if args != [] {
      var (first, rest) := (MatchArg(args[0], fields[0]).value, MatchArgs(args[1..], fields[1..]).value);
      MatchArgNames(args[0], fields[0]);
      MatchArgsNames(args[1..], fields[1..]);
      assert Within(first, f) && Within(rest, f) by {
        forall name | name in first ensures name in f && f[name] == first[name] {
          assert name in g && name !in rest;
        }
        forall name | name in rest ensures name in f && f[name] == rest[name] {
          assert name in g;
        }
      }
      ConstructsMatchedArg(args[0], fields[0], first, f);
      ConstructsMatchedArgs(args[1..], fields[1..], rest, f);
      assert fields == [fields[0]] + fields[1..];
      assert ConstructArgs(args, f)[1..] == ConstructArgs(args[1..], f);
    }
  }

  lemma ConstructsMatchedArg(arg: Arg, v: Value, g: Captures, f: Captures)
    requires ArgDistinct(arg) && MatchArg(arg, v) == Some(g) && Within(g, f)
    ensures ArgSupplied(arg, f) && ArgConstructible(arg, f)
    ensures ConstructArg(arg, f) == v <==> ArgPairsKept(arg, v)
    decreases arg, 0
  {
    match arg
    case Binding(name, kind) =>
      assert name in g;
      if kind.TimelockBinding? {
        TimelockRebuilt(v.node);
      }
    case MusigOf(threshold, keys) =>
      assert threshold in g && keys in g;
      MusigRebuilt(v.key);
    case Sub(wrappers, inner) =>
      var u := Unwrapped(wrappers, v).value;
      ConstructsMatched(inner, u.node, g, f);
      WrapUnwrapped(wrappers, v, Construct(inner, f));
  }

  /**
   Building from the fields that the generated code captured gives the same descriptor exactly when the
   guard of a pattern with a musig holds, and no aggregate without keys has another derivation pair than
   (0, 1).
   */
  lemma RebuildReturnsMatched(p: Pattern, d: Descriptor, f: Captures)
    requires WellFormed(p) && Distinct(p) && Typed(d)
    requires Eval(Compiled(p), map[Root := NodeV(d)]) == Some(f) && (UsesMusig(p) ==> GuardReads(f))
    ensures Supplied(p, f)
    ensures Rebuild(p, f) == Built(d) <==> (UsesMusig(p) ==> Guard(f)) && PairsKept(p, d)
  {
    CompiledMatches(p, d);
    ConstructsMatched(p, d, f, f);
  }

  // ---------------------------------------------------------------------------------------
  // Where the guard and the derivation pair fail
  // ---------------------------------------------------------------------------------------

  /** Every musig of the pattern binds the names that the guard reads. */
  predicate MusigNamed(p: Pattern)
    decreases p, 0
  {
    ArgsMusigNamed(p.args)
  }

  predicate ArgsMusigNamed(args: seq<Arg>)
    decreases args, 0
  {
    args == [] || (ArgMusigNamed(args[0]) && ArgsMusigNamed(args[1..]))
  }

  predicate ArgMusigNamed(arg: Arg)
    decreases arg, 0
  {
    match arg
    case Binding(_, _) => true
    case MusigOf(threshold, keys) => threshold == "threshold" && keys == "keys"
    case Sub(_, inner) => MusigNamed(inner)
  }

  /** What a musig captured passes the guard; keys are counted in 32 bits. */
  ghost predicate GuardPasses(f: Captures) {
    GuardReads(f) && AllPlain(f["keys"].keys) && f["threshold"].num == Count(f["keys"].keys)
  }

  lemma GuardOfMatched(p: Pattern, d: Descriptor)
    requires Distinct(p) && MusigNamed(p) && UsesMusig(p) && MatchPattern(p, d).Some?
    ensures GuardPasses(MatchPattern(p, d).value)
    decreases p, 0
  {
    GuardOfMatchedArgs(p.args, d.fields);
  }

  lemma GuardOfMatchedArgs(args: seq<Arg>, fields: seq<Value>)
    requires ArgsDistinct(args) && ArgsMusigNamed(args) && ArgsUseMusig(args) && MatchArgs(args, fields).Some?
    ensures GuardPasses(MatchArgs(args, fields).value)
    decreases args, 0
  {
    MatchArgNames(args[0], fields[0]);
    MatchArgsNames(args[1..], fields[1..]);
    if ArgUsesMusig(args[0]) {
      GuardOfMatchedArg(args[0], fields[0]);
      assert "threshold" in ArgNames(args[0]) && "keys" in ArgNames(args[0]);
    } else {
      GuardOfMatchedArgs(args[1..], fields[1..]);
    }
  }

  lemma GuardOfMatchedArg(arg: Arg, v: Value)
    requires ArgDistinct(arg) && ArgMusigNamed(arg) && ArgUsesMusig(arg) && MatchArg(arg, v).Some?
    ensures GuardPasses(MatchArg(arg, v).value)
    decreases arg, 0
  {
    if arg.Sub? {
      GuardOfMatched(arg.inner, Unwrapped(arg.wrappers, v).value.node);
    } else {
      MusigRebuilt(v.key);
    }
  }

  /** With the usual names, and fewer than 2^32 keys, only an aggregate without keys is not built back. */
  lemma RebuildReturnsNamed(p: Pattern, d: Descriptor, f: Captures)
    requires WellFormed(p) && Distinct(p) && Typed(d) && MusigNamed(p)
    requires Eval(Compiled(p), map[Root := NodeV(d)]) == Some(f)
    requires UsesMusig(p) ==> GuardReads(f) && |f["keys"].keys| < TWO_32
    ensures Supplied(p, f) && (Rebuild(p, f) == Built(d) <==> PairsKept(p, d))
  {
    RebuildReturnsMatched(p, d, f);
    CompiledMatches(p, d);
    if UsesMusig(p) {
      GuardOfMatched(p, d);
    }
  }

  /** A musig beside a multi that takes the names which the guard reads. */
  function MusigBesideMulti(): Pattern {
    var multi := Pattern(Multi, [Binding("threshold", ThresholdBinding), Binding("keys", KeyListBinding)]);
    Pattern(AndV, [Sub([V], multi), Sub([], Pattern(Pk, [MusigOf("threshold1", "keys1")]))])
  }

  function OneOfTwoBesideMusig(): Descriptor {
    var multi := Node(Multi, [NumV(1), KeysV([Key(PlainKey(0), 0, 1), Key(PlainKey(1), 0, 1)])]);
    Node(AndV, [NodeV(Node(V, [NodeV(multi)])), NodeV(Node(Pk, [KeyV(Key(Musig([2, 3]), 0, 1))]))])
  }

  lemma MatchedIsSupplied(p: Pattern, d: Descriptor, f: Captures)
    requires Distinct(p) && MatchPattern(p, d) == Some(f)
    ensures Supplied(p, f)
  {
    ConstructsMatched(p, d, f, f);
  }

  lemma OneOfTwoMatches()
    ensures var (multi, d) := (MusigBesideMulti().args[0].inner, OneOfTwoBesideMusig().fields[0].node.fields[0].node);
            MatchPattern(multi, d) == Some(map["threshold" := d.fields[0], "keys" := d.fields[1]])
  {
    var (multi, d) := (MusigBesideMulti().args[0].inner, OneOfTwoBesideMusig().fields[0].node.fields[0].node);
    assert multi.args[1..] == [Binding("keys", KeyListBinding)] && multi.args[1..][1..] == [];
    assert d.fields[1..] == [d.fields[1]] && d.fields[1..][1..] == [];
    var (first, second) := (map["threshold" := d.fields[0]], map["keys" := d.fields[1]]);
    assert MatchArgs(multi.args, d.fields) == Some(first + (second + map[]));
    assert first + (second + map[]) == map["threshold" := d.fields[0], "keys" := d.fields[1]];
  }

  lemma MusigBesideMatches()
    ensures MatchPattern(MusigBesideMulti().args[1].inner, OneOfTwoBesideMusig().fields[1].node).Some?
    ensures Names(MusigBesideMulti().args[1].inner) == {"threshold1", "keys1"}
  {
    var (pk, d) := (MusigBesideMulti().args[1].inner, OneOfTwoBesideMusig().fields[1].node);
    assert pk.args[1..] == [] && d.fields[1..] == [];
  }

  lemma TwoMatch(args: seq<Arg>, fields: seq<Value>, first: Captures, second: Captures)
    requires |args| == |fields| == 2
    requires MatchArg(args[0], fields[0]) == Some(first) && MatchArg(args[1], fields[1]) == Some(second)
    ensures MatchArgs(args, fields) == Some(first + (second + map[]))
  {
    assert args[1..] == [args[1]] && args[1..][1..] == [];
    assert fields[1..] == [fields[1]] && fields[1..][1..] == [];
    assert MatchArgs(args[1..], fields[1..]) == Some(second + map[]);
  }

  /** What the pattern captures from the descriptor. */
  lemma BothMatch()
    ensures var (p, d) := (MusigBesideMulti(), OneOfTwoBesideMusig());
            var (multi, musig) := (d.fields[0].node.fields[0].node, MatchPattern(p.args[1].inner, d.fields[1].node));
            && musig.Some? && musig.value.Keys == {"threshold1", "keys1"}
            && MatchPattern(p, d)
               == Some(map["threshold" := multi.fields[0], "keys" := multi.fields[1]] + (musig.value + map[]))
  {
    var (p, d) := (MusigBesideMulti(), OneOfTwoBesideMusig());
    OneOfTwoMatches();
    MusigBesideMatches();
    MatchNames(p.args[1].inner, d.fields[1].node);
    assert Unwrapped([V], d.fields[0]) == Some(d.fields[0].node.fields[0]);
    TwoMatch(p.args, d.fields, MatchPattern(p.args[0].inner, d.fields[0].node.fields[0].node).value,
             MatchPattern(p.args[1].inner, d.fields[1].node).value);
  }

  lemma SkippedByGuard(p: Pattern, f: Captures)
    requires UsesMusig(p) && Supplied(p, f) && GuardReads(f) && f["threshold"].num != |f["keys"].keys|
    ensures Rebuild(p, f) == Skipped
  {
  }

  lemma ShapeOfExample()
    ensures Distinct(MusigBesideMulti()) && UsesMusig(MusigBesideMulti())
  {
    var p := MusigBesideMulti();
    var (multi, pk) := (p.args[0].inner, p.args[1].inner);
    assert p.args[1..] == [p.args[1]] && p.args[1..][1..] == [];
    assert multi.args[1..] == [multi.args[1]] && multi.args[1..][1..] == [] && pk.args[1..] == [];
    assert Names(multi) == {"threshold", "keys"} && Names(pk) == {"threshold1", "keys1"};
  }

  lemma OneArg(arg: Arg, kind: ArgKind, args: seq<Arg>, kinds: seq<ArgKind>)
    requires args == [arg] && kinds == [kind] && ArgWellFormed(arg, kind)
    ensures ArgsWellFormed(args, kinds)
  {
  }

  lemma TwoArgs(a: Arg, b: Arg, k: ArgKind, l: ArgKind, args: seq<Arg>, kinds: seq<ArgKind>)
    requires args == [a, b] && kinds == [k, l] && ArgWellFormed(a, k) && ArgWellFormed(b, l)
    ensures ArgsWellFormed(args, kinds)
  {
    OneArg(b, l, args[1..], kinds[1..]);
  }

  lemma OneField(v: Value, kind: ArgKind, fields: seq<Value>, kinds: seq<ArgKind>)
    requires fields == [v] && kinds == [kind] && ValueTyped(v, kind)
    ensures FieldsTyped(fields, kinds)
  {
  }

  lemma TwoFields(v: Value, w: Value, k: ArgKind, l: ArgKind, fields: seq<Value>, kinds: seq<ArgKind>)
    requires fields == [v, w] && kinds == [k, l] && ValueTyped(v, k) && ValueTyped(w, l)
    ensures FieldsTyped(fields, kinds)
  {
    OneField(w, l, fields[1..], kinds[1..]);
  }

  /** The generator accepts the pattern of the example. */
  lemma ExamplePattern()
    ensures WellFormed(MusigBesideMulti())
  {
    var p := MusigBesideMulti();
    var (multi, pk) := (p.args[0].inner, p.args[1].inner);
    TwoArgs(multi.args[0], multi.args[1], NumArg, KeyListArg, multi.args, ArgKinds(Multi));
    OneArg(pk.args[0], KeyArg, pk.args, ArgKinds(Pk));
    TwoArgs(p.args[0], p.args[1], SubArg, SubArg, p.args, ArgKinds(AndV));
  }

  lemma ExampleDescriptor()
    ensures Typed(OneOfTwoBesideMusig())
  {
    var d := OneOfTwoBesideMusig();
    var (v, key) := (d.fields[0].node, d.fields[1].node);
    var keys := v.fields[0].node;
    TwoFields(keys.fields[0], keys.fields[1], NumArg, KeyListArg, keys.fields, ArgKinds(Multi));
    OneField(v.fields[0], SubArg, v.fields, ArgKinds(V));
    OneField(key.fields[0], KeyArg, key.fields, ArgKinds(Pk));
    TwoFields(d.fields[0], d.fields[1], SubArg, SubArg, d.fields, ArgKinds(AndV));
  }

  lemma ExampleIsSkipped()
    ensures var (p, d) := (MusigBesideMulti(), OneOfTwoBesideMusig());
            && Distinct(p) && UsesMusig(p) && MatchPattern(p, d).Some?
            && Supplied(p, MatchPattern(p, d).value) && GuardReads(MatchPattern(p, d).value)
            && Rebuild(p, MatchPattern(p, d).value) == Skipped
  {
    var (p, d) := (MusigBesideMulti(), OneOfTwoBesideMusig());
    ShapeOfExample();
    BothMatch();
    var f := MatchPattern(p, d).value;
    assert f["threshold"] == NumV(1) && f["keys"].KeysV? && |f["keys"].keys| == 2;
    MatchedIsSupplied(p, d, f);
    SkippedByGuard(p, f);
  }

  /**
   The guard looks at the fields of the multi: the generated code captures the fields of a descriptor, and
   from them nothing is built back.
   */
  lemma GuardReadsOtherFields()
    ensures var (p, d) := (MusigBesideMulti(), OneOfTwoBesideMusig());
            && WellFormed(p) && Distinct(p) && Typed(d) && UsesMusig(p)
            && Eval(Compiled(p), map[Root := NodeV(d)]) == MatchPattern(p, d)
            && MatchPattern(p, d).Some?
            && Supplied(p, MatchPattern(p, d).value) && GuardReads(MatchPattern(p, d).value)
            && Rebuild(p, MatchPattern(p, d).value) == Skipped
  {
    var (p, d) := (MusigBesideMulti(), OneOfTwoBesideMusig());
    ExamplePattern();
    ExampleDescriptor();
    ExampleIsSkipped();
    CompiledMatches(p, d);
  }

  /**
   Building loses the derivation pair of an aggregate without keys. The parser of descriptors does not give
   one, but a key expression can be made so.
   */
  lemma EmptyMusigLosesPair(num1: u32, num2: u32)
    requires num1 != 0 || num2 != 1
    ensures var (p, d) := (Pattern(Pk, [MusigOf("threshold", "keys")]), Node(Pk, [KeyV(Key(Musig([]), num1, num2))]));
            && WellFormed(p) && Distinct(p) && Typed(d)
            && Eval(Compiled(p), map[Root := NodeV(d)]) == MatchPattern(p, d)
            && MatchPattern(p, d).Some? && Supplied(p, MatchPattern(p, d).value)
            && GuardReads(MatchPattern(p, d).value) && Rebuild(p, MatchPattern(p, d).value) != Built(d)
  {
    var (p, d) := (Pattern(Pk, [MusigOf("threshold", "keys")]), Node(Pk, [KeyV(Key(Musig([]), num1, num2))]));
    assert p.args[1..] == [] && d.fields[1..] == [];
    assert MatchArgs(p.args, d.fields).Some?;
    OneArg(p.args[0], KeyArg, p.args, ArgKinds(Pk));
    OneField(d.fields[0], KeyArg, d.fields, ArgKinds(Pk));
    CompiledMatches(p, d);
    GuardOfMatched(p, d);
    ConstructsMatched(p, d, MatchPattern(p, d).value, MatchPattern(p, d).value);
  }

  // ---------------------------------------------------------------------------------------
  // Matching what was built
  // ---------------------------------------------------------------------------------------

  predicate SharePair(keys: seq<Key>) {
    keys != [] ==> forall i :: 0 <= i < |keys| ==> keys[i].num1 == keys[0].num1 && keys[i].num2 == keys[0].num2
  }

  /** The fields could have been captured by the pattern. */
  predicate Capturable(p: Pattern, f: Captures)
    requires Supplied(p, f)
    decreases p, 0
  {
    ArgsCapturable(p.args, f)
  }

  predicate ArgsCapturable(args: seq<Arg>, f: Captures)
    requires ArgsSupplied(args, f)
    decreases args, 0
  {
    args == [] || (ArgCapturable(args[0], f) && ArgsCapturable(args[1..], f))
  }

  /**
   Keys are plain, timelocks are in range; the keys of a musig share their derivation pair, and its
   threshold is their number.
   */
  predicate ArgCapturable(arg: Arg, f: Captures)
    requires ArgSupplied(arg, f)
    decreases arg, 0
  {
    match arg
    case Binding(name, KeyBinding) => f[name].key.IsPlain()
    case Binding(name, KeyListBinding) => AllPlain(f[name].keys)
    case Binding(_, ThresholdBinding) => true
    case Binding(name, TimelockBinding) =>
      (match f[name].lock
       case Relative(n) => IsValidRelativeLocktime(n)
       case Absolute(n) => IsValidAbsoluteLocktime(n))
    case MusigOf(threshold, keys) => f[threshold].num == Count(f[keys].keys) && SharePair(f[keys].keys)
    case Sub(_, inner) => Capturable(inner, f)
  }

  /** Matching succeeded, and captured fields of `f`. */
  ghost predicate Recovers(m: Option<Captures>, f: Captures) {
    m.Some? && Within(m.value, f)
  }

  lemma {:induction false} UnwrapWrapped(wrappers: seq<Variant>, d: Descriptor)
    ensures Unwrapped(wrappers, NodeV(Wrap(wrappers, d))) == Some(NodeV(d))
  {
    if wrappers != [] {
      UnwrapWrapped(wrappers[1..], d);
    }
  }

  lemma KeysOfBuilt(keys: seq<Key>)
    requires AllPlain(keys)
    ensures |KeysOfMusig(MusigFrom(keys))| == |keys|
    ensures KeysOfMusig(MusigFrom(keys)) == keys <==> SharePair(keys)
  {
    var built := KeysOfMusig(MusigFrom(keys));
    if SharePair(keys) {
      forall i | 0 <= i < |keys| ensures built[i] == keys[i] {
      }
      assert built == keys;
    } else {
      var i :| 0 <= i < |keys| && !(keys[i].num1 == keys[0].num1 && keys[i].num2 == keys[0].num2);
      assert built[i] != keys[i];
    }
  }

  lemma MatchesBuilt(p: Pattern, f: Captures)
    requires Distinct(p) && Supplied(p, f) && Constructible(p, f)
    ensures Recovers(MatchPattern(p, Construct(p, f)), f) <==> Capturable(p, f)
    decreases p, 0
  {
    MatchesBuiltArgs(p.args, f);
  }

  lemma MatchesBuiltArgs(args: seq<Arg>, f: Captures)
    requires ArgsDistinct(args) && ArgsSupplied(args, f) && ArgsConstructible(args, f)
    ensures |ConstructArgs(args, f)| == |args|
    ensures Recovers(MatchArgs(args, ConstructArgs(args, f)), f) <==> ArgsCapturable(args, f)
    decreases args, 0
  {
    if args != [] {
      var values := ConstructArgs(args, f);
      assert values[0] == ConstructArg(args[0], f) && values[1..] == ConstructArgs(args[1..], f);
      MatchesBuiltArg(args[0], f);
      MatchesBuiltArgs(args[1..], f);
      var (first, rest) := (MatchArg(args[0], values[0]), MatchArgs(args[1..], values[1..]));
      MatchArgNames(args[0], values[0]);
      MatchArgsNames(args[1..], values[1..]);
      if first.Some? && rest.Some? {
        WithinUnion(first.value, rest.value, f);
      }
    }
  }

  lemma WithinUnion(a: Captures, b: Captures, f: Captures)
    requires a.Keys !! b.Keys
    ensures Within(a + b, f) <==> Within(a, f) && Within(b, f)
  {
    if Within(a + b, f) {
      forall name | name in a ensures name in f && f[name] == a[name] {
        assert name in a + b && name !in b;
      }
      forall name | name in b ensures name in f && f[name] == b[name] {
        assert name in a + b;
      }
    }
  }

  lemma MatchesBuiltArg(arg: Arg, f: Captures)
    requires ArgDistinct(arg) && ArgSupplied(arg, f) && ArgConstructible(arg, f)
    ensures Recovers(MatchArg(arg, ConstructArg(arg, f)), f) <==> ArgCapturable(arg, f)
    decreases arg, 0
  {
    match arg
    case Binding(_, _) =>
    case MusigOf(threshold, keys) =>
      MusigMatchesBuilt(threshold, keys, f);
    case Sub(wrappers, inner) =>
      UnwrapWrapped(wrappers, Construct(inner, f));
      MatchesBuilt(inner, f);
  }

  lemma MusigMatchesBuilt(threshold: string, keys: string, f: Captures)
    requires threshold != keys && ArgSupplied(MusigOf(threshold, keys), f) && AllPlain(f[keys].keys)
    ensures var arg := MusigOf(threshold, keys);
            Recovers(MatchArg(arg, ConstructArg(arg, f)), f) <==> ArgCapturable(arg, f)
  {
    var built := KeysOfMusig(MusigFrom(f[keys].keys));
    KeysOfBuilt(f[keys].keys);
    var g := MatchArg(MusigOf(threshold, keys), KeyV(MusigFrom(f[keys].keys))).value;
    assert g == map[threshold := NumV(Count(built)), keys := KeysV(built)];
    assert threshold in g && keys in g;
  }

  // ---------------------------------------------------------------------------------------
  // Types of what was built
  // ---------------------------------------------------------------------------------------

  lemma WrapperTyped(w: Variant, d: Descriptor)
    requires IsWrapper(w) && Typed(d)
    ensures Typed(Node(w, [NodeV(d)]))
  {
    OneField(NodeV(d), SubArg, [NodeV(d)], ArgKinds(w));
  }

  lemma {:induction false} WrapTyped(wrappers: seq<Variant>, d: Descriptor)
    requires Typed(d) && forall w :: w in wrappers ==> IsWrapper(w)
    ensures Typed(Wrap(wrappers, d))
  {
    if wrappers != [] {
      WrapTyped(wrappers[1..], d);
      WrapperTyped(wrappers[0], Wrap(wrappers[1..], d));
    }
  }

  lemma BuiltTyped(p: Pattern, f: Captures)
    requires WellFormed(p) && Supplied(p, f) && Constructible(p, f)
    ensures Typed(Construct(p, f))
    decreases p, 0
  {
    BuiltArgsTyped(p.args, ArgKinds(p.variant), f);
  }

  lemma BuiltArgsTyped(args: seq<Arg>, kinds: seq<ArgKind>, f: Captures)
    requires ArgsWellFormed(args, kinds) && ArgsSupplied(args, f) && ArgsConstructible(args, f)
    ensures FieldsTyped(ConstructArgs(args, f), kinds)
    decreases args, 0
  {
    if args != [] {
      BuiltArgTyped(args[0], kinds[0], f);
      BuiltArgsTyped(args[1..], kinds[1..], f);
      assert ConstructArgs(args, f)[1..] == ConstructArgs(args[1..], f);
    }
  }

  lemma BuiltArgTyped(arg: Arg, kind: ArgKind, f: Captures)
    requires ArgWellFormed(arg, kind) && ArgSupplied(arg, f) && ArgConstructible(arg, f)
    ensures ValueTyped(ConstructArg(arg, f), kind)
    decreases arg, 0
  {
    if arg.Sub? {
      BuiltTyped(arg.inner, f);
      WrapTyped(arg.wrappers, Construct(arg.inner, f));
    } else if arg.Binding? && arg.kind.TimelockBinding? {
      TimelockTyped(f[arg.name].lock);
    }
  }

  lemma TimelockTyped(lock: Timelock)
    ensures Typed(ToDescriptor(lock))
  {
    var d := ToDescriptor(lock);
    OneField(d.fields[0], NumArg, d.fields, ArgKinds(d.variant));
  }

  /**
   The generated code captures from a descriptor built from fields exactly these fields, if and only if
   the pattern can capture them.
   */
  lemma MatchReturnsBuilt(p: Pattern, f: Captures)
    requires WellFormed(p) && Distinct(p) && Supplied(p, f) && Constructible(p, f) && f.Keys == Names(p)
    ensures Eval(Compiled(p), map[Root := NodeV(Construct(p, f))]) == Some(f) <==> Capturable(p, f)
  {
    var d := Construct(p, f);
    BuiltTyped(p, f);
    CompiledMatches(p, d);
    MatchesBuilt(p, f);
    MatchNames(p, d);
    if Recovers(MatchPattern(p, d), f) {
      assert MatchPattern(p, d).value == f;
    }
  }
}
