/**
 Entries with several patterns (apps/bitcoin/bip388/build.rs): the generated code tries the patterns of all
 entries one after the other, and builds back one descriptor for each pattern of the entry that applies.
 */
module PatternEntries {
  import opened MachineInts
  import opened DescriptorPatterns
  import opened PatternCompiler
  import opened PatternMatching
  import opened PatternRebuild

  // ---------------------------------------------------------------------------------------
  // The fields of a class
  // ---------------------------------------------------------------------------------------

  datatype FieldKind = KeyField | KeysField | NumField | TimeField

  /** The fields that a pattern binds, with their types. */
  function Fields(p: Pattern): map<string, FieldKind>
    decreases p, 0
  {
    FieldsOfArgs(p.args)
  }

  function FieldsOfArgs(args: seq<Arg>): map<string, FieldKind>
    decreases args, 0
  {
    if args == [] then map[] else FieldsOfArg(args[0]) + FieldsOfArgs(args[1..])
  }

  function FieldsOfArg(arg: Arg): map<string, FieldKind>
    decreases arg, 0
  {
    match arg
    case Binding(name, KeyBinding) => map[name := KeyField]
    case Binding(name, KeyListBinding) => map[name := KeysField]
    case Binding(name, ThresholdBinding) => map[name := NumField]
    case Binding(name, TimelockBinding) => map[name := TimeField]
    case MusigOf(threshold, keys) => map[threshold := NumField, keys := KeysField]
    case Sub(_, inner) => Fields(inner)
  }

  predicate IsOf(v: Value, kind: FieldKind) {
    match kind
    case KeyField => v.KeyV?
    case KeysField => v.KeysV?
    case NumField => v.NumV?
    case TimeField => v.TimeV?
  }

  /** A value of a class with these fields. */
  ghost predicate HasFields(fields: map<string, FieldKind>, f: Captures) {
    forall name :: name in fields ==> name in f && IsOf(f[name], fields[name])
  }

  lemma FieldsAreNames(p: Pattern)
    ensures Fields(p).Keys == Names(p)
    decreases p, 0
  {
    FieldsOfArgsAreNames(p.args);
  }

  lemma FieldsOfArgsAreNames(args: seq<Arg>)
    ensures FieldsOfArgs(args).Keys == ArgsNames(args)
    decreases args, 0
  {
    if args != [] {
      if args[0].Sub? {
        FieldsAreNames(args[0].inner);
      }
      FieldsOfArgsAreNames(args[1..]);
    }
  }

  lemma FieldsOfArgAreNames(arg: Arg)
    ensures FieldsOfArg(arg).Keys == ArgNames(arg)
  {
    if arg.Sub? {
      FieldsAreNames(arg.inner);
    }
  }

  lemma HasUnion(a: map<string, FieldKind>, b: map<string, FieldKind>, f: Captures)
    requires a.Keys !! b.Keys
    ensures HasFields(a + b, f) <==> HasFields(a, f) && HasFields(b, f)
  {
    if HasFields(a + b, f) {
      forall name | name in a ensures name in f && IsOf(f[name], a[name]) {
        assert name in a + b && name !in b;
      }
      forall name | name in b ensures name in f && IsOf(f[name], b[name]) {
        assert name in a + b;
      }
    }
  }

  /** Building is defined exactly for values with the fields of the pattern. */
  lemma SuppliedByFields(p: Pattern, f: Captures)
    requires Distinct(p)
    ensures Supplied(p, f) <==> HasFields(Fields(p), f)
    decreases p, 0
  {
    ArgsSuppliedByFields(p.args, f);
  }

  lemma ArgsSuppliedByFields(args: seq<Arg>, f: Captures)
    requires ArgsDistinct(args)
    ensures ArgsSupplied(args, f) <==> HasFields(FieldsOfArgs(args), f)
    decreases args, 0
  {
    if args != [] {
      ArgSuppliedByFields(args[0], f);
      ArgsSuppliedByFields(args[1..], f);
      FieldsOfArgAreNames(args[0]);
      FieldsOfArgsAreNames(args[1..]);
      HasUnion(FieldsOfArg(args[0]), FieldsOfArgs(args[1..]), f);
    }
  }

  lemma ArgSuppliedByFields(arg: Arg, f: Captures)
    requires ArgDistinct(arg)
    ensures ArgSupplied(arg, f) <==> HasFields(FieldsOfArg(arg), f)
    decreases arg, 0
  {
    match arg
    case Binding(name, _) => assert name in FieldsOfArg(arg);
    case MusigOf(threshold, keys) => assert threshold in FieldsOfArg(arg) && keys in FieldsOfArg(arg);
    case Sub(_, inner) => SuppliedByFields(inner, f);
  }

  // ---------------------------------------------------------------------------------------
  // The generated code of an entry
  // ---------------------------------------------------------------------------------------

  /** The patterns of an entry: they bind the same fields, and a musig binds the usual ones. */
  ghost predicate IsEntry(patterns: seq<Pattern>) {
    forall i :: 0 <= i < |patterns| ==>
      && WellFormed(patterns[i]) && Distinct(patterns[i]) && MusigNamed(patterns[i])
      && Fields(patterns[i]) == Fields(patterns[0])
  }

  /** One block of `emit_classify`: a pattern, and the number of the entry whose class it gives. */
  datatype Block = Block(entry: nat, pattern: Pattern)

  /** The blocks of all entries, in order; the first entry has the number `c`. */
  function Blocks(entries: seq<seq<Pattern>>, c: nat): seq<Block> {
    if entries == [] then []
    else seq(|entries[0]|, i requires 0 <= i < |entries[0]| => Block(c, entries[0][i])) + Blocks(entries[1..], c + 1)
  }

  ghost predicate AreEntries(entries: seq<seq<Pattern>>) {
    forall e :: 0 <= e < |entries| ==> IsEntry(entries[e])
  }

  /** Each block is a pattern of its entry. */
  lemma {:induction false} BlockOfEntry(entries: seq<seq<Pattern>>, c: nat, k: nat)
    requires k < |Blocks(entries, c)|
    ensures var b := Blocks(entries, c)[k]; c <= b.entry < c + |entries| && b.pattern in entries[b.entry - c]
  {
    if k >= |entries[0]| {
      BlockOfEntry(entries[1..], c + 1, k - |entries[0]|);
    }
  }

  /** The generated function: the first block that matches gives the class and its fields; `None` is the other class. */
  function Classified(blocks: seq<Block>, d: Descriptor): Option<(nat, Captures)> {
    if blocks == [] then None
    else
      match Eval(Compiled(blocks[0].pattern), map[Root := NodeV(d)])
      case Some(f) => Some((blocks[0].entry, f))
      case None => Classified(blocks[1..], d)
  }

  /** The first block whose pattern matches. */
  ghost predicate FirstMatch(blocks: seq<Block>, d: Descriptor, k: nat) {
    && k < |blocks| && MatchPattern(blocks[k].pattern, d).Some?
    && forall i :: 0 <= i < k ==> MatchPattern(blocks[i].pattern, d).None?
  }

  ghost predicate AreBlocks(blocks: seq<Block>) {
    forall i :: 0 <= i < |blocks| ==> WellFormed(blocks[i].pattern) && Distinct(blocks[i].pattern)
  }

  lemma EntriesGiveBlocks(entries: seq<seq<Pattern>>)
    requires AreEntries(entries)
    ensures AreBlocks(Blocks(entries, 0))
  {
    forall k | 0 <= k < |Blocks(entries, 0)|
      ensures WellFormed(Blocks(entries, 0)[k].pattern) && Distinct(Blocks(entries, 0)[k].pattern)
    {
      BlockOfEntry(entries, 0, k);
    }
  }

  /** A descriptor is classified exactly when a pattern matches, with the class and the fields of the first one. */
  lemma {:induction false} ClassifiedByFirst(blocks: seq<Block>, d: Descriptor) returns (k: nat)
    requires Typed(d) && AreBlocks(blocks)
    ensures k <= |blocks| && forall i :: 0 <= i < k ==> MatchPattern(blocks[i].pattern, d).None?
    ensures k < |blocks| ==>
              && FirstMatch(blocks, d, k)
              && Classified(blocks, d) == Some((blocks[k].entry, MatchPattern(blocks[k].pattern, d).value))
    ensures k == |blocks| ==> Classified(blocks, d) == None
  {
    k := 0;
    if blocks != [] {
      CompiledMatches(blocks[0].pattern, d);
      if MatchPattern(blocks[0].pattern, d).None? {
        k := ClassifiedByFirst(blocks[1..], d);
        assert forall i :: 0 < i < |blocks| ==> blocks[i] == blocks[1..][i - 1];
        k := k + 1;
      }
    }
  }

  /** What the guard and the construction of every pattern need. */
  predicate AllSupplied(patterns: seq<Pattern>, f: Captures) {
    forall i :: 0 <= i < |patterns| ==> Supplied(patterns[i], f) && (UsesMusig(patterns[i]) ==> GuardReads(f))
  }

  /** `emit_pattern_construction_block`: one push for each pattern that applies; `None` is a panic. */
  function RebuildAll(patterns: seq<Pattern>, f: Captures): Option<seq<Descriptor>>
    requires AllSupplied(patterns, f)
  {
    if patterns == [] then Some([])
    else
      match Rebuild(patterns[0], f)
      case Panics => None
      case Skipped => RebuildAll(patterns[1..], f)
      case Built(d) =>
        match RebuildAll(patterns[1..], f)
        case None => None
        case Some(rest) => Some([d] + rest)
  }

  // ---------------------------------------------------------------------------------------
  // Building back what was classified
  // ---------------------------------------------------------------------------------------

  lemma NamedConstructible(p: Pattern, f: Captures)
    requires MusigNamed(p) && Supplied(p, f)
    ensures UsesMusig(p) ==> GuardReads(f)
    ensures (UsesMusig(p) ==> AllPlain(f["keys"].keys)) ==> Constructible(p, f)
    decreases p, 0
  {
    NamedArgsConstructible(p.args, f);
  }

  lemma NamedArgsConstructible(args: seq<Arg>, f: Captures)
    requires ArgsMusigNamed(args) && ArgsSupplied(args, f)
    ensures ArgsUseMusig(args) ==> GuardReads(f)
    ensures (ArgsUseMusig(args) ==> AllPlain(f["keys"].keys)) ==> ArgsConstructible(args, f)
    decreases args, 0
  {
    if args != [] {
      NamedArgConstructible(args[0], f);
      NamedArgsConstructible(args[1..], f);
    }
  }

  lemma NamedArgConstructible(arg: Arg, f: Captures)
    requires ArgMusigNamed(arg) && ArgSupplied(arg, f)
    ensures ArgUsesMusig(arg) ==> GuardReads(f)
    ensures (ArgUsesMusig(arg) ==> AllPlain(f["keys"].keys)) ==> ArgConstructible(arg, f)
    decreases arg, 0
  {
    if arg.Sub? {
      NamedConstructible(arg.inner, f);
    }
  }

  /** With the usual names no construction panics. */
  lemma NeverPanics(p: Pattern, f: Captures)
    requires MusigNamed(p) && Supplied(p, f)
    ensures (UsesMusig(p) ==> GuardReads(f)) && Rebuild(p, f) != Panics
  {
    NamedConstructible(p, f);
  }

  lemma {:induction false} AllBuilt(patterns: seq<Pattern>, f: Captures, k: nat, d: Descriptor)
    requires AllSupplied(patterns, f) && k < |patterns| && Rebuild(patterns[k], f) == Built(d)
    requires forall i :: 0 <= i < |patterns| ==> Rebuild(patterns[i], f) != Panics
    ensures RebuildAll(patterns, f).Some? && d in RebuildAll(patterns, f).value
  {
    if k == 0 {
      NoPanic(patterns[1..], f);
    } else {
      AllBuilt(patterns[1..], f, k - 1, d);
    }
  }

  lemma {:induction false} NoPanic(patterns: seq<Pattern>, f: Captures)
    requires AllSupplied(patterns, f) && forall i :: 0 <= i < |patterns| ==> Rebuild(patterns[i], f) != Panics
    ensures RebuildAll(patterns, f).Some?
  {
    if patterns != [] {
      NoPanic(patterns[1..], f);
    }
  }

  lemma EntrySupplied(patterns: seq<Pattern>, k: nat, f: Captures)
    requires IsEntry(patterns) && k < |patterns| && Supplied(patterns[k], f)
    ensures AllSupplied(patterns, f) && forall i :: 0 <= i < |patterns| ==> Rebuild(patterns[i], f) != Panics
  {
    SuppliedByFields(patterns[k], f);
    forall i | 0 <= i < |patterns|
      ensures Supplied(patterns[i], f) && (UsesMusig(patterns[i]) ==> GuardReads(f)) && Rebuild(patterns[i], f) != Panics
    {
      SuppliedByFields(patterns[i], f);
      NeverPanics(patterns[i], f);
    }
  }

  lemma CountIsExact(keys: seq<Key>)
    requires |keys| < TWO_32
    ensures Count(keys) == |keys|
  {
  }

  lemma MatchedIsBuilt(p: Pattern, d: Descriptor, f: Captures)
    requires Distinct(p) && MusigNamed(p) && MatchPattern(p, d) == Some(f)
    requires "keys" in f && f["keys"].KeysV? ==> |f["keys"].keys| < TWO_32
    ensures Supplied(p, f) && (UsesMusig(p) ==> GuardReads(f))
    ensures Rebuild(p, f) == Built(d) <==> PairsKept(p, d)
  {
    ConstructsMatched(p, d, f, f);
    if UsesMusig(p) {
      GuardOfMatched(p, d);
      CountIsExact(f["keys"].keys);
    }
  }

  /**
   A descriptor that is classified is among those that its class builds back, and building panics for none
   of the patterns of the entry; with fewer than 2^32 keys, and unless the matched pattern met an aggregate
   without keys.
   */
  lemma ClassifiedIsRebuilt(entries: seq<seq<Pattern>>, d: Descriptor, entry: nat, f: Captures, k: nat)
    requires AreEntries(entries) && Typed(d)
    requires Classified(Blocks(entries, 0), d) == Some((entry, f)) && FirstMatch(Blocks(entries, 0), d, k)
    requires "keys" in f && f["keys"].KeysV? ==> |f["keys"].keys| < TWO_32
    ensures entry < |entries| && AllSupplied(entries[entry], f) && RebuildAll(entries[entry], f).Some?
    ensures PairsKept(Blocks(entries, 0)[k].pattern, d) ==> d in RebuildAll(entries[entry], f).value
  {
    var b := Blocks(entries, 0)[k];
    EntriesGiveBlocks(entries);
    var first := ClassifiedByFirst(Blocks(entries, 0), d);
    BlockOfEntry(entries, 0, k);
    var i :| 0 <= i < |entries[entry]| && entries[entry][i] == b.pattern;
    MatchedIsBuilt(b.pattern, d, f);
    EntrySupplied(entries[entry], i, f);
    NoPanic(entries[entry], f);
    if PairsKept(b.pattern, d) {
      AllBuilt(entries[entry], f, i, d);
    }
  }

  // ---------------------------------------------------------------------------------------
  // Patterns that keep apart
  // ---------------------------------------------------------------------------------------

  /** What `p` builds never matches `q`: at some place the two ask for different things. */
  predicate Clash(p: Pattern, q: Pattern)
    decreases p, 0
  {
    p.variant != q.variant || |p.args| != |q.args| || ArgsClash(p.args, q.args)
  }

  predicate ArgsClash(a: seq<Arg>, b: seq<Arg>)
    requires |a| == |b|
    decreases a, 0
  {
    a != [] && (ArgClash(a[0], b[0]) || ArgsClash(a[1..], b[1..]))
  }

  predicate ArgClash(a: Arg, b: Arg)
    decreases a, 0
  {
    match a
    case MusigOf(_, _) => b.Binding? && b.kind.KeyBinding?
    case Binding(_, kind) =>
      kind.TimelockBinding? && b.Sub? && !IsTimelock(Spine(b.wrappers, b.inner.variant)[0])
    case Sub(wrappers, inner) =>
      if b.Sub? then
        || SpinesClash(Spine(wrappers, inner.variant), Spine(b.wrappers, b.inner.variant))
        || (wrappers == b.wrappers && Clash(inner, b.inner))
      else b.Binding? && b.kind.TimelockBinding? && !IsTimelock(Spine(wrappers, inner.variant)[0])
  }

  /** The variants from the outermost wrapper down to the wrapped pattern. */
  function Spine(wrappers: seq<Variant>, inner: Variant): (s: seq<Variant>)
    ensures |s| == |wrappers| + 1
  {
    wrappers + [inner]
  }

  predicate SpinesClash(s: seq<Variant>, t: seq<Variant>) {
    exists i :: 0 <= i < |s| && i < |t| && s[i] != t[i]
  }

  predicate IsTimelock(v: Variant) {
    v.Older? || v.After?
  }

  lemma {:induction false} SpineStops(wrappers: seq<Variant>, d: Descriptor, arg: Arg, i: nat)
    requires arg.Sub? && i <= |wrappers| && i <= |arg.wrappers|
    requires Spine(wrappers, d.variant)[i] != Spine(arg.wrappers, arg.inner.variant)[i]
    ensures MatchArg(arg, NodeV(Wrap(wrappers, d))).None?
    decreases i
  {
    if i > 0 {
      SpineStops(wrappers[1..], d, Sub(arg.wrappers[1..], arg.inner), i - 1);
    }
  }

  lemma ConstructedLength(args: seq<Arg>, f: Captures)
    requires ArgsSupplied(args, f) && ArgsConstructible(args, f)
    ensures |ConstructArgs(args, f)| == |args|
  {
  }

  /** Clashing patterns: no descriptor that the first builds, from any fields, matches the second. */
  lemma NeverMatches(p: Pattern, q: Pattern, f: Captures)
    requires Clash(p, q) && Supplied(p, f) && Constructible(p, f)
    ensures MatchPattern(q, Construct(p, f)).None?
    decreases p, 0
  {
    ConstructedLength(p.args, f);
    if p.variant == q.variant && |p.args| == |q.args| {
      ArgsNeverMatch(p.args, q.args, f);
    }
  }

  lemma ArgsNeverMatch(a: seq<Arg>, b: seq<Arg>, f: Captures)
    requires |a| == |b| && ArgsClash(a, b) && ArgsSupplied(a, f) && ArgsConstructible(a, f)
    ensures MatchArgs(b, ConstructArgs(a, f)).None?
    decreases a, 0
  {
    var values := ConstructArgs(a, f);
    ConstructedLength(a, f);
    assert values[0] == ConstructArg(a[0], f) && values[1..] == ConstructArgs(a[1..], f);
    if ArgClash(a[0], b[0]) {
      ArgNeverMatches(a[0], b[0], f);
    } else {
      ArgsNeverMatch(a[1..], b[1..], f);
    }
  }

  lemma ArgNeverMatches(a: Arg, b: Arg, f: Captures)
    requires ArgClash(a, b) && ArgSupplied(a, f) && ArgConstructible(a, f)
    ensures MatchArg(b, ConstructArg(a, f)).None?
    decreases a, 0
  {
    match a
    case MusigOf(_, _) =>
    case Binding(name, _) =>
      SpineStops([], ToDescriptor(f[name].lock), b, 0);
    case Sub(wrappers, inner) =>
      if b.Sub? {
        SubNeverMatches(a, b, f);
      }
  }

  lemma SubNeverMatches(a: Arg, b: Arg, f: Captures)
    requires a.Sub? && b.Sub? && ArgClash(a, b) && ArgSupplied(a, f) && ArgConstructible(a, f)
    ensures MatchArg(b, ConstructArg(a, f)).None?
    decreases a.inner, 1
  {
    var d := Construct(a.inner, f);
    if SpinesClash(Spine(a.wrappers, a.inner.variant), Spine(b.wrappers, b.inner.variant)) {
      var i :| 0 <= i <= |a.wrappers| && i <= |b.wrappers|
               && Spine(a.wrappers, a.inner.variant)[i] != Spine(b.wrappers, b.inner.variant)[i];
      SpineStops(a.wrappers, d, b, i);
    } else {
      UnwrapWrapped(a.wrappers, d);
      NeverMatches(a.inner, b.inner, f);
    }
  }

  /** The pattern of a block keeps apart from those before it, and from the others of its entry. */
  ghost predicate KeepsApart(blocks: seq<Block>, k: nat)
    requires k < |blocks|
  {
    forall i :: 0 <= i < |blocks| && i != k && (i < k || blocks[i].entry == blocks[k].entry) ==>
      Clash(blocks[k].pattern, blocks[i].pattern)
  }

  /**
   A descriptor that a class builds is classified as this class, with exactly its fields, if and only if the
   pattern that built it can capture them; for a pattern that keeps apart from the ones tried before it.
   */
  lemma BuiltIsClassified(blocks: seq<Block>, f: Captures, k: nat, d: Descriptor)
    requires AreBlocks(blocks) && k < |blocks| && KeepsApart(blocks, k)
    requires var p := blocks[k].pattern;
             && f.Keys == Names(p) && Supplied(p, f) && (UsesMusig(p) ==> GuardReads(f)) && Rebuild(p, f) == Built(d)
    ensures Typed(d)
    ensures Classified(blocks, d) == Some((blocks[k].entry, f)) <==> Capturable(blocks[k].pattern, f)
  {
    var p := blocks[k].pattern;
    BuiltTyped(p, f);
    MatchReturnsBuilt(p, f);
    CompiledMatches(p, d);
    var first := ClassifiedByFirst(blocks, d);
    forall i | 0 <= i < |blocks| && i != k && (i < k || blocks[i].entry == blocks[k].entry)
      ensures MatchPattern(blocks[i].pattern, d).None?
    {
      NeverMatches(p, blocks[i].pattern, f);
    }
  }
}
