/**
 The entries of apps/bitcoin/bip388/src/cleartext/specs/cleartext.toml whose patterns bind keys, thresholds
 and timelocks only: each is built back to the class it came from.
 */
module PatternSpec {
  import opened MachineInts
  import opened DescriptorPatterns
  import opened PatternCompiler
  import opened PatternMatching
  import opened PatternRebuild
  import opened PatternEntries

  function KeyOf(v: Variant, name: string): Pattern {
    Pattern(v, [Binding(name, KeyBinding)])
  }

  function KeysOf(v: Variant): Pattern {
    Pattern(v, [Binding("threshold", ThresholdBinding), Binding("keys", KeyListBinding)])
  }

  function Inside(v: Variant, inner: Pattern): Pattern {
    Pattern(v, [Sub([], inner)])
  }

  // ---------------------------------------------------------------------------------------
  // The entries
  // ---------------------------------------------------------------------------------------

  function SegwitMultisig(): seq<Pattern> {
    [Inside(Wsh, KeysOf(Multi)), Inside(Wsh, KeysOf(Sortedmulti)),
     Inside(Sh, Inside(Wsh, KeysOf(Multi))), Inside(Sh, Inside(Wsh, KeysOf(Sortedmulti)))]
  }

  /** LegacySingleSig, SegwitSingleSig and SegwitMultisig. */
  function TopLevel(): seq<seq<Pattern>> {
    [[KeyOf(Pkh, "key")], [KeyOf(Wpkh, "key"), Inside(Sh, KeyOf(Wpkh, "key"))], SegwitMultisig()]
  }

  function BothMustSign(): Pattern {
    Pattern(AndV, [Sub([V], KeyOf(Pk, "key1")), Sub([], KeyOf(Pk, "key2"))])
  }

  /** A script with several keys, or an aggregate. */
  function Multisig(): seq<Pattern> {
    [KeysOf(MultiA), Pattern(Pk, [MusigOf("threshold", "keys")])]
  }

  /** SingleSig, BothMustSign, SortedMultisig and Multisig. */
  function TapLeaf(): seq<seq<Pattern>> {
    [[KeyOf(Pk, "key")], [BothMustSign()], [KeysOf(SortedmultiA)], Multisig()]
  }

  // ---------------------------------------------------------------------------------------
  // They are entries
  // ---------------------------------------------------------------------------------------

  predicate HasShape(p: Pattern, fields: map<string, FieldKind>) {
    WellFormed(p) && Distinct(p) && MusigNamed(p) && Fields(p) == fields
  }

  const MULTISIG_FIELDS: map<string, FieldKind> := map["threshold" := NumField, "keys" := KeysField]

  predicate ArgHasShape(arg: Arg, kind: ArgKind, fields: map<string, FieldKind>) {
    ArgWellFormed(arg, kind) && ArgDistinct(arg) && ArgMusigNamed(arg) && FieldsOfArg(arg) == fields
  }

  lemma OneShape(v: Variant, arg: Arg, kind: ArgKind, fields: map<string, FieldKind>)
    requires ArgKinds(v) == [kind] && ArgHasShape(arg, kind, fields)
    ensures HasShape(Pattern(v, [arg]), fields)
  {
    var args := [arg];
    OneArg(arg, kind, args, ArgKinds(v));
    assert args[0] == arg && args[1..] == [];
    assert ArgsDistinct(args) && ArgsMusigNamed(args);
    assert FieldsOfArgs(args) == fields + map[] == fields;
  }

  lemma TwoShape(v: Variant, a: Arg, b: Arg, k: ArgKind, l: ArgKind, fields: map<string, FieldKind>, more: map<string, FieldKind>)
    requires ArgKinds(v) == [k, l] && ArgHasShape(a, k, fields) && ArgHasShape(b, l, more) && fields.Keys !! more.Keys
    ensures HasShape(Pattern(v, [a, b]), fields + more)
  {
    var args := [a, b];
    TwoArgs(a, b, k, l, args, ArgKinds(v));
    FieldsOfArgAreNames(a);
    FieldsOfArgAreNames(b);
    assert args[0] == a && args[1..] == [b] && [b][0] == b && [b][1..] == [];
    assert ArgsNames([b]) == ArgNames(b) && ArgsDistinct([b]) && ArgsMusigNamed([b]);
    assert ArgsDistinct(args) && ArgsMusigNamed(args);
    assert FieldsOfArgs([b]) == more + map[] == more;
    assert FieldsOfArgs(args) == fields + more;
  }

  lemma KeyShape(v: Variant, name: string)
    requires ArgKinds(v) == [KeyArg]
    ensures HasShape(KeyOf(v, name), map[name := KeyField])
  {
    OneShape(v, Binding(name, KeyBinding), KeyArg, map[name := KeyField]);
  }

  lemma KeysShape(v: Variant)
    requires ArgKinds(v) == [NumArg, KeyListArg]
    ensures HasShape(KeysOf(v), MULTISIG_FIELDS)
  {
    TwoShape(v, Binding("threshold", ThresholdBinding), Binding("keys", KeyListBinding), NumArg, KeyListArg,
             map["threshold" := NumField], map["keys" := KeysField]);
  }

  lemma InsideShape(v: Variant, inner: Pattern, fields: map<string, FieldKind>)
    requires ArgKinds(v) == [SubArg] && HasShape(inner, fields)
    ensures HasShape(Inside(v, inner), fields)
  {
    OneShape(v, Sub([], inner), SubArg, fields);
  }

  lemma MusigShape()
    ensures HasShape(Multisig()[1], MULTISIG_FIELDS)
  {
    OneShape(Pk, MusigOf("threshold", "keys"), KeyArg, MULTISIG_FIELDS);
  }

  lemma BothShape()
    ensures HasShape(BothMustSign(), map["key1" := KeyField, "key2" := KeyField])
  {
    KeyShape(Pk, "key1");
    KeyShape(Pk, "key2");
    assert "key1" != "key2" by { assert "key1"[3] != "key2"[3]; }
    TwoShape(AndV, Sub([V], KeyOf(Pk, "key1")), Sub([], KeyOf(Pk, "key2")), SubArg, SubArg,
             map["key1" := KeyField], map["key2" := KeyField]);
  }

  lemma OneEntry(patterns: seq<Pattern>, fields: map<string, FieldKind>)
    requires forall p :: p in patterns ==> HasShape(p, fields)
    ensures IsEntry(patterns)
  {
    assert forall i :: 0 <= i < |patterns| ==> HasShape(patterns[i], fields);
  }

  lemma SegwitMultisigShapes()
    ensures forall p :: p in SegwitMultisig() ==> HasShape(p, MULTISIG_FIELDS)
  {
    KeysShape(Multi);
    KeysShape(Sortedmulti);
    InsideShape(Wsh, KeysOf(Multi), MULTISIG_FIELDS);
    InsideShape(Wsh, KeysOf(Sortedmulti), MULTISIG_FIELDS);
    InsideShape(Sh, Inside(Wsh, KeysOf(Multi)), MULTISIG_FIELDS);
    InsideShape(Sh, Inside(Wsh, KeysOf(Sortedmulti)), MULTISIG_FIELDS);
  }

  lemma SegwitSingleSigIsEntry()
    ensures IsEntry([KeyOf(Wpkh, "key"), Inside(Sh, KeyOf(Wpkh, "key"))])
  {
    KeyShape(Wpkh, "key");
    InsideShape(Sh, KeyOf(Wpkh, "key"), map["key" := KeyField]);
    OneEntry([KeyOf(Wpkh, "key"), Inside(Sh, KeyOf(Wpkh, "key"))], map["key" := KeyField]);
  }

  lemma TopLevelAreEntries()
    ensures AreEntries(TopLevel())
  {
    KeyShape(Pkh, "key");
    OneEntry([KeyOf(Pkh, "key")], map["key" := KeyField]);
    SegwitSingleSigIsEntry();
    SegwitMultisigShapes();
    OneEntry(SegwitMultisig(), MULTISIG_FIELDS);
  }

  lemma MultisigIsEntry()
    ensures IsEntry(Multisig())
  {
    KeysShape(MultiA);
    MusigShape();
    OneEntry(Multisig(), MULTISIG_FIELDS);
  }

  lemma TapLeafAreEntries()
    ensures AreEntries(TapLeaf())
  {
    KeyShape(Pk, "key");
    OneEntry([KeyOf(Pk, "key")], map["key" := KeyField]);
    BothShape();
    OneEntry([BothMustSign()], map["key1" := KeyField, "key2" := KeyField]);
    KeysShape(SortedmultiA);
    OneEntry([KeysOf(SortedmultiA)], MULTISIG_FIELDS);
    MultisigIsEntry();
  }

  // ---------------------------------------------------------------------------------------
  // They keep apart
  // ---------------------------------------------------------------------------------------

  lemma InsideClash(v: Variant, p: Pattern, q: Pattern)
    requires p.variant != q.variant || Clash(p, q)
    ensures Clash(Inside(v, p), Inside(v, q))
  {
    var (a, b) := (Inside(v, p).args, Inside(v, q).args);
    if p.variant != q.variant {
      assert Spine([], p.variant)[0] != Spine([], q.variant)[0];
    }
    assert ArgClash(a[0], b[0]);
    assert ArgsClash(a, b);
  }

  /** The four patterns of SegwitMultisig, two of which are `wsh` and two `sh`, keep apart. */
  lemma SegwitMultisigClash(i: nat, j: nat)
    requires i < 4 && j < 4 && i != j
    ensures Clash(SegwitMultisig()[i], SegwitMultisig()[j])
  {
    var (multi, sorted) := (KeysOf(Multi), KeysOf(Sortedmulti));
    InsideClash(Wsh, multi, sorted);
    InsideClash(Wsh, sorted, multi);
    InsideClash(Sh, Inside(Wsh, multi), Inside(Wsh, sorted));
    InsideClash(Sh, Inside(Wsh, sorted), Inside(Wsh, multi));
  }

  lemma OneMore(patterns: seq<Pattern>, rest: seq<seq<Pattern>>, c: nat)
    ensures Blocks([patterns] + rest, c)
         == seq(|patterns|, i requires 0 <= i < |patterns| => Block(c, patterns[i])) + Blocks(rest, c + 1)
  {
    assert ([patterns] + rest)[1..] == rest;
  }

  lemma TopLevelBlocks()
    ensures Blocks(TopLevel(), 0)
         == [Block(0, KeyOf(Pkh, "key")), Block(1, KeyOf(Wpkh, "key")), Block(1, Inside(Sh, KeyOf(Wpkh, "key")))]
            + seq(4, i requires 0 <= i < 4 => Block(2, SegwitMultisig()[i]))
  {
    var (legacy, single) := (TopLevel()[0], TopLevel()[1]);
    OneMore(SegwitMultisig(), [], 2);
    OneMore(single, [SegwitMultisig()], 1);
    OneMore(legacy, [single, SegwitMultisig()], 0);
    assert TopLevel() == [legacy] + [single, SegwitMultisig()];
    assert [single, SegwitMultisig()] == [single] + [SegwitMultisig()];
    assert [SegwitMultisig()] == [SegwitMultisig()] + [];
  }

  lemma TopLevelKeepsApart(k: nat)
    requires k < |Blocks(TopLevel(), 0)|
    ensures KeepsApart(Blocks(TopLevel(), 0), k)
  {
    TopLevelBlocks();
    var blocks := Blocks(TopLevel(), 0);
    forall i | 0 <= i < |blocks| && i != k ensures Clash(blocks[k].pattern, blocks[i].pattern) {
      if i >= 3 && k >= 3 {
        SegwitMultisigClash(k - 3, i - 3);
      } else if i == 2 || k == 2 {
        InsideClash(Sh, KeyOf(Wpkh, "key"), Inside(Wsh, KeysOf(Multi)));
        InsideClash(Sh, KeyOf(Wpkh, "key"), Inside(Wsh, KeysOf(Sortedmulti)));
        InsideClash(Sh, Inside(Wsh, KeysOf(Multi)), KeyOf(Wpkh, "key"));
        InsideClash(Sh, Inside(Wsh, KeysOf(Sortedmulti)), KeyOf(Wpkh, "key"));
      }
    }
  }

  lemma TapLeafBlocks()
    ensures Blocks(TapLeaf(), 0)
         == [Block(0, KeyOf(Pk, "key")), Block(1, BothMustSign()), Block(2, KeysOf(SortedmultiA)),
             Block(3, Multisig()[0]), Block(3, Multisig()[1])]
  {
    var (single, both, sorted) := (TapLeaf()[0], TapLeaf()[1], TapLeaf()[2]);
    OneMore(Multisig(), [], 3);
    OneMore(sorted, [Multisig()], 2);
    OneMore(both, [sorted, Multisig()], 1);
    OneMore(single, [both, sorted, Multisig()], 0);
    assert TapLeaf() == [single] + [both, sorted, Multisig()];
    assert [both, sorted, Multisig()] == [both] + [sorted, Multisig()];
    assert [sorted, Multisig()] == [sorted] + [Multisig()];
    assert [Multisig()] == [Multisig()] + [];
  }

  lemma TapLeafKeepsApart(k: nat)
    requires k < |Blocks(TapLeaf(), 0)|
    ensures KeepsApart(Blocks(TapLeaf(), 0), k)
  {
    TapLeafBlocks();
    var (aggregate, single) := (Multisig()[1], KeyOf(Pk, "key"));
    assert ArgClash(aggregate.args[0], single.args[0]);
    assert ArgsClash(aggregate.args, single.args);
  }

  // ---------------------------------------------------------------------------------------
  // What a class builds is classified as this class
  // ---------------------------------------------------------------------------------------

  /**
   A descriptor that any of these classes builds is classified as this class, with exactly its fields, if and
   only if the pattern that built it can capture them.
   */
  lemma BuiltBySpec(entries: seq<seq<Pattern>>, f: Captures, k: nat, d: Descriptor)
    requires entries == TopLevel() || entries == TapLeaf()
    requires k < |Blocks(entries, 0)|
    requires var p := Blocks(entries, 0)[k].pattern;
             && f.Keys == Names(p) && Supplied(p, f) && (UsesMusig(p) ==> GuardReads(f)) && Rebuild(p, f) == Built(d)
    ensures var b := Blocks(entries, 0)[k];
            Classified(Blocks(entries, 0), d) == Some((b.entry, f)) <==> Capturable(b.pattern, f)
  {
    if entries == TopLevel() {
      TopLevelAreEntries();
      TopLevelKeepsApart(k);
    } else {
      TapLeafAreEntries();
      TapLeafKeepsApart(k);
    }
    EntriesGiveBlocks(entries);
    BuiltIsClassified(Blocks(entries, 0), f, k, d);
  }

  lemma KeysCapturable(v: Variant, f: Captures)
    requires Supplied(KeysOf(v), f)
    ensures "keys" in f && f["keys"].KeysV? && (Capturable(KeysOf(v), f) <==> AllPlain(f["keys"].keys))
  {
    var args := KeysOf(v).args;
    assert args[1..] == [args[1]] && args[1..][1..] == [];
    assert ArgSupplied(args[0], f) && ArgSupplied(args[1], f);
  }

  lemma InsideCapturable(v: Variant, inner: Pattern, f: Captures)
    ensures Supplied(Inside(v, inner), f) <==> Supplied(inner, f)
    ensures Supplied(inner, f) ==> (Capturable(Inside(v, inner), f) <==> Capturable(inner, f))
  {
    var (arg, args) := (Sub([], inner), Inside(v, inner).args);
    assert args == [arg] && args[1..] == [];
    assert ArgSupplied(arg, f) <==> Supplied(arg.inner, f);
    assert ArgsSupplied(args, f) <==> ArgSupplied(arg, f);
    assert Inside(v, inner).args == args;
    if Supplied(inner, f) {
      assert ArgCapturable(arg, f) <==> Capturable(arg.inner, f);
      assert ArgsCapturable(args, f) <==> ArgCapturable(arg, f);
    }
  }

  /** The wrapped scripts of SegwitMultisig capture what they were built from if no key is an aggregate. */
  lemma SegwitMultisigCapturable(f: Captures, i: nat)
    requires i < 4 && Supplied(SegwitMultisig()[i], f)
    ensures "keys" in f && f["keys"].KeysV?
    ensures Capturable(SegwitMultisig()[i], f) <==> AllPlain(f["keys"].keys)
  {
    var v := if i % 2 == 0 then Multi else Sortedmulti;
    InsideCapturable(Wsh, KeysOf(v), f);
    InsideCapturable(Sh, Inside(Wsh, KeysOf(v)), f);
    KeysCapturable(v, f);
  }

  /** Every pattern of SegwitMultisig builds a descriptor that is classified back exactly if no key is an aggregate. */
  lemma SegwitMultisigReturns(f: Captures, i: nat)
    requires i < 4 && f.Keys == {"threshold", "keys"} && f["threshold"].NumV? && f["keys"].KeysV?
    ensures Supplied(SegwitMultisig()[i], f) && Rebuild(SegwitMultisig()[i], f).Built?
    ensures Classified(Blocks(TopLevel(), 0), Rebuild(SegwitMultisig()[i], f).descriptor) == Some((2, f))
       <==> AllPlain(f["keys"].keys)
  {
    var p := SegwitMultisig()[i];
    SegwitMultisigSupplied(f, i);
    SegwitMultisigCapturable(f, i);
    TopLevelBlocks();
    assert Blocks(TopLevel(), 0)[3 + i] == Block(2, p);
    NamesOfSegwitMultisig(i);
    BuiltBySpec(TopLevel(), f, 3 + i, Rebuild(p, f).descriptor);
  }

  lemma SegwitMultisigSupplied(f: Captures, i: nat)
    requires i < 4 && "threshold" in f && f["threshold"].NumV? && "keys" in f && f["keys"].KeysV?
    ensures Supplied(SegwitMultisig()[i], f) && (UsesMusig(SegwitMultisig()[i]) ==> GuardReads(f))
    ensures Rebuild(SegwitMultisig()[i], f).Built?
  {
    var p := SegwitMultisig()[i];
    SegwitMultisigShapes();
    SuppliedByFields(p, f);
    NoAggregate(i);
    NamedConstructible(p, f);
  }

  lemma NoAggregate(i: nat)
    requires i < 4
    ensures !UsesMusig(SegwitMultisig()[i])
  {
    var v := if i % 2 == 0 then Multi else Sortedmulti;
    var args := KeysOf(v).args;
    assert args[1..] == [args[1]] && args[1..][1..] == [];
    assert !UsesMusig(KeysOf(v));
    InsideUsesNone(Wsh, KeysOf(v));
    InsideUsesNone(Sh, Inside(Wsh, KeysOf(v)));
  }

  lemma InsideUsesNone(v: Variant, inner: Pattern)
    requires !UsesMusig(inner)
    ensures !UsesMusig(Inside(v, inner))
  {
    var (arg, args) := (Sub([], inner), Inside(v, inner).args);
    assert args == [arg] && args[1..] == [];
    assert ArgUsesMusig(arg) <==> UsesMusig(arg.inner);
    assert ArgsUseMusig(args) <==> ArgUsesMusig(arg);
    assert Inside(v, inner).args == args;
  }

  lemma NamesOfSegwitMultisig(i: nat)
    requires i < 4
    ensures Names(SegwitMultisig()[i]) == {"threshold", "keys"} && MusigNamed(SegwitMultisig()[i])
  {
    SegwitMultisigShapes();
    FieldsAreNames(SegwitMultisig()[i]);
  }

  // ---------------------------------------------------------------------------------------
  // Aggregates
  // ---------------------------------------------------------------------------------------

  lemma MultisigCapturable(f: Captures)
    requires AllSupplied(Multisig(), f)
    ensures Capturable(Multisig()[1], f) <==>
              f["threshold"].num == Count(f["keys"].keys) && SharePair(f["keys"].keys)
  {
    var musig := Multisig()[1];
    assert musig.args[1..] == [];
    assert ArgSupplied(musig.args[0], f);
  }

  /**
   All keys of a multisig must sign: the class also builds an aggregate. It is classified as this class
   exactly when the keys share their derivation pair; otherwise the pairs of all but the first are lost.
   */
  lemma AggregateOfMultisig(f: Captures)
    requires f.Keys == {"threshold", "keys"} && AllSupplied(Multisig(), f) && GuardReads(f) && Guard(f)
    requires |f["keys"].keys| < TWO_32
    ensures Rebuild(Multisig()[1], f).Built?
    ensures Classified(Blocks(TapLeaf(), 0), Rebuild(Multisig()[1], f).descriptor) == Some((3, f))
       <==> SharePair(f["keys"].keys)
  {
    var p := Multisig()[1];
    MusigShape();
    FieldsAreNames(p);
    NamedConstructible(p, f);
    MultisigCapturable(f);
    CountIsExact(f["keys"].keys);
    TapLeafBlocks();
    BuiltBySpec(TapLeaf(), f, 4, Rebuild(p, f).descriptor);
  }

  /** Two keys with different pairs, both of which must sign. */
  function TwoPairs(): Captures {
    map["threshold" := NumV(2), "keys" := KeysV([Key(PlainKey(0), 0, 1), Key(PlainKey(1), 2, 3)])]
  }

  lemma MultisigSupplied(f: Captures)
    requires GuardReads(f)
    ensures AllSupplied(Multisig(), f)
  {
    var (multi, musig) := (Multisig()[0], Multisig()[1]);
    assert multi.args[1..] == [multi.args[1]] && multi.args[1..][1..] == [] && musig.args[1..] == [];
    assert ArgSupplied(multi.args[0], f) && ArgSupplied(multi.args[1], f) && ArgSupplied(musig.args[0], f);
  }

  /** The aggregate built for them is a descriptor of another class. */
  lemma AggregateForgetsPairs()
    ensures AllSupplied(Multisig(), TwoPairs()) && Rebuild(Multisig()[1], TwoPairs()).Built?
    ensures Classified(Blocks(TapLeaf(), 0), Rebuild(Multisig()[1], TwoPairs()).descriptor) != Some((3, TwoPairs()))
  {
    var f := TwoPairs();
    MultisigSupplied(f);
    assert f["keys"].keys[1].num1 != f["keys"].keys[0].num1;
    AggregateOfMultisig(f);
  }
}
