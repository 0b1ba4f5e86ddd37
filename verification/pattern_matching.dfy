/** The generated code matches what the pattern matches, and captures what it captures. */
module PatternMatching {
  import opened MachineInts
  import opened DescriptorPatterns
  import opened PatternCompiler

  // ---------------------------------------------------------------------------------------
  // What lowered code promises
  // ---------------------------------------------------------------------------------------

  /** No counted variable from `c` on is in use. */
  ghost predicate Fresh(env: Env, c: nat) {
    forall t: nat :: Temp(t) in env ==> t < c
  }

  ghost predicate NoLocks(env: Env, names: set<string>) {
    forall n :: n in names ==> TimelockOf(n) !in env
  }

  /** A variable that lowering from `c` to `next` may bind. */
  predicate Allotted(id: Ident, c: nat, next: nat, names: set<string>) {
    match id
    case Root => false
    case Temp(n) => c <= n < next
    case TimelockOf(name) => name in names
  }

  /** Variables keep their values, and only allotted ones are added. */
  ghost predicate Grows(env: Env, after: Env, c: nat, next: nat, names: set<string>) {
    && (forall id :: id in env ==> id in after && after[id] == env[id])
    && (forall id :: id in after && id !in env ==> Allotted(id, c, next, names))
  }

  /** The variables of the preamble follow one another. */
  ghost predicate Ordered(lets: seq<Let>, c: nat, next: nat)
    decreases |lets|
  {
    if lets == [] then c <= next
    else
      && lets[0].keys.Temp? && c <= lets[0].keys.n && lets[0].count == Temp(lets[0].keys.n + 1)
      && Ordered(lets[1..], lets[0].keys.n + 2, next)
  }

  ghost predicate LetReady(l: Let, env: Env) {
    && l.from in env && env[l.from].KeyV? && env[l.from].key.IsMusig()
    && l.keys !in env && l.count !in env
  }

  /** The preamble can run: its sources are bound, and its own variables are not. */
  ghost predicate Ready(lets: seq<Let>, env: Env) {
    forall l :: l in lets ==> LetReady(l, env)
  }

  ghost predicate LetDenotes(l: Let, env: Env, id: Ident, v: Value) {
    && l.from in env && env[l.from].KeyV? && env[l.from].key.IsMusig()
    && ((id == l.keys && v == KeysV(KeysOfMusig(env[l.from].key)))
        || (id == l.count && v == NumV(Count(KeysOfMusig(env[l.from].key)))))
  }

  /** After the preamble the variable will hold `v`. */
  ghost predicate Denotes(lets: seq<Let>, env: Env, id: Ident, v: Value) {
    (id in env && env[id] == v) || exists l :: l in lets && LetDenotes(l, env, id, v)
  }

  ghost predicate Holds(l: Lowered, env: Env, f: Captures) {
    l.bindings.Keys == f.Keys && forall name :: name in f ==> Denotes(l.preamble, env, l.bindings[name], f[name])
  }

  /** The steps succeed exactly when there is a match, and then the bindings denote its captures. */
  ghost predicate Works(l: Lowered, env: Env, c: nat, names: set<string>, m: Option<Captures>) {
    match Run(l.steps, env)
    case None => m.None?
    case Some(after) => m.Some? && Grows(env, after, c, l.next, names) && Ready(l.preamble, after) && Holds(l, after, m.value)
  }

  function Both(a: Option<Captures>, b: Option<Captures>): Option<Captures> {
    if a.Some? && b.Some? then Some(a.value + b.value) else None
  }

  // ---------------------------------------------------------------------------------------
  // One piece after the other
  // ---------------------------------------------------------------------------------------

  lemma {:induction false} OrderedJoin(a: seq<Let>, b: seq<Let>, c: nat, m: nat, n: nat)
    requires Ordered(a, c, m) && Ordered(b, m, n)
    ensures Ordered(a + b, c, n)
    decreases |a|
  {
    if a == [] {
      assert a + b == b;
      OrderedFrom(b, c, m, n);
    } else {
      assert (a + b)[1..] == a[1..] + b;
      OrderedJoin(a[1..], b, a[0].keys.n + 2, m, n);
    }
  }

  lemma OrderedFrom(b: seq<Let>, c: nat, m: nat, n: nat)
    requires Ordered(b, m, n) && c <= m
    ensures Ordered(b, c, n)
  {
  }

  lemma {:induction false} OrderedBounds(lets: seq<Let>, c: nat, next: nat, l: Let)
    requires Ordered(lets, c, next) && l in lets
    ensures c <= next && l.keys.Temp? && l.count.Temp? && c <= l.keys.n && c <= l.count.n
    ensures l.keys.n < next && l.count.n < next
    decreases |lets|
  {
    OrderedSpan(lets[1..], lets[0].keys.n + 2, next);
    if l != lets[0] {
      OrderedBounds(lets[1..], lets[0].keys.n + 2, next, l);
    }
  }

  lemma {:induction false} OrderedSpan(lets: seq<Let>, c: nat, next: nat)
    requires Ordered(lets, c, next)
    ensures c <= next
    decreases |lets|
  {
    if lets != [] {
      OrderedSpan(lets[1..], lets[0].keys.n + 2, next);
    }
  }

  lemma GrowsFresh(env: Env, after: Env, c: nat, next: nat, names: set<string>)
    requires Fresh(env, c) && Grows(env, after, c, next, names) && c <= next
    ensures Fresh(after, next)
  {
  }

  lemma GrowsTwice(env: Env, mid: Env, after: Env, c: nat, m: nat, n: nat, na: set<string>, nb: set<string>)
    requires Grows(env, mid, c, m, na) && Grows(mid, after, m, n, nb) && c <= m <= n
    ensures Grows(env, after, c, n, na + nb)
  {
  }

  /** The first piece's preamble stays ready when the second piece has run. */
  lemma ReadyLater(lets: seq<Let>, mid: Env, after: Env, c: nat, m: nat, n: nat, names: set<string>)
    requires Ready(lets, mid) && Ordered(lets, c, m) && Grows(mid, after, m, n, names)
    ensures Ready(lets, after)
  {
    forall l | l in lets ensures LetReady(l, after) {
      OrderedBounds(lets, c, m, l);
      assert LetReady(l, mid);
    }
  }

  lemma DenotesLater(lets: seq<Let>, more: seq<Let>, mid: Env, after: Env, id: Ident, v: Value)
    requires Denotes(lets, mid, id, v) && forall k :: k in mid ==> k in after && after[k] == mid[k]
    ensures Denotes(lets + more, after, id, v) && Denotes(more + lets, after, id, v)
  {
    if !(id in mid && mid[id] == v) {
      var l :| l in lets && LetDenotes(l, mid, id, v);
      assert l in lets + more && l in more + lets && LetDenotes(l, after, id, v);
    }
  }

  lemma HoldsTogether(a: Lowered, b: Lowered, mid: Env, after: Env, f: Captures, g: Captures)
    requires Holds(a, mid, f) && Holds(b, after, g) && forall k :: k in mid ==> k in after && after[k] == mid[k]
    ensures Holds(Join(a, b), after, f + g)
  {
    var joined := Join(a, b);
    forall name | name in f + g
      ensures Denotes(joined.preamble, after, joined.bindings[name], (f + g)[name])
    {
      if name in g {
        DenotesLater(b.preamble, a.preamble, after, after, b.bindings[name], g[name]);
      } else {
        DenotesLater(a.preamble, b.preamble, mid, after, a.bindings[name], f[name]);
      }
    }
  }

  lemma WorksTogether(a: Lowered, b: Lowered, env: Env, c: nat, na: set<string>, nb: set<string>,
                      ma: Option<Captures>, mb: Option<Captures>)
    requires Works(a, env, c, na, ma) && Ordered(a.preamble, c, a.next) && a.next <= b.next
    requires Run(a.steps, env).Some? ==> Works(b, Run(a.steps, env).value, a.next, nb, mb)
    ensures Works(Join(a, b), env, c, na + nb, Both(ma, mb))
  {
    RunAppend(a.steps, b.steps, env);
    if ma.Some? && mb.Some? {
      var mid := Run(a.steps, env).value;
      var after := Run(b.steps, mid).value;
      OrderedSpan(a.preamble, c, a.next);
      GrowsTwice(env, mid, after, c, a.next, b.next, na, nb);
      ReadyLater(a.preamble, mid, after, c, a.next, b.next, nb);
      HoldsTogether(a, b, mid, after, ma.value, mb.value);
    }
  }

  // ---------------------------------------------------------------------------------------
  // Counters only grow
  // ---------------------------------------------------------------------------------------

  lemma {:induction false} WrappersOrdered(wrappers: seq<Variant>, t: Ident, c: nat)
    ensures LowerWrappers(wrappers, t, c).preamble == [] && LowerWrappers(wrappers, t, c).next == c + |wrappers|
  {
    if wrappers != [] {
      WrappersOrdered(wrappers[1..], Temp(c), c + 1);
    }
  }

  lemma PatternOrdered(p: Pattern, matchee: Ident, c: nat)
    ensures var l := LowerPattern(p, matchee, c); c <= l.next && Ordered(l.preamble, c, l.next)
    decreases p, 0
  {
    var rest := LowerArgs(p.args, Temps(c, |p.args|), c + |p.args|);
    ArgsOrdered(p.args, Temps(c, |p.args|), c + |p.args|);
    assert [] + rest.preamble == rest.preamble;
    OrderedFrom(rest.preamble, c, c + |p.args|, rest.next);
  }

  lemma ArgsOrdered(args: seq<Arg>, temps: seq<Ident>, c: nat)
    requires |temps| == |args|
    ensures var l := LowerArgs(args, temps, c); c <= l.next && Ordered(l.preamble, c, l.next)
    decreases args, 0
  {
    if args != [] {
      var first := LowerArg(args[0], temps[0], c);
      ArgOrdered(args[0], temps[0], c);
      ArgsOrdered(args[1..], temps[1..], first.next);
      OrderedJoin(first.preamble, LowerArgs(args[1..], temps[1..], first.next).preamble, c, first.next,
                  LowerArgs(args[1..], temps[1..], first.next).next);
    }
  }

  lemma ArgOrdered(arg: Arg, t: Ident, c: nat)
    ensures var l := LowerArg(arg, t, c); c <= l.next && Ordered(l.preamble, c, l.next)
    decreases arg, 0
  {
    if arg.Sub? {
      var m := c + |arg.wrappers|;
      var inner := LowerPattern(arg.inner, Below(arg.wrappers, t, c), m);
      WrappersOrdered(arg.wrappers, t, c);
      PatternOrdered(arg.inner, Below(arg.wrappers, t, c), m);
      assert [] + inner.preamble == inner.preamble;
      OrderedFrom(inner.preamble, c, m, inner.next);
    }
  }

  // ---------------------------------------------------------------------------------------
  // Lowering is right
  // ---------------------------------------------------------------------------------------

  ghost predicate Bound(env: Env, temps: seq<Ident>, values: seq<Value>)
    requires |temps| == |values|
  {
    forall i :: 0 <= i < |temps| ==> temps[i] in env && env[temps[i]] == values[i]
  }

  lemma {:induction false} BindTemps(env: Env, c: nat, values: seq<Value>)
    requires Fresh(env, c)
    ensures var after := BindAll(env, Temps(c, |values|), values);
            Grows(env, after, c, c + |values|, {}) && Bound(after, Temps(c, |values|), values)
    decreases |values|
  {
    if values != [] {
      var next := env[Temp(c) := values[0]];
      var temps := Temps(c, |values|);
      assert temps[0] == Temp(c);
      assert temps[1..] == Temps(c + 1, |values| - 1);
      BindTemps(next, c + 1, values[1..]);
      var after := BindAll(next, temps[1..], values[1..]);
      assert BindAll(env, temps, values) == after;
      forall i | 0 <= i < |temps| ensures temps[i] in after && after[temps[i]] == values[i] {
        if i > 0 {
          assert temps[i] == temps[1..][i - 1] && values[i] == values[1..][i - 1];
        }
      }
    }
  }

  /** A test of a variant binds the fields of the node. */
  lemma TestVariantWorks(matchee: Ident, variant: Variant, n: nat, env: Env, c: nat, d: Descriptor)
    requires Fresh(env, c) && matchee in env && env[matchee] == NodeV(d)
    requires d.variant == variant ==> |d.fields| == n
    ensures var l := Lowered([TestVariant(matchee, variant, Temps(c, n))], [], map[], c + n);
            && Works(l, env, c, {}, if d.variant == variant then Some(map[]) else None)
            && (d.variant == variant ==> Bound(Run(l.steps, env).value, Temps(c, n), d.fields))
  {
    RunOne(TestVariant(matchee, variant, Temps(c, n)), env);
    if d.variant == variant {
      BindTemps(env, c, d.fields);
    }
  }

  lemma RunOne(step: Step, env: Env)
    ensures Run([step], env) == RunStep(step, env)
  {
    assert [step][1..] == [];
  }

  lemma TypedFields(p: Pattern, d: Descriptor)
    requires WellFormed(p) && Typed(d) && d.variant == p.variant
    ensures |d.fields| == |p.args| && FieldsTyped(d.fields, ArgKinds(p.variant))
  {
  }

  /** A piece without captures that succeeds, and then another one. */
  lemma ThenWorks(test: Lowered, rest: Lowered, env: Env, c: nat, names: set<string>, m: Option<Captures>)
    requires Works(test, env, c, {}, Some(map[])) && test.preamble == [] && c <= test.next <= rest.next
    requires Works(rest, Run(test.steps, env).value, test.next, names, m)
    ensures Works(Join(test, rest), env, c, names, m)
  {
    WorksTogether(test, rest, env, c, {}, names, Some(map[]), m);
    if m.Some? {
      assert map[] + m.value == m.value;
    }
    assert {} + names == names;
  }

  /** A piece that fails, whatever comes after it. */
  lemma FailsAtOnce(test: Lowered, rest: Lowered, env: Env, c: nat, names: set<string>)
    requires Run(test.steps, env).None?
    ensures Works(Join(test, rest), env, c, names, None)
  {
    RunAppend(test.steps, rest.steps, env);
  }

  /** The test of the pattern's variant, and then the steps of its arguments. */
  lemma LoweredIs(p: Pattern, matchee: Ident, c: nat)
    ensures LowerPattern(p, matchee, c)
         == Join(Lowered([TestVariant(matchee, p.variant, Temps(c, |p.args|))], [], map[], c + |p.args|),
                 LowerArgs(p.args, Temps(c, |p.args|), c + |p.args|))
  {
  }

  /** After a test that binds the fields of a matching node, the whole works as the arguments match these fields. */
  lemma ArgumentsFollow(p: Pattern, temps: seq<Ident>, c: nat, env: Env, d: Descriptor, test: Lowered, rest: Lowered)
    requires WellFormed(p) && Distinct(p) && Typed(d) && d.variant == p.variant && |d.fields| == |p.args| == |temps|
    requires Fresh(env, c) && NoLocks(env, ArgsNames(p.args)) && test.preamble == [] && c <= test.next
    requires Works(test, env, c, {}, Some(map[])) && Bound(Run(test.steps, env).value, temps, d.fields)
    requires rest == LowerArgs(p.args, temps, test.next)
    ensures Works(Join(test, rest), env, c, ArgsNames(p.args), MatchArgs(p.args, d.fields))
    decreases p, 0
  {
    TypedFields(p, d);
    AfterTest(test, env, c, ArgsNames(p.args));
    ArgsWork(p.args, ArgKinds(p.variant), temps, test.next, Run(test.steps, env).value, d.fields);
    ArgsOrdered(p.args, temps, test.next);
    ThenWorks(test, rest, env, c, ArgsNames(p.args), MatchArgs(p.args, d.fields));
  }

  /** A test binds no timelock, and only the next counted variables. */
  lemma AfterTest(test: Lowered, env: Env, c: nat, names: set<string>)
    requires Works(test, env, c, {}, Some(map[])) && Fresh(env, c) && NoLocks(env, names) && c <= test.next
    ensures Fresh(Run(test.steps, env).value, test.next) && NoLocks(Run(test.steps, env).value, names)
  {
  }

  lemma PatternWorks(p: Pattern, matchee: Ident, c: nat, env: Env, d: Descriptor)
    requires WellFormed(p) && Distinct(p) && Typed(d)
    requires Fresh(env, c) && NoLocks(env, Names(p)) && matchee in env && env[matchee] == NodeV(d)
    ensures Works(LowerPattern(p, matchee, c), env, c, Names(p), MatchPattern(p, d))
    decreases p, 1
  {
    var (n, temps) := (|p.args|, Temps(c, |p.args|));
    var test := Lowered([TestVariant(matchee, p.variant, temps)], [], map[], c + n);
    LoweredIs(p, matchee, c);
    if d.variant == p.variant {
      TypedFields(p, d);
      TestVariantWorks(matchee, p.variant, n, env, c, d);
      ArgumentsFollow(p, temps, c, env, d, test, LowerArgs(p.args, temps, c + n));
    } else {
      TestVariantWorks(matchee, p.variant, n, env, c, d);
      FailsAtOnce(test, LowerArgs(p.args, temps, c + n), env, c, Names(p));
    }
  }

  lemma ArgsWork(args: seq<Arg>, kinds: seq<ArgKind>, temps: seq<Ident>, c: nat, env: Env, fields: seq<Value>)
    requires |temps| == |args| == |fields| && ArgsWellFormed(args, kinds) && ArgsDistinct(args)
    requires FieldsTyped(fields, kinds)
    requires Fresh(env, c) && NoLocks(env, ArgsNames(args)) && Bound(env, temps, fields)
    ensures Works(LowerArgs(args, temps, c), env, c, ArgsNames(args), MatchArgs(args, fields))
    decreases args, 0
  {
    if args != [] {
      var first := LowerArg(args[0], temps[0], c);
      var rest := LowerArgs(args[1..], temps[1..], first.next);
      var (m, mr) := (MatchArg(args[0], fields[0]), MatchArgs(args[1..], fields[1..]));
      ArgOrdered(args[0], temps[0], c);
      ArgsOrdered(args[1..], temps[1..], first.next);
      ArgWorks(args[0], kinds[0], temps[0], c, env, fields[0]);
      if m.Some? {
        var next := Run(first.steps, env).value;
        GrowsFresh(env, next, c, first.next, ArgNames(args[0]));
        ArgsWork(args[1..], kinds[1..], temps[1..], first.next, next, fields[1..]);
      }
      WorksTogether(first, rest, env, c, ArgNames(args[0]), ArgsNames(args[1..]), m, mr);
    }
  }

  lemma ArgWorks(arg: Arg, kind: ArgKind, t: Ident, c: nat, env: Env, v: Value)
    requires ArgWellFormed(arg, kind) && ArgDistinct(arg) && ValueTyped(v, kind)
    requires Fresh(env, c) && NoLocks(env, ArgNames(arg)) && t in env && env[t] == v
    ensures Works(LowerArg(arg, t, c), env, c, ArgNames(arg), MatchArg(arg, v))
    decreases arg, 1
  {
    match arg
    case Binding(name, bkind) => BindingWorks(name, bkind, kind, t, c, env, v);
    case MusigOf(threshold, keys) => MusigWorks(threshold, keys, t, c, env, v);
    case Sub(_, _) => SubWorks(arg, t, c, env, v);
  }

  lemma SubWorks(arg: Arg, t: Ident, c: nat, env: Env, v: Value)
    requires arg.Sub? && ArgWellFormed(arg, SubArg) && ArgDistinct(arg) && ValueTyped(v, SubArg)
    requires Fresh(env, c) && NoLocks(env, ArgNames(arg)) && t in env && env[t] == v
    ensures Works(LowerArg(arg, t, c), env, c, ArgNames(arg), MatchArg(arg, v))
    decreases arg, 0
  {
    var (wrappers, inner) := (arg.wrappers, arg.inner);
    var (below, m) := (Below(wrappers, t, c), c + |wrappers|);
    var (outer, lowered) := (LowerWrappers(wrappers, t, c), LowerPattern(inner, below, m));
    WrappersOrdered(wrappers, t, c);
    WrappersWork(wrappers, t, c, env, v);
    var u := Unwrapped(wrappers, v);
    if u.Some? {
      var next := Run(outer.steps, env).value;
      GrowsFresh(env, next, c, m, {});
      PatternOrdered(inner, below, m);
      PatternWorks(inner, below, m, next, u.value.node);
      ThenWorks(outer, lowered, env, c, Names(inner), MatchPattern(inner, u.value.node));
    } else {
      FailsAtOnce(outer, lowered, env, c, Names(inner));
    }
  }

  lemma BindingWorks(name: string, bkind: BindingKind, kind: ArgKind, t: Ident, c: nat, env: Env, v: Value)
    requires ArgWellFormed(Binding(name, bkind), kind) && ValueTyped(v, kind)
    requires NoLocks(env, {name}) && t in env && env[t] == v
    ensures Works(LowerArg(Binding(name, bkind), t, c), env, c, {name}, MatchArg(Binding(name, bkind), v))
  {
    if bkind.TimelockBinding? {
      TimelockWorks(name, t, c, env, v);
    } else if bkind.KeyBinding? {
      RunOne(PlainKeyStep(t), env);
    } else if bkind.KeyListBinding? {
      RunOne(PlainKeyListStep(t), env);
    }
  }

  lemma TimelockWorks(name: string, t: Ident, c: nat, env: Env, v: Value)
    requires NoLocks(env, {name}) && t in env && env[t] == v && v.NodeV?
    ensures Works(LowerArg(Binding(name, TimelockBinding), t, c), env, c, {name}, MatchArg(Binding(name, TimelockBinding), v))
  {
    RunOne(ClassifyTimelock(t, TimelockOf(name)), env);
    assert TimelockOf(name) !in env;
  }

  lemma MusigWorks(threshold: string, keys: string, t: Ident, c: nat, env: Env, v: Value)
    requires threshold != keys && Fresh(env, c) && t in env && env[t] == v && v.KeyV?
    ensures Works(LowerArg(MusigOf(threshold, keys), t, c), env, c, {threshold, keys}, MatchArg(MusigOf(threshold, keys), v))
  {
    var l := LowerArg(MusigOf(threshold, keys), t, c);
    assert l.steps[1..] == [];
    if v.key.IsMusig() {
      var after := env[Temp(c) := v];
      var lets := l.preamble[0];
      assert Run(l.steps, env) == Some(after);
      assert lets in l.preamble;
      assert LetDenotes(lets, after, Temp(c + 1), KeysV(KeysOfMusig(v.key)));
      assert LetDenotes(lets, after, Temp(c + 2), NumV(Count(KeysOfMusig(v.key))));
    }
  }

  lemma WrapperHoldsOne(d: Descriptor)
    requires Typed(d) && IsWrapper(d.variant)
    ensures |d.fields| == 1 && ValueTyped(d.fields[0], SubArg)
  {
  }

  /** What the tests of wrappers promise. */
  ghost predicate Unwraps(wrappers: seq<Variant>, t: Ident, c: nat, env: Env, v: Value) {
    match Unwrapped(wrappers, v)
    case None => Run(LowerWrappers(wrappers, t, c).steps, env).None?
    case Some(u) =>
      && Works(LowerWrappers(wrappers, t, c), env, c, {}, Some(map[])) && ValueTyped(u, SubArg)
      && var after := Run(LowerWrappers(wrappers, t, c).steps, env).value;
         Below(wrappers, t, c) in after && after[Below(wrappers, t, c)] == u
  }

  function WrapperTest(w: Variant, t: Ident, c: nat): Lowered {
    Lowered([TestVariant(t, w, [Temp(c)])], [], map[], c + 1)
  }

  /** One wrapper, and then the ones below it. */
  lemma UnwrapsFirst(wrappers: seq<Variant>, t: Ident, c: nat, env: Env, v: Value)
    requires wrappers != [] && v.NodeV? && v.node.variant == wrappers[0] && |v.node.fields| == 1
    requires Works(WrapperTest(wrappers[0], t, c), env, c, {}, Some(map[]))
    requires Unwraps(wrappers[1..], Temp(c), c + 1, Run(WrapperTest(wrappers[0], t, c).steps, env).value, v.node.fields[0])
    ensures Unwraps(wrappers, t, c, env, v)
  {
    var (test, rest) := (WrapperTest(wrappers[0], t, c), LowerWrappers(wrappers[1..], Temp(c), c + 1));
    RunAppend(test.steps, rest.steps, env);
    WrappersOrdered(wrappers[1..], Temp(c), c + 1);
    if Unwrapped(wrappers[1..], v.node.fields[0]).Some? {
      ThenWorks(test, rest, env, c, {}, Some(map[]));
    }
  }

  lemma {:induction false} WrappersWork(wrappers: seq<Variant>, t: Ident, c: nat, env: Env, v: Value)
    requires forall w :: w in wrappers ==> IsWrapper(w)
    requires ValueTyped(v, SubArg) && Fresh(env, c) && t in env && env[t] == v
    ensures Unwraps(wrappers, t, c, env, v)
  {
    if wrappers != [] {
      var test := WrapperTest(wrappers[0], t, c);
      WrapperTestWorks(wrappers[0], t, c, env, v.node);
      if v.node.variant == wrappers[0] {
        WrapperHoldsOne(v.node);
        var next := Run(test.steps, env).value;
        GrowsFresh(env, next, c, c + 1, {});
        WrappersWork(wrappers[1..], Temp(c), c + 1, next, v.node.fields[0]);
        UnwrapsFirst(wrappers, t, c, env, v);
      } else {
        RunAppend(test.steps, LowerWrappers(wrappers[1..], Temp(c), c + 1).steps, env);
      }
    }
  }

  lemma WrapperTestWorks(w: Variant, t: Ident, c: nat, env: Env, d: Descriptor)
    requires IsWrapper(w) && Typed(d) && Fresh(env, c) && t in env && env[t] == NodeV(d)
    ensures var l := WrapperTest(w, t, c);
            && Works(l, env, c, {}, if d.variant == w then Some(map[]) else None)
            && (d.variant == w ==>
                  && |d.fields| == 1
                  && Temp(c) in Run(l.steps, env).value && Run(l.steps, env).value[Temp(c)] == d.fields[0])
  {
    assert Temps(c, 1) == [Temp(c)];
    if d.variant == w {
      WrapperHoldsOne(d);
    }
    TestVariantWorks(t, w, 1, env, c, d);
    if d.variant == w {
      var after := Run([TestVariant(t, w, [Temp(c)])], env).value;
      assert Temps(c, 1)[0] in after && after[Temps(c, 1)[0]] == d.fields[0];
    }
  }

  // ---------------------------------------------------------------------------------------
  // The preamble
  // ---------------------------------------------------------------------------------------

  lemma {:induction false} LetsDeliver(lets: seq<Let>, env: Env, c: nat, next: nat, id: Ident, v: Value)
    requires Ordered(lets, c, next) && Ready(lets, env) && Denotes(lets, env, id, v)
    ensures id in RunLets(env, lets) && RunLets(env, lets)[id] == v
    decreases |lets|
  {
    if lets != [] {
      var l := lets[0];
      assert l in lets && LetReady(l, env);
      var after := RunLet(env, l);
      forall r | r in lets[1..] ensures LetReady(r, after) {
        assert LetReady(r, env);
        OrderedBounds(lets[1..], l.keys.n + 2, next, r);
      }
      if !(id in env && env[id] == v) {
        var d :| d in lets && LetDenotes(d, env, id, v);
        if d != l {
          assert d in lets[1..] && LetDenotes(d, after, id, v);
        }
      }
      LetsDeliver(lets[1..], after, l.keys.n + 2, next, id, v);
    }
  }

  lemma FieldsAssigned(l: Lowered, env: Env, f: Captures)
    requires Ordered(l.preamble, 0, l.next) && Ready(l.preamble, env) && Holds(l, env, f)
    ensures Eval(Finish(l.preamble, l.bindings), env) == Some(f)
  {
    var final := RunLets(env, l.preamble);
    forall name | name in l.bindings ensures l.bindings[name] in final && final[l.bindings[name]] == f[name] {
      LetsDeliver(l.preamble, env, 0, l.next, l.bindings[name], f[name]);
    }
    assert (map name | name in l.bindings :: final[l.bindings[name]]) == f;
  }

  /**
   The generated code assigns fields exactly when the pattern matches the descriptor, and the fields are
   what the pattern captures.
   */
  lemma CompiledMatches(p: Pattern, d: Descriptor)
    requires WellFormed(p) && Distinct(p) && Typed(d)
    ensures Eval(Compiled(p), map[Root := NodeV(d)]) == MatchPattern(p, d)
  {
    var env: Env := map[Root := NodeV(d)];
    var l := LowerPattern(p, Root, 0);
    PatternWorks(p, Root, 0, env, d);
    NestedRuns(l.steps, Finish(l.preamble, l.bindings), env);
    if Run(l.steps, env).Some? {
      PatternOrdered(p, Root, 0);
      FieldsAssigned(l, Run(l.steps, env).value, MatchPattern(p, d).value);
    }
  }
}
