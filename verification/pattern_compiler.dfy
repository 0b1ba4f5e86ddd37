/**
 The pattern compiler of apps/bitcoin/bip388/build.rs: patterns are lowered to a list of steps, the list
 is folded to nested tests, and the innermost block assigns the captured fields.
 */
module PatternCompiler {
  import opened MachineInts
  import opened DescriptorPatterns

  // ---------------------------------------------------------------------------------------
  // Generated code
  // ---------------------------------------------------------------------------------------

  /** The variables of the generated code: `__m`, `__t<n>`, and `__tl_<name>`. */
  datatype Ident = Root | Temp(n: nat) | TimelockOf(name: string)

  /** `MatchStep` */
  datatype Step =
    | TestVariant(matchee: Ident, variant: Variant, temps: seq<Ident>)
    | PlainKeyStep(expr: Ident)
    | PlainKeyListStep(expr: Ident)
    | MusigKeyStep(expr: Ident, temp: Ident)
    | ClassifyTimelock(expr: Ident, bound: Ident)

  /** The two `let`s of the preamble for one musig: its keys, and their number. */
  datatype Let = MusigLets(keys: Ident, count: Ident, from: Ident)

  /** Nested `if let` and `if` blocks around the assignment of the fields. */
  datatype Code =
    | IfLet(variant: Variant, temps: seq<Ident>, matchee: Ident, body: Code)
    | IfPlain(expr: Ident, body: Code)
    | IfAllPlain(expr: Ident, body: Code)
    | IfMusig(expr: Ident, temp: Ident, body: Code)
    | IfTimelock(expr: Ident, bound: Ident, body: Code)
    | Finish(preamble: seq<Let>, fields: map<string, Ident>)

  type Env = map<Ident, Value>

  /** `env` with each of `temps` bound to its value. */
  function BindAll(env: Env, temps: seq<Ident>, values: seq<Value>): Env
    requires |temps| == |values|
    decreases |temps|
  {
    if temps == [] then env else BindAll(env[temps[0] := values[0]], temps[1..], values[1..])
  }

  function RunLet(env: Env, l: Let): Env {
    if l.from in env && env[l.from].KeyV? && env[l.from].key.IsMusig() then
      var keys := KeysOfMusig(env[l.from].key);
      env[l.keys := KeysV(keys)][l.count := NumV(Count(keys))]
    else env
  }

  function RunLets(env: Env, lets: seq<Let>): Env
    decreases |lets|
  {
    if lets == [] then env else RunLets(RunLet(env, lets[0]), lets[1..])
  }

  /** Running the generated code: the fields, if every test succeeds. */
  function Eval(code: Code, env: Env): Option<Captures> {
    match code
    case IfLet(variant, temps, matchee, body) =>
      if matchee in env && env[matchee].NodeV? && env[matchee].node.variant == variant
         && |env[matchee].node.fields| == |temps| then
        Eval(body, BindAll(env, temps, env[matchee].node.fields))
      else None
    case IfPlain(expr, body) =>
      if expr in env && env[expr].KeyV? && env[expr].key.IsPlain() then Eval(body, env) else None
    case IfAllPlain(expr, body) =>
      if expr in env && env[expr].KeysV? && AllPlain(env[expr].keys) then Eval(body, env) else None
    case IfMusig(expr, temp, body) =>
      if expr in env && env[expr].KeyV? && env[expr].key.IsMusig() then Eval(body, env[temp := env[expr]]) else None
    case IfTimelock(expr, bound, body) =>
      if expr in env && env[expr].NodeV? && TimelockIn(env[expr].node).Some? then
        Eval(body, env[bound := TimeV(TimelockIn(env[expr].node).value)])
      else None
    case Finish(preamble, fields) =>
      var final := RunLets(env, preamble);
      Assigned(fields, final)
  }

  /** The fields, each with the value of its variable. */
  function Assigned(fields: map<string, Ident>, env: Env): Option<Captures> {
    if forall name :: name in fields ==> fields[name] in env then
      Some(map name | name in fields :: env[fields[name]])
    else None
  }

  // ---------------------------------------------------------------------------------------
  // Folding steps
  // ---------------------------------------------------------------------------------------

  function Around(step: Step, code: Code): Code {
    match step
    case TestVariant(matchee, variant, temps) => IfLet(variant, temps, matchee, code)
    case PlainKeyStep(expr) => IfPlain(expr, code)
    case PlainKeyListStep(expr) => IfAllPlain(expr, code)
    case MusigKeyStep(expr, temp) => IfMusig(expr, temp, code)
    case ClassifyTimelock(expr, bound) => IfTimelock(expr, bound, code)
  }

  function Nested(steps: seq<Step>, inner: Code): Code {
    if steps == [] then inner else Around(steps[0], Nested(steps[1..], inner))
  }

  /** `fold_steps`: from the last step to the first. */
  method FoldSteps(steps: seq<Step>, inner: Code) returns (code: Code)
    ensures code == Nested(steps, inner)
  {
    code := inner;
    var i := |steps|;
    while i > 0
      invariant 0 <= i <= |steps|
      invariant code == Nested(steps[i..], inner)
    {
      i := i - 1;
      assert steps[i..][1..] == steps[i + 1..];
      code := Around(steps[i], code);
    }
    assert steps[0..] == steps;
  }

  /** One step on its own: the variables after it, if its test succeeds. */
  function RunStep(step: Step, env: Env): Option<Env> {
    match step
    case TestVariant(matchee, variant, temps) =>
      if matchee in env && env[matchee].NodeV? && env[matchee].node.variant == variant
         && |env[matchee].node.fields| == |temps| then Some(BindAll(env, temps, env[matchee].node.fields))
      else None
    case PlainKeyStep(expr) => if expr in env && env[expr].KeyV? && env[expr].key.IsPlain() then Some(env) else None
    case PlainKeyListStep(expr) =>
      if expr in env && env[expr].KeysV? && AllPlain(env[expr].keys) then Some(env) else None
    case MusigKeyStep(expr, temp) =>
      if expr in env && env[expr].KeyV? && env[expr].key.IsMusig() then Some(env[temp := env[expr]]) else None
    case ClassifyTimelock(expr, bound) =>
      if expr in env && env[expr].NodeV? && TimelockIn(env[expr].node).Some? then
        Some(env[bound := TimeV(TimelockIn(env[expr].node).value)])
      else None
  }

  function Run(steps: seq<Step>, env: Env): Option<Env> {
    if steps == [] then Some(env)
    else
      match RunStep(steps[0], env)
      case None => None
      case Some(next) => Run(steps[1..], next)
  }

  /** The nested tests run the steps one after the other. */
  lemma {:induction false} NestedRuns(steps: seq<Step>, inner: Code, env: Env)
    ensures Eval(Nested(steps, inner), env) == match Run(steps, env)
                                               case None => None
                                               case Some(final) => Eval(inner, final)
  {
    if steps != [] {
      match RunStep(steps[0], env)
      case None =>
      case Some(next) => NestedRuns(steps[1..], inner, next);
    }
  }

  lemma {:induction false} RunAppend(a: seq<Step>, b: seq<Step>, env: Env)
    ensures Run(a + b, env) == match Run(a, env)
                               case None => None
                               case Some(next) => Run(b, next)
  {
    if a == [] {
      assert a + b == b;
    } else {
      assert (a + b)[1..] == a[1..] + b;
      match RunStep(a[0], env)
      case None =>
      case Some(next) => RunAppend(a[1..], b, next);
    }
  }

  // ---------------------------------------------------------------------------------------
  // Lowering
  // ---------------------------------------------------------------------------------------

  /** What lowering adds: steps, preamble and bindings, and the counter after it. */
  datatype Lowered = Lowered(steps: seq<Step>, preamble: seq<Let>, bindings: map<string, Ident>, next: nat)

  function Join(a: Lowered, b: Lowered): Lowered {
    Lowered(a.steps + b.steps, a.preamble + b.preamble, a.bindings + b.bindings, b.next)
  }

  /** `n` new variables. */
  function Temps(c: nat, n: nat): (temps: seq<Ident>)
    ensures |temps| == n && forall i :: 0 <= i < n ==> temps[i] == Temp(c + i)
  {
    seq(n, (i: nat) => Temp(c + i))
  }

  function LowerPattern(p: Pattern, matchee: Ident, c: nat): Lowered
    decreases p, 0
  {
    var temps := Temps(c, |p.args|);
    Join(Lowered([TestVariant(matchee, p.variant, temps)], [], map[], c + |p.args|),
         LowerArgs(p.args, temps, c + |p.args|))
  }

  function LowerArgs(args: seq<Arg>, temps: seq<Ident>, c: nat): Lowered
    requires |temps| == |args|
    decreases args, 0
  {
    if args == [] then Lowered([], [], map[], c)
    else
      var first := LowerArg(args[0], temps[0], c);
      Join(first, LowerArgs(args[1..], temps[1..], first.next))
  }

  function LowerArg(arg: Arg, t: Ident, c: nat): Lowered
    decreases arg, 0
  {
    match arg
    case Binding(name, KeyBinding) => Lowered([PlainKeyStep(t)], [], map[name := t], c)
    case Binding(name, KeyListBinding) => Lowered([PlainKeyListStep(t)], [], map[name := t], c)
    case Binding(name, ThresholdBinding) => Lowered([], [], map[name := t], c)
    case Binding(name, TimelockBinding) =>
      Lowered([ClassifyTimelock(t, TimelockOf(name))], [], map[name := TimelockOf(name)], c)
    case MusigOf(threshold, keys) =>
      Lowered([MusigKeyStep(t, Temp(c))], [MusigLets(Temp(c + 1), Temp(c + 2), Temp(c))],
              map[threshold := Temp(c + 2)][keys := Temp(c + 1)], c + 3)
    case Sub(wrappers, inner) =>
      Join(LowerWrappers(wrappers, t, c), LowerPattern(inner, Below(wrappers, t, c), c + |wrappers|))
  }

  function LowerWrappers(wrappers: seq<Variant>, t: Ident, c: nat): Lowered {
    if wrappers == [] then Lowered([], [], map[], c)
    else
      Join(Lowered([TestVariant(t, wrappers[0], [Temp(c)])], [], map[], c + 1),
           LowerWrappers(wrappers[1..], Temp(c), c + 1))
  }

  /** The variable that holds what is below the wrappers. */
  function Below(wrappers: seq<Variant>, t: Ident, c: nat): Ident {
    if wrappers == [] then t else Temp(c + |wrappers| - 1)
  }

  /** `lower_pattern` and `build_innermost`: the generated code for a pattern. */
  function Compiled(p: Pattern): Code {
    var l := LowerPattern(p, Root, 0);
    Nested(l.steps, Finish(l.preamble, l.bindings))
  }

  /** `Counter` and `Lowered`, filled in place. */
  class Lowering {
    var counter: nat
    var steps: seq<Step>
    var preamble: seq<Let>
    var bindings: map<string, Ident>

    constructor ()
      ensures State() == Lowered([], [], map[], 0)
    {
      counter, steps, preamble, bindings := 0, [], [], map[];
    }

    ghost function State(): Lowered
      reads this
    {
      Lowered(steps, preamble, bindings, counter)
    }

    /** `Counter::next` */
    method Next() returns (t: Ident)
      modifies this`counter
      ensures t == Temp(old(counter)) && counter == old(counter) + 1
    {
      t := Temp(counter);
      counter := counter + 1;
    }

    /** `lower` */
    method Lower(p: Pattern, matchee: Ident)
      modifies this
      ensures State() == Join(old(State()), LowerPattern(p, matchee, old(counter)))
      decreases p, 1
    {
      ghost var before := State();
      var temps := PushTest(matchee, p.variant, |p.args|);
      ghost var test := Lowered([TestVariant(matchee, p.variant, temps)], [], map[], counter);
      JoinAssociative(before, test, LowerArgs(p.args, temps, counter));
      LowerEach(p.args, temps);
    }

    /** The test of the variant, with a new variable for each argument. */
    method PushTest(matchee: Ident, variant: Variant, n: nat) returns (temps: seq<Ident>)
      modifies this
      ensures temps == Temps(old(counter), n) && counter == old(counter) + n
      ensures State() == Join(old(State()), Lowered([TestVariant(matchee, variant, temps)], [], map[], counter))
    {
      temps := NextTemps(n);
      steps := steps + [TestVariant(matchee, variant, temps)];
    }

    /** One new variable for each argument. */
    method NextTemps(n: nat) returns (temps: seq<Ident>)
      modifies this`counter
      ensures temps == Temps(old(counter), n) && counter == old(counter) + n
    {
      temps := [];
      while |temps| < n
        invariant |temps| <= n && temps == Temps(old(counter), |temps|) && counter == old(counter) + |temps|
      {
        var t := Next();
        temps := temps + [t];
      }
    }

    /** The loop of `lower` over arguments and their variables. */
    method LowerEach(args: seq<Arg>, temps: seq<Ident>)
      requires |temps| == |args|
      modifies this
      ensures State() == Join(old(State()), LowerArgs(args, temps, old(counter)))
      decreases args, 1
    {
      ghost var whole := Join(State(), LowerArgs(args, temps, counter));
      assert args[0..] == args && temps[0..] == temps;
      var i := 0;
      while i < |args|
        invariant 0 <= i <= |args|
        invariant Join(State(), LowerArgs(args[i..], temps[i..], counter)) == whole
      {
        ghost var before, first := State(), LowerArg(args[i], temps[i], counter);
        assert args[i..][1..] == args[i + 1..] && temps[i..][1..] == temps[i + 1..];
        JoinAssociative(before, first, LowerArgs(args[i + 1..], temps[i + 1..], first.next));
        LowerOne(args[i], temps[i]);
        i := i + 1;
      }
      JoinEmpty(State());
    }

    /** The match of `lower` on one argument. */
    method LowerOne(arg: Arg, t: Ident)
      modifies this
      ensures State() == Join(old(State()), LowerArg(arg, t, old(counter)))
      decreases arg, 1
    {
      match arg
      case Binding(name, kind) => LowerBinding(name, kind, t);
      case MusigOf(threshold, keys) => LowerMusig(threshold, keys, t);
      case Sub(wrappers, inner) =>
        ghost var before := State();
        var current := LowerWrapped(wrappers, t);
        Lower(inner, current);
        JoinAssociative(before, LowerWrappers(wrappers, t, before.next),
                        LowerPattern(inner, current, before.next + |wrappers|));
    }

    method LowerMusig(threshold: string, keys: string, t: Ident)
      modifies this
      ensures State() == Join(old(State()), LowerArg(MusigOf(threshold, keys), t, old(counter)))
    {
      var m := Next();
      steps := steps + [MusigKeyStep(t, m)];
      var kv := Next();
      var kt := Next();
      preamble := preamble + [MusigLets(kv, kt, m)];
      bindings := bindings[threshold := kt];
      bindings := bindings[keys := kv];
    }

    method LowerBinding(name: string, kind: BindingKind, t: Ident)
      modifies this
      ensures State() == Join(old(State()), LowerArg(Binding(name, kind), t, old(counter)))
    {
      match kind
      case KeyBinding =>
        steps := steps + [PlainKeyStep(t)];
        bindings := bindings[name := t];
      case KeyListBinding =>
        steps := steps + [PlainKeyListStep(t)];
        bindings := bindings[name := t];
      case ThresholdBinding =>
        bindings := bindings[name := t];
      case TimelockBinding =>
        steps := steps + [ClassifyTimelock(t, TimelockOf(name))];
        bindings := bindings[name := TimelockOf(name)];
    }

    /** The loop of `lower` over wrappers. */
    method LowerWrapped(wrappers: seq<Variant>, t: Ident) returns (current: Ident)
      modifies this
      ensures State() == Join(old(State()), LowerWrappers(wrappers, t, old(counter)))
      ensures counter == old(counter) + |wrappers| && current == Below(wrappers, t, old(counter))
    {
      ghost var before := State();
      current := t;
      var i := 0;
      while i < |wrappers|
        invariant 0 <= i <= |wrappers| && counter == before.next + i
        invariant current == Below(wrappers[..i], t, before.next)
        invariant State() == Join(before, LowerWrappers(wrappers[..i], t, before.next))
      {
        OneMoreWrapper(before, wrappers, i, t);
        current := LowerWrapper(wrappers[i], current);
        i := i + 1;
      }
      assert wrappers[..i] == wrappers;
    }

    /** The body of the loop. */
    method LowerWrapper(w: Variant, current: Ident) returns (wt: Ident)
      modifies this
      ensures wt == Temp(old(counter))
      ensures State() == Join(old(State()), Lowered([TestVariant(current, w, [wt])], [], map[], old(counter) + 1))
    {
      wt := Next();
      steps := steps + [TestVariant(current, w, [wt])];
    }
  }

  lemma JoinEmpty(a: Lowered)
    ensures Join(Lowered([], [], map[], 0), a) == a
    ensures Join(a, Lowered([], [], map[], a.next)) == a
  {
  }

  lemma JoinAssociative(a: Lowered, b: Lowered, c: Lowered)
    ensures Join(Join(a, b), c) == Join(a, Join(b, c))
  {
    assert (a.steps + b.steps) + c.steps == a.steps + (b.steps + c.steps);
    assert (a.preamble + b.preamble) + c.preamble == a.preamble + (b.preamble + c.preamble);
    assert (a.bindings + b.bindings) + c.bindings == a.bindings + (b.bindings + c.bindings);
  }

  lemma {:induction false} LowerWrappersSnoc(wrappers: seq<Variant>, w: Variant, t: Ident, c: nat)
    ensures LowerWrappers(wrappers + [w], t, c)
         == Join(LowerWrappers(wrappers, t, c),
                 Lowered([TestVariant(Below(wrappers, t, c), w, [Temp(c + |wrappers|)])], [], map[], c + |wrappers| + 1))
  {
    if wrappers == [] {
      assert wrappers + [w] == [w];
    } else {
      assert (wrappers + [w])[1..] == wrappers[1..] + [w];
      LowerWrappersSnoc(wrappers[1..], w, Temp(c), c + 1);
      JoinAssociative(Lowered([TestVariant(t, wrappers[0], [Temp(c)])], [], map[], c + 1),
                      LowerWrappers(wrappers[1..], Temp(c), c + 1),
                      Lowered([TestVariant(Below(wrappers, t, c), w, [Temp(c + |wrappers|)])], [], map[],
                              c + |wrappers| + 1));
    }
  }

  lemma OneMoreWrapper(before: Lowered, wrappers: seq<Variant>, i: nat, t: Ident)
    requires i < |wrappers|
    ensures var (c, front) := (before.next, wrappers[..i]);
            Join(Join(before, LowerWrappers(front, t, c)),
                 Lowered([TestVariant(Below(front, t, c), wrappers[i], [Temp(c + i)])], [], map[], c + i + 1))
            == Join(before, LowerWrappers(wrappers[..i + 1], t, c))
  {
    var (c, front) := (before.next, wrappers[..i]);
    assert front + [wrappers[i]] == wrappers[..i + 1];
    LowerWrappersSnoc(front, wrappers[i], t, c);
    JoinAssociative(before, LowerWrappers(front, t, c),
                    Lowered([TestVariant(Below(front, t, c), wrappers[i], [Temp(c + i)])], [], map[], c + i + 1));
  }

  /** `lower_pattern`, `build_innermost` and `fold_steps` together. */
  method Compile(p: Pattern) returns (code: Code)
    ensures code == Compiled(p)
  {
    var l := new Lowering();
    l.Lower(p, Root);
    JoinEmpty(LowerPattern(p, Root, 0));
    code := FoldSteps(l.steps, Finish(l.preamble, l.bindings));
  }
}
