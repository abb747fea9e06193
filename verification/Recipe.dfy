/** Recipes (runtime/src/cli/recipe.rs, runtime/src/config/recipe.rs): nested steps are
    compiled into one flat list of ops, which is then executed. The reference is a direct
    interpreter of the nested steps. Loop bounds are reals. */
module Recipe {
  import opened Common

  /** A value for a signal: configured text, or the value of a loop variable. */
  datatype Written = Text(text: string) | Number(value: real)

  datatype AssertSpec = AssertSpec(signal: string, instance: Option<string>, comparators: nat, approx: bool, tolerance: bool)

  /** A configured value is `None` if its type is not supported. */
  datatype RecipeStep =
    | SetStep(values: map<string, Option<string>>, instance: Option<string>)
    | TimeStep(duration: string, nested: Option<string>, instance: Option<string>)
    | PrintStep(selectors: seq<string>, instance: Option<string>)
    | SpeedStep(speed: real, instance: Option<string>)
    | ResetStep(instance: Option<string>)
    | SleepStep(ms: nat)
    | ForStep(signal: string, from: real, to: real, stride: real, each: seq<RecipeStep>, instance: Option<string>)
    | AssertStep(spec: AssertSpec)

  datatype Action =
    | Iterate(signal: string, value: real)
    | Set(writes: map<string, Written>)
    | Step(duration: string)
    | Print(selectors: seq<string>)
    | Speed(speed: real)
    | Reset
    | Sleep(ms: nat)
    | Assert(spec: AssertSpec)

  datatype Op = Op(instance: Option<string>, action: Action)

  datatype RecipeError = BadValue | ZeroStride | TooManyIterations | BadAssert

  // ----- loops

  /** How often a loop runs, if that is at most 2^64 times. */
  function Iterations(f: RecipeStep): Result<nat, RecipeError>
    requires f.ForStep?
  {
    var delta := f.to - f.from;
    if f.stride == 0.0 then Err(ZeroStride)
    else if (f.stride > 0.0 && delta < 0.0) || (f.stride < 0.0 && delta > 0.0) then Ok(0)
    else
      var maxSteps := (delta / f.stride + 0.000000001).Floor;
      if maxSteps > U64_MAX then Err(TooManyIterations)
      else
        QuotientSign(delta, f.stride);
        Ok(maxSteps + 1)
  }

  lemma QuotientSign(a: real, b: real)
    requires b != 0.0 && !((b > 0.0 && a < 0.0) || (b < 0.0 && a > 0.0))
    ensures a / b >= 0.0
  {
    var q := a / b;
    assert q * b == a;
    if q < 0.0 {
      SignOfProduct(q, b);
    }
  }

  lemma SignOfProduct(q: real, b: real)
    requires q < 0.0 && b != 0.0
    ensures b > 0.0 ==> q * b < 0.0
    ensures b < 0.0 ==> q * b > 0.0
  {
  }

  /** Round k of a loop is one it should make: its bound is not behind, and the number the
      round writes passes it by at most a billionth of a stride. */
  predicate Runs(f: RecipeStep, k: nat)
    requires f.ForStep?
  {
    if f.stride > 0.0 then f.from <= f.to && f.from + f.stride * k as real <= f.to + 0.000000001 * f.stride
    else f.from >= f.to && f.from + f.stride * k as real >= f.to + 0.000000001 * f.stride
  }

  lemma QuotientBound(delta: real, stride: real, k: real)
    requires stride != 0.0
    ensures k <= delta / stride + 0.000000001
            <==> if stride > 0.0 then stride * k <= delta + 0.000000001 * stride
                 else stride * k >= delta + 0.000000001 * stride
  {
    var slack := delta / stride + 0.000000001 - k;
    assert slack * stride == delta + 0.000000001 * stride - stride * k;
    if slack < 0.0 {
      SignOfProduct(slack, stride);
    } else if slack > 0.0 {
      SignOfProduct(-slack, stride);
      assert -slack * stride == -(slack * stride);
    }
  }

  /** A loop makes exactly the rounds it should, and is refused for their number exactly when
      it should make round 2^64 as well. */
  lemma RoundRunsIff(f: RecipeStep, k: nat)
    requires f.ForStep? && f.stride != 0.0
    ensures Iterations(f).Err? <==> Runs(f, 0x1_0000_0000_0000_0000)
    ensures Iterations(f).Ok? ==> (k < Iterations(f).value <==> Runs(f, k))
  {
    var delta := f.to - f.from;
    var q := delta / f.stride + 0.000000001;
    assert q.Floor as real <= q < q.Floor as real + 1.0;
    QuotientBound(delta, f.stride, k as real);
    QuotientBound(delta, f.stride, 0x1_0000_0000_0000_0000 as real);
  }

  function LoopValue(f: RecipeStep, k: nat): real
    requires f.ForStep?
  {
    f.from + f.stride * k as real
  }

  // ----- compiling

  function OrElse(a: Option<string>, b: Option<string>): Option<string> {
    if a.Some? then a else b
  }

  predicate ValidAssert(spec: AssertSpec) {
    spec.comparators == 1 && (spec.approx <==> spec.tolerance)
  }

  predicate Renders(values: map<string, Option<string>>) {
    forall key :: key in values ==> values[key].Some?
  }

  function Rendered(values: map<string, Option<string>>): map<string, Written>
    requires Renders(values)
  {
    map key | key in values :: Text(values[key].value)
  }

  function Compile(steps: seq<RecipeStep>, inherited: Option<string>): Result<seq<Op>, RecipeError>
    decreases steps, 0
  {
    if steps == [] then Ok([])
    else
      match CompileStep(steps[0], inherited)
      case Err(e) => Err(e)
      case Ok(first) => Prepend(first, Compile(steps[1..], inherited))
  }

  function CompileStep(step: RecipeStep, inherited: Option<string>): Result<seq<Op>, RecipeError>
    decreases step, 1
  {
    match step
    case SetStep(values, instance) =>
      if Renders(values) then Ok([Op(OrElse(instance, inherited), Set(Rendered(values)))]) else Err(BadValue)
    case TimeStep(duration, nested, instance) => Ok([Op(OrElse(nested, OrElse(instance, inherited)), Step(duration))])
    case PrintStep(selectors, instance) => Ok([Op(OrElse(instance, inherited), Print(selectors))])
    case SpeedStep(speed, instance) => Ok([Op(OrElse(instance, inherited), Speed(speed))])
    case ResetStep(instance) => Ok([Op(OrElse(instance, inherited), Reset)])
    case SleepStep(ms) => Ok([Op(None, Sleep(ms))])
    case ForStep(_, _, _, _, _, instance) => CompileLoop(step, OrElse(instance, inherited))
    case AssertStep(spec) =>
      if ValidAssert(spec) then Ok([Op(OrElse(spec.instance, inherited), Assert(spec))]) else Err(BadAssert)
  }

  function CompileLoop(f: RecipeStep, inherited: Option<string>): Result<seq<Op>, RecipeError>
    requires f.ForStep?
    decreases f, 0
  {
    match Iterations(f)
    case Err(e) => Err(e)
    case Ok(0) => Ok([])
    case Ok(n) =>
      match Compile(f.each, inherited)
      case Err(e) => Err(e)
      case Ok(body) => Ok(Rounds(f, inherited, body, n))
  }

  function Round(f: RecipeStep, inherited: Option<string>, body: seq<Op>, k: nat): seq<Op>
    requires f.ForStep?
  {
    var value := LoopValue(f, k);
    [Op(None, Iterate(f.signal, value)), Op(inherited, Set(map[f.signal := Number(value)]))] + body
  }

  /** The first n rounds of a loop with a compiled body. */
  function Rounds(f: RecipeStep, inherited: Option<string>, body: seq<Op>, n: nat): seq<Op>
    requires f.ForStep?
  {
    if n == 0 then [] else Rounds(f, inherited, body, n - 1) + Round(f, inherited, body, n - 1)
  }

  /** Every round costs two ops more than the loop's body. */
  lemma {:induction false} RoundsLength(f: RecipeStep, inherited: Option<string>, body: seq<Op>, n: nat)
    requires f.ForStep?
    ensures |Rounds(f, inherited, body, n)| == n * (|body| + 2)
  {
    if n > 0 {
      RoundsLength(f, inherited, body, n - 1);
      assert n * (|body| + 2) == (n - 1) * (|body| + 2) + (|body| + 2);
    }
  }

  /** Round k of a loop lies k rounds into its ops. */
  lemma {:induction false} RoundsAt(f: RecipeStep, inherited: Option<string>, body: seq<Op>, n: nat, k: nat, at: nat)
    requires f.ForStep? && k < n && at == k * (|body| + 2)
    ensures |Rounds(f, inherited, body, n)| == n * (|body| + 2) >= at + (|body| + 2)
    ensures Rounds(f, inherited, body, n)[at..at + (|body| + 2)] == Round(f, inherited, body, k)
    decreases n
  {
    var w, front, last := |body| + 2, Rounds(f, inherited, body, n - 1), Round(f, inherited, body, n - 1);
    RoundsLength(f, inherited, body, n);
    RoundsLength(f, inherited, body, n - 1);
    assert n * w == |front| + w;
    if k < n - 1 {
      RoundsAt(f, inherited, body, n - 1, k, at);
      hide *;
      assert (front + last)[at..at + w] == front[at..at + w];
    } else {
      hide *;
      assert (front + last)[|front|..|front| + w] == last;
    }
  }

  lemma RoundOps(f: RecipeStep, inherited: Option<string>, body: seq<Op>, k: nat)
    requires f.ForStep?
    ensures var round, value := Round(f, inherited, body, k), f.from + f.stride * k as real;
            && |round| == |body| + 2 && round[0] == Op(None, Iterate(f.signal, value))
            && round[1] == Op(inherited, Set(map[f.signal := Number(value)])) && round[2..] == body
  {
    var value := f.from + f.stride * k as real;
    var two := [Op(None, Iterate(f.signal, value)), Op(inherited, Set(map[f.signal := Number(value)]))];
    assert LoopValue(f, k) == value;
    assert Round(f, inherited, body, k) == two + body;
    assert (two + body)[2..] == body;
  }

  /** What a loop compiles to: round after round from zero on, each announcing and writing
      the k-th number from `from` on in strides, then doing the body. */
  lemma LoopWrites(f: RecipeStep, inherited: Option<string>, k: nat)
    requires f.ForStep? && CompileLoop(f, inherited).Ok? && k < Iterations(f).value
    ensures Compile(f.each, inherited).Ok?
    ensures var ops, body := CompileLoop(f, inherited).value, Compile(f.each, inherited).value;
            var at, value := k * (|body| + 2), f.from + f.stride * k as real;
            && |ops| == Iterations(f).value * (|body| + 2) >= at + (|body| + 2)
            && ops[at] == Op(None, Iterate(f.signal, value))
            && ops[at + 1] == Op(inherited, Set(map[f.signal := Number(value)]))
            && ops[at + 2..at + 2 + |body|] == body
            && (k == 0 ==> value == f.from)
  {
    var ops, body := CompileLoop(f, inherited).value, Compile(f.each, inherited).value;
    assert ops == Rounds(f, inherited, body, Iterations(f).value);
    FirstValue(f);
    hide *;
    RoundsWrite(f, inherited, body, Iterations(f).value, k, k * (|body| + 2));
  }

  lemma RoundsWrite(f: RecipeStep, inherited: Option<string>, body: seq<Op>, n: nat, k: nat, at: nat)
    requires f.ForStep? && k < n && at == k * (|body| + 2)
    ensures var ops, value := Rounds(f, inherited, body, n), f.from + f.stride * k as real;
            && |ops| == n * (|body| + 2) >= at + (|body| + 2)
            && ops[at] == Op(None, Iterate(f.signal, value))
            && ops[at + 1] == Op(inherited, Set(map[f.signal := Number(value)]))
            && ops[at + 2..at + 2 + |body|] == body
  {
    hide *;
    RoundsAt(f, inherited, body, n, k, at);
    RoundOps(f, inherited, body, k);
    SliceAt(Rounds(f, inherited, body, n), at, Round(f, inherited, body, k));
  }

  lemma FirstValue(f: RecipeStep)
    requires f.ForStep?
    ensures f.from + f.stride * 0 as real == f.from
  {
  }

  lemma SliceAt(ops: seq<Op>, at: nat, round: seq<Op>)
    requires at + |round| <= |ops| && ops[at..at + |round|] == round && |round| >= 2
    ensures ops[at] == round[0] && ops[at + 1] == round[1] && ops[at + 2..at + |round|] == round[2..]
  {
    assert ops[at..at + |round|][2..] == ops[at + 2..at + |round|];
  }

  lemma CountsToThree(f: RecipeStep)
    requires f == ForStep("x", 0.0, 2.0, 1.0, [], None)
    ensures Iterations(f) == Ok(3) && CompileStep(f, None) == CompileLoop(f, None)
    ensures f.from + f.stride * 0 as real == 0.0 && f.from + f.stride * 2 as real == 2.0
  {
    assert (2.0 / 1.0 + 0.000000001).Floor == 2;
  }

  /** Three writes, from 0 to 2. */
  lemma CountingExample(f: RecipeStep, ops: seq<Op>)
    requires f == ForStep("x", 0.0, 2.0, 1.0, [], None) && CompileStep(f, None) == Ok(ops)
    ensures |ops| == 6
    ensures ops[1].action == Set(map["x" := Number(0.0)]) && ops[5].action == Set(map["x" := Number(2.0)])
  {
    CountsToThree(f);
    assert Compile(f.each, None) == Ok([]);
    hide *;
    LoopWrites(f, None, 0);
    LoopWrites(f, None, 2);
  }

  /** Steps compile exactly when every value renders, every assertion is well formed and
      every loop has a stride and a bearable number of rounds; the body of a loop that never
      runs is not looked at. */
  predicate WellFormed(steps: seq<RecipeStep>)
    decreases steps, 0
  {
    forall i :: 0 <= i < |steps| ==> WellFormedStep(steps[i])
  }

  predicate WellFormedStep(step: RecipeStep)
    decreases step, 0
  {
    match step
    case SetStep(values, _) => Renders(values)
    case ForStep(_, _, _, _, each, _) => Iterations(step).Ok? && (Iterations(step).value > 0 ==> WellFormed(each))
    case AssertStep(spec) => ValidAssert(spec)
    case _ => true
  }

  lemma {:induction false} CompilesIff(steps: seq<RecipeStep>, inherited: Option<string>)
    ensures Compile(steps, inherited).Ok? <==> WellFormed(steps)
    decreases steps, 0
  {
    if steps != [] {
      StepCompilesIff(steps[0], inherited);
      CompilesIff(steps[1..], inherited);
      assert WellFormed(steps) <==> WellFormedStep(steps[0]) && WellFormed(steps[1..]) by {
        assert forall i :: 1 <= i < |steps| ==> steps[i] == steps[1..][i - 1];
      }
    }
  }

  lemma {:induction false} StepCompilesIff(step: RecipeStep, inherited: Option<string>)
    ensures CompileStep(step, inherited).Ok? <==> WellFormedStep(step)
    decreases step, 0
  {
    if step.ForStep? {
      CompilesIff(step.each, OrElse(step.instance, inherited));
    }
  }

  // ----- performing

  datatype Request = ToInstance(name: string, action: Action) | ToEnv(env: string, action: Action) | Wait(ms: nat)

  datatype StepResult = StepResult(action: Action, instance: Option<string>, reply: string)

  /** The world answers the last of all requests so far, or fails it. */
  datatype Context = Context(dryRun: bool, attached: map<string, Option<string>>, world: seq<Request> -> Option<string>)

  datatype State = State(requests: seq<Request>, results: seq<StepResult>, failed: bool)

  /** Time belongs to the env of an instance that is attached to one. */
  function Route(c: Context, target: string, action: Action): Request {
    if action.Sleep? then Wait(action.ms)
    else if (action.Step? || action.Speed?) && target in c.attached && c.attached[target].Some? then
      ToEnv(c.attached[target].value, action)
    else ToInstance(target, action)
  }

  function Perform(c: Context, target: string, action: Action, s: State): State {
    if s.failed then s
    else if action.Iterate? then s.(results := s.results + [StepResult(action, None, "")])
    else
      var instance := if action.Sleep? then None else Some(target);
      if c.dryRun then s.(results := s.results + [StepResult(action, instance, "")])
      else
        var requests := s.requests + [Route(c, target, action)];
        match if action.Sleep? then Some("") else c.world(requests)
        case None => State(requests, s.results, true)
        case Some(reply) => State(requests, s.results + [StepResult(action, instance, reply)], false)
  }

  function Resolve(default: string, instance: Option<string>): string {
    if instance.Some? then instance.value else default
  }

  /** The flat list, op after op. */
  function ExecuteOps(c: Context, default: string, ops: seq<Op>, s: State): State
    decreases |ops|
  {
    if ops == [] then s
    else ExecuteOps(c, default, ops[1..], Perform(c, Resolve(default, ops[0].instance), ops[0].action, s))
  }

  // ----- the direct interpreter

  /** Nested steps, done as they are met; `current` is the instance that steps without one
      of their own go to. */
  function Interpret(c: Context, steps: seq<RecipeStep>, current: string, s: State): State
    requires WellFormed(steps)
    decreases steps, 0, 0
  {
    if steps == [] then s
    else Interpret(c, steps[1..], current, InterpretStep(c, steps[0], current, s))
  }

  function InterpretStep(c: Context, step: RecipeStep, current: string, s: State): State
    requires WellFormedStep(step)
    decreases step, 1, 0
  {
    match step
    case SetStep(values, instance) => Perform(c, Resolve(current, instance), Set(Rendered(values)), s)
    case TimeStep(duration, nested, instance) =>
      Perform(c, Resolve(Resolve(current, instance), nested), Step(duration), s)
    case PrintStep(selectors, instance) => Perform(c, Resolve(current, instance), Print(selectors), s)
    case SpeedStep(speed, instance) => Perform(c, Resolve(current, instance), Speed(speed), s)
    case ResetStep(instance) => Perform(c, Resolve(current, instance), Reset, s)
    case SleepStep(ms) => Perform(c, current, Sleep(ms), s)
    case ForStep(_, _, _, _, _, instance) =>
      InterpretRounds(c, step, Resolve(current, instance), Iterations(step).value, s)
    case AssertStep(spec) => Perform(c, Resolve(current, spec.instance), Assert(spec), s)
  }

  /** The first n rounds of a loop: announce the value, write it, do the body. */
  function InterpretRounds(c: Context, f: RecipeStep, current: string, n: nat, s: State): State
    requires f.ForStep? && WellFormedStep(f) && n <= Iterations(f).value
    decreases f, 0, n
  {
    if n == 0 then s
    else
      var value := f.from + f.stride * (n - 1) as real;
      var announced := Perform(c, current, Iterate(f.signal, value), InterpretRounds(c, f, current, n - 1, s));
      Interpret(c, f.each, current, Perform(c, current, Set(map[f.signal := Number(value)]), announced))
  }

  // ----- the compiled recipe does what the nested one says

  lemma {:induction false} ExecuteAppend(c: Context, default: string, xs: seq<Op>, ys: seq<Op>, s: State)
    ensures ExecuteOps(c, default, xs + ys, s) == ExecuteOps(c, default, ys, ExecuteOps(c, default, xs, s))
    decreases |xs|
  {
    if xs == [] {
      assert xs + ys == ys;
    } else {
      assert (xs + ys)[1..] == xs[1..] + ys;
      ExecuteAppend(c, default, xs[1..], ys, Perform(c, Resolve(default, xs[0].instance), xs[0].action, s));
    }
  }

  lemma ExecuteOne(c: Context, default: string, op: Op, s: State)
    ensures ExecuteOps(c, default, [op], s) == Perform(c, Resolve(default, op.instance), op.action, s)
  {
    assert [op][1..] == [];
    assert ExecuteOps(c, default, [op][1..], Perform(c, Resolve(default, op.instance), op.action, s))
        == Perform(c, Resolve(default, op.instance), op.action, s);
  }

  /** Sleeping and announcing do not depend on the target. */
  lemma TargetIrrelevant(c: Context, a: string, b: string, action: Action, s: State)
    requires action.Sleep? || action.Iterate?
    ensures Perform(c, a, action, s) == Perform(c, b, action, s)
  {
  }

  /** Executing the compiled ops sends the same requests in the same order, to the same
      targets, with the same results and the same point of failure as interpreting the
      nested steps: each goes to the nearest explicit instance. */
  lemma {:induction false} CompiledMeansNested(c: Context, default: string, steps: seq<RecipeStep>,
                                               inherited: Option<string>, s: State)
    requires Compile(steps, inherited).Ok?
    ensures WellFormed(steps)
    ensures ExecuteOps(c, default, Compile(steps, inherited).value, s)
            == Interpret(c, steps, Resolve(default, inherited), s)
    decreases steps, 0, 0
  {
    CompilesIff(steps, inherited);
    if steps != [] {
      var first, rest := CompileStep(steps[0], inherited).value, Compile(steps[1..], inherited).value;
      StepMeansNested(c, default, steps[0], inherited, s);
      ExecuteAppend(c, default, first, rest, s);
      CompiledMeansNested(c, default, steps[1..], inherited, ExecuteOps(c, default, first, s));
    }
  }

  lemma {:induction false} StepMeansNested(c: Context, default: string, step: RecipeStep,
                                           inherited: Option<string>, s: State)
    requires CompileStep(step, inherited).Ok?
    ensures WellFormedStep(step)
    ensures ExecuteOps(c, default, CompileStep(step, inherited).value, s)
            == InterpretStep(c, step, Resolve(default, inherited), s)
    decreases step, 1, 0
  {
    StepCompilesIff(step, inherited);
    var ops, current := CompileStep(step, inherited).value, Resolve(default, inherited);
    hide Perform;
    match step
    case SetStep(_, _) => ExecuteOne(c, default, ops[0], s);
    case TimeStep(_, _, _) => ExecuteOne(c, default, ops[0], s);
    case PrintStep(_, _) => ExecuteOne(c, default, ops[0], s);
    case SpeedStep(_, _) => ExecuteOne(c, default, ops[0], s);
    case ResetStep(_) => ExecuteOne(c, default, ops[0], s);
    case SleepStep(ms) =>
      ExecuteOne(c, default, ops[0], s);
      TargetIrrelevant(c, default, current, Sleep(ms), s);
    case ForStep(_, _, _, _, each, instance) =>
      if Iterations(step).value > 0 {
        RoundsMeanNested(c, default, step, OrElse(instance, inherited), Iterations(step).value, s);
      }
    case AssertStep(_) => ExecuteOne(c, default, ops[0], s);
  }

  lemma {:induction false} RoundsMeanNested(c: Context, default: string, f: RecipeStep,
                                            inherited: Option<string>, n: nat, s: State)
    requires f.ForStep? && WellFormedStep(f) && n <= Iterations(f).value && Compile(f.each, inherited).Ok?
    ensures ExecuteOps(c, default, Rounds(f, inherited, Compile(f.each, inherited).value, n), s)
            == InterpretRounds(c, f, Resolve(default, inherited), n, s)
    decreases f, 0, n
  {
    if n > 0 {
      var body, current := Compile(f.each, inherited).value, Resolve(default, inherited);
      var before := Rounds(f, inherited, body, n - 1);
      RoundsMeanNested(c, default, f, inherited, n - 1, s);
      ExecuteAppend(c, default, before, Round(f, inherited, body, n - 1), s);
      var t := ExecuteOps(c, default, before, s);
      RoundMeansNested(c, default, f, inherited, body, n - 1, t);
      var announced := Perform(c, current, Iterate(f.signal, LoopValue(f, n - 1)), t);
      CompiledMeansNested(c, default, f.each, inherited,
                          Perform(c, current, Set(map[f.signal := Number(LoopValue(f, n - 1))]), announced));
    }
  }

  lemma RoundMeansNested(c: Context, default: string, f: RecipeStep,
                         inherited: Option<string>, body: seq<Op>, k: nat, s: State)
    requires f.ForStep?
    ensures var current, value := Resolve(default, inherited), LoopValue(f, k);
            var announced := Perform(c, current, Iterate(f.signal, value), s);
            ExecuteOps(c, default, Round(f, inherited, body, k), s)
            == ExecuteOps(c, default, body, Perform(c, current, Set(map[f.signal := Number(value)]), announced))
  {
    var value := LoopValue(f, k);
    var one, two := Op(None, Iterate(f.signal, value)), Op(inherited, Set(map[f.signal := Number(value)]));
    ExecuteAppend(c, default, [one, two], body, s);
    assert [one, two] == [one] + [two];
    ExecuteAppend(c, default, [one], [two], s);
    ExecuteOne(c, default, one, s);
    TargetIrrelevant(c, default, Resolve(default, inherited), one.action, s);
    ExecuteOne(c, default, two, ExecuteOps(c, default, [one], s));
  }

  /** A dry run sends nothing and reports every op; a real run that does not fail reports
      every op as well. */
  lemma {:induction false} OneResultPerOp(c: Context, default: string, ops: seq<Op>, s: State)
    requires !s.failed
    ensures var t := ExecuteOps(c, default, ops, s);
            && (c.dryRun ==> !t.failed && t.requests == s.requests)
            && (!t.failed ==> |t.results| == |s.results| + |ops|)
            && (t.failed ==> |t.results| < |s.results| + |ops|)
    decreases |ops|
  {
    if ops != [] {
      var t := Perform(c, Resolve(default, ops[0].instance), ops[0].action, s);
      if t.failed {
        FailedStays(c, default, ops[1..], t);
      } else {
        OneResultPerOp(c, default, ops[1..], t);
      }
    }
  }

  lemma {:induction false} FailedStays(c: Context, default: string, ops: seq<Op>, s: State)
    requires s.failed
    ensures ExecuteOps(c, default, ops, s) == s
    decreases |ops|
  {
    if ops != [] {
      FailedStays(c, default, ops[1..], s);
    }
  }

  // ----- what is sent and reported

  /** The instance an op is for: its own, or the default one. */
  function TargetOf(default: string, op: Op): string {
    match op.instance
    case None => default
    case Some(name) => name
  }

  /** The request an op makes: an announcement makes none, a sleep is a wait, time requests go
      to the env of an attached instance, and everything else to the instance itself. */
  function RequestsOf(c: Context, default: string, op: Op): seq<Request> {
    var target := TargetOf(default, op);
    match op.action
    case Iterate(_, _) => []
    case Sleep(ms) => [Wait(ms)]
    case Step(_) =>
      if target in c.attached && c.attached[target].Some? then [ToEnv(c.attached[target].value, op.action)]
      else [ToInstance(target, op.action)]
    case Speed(_) =>
      if target in c.attached && c.attached[target].Some? then [ToEnv(c.attached[target].value, op.action)]
      else [ToInstance(target, op.action)]
    case _ => [ToInstance(target, op.action)]
  }

  function AllRequests(c: Context, default: string, ops: seq<Op>): seq<Request> {
    if ops == [] then [] else RequestsOf(c, default, ops[0]) + AllRequests(c, default, ops[1..])
  }

  /** The last of these requests fails. */
  predicate Refused(c: Context, requests: seq<Request>) {
    requests != [] && !requests[|requests| - 1].Wait? && c.world(requests).None?
  }

  lemma PerformSends(c: Context, default: string, op: Op, s: State)
    requires !s.failed && !c.dryRun
    ensures var t, requests := Perform(c, Resolve(default, op.instance), op.action, s), RequestsOf(c, default, op);
            && |requests| <= 1 && t.requests == s.requests + requests
            && (t.failed <==> requests != [] && Refused(c, s.requests + requests))
  {
    assert s.requests + [] == s.requests;
  }

  /** A run that is not dry sends the requests of its ops, in their order, up to and including
      the first that is refused; it fails exactly when one is. */
  lemma {:induction false} RunSends(c: Context, default: string, ops: seq<Op>, s: State) returns (n: nat)
    requires !s.failed && !c.dryRun
    ensures n <= |AllRequests(c, default, ops)|
    ensures ExecuteOps(c, default, ops, s).requests == s.requests + AllRequests(c, default, ops)[..n]
    ensures ExecuteOps(c, default, ops, s).failed <==> n > 0 && Refused(c, s.requests + AllRequests(c, default, ops)[..n])
    ensures !ExecuteOps(c, default, ops, s).failed ==> n == |AllRequests(c, default, ops)|
    ensures forall m :: 0 < m < n ==> !Refused(c, s.requests + AllRequests(c, default, ops)[..m])
    decreases |ops|
  {
    n := 0;
    if ops != [] {
      var t := Perform(c, Resolve(default, ops[0].instance), ops[0].action, s);
      var first, rest := RequestsOf(c, default, ops[0]), AllRequests(c, default, ops[1..]);
      PerformSends(c, default, ops[0], s);
      hide Perform, RequestsOf, Refused;
      if t.failed {
        FailedStays(c, default, ops[1..], t);
        n := 1;
        assert (first + rest)[..1] == first;
      } else {
        var later := RunSends(c, default, ops[1..], t);
        n := |first| + later;
        SendsAppend(c, s.requests, first, rest, later);
      }
    } else {
      assert s.requests + [] == s.requests;
    }
  }

  lemma SendsAppend(c: Context, base: seq<Request>, first: seq<Request>, rest: seq<Request>, later: nat)
    requires |first| <= 1 && later <= |rest| && (first != [] ==> !Refused(c, base + first))
    requires forall m :: 0 < m < later ==> !Refused(c, base + first + rest[..m])
    ensures base + (first + rest)[..|first| + later] == base + first + rest[..later]
    ensures forall m :: 0 < m < |first| + later ==> !Refused(c, base + (first + rest)[..m])
    ensures later == 0 ==> base + first + rest[..later] == base + first
  {
    hide Refused;
    var all := first + rest;
    assert all[..|first| + later] == first + rest[..later];
    forall m | 0 < m < |first| + later ensures !Refused(c, base + all[..m]) {
      if m <= |first| {
        assert all[..m] == first;
      } else {
        assert all[..m] == first + rest[..m - |first|];
        assert base + all[..m] == base + first + rest[..m - |first|];
      }
    }
  }

  /** Every op that is done is reported under its own action and target, in order. */
  lemma {:induction false} RunReports(c: Context, default: string, ops: seq<Op>, s: State, k: nat)
    requires !s.failed && |s.results| + k < |ExecuteOps(c, default, ops, s).results|
    ensures k < |ops| && s.results <= ExecuteOps(c, default, ops, s).results
    ensures var report := ExecuteOps(c, default, ops, s).results[|s.results| + k];
            && report.action == ops[k].action
            && report.instance == if ops[k].action.Iterate? || ops[k].action.Sleep? then None
                                  else Some(TargetOf(default, ops[k]))
    decreases |ops|
  {
    if ops != [] {
      var t := Perform(c, Resolve(default, ops[0].instance), ops[0].action, s);
      if t.failed {
        FailedStays(c, default, ops[1..], t);
      } else {
        if |t.results| < |ExecuteOps(c, default, ops[1..], t).results| {
          RunReports(c, default, ops[1..], t, if k == 0 then 0 else k - 1);
        } else {
          ResultsGrow(c, default, ops[1..], t);
        }
      }
    }
  }

  lemma PerformReports(c: Context, default: string, op: Op, s: State)
    requires !s.failed && !c.dryRun
    ensures var t := Perform(c, Resolve(default, op.instance), op.action, s);
            if t.failed then t.results == s.results
            else
              && |t.results| == |s.results| + 1
              && (!op.action.Iterate? && !op.action.Sleep? ==> c.world(t.requests) == Some(t.results[|s.results|].reply))
  {
  }

  lemma ExecuteUnfolds(c: Context, default: string, ops: seq<Op>, s: State)
    requires ops != []
    ensures ExecuteOps(c, default, ops, s)
            == ExecuteOps(c, default, ops[1..], Perform(c, Resolve(default, ops[0].instance), ops[0].action, s))
  {
  }

  lemma RequestsUnfold(c: Context, default: string, ops: seq<Op>, k: nat)
    requires k < |ops|
    ensures AllRequests(c, default, ops[..k + 1])
            == RequestsOf(c, default, ops[0]) + AllRequests(c, default, ops[1..][..k])
    ensures k == 0 ==> AllRequests(c, default, ops[1..][..k]) == []
  {
    assert ops[..k + 1][0] == ops[0] && ops[..k + 1][1..] == ops[1..][..k];
  }

  /** And with the reply to its own request. */
  lemma {:induction false} RunReplies(c: Context, default: string, ops: seq<Op>, s: State, k: nat)
    requires !s.failed && !c.dryRun && k < |ops| && |s.results| + k < |ExecuteOps(c, default, ops, s).results|
    requires !ops[k].action.Iterate? && !ops[k].action.Sleep?
    ensures c.world(s.requests + AllRequests(c, default, ops[..k + 1]))
            == Some(ExecuteOps(c, default, ops, s).results[|s.results| + k].reply)
    decreases |ops|
  {
    var t := Perform(c, Resolve(default, ops[0].instance), ops[0].action, s);
    var first := RequestsOf(c, default, ops[0]);
    PerformSends(c, default, ops[0], s);
    PerformReports(c, default, ops[0], s);
    ExecuteUnfolds(c, default, ops, s);
    RequestsUnfold(c, default, ops, k);
    hide *;
    if t.failed {
      FailedStays(c, default, ops[1..], t);
    } else if k == 0 {
      ResultsGrow(c, default, ops[1..], t);
      assert first + [] == first;
    } else {
      RunReplies(c, default, ops[1..], t, k - 1);
      var rest := AllRequests(c, default, ops[1..][..k]);
      assert t.requests + rest == s.requests + (first + rest);
    }
  }

  lemma {:induction false} ResultsGrow(c: Context, default: string, ops: seq<Op>, s: State)
    ensures s.results <= ExecuteOps(c, default, ops, s).results
    decreases |ops|
  {
    if ops != [] {
      ResultsGrow(c, default, ops[1..], Perform(c, Resolve(default, ops[0].instance), ops[0].action, s));
    }
  }

  /** What a single step compiles to: one op that carries it out, for the nearest instance
      named; a step that sets signals writes each configured text under its own signal. */
  lemma StepOps(step: RecipeStep, inherited: Option<string>, ops: seq<Op>)
    requires CompileStep(step, inherited) == Ok(ops) && !step.ForStep?
    ensures |ops| == 1
    ensures match step
            case SetStep(values, _) =>
              && ops[0].action.Set? && ops[0].action.writes.Keys == values.Keys
              && forall key :: key in values ==> values[key].Some? && ops[0].action.writes[key] == Text(values[key].value)
            case TimeStep(duration, _, _) => ops[0].action == Step(duration)
            case PrintStep(selectors, _) => ops[0].action == Print(selectors)
            case SpeedStep(speed, _) => ops[0].action == Speed(speed)
            case ResetStep(_) => ops[0].action == Reset
            case SleepStep(ms) => ops[0].action == Sleep(ms)
            case AssertStep(spec) => ops[0].action == Assert(spec) && spec.comparators == 1 && spec.approx == spec.tolerance
            case ForStep(_, _, _, _, _, _) => false
    ensures step.SleepStep? || ops[0].instance == Nearest(step, inherited)
  {
  }

  /** A step's own instance, the inner one first, or the inherited one. */
  function Nearest(step: RecipeStep, inherited: Option<string>): Option<string> {
    var own := match step
               case TimeStep(_, nested, instance) => if nested.Some? then nested else instance
               case SleepStep(_) => None
               case AssertStep(spec) => spec.instance
               case _ => step.instance;
    if own.None? then inherited else own
  }

  /** The executor's loop, which gives up at the first failure. */
  method ExecuteRecipeOps(c: Context, default: string, ops: seq<Op>) returns (s: State)
    ensures s == ExecuteOps(c, default, ops, State([], [], false))
  {
    hide Perform;
    s := State([], [], false);
    var i := 0;
    while i < |ops|
      invariant i <= |ops| && !s.failed
      invariant ExecuteOps(c, default, ops, State([], [], false)) == ExecuteOps(c, default, ops[i..], s)
    {
      assert ops[i..][0] == ops[i] && ops[i..][1..] == ops[i + 1..];
      s := Perform(c, Resolve(default, ops[i].instance), ops[i].action, s);
      i := i + 1;
      if s.failed {
        FailedStays(c, default, ops[i..], s);
        return;
      }
    }
    assert ops[i..] == [];
  }

  // ----- the compiler as the runtime runs it

  class OpBuffer {
    var ops: seq<Op>

    constructor ()
      ensures ops == []
    {
      ops := [];
    }

    method Push(op: Op)
      modifies this
      ensures ops == old(ops) + [op]
    {
      ops := ops + [op];
    }
  }

  /** What a compilation appends to the buffer, or the error it stops with. */
  ghost predicate Appended(before: seq<Op>, after: seq<Op>, expected: Result<seq<Op>, RecipeError>,
                           r: Result<(), RecipeError>)
  {
    match expected
    case Ok(ops) => r.Ok? && after == before + ops
    case Err(e) => r == Err(e)
  }

  lemma PrependStep(steps: seq<RecipeStep>, i: nat, inherited: Option<string>, done: seq<Op>)
    requires i < |steps|
    ensures match CompileStep(steps[i], inherited)
            case Ok(ops) =>
              Prepend(done, Compile(steps[i..], inherited)) == Prepend(done + ops, Compile(steps[i + 1..], inherited))
            case Err(e) => Prepend(done, Compile(steps[i..], inherited)) == Err(e)
  {
    assert steps[i..][0] == steps[i] && steps[i..][1..] == steps[i + 1..];
    if CompileStep(steps[i], inherited).Ok? {
      PrependTwice(done, CompileStep(steps[i], inherited).value, Compile(steps[i + 1..], inherited));
    }
  }

  method CompileRecipeSteps(steps: seq<RecipeStep>, buffer: OpBuffer, inherited: Option<string>)
    returns (r: Result<(), RecipeError>)
    modifies buffer
    ensures Appended(old(buffer.ops), buffer.ops, Compile(steps, inherited), r)
    decreases steps, 0
  {
    hide CompileStep, Compile;
    var i := 0;
    ghost var done := [];
    assert steps[0..] == steps;
    PrependTwice([], [], Compile(steps, inherited));
    while i < |steps|
      invariant i <= |steps| && buffer.ops == old(buffer.ops) + done
      invariant Compile(steps, inherited) == Prepend(done, Compile(steps[i..], inherited))
    {
      PrependStep(steps, i, inherited, done);
      ghost var before := buffer.ops;
      r := CompileOne(steps[i], buffer, inherited);
      if r.Err? {
        return;
      }
      done := done + CompileStep(steps[i], inherited).value;
      i := i + 1;
    }
    NothingLeft(inherited);
    assert steps[i..] == [] && done + [] == done;
    r := Ok(());
  }

  lemma NothingLeft(inherited: Option<string>)
    ensures Compile([], inherited) == Ok([])
  {
  }

  /** The body of the loop over the steps. */
  method CompileOne(step: RecipeStep, buffer: OpBuffer, inherited: Option<string>) returns (r: Result<(), RecipeError>)
    modifies buffer
    ensures Appended(old(buffer.ops), buffer.ops, CompileStep(step, inherited), r)
    decreases step, 2
  {
    r := Ok(());
    match step
    case SetStep(values, instance) =>
      if !Renders(values) {
        return Err(BadValue);
      }
      buffer.Push(Op(OrElse(instance, inherited), Set(Rendered(values))));
    case TimeStep(duration, nested, instance) =>
      buffer.Push(Op(OrElse(nested, OrElse(instance, inherited)), Step(duration)));
    case PrintStep(selectors, instance) =>
      buffer.Push(Op(OrElse(instance, inherited), Print(selectors)));
    case SpeedStep(speed, instance) =>
      buffer.Push(Op(OrElse(instance, inherited), Speed(speed)));
    case ResetStep(instance) =>
      buffer.Push(Op(OrElse(instance, inherited), Reset));
    case SleepStep(ms) =>
      buffer.Push(Op(None, Sleep(ms)));
    case ForStep(_, _, _, _, _, instance) =>
      r := CompileForStep(step, buffer, OrElse(instance, inherited));
    case AssertStep(spec) =>
      if !ValidAssert(spec) {
        return Err(BadAssert);
      }
      buffer.Push(Op(OrElse(spec.instance, inherited), Assert(spec)));
  }

  lemma RoundsSnoc(f: RecipeStep, inherited: Option<string>, body: seq<Op>, k: nat)
    requires f.ForStep?
    ensures Rounds(f, inherited, body, 0) == []
    ensures Rounds(f, inherited, body, k + 1) == Rounds(f, inherited, body, k) + Round(f, inherited, body, k)
  {
  }

  method CompileForStep(f: RecipeStep, buffer: OpBuffer, inherited: Option<string>) returns (r: Result<(), RecipeError>)
    requires f.ForStep?
    modifies buffer
    ensures Appended(old(buffer.ops), buffer.ops, CompileLoop(f, inherited), r)
    decreases f, 1
  {
    hide Compile, Iterations, Round, Rounds;
    var rounds := FindIterations(f);
    if rounds.Err? {
      return Err(rounds.error);
    }
    ghost var body := Compile(f.each, inherited);
    ghost var start := buffer.ops;
    var idx := 0;
    while idx < rounds.value
      invariant idx <= rounds.value && (idx > 0 ==> body.Ok?)
      invariant buffer.ops == start + if idx == 0 then [] else Rounds(f, inherited, body.value, idx)
    {
      var compiled := CompileRound(f, buffer, inherited, idx);
      if compiled.Err? {
        return compiled;
      }
      RoundsSnoc(f, inherited, body.value, idx);
      idx := idx + 1;
    }
    r := Ok(());
  }

  /** One round of the loop: announce the value, write it, compile the body. */
  method CompileRound(f: RecipeStep, buffer: OpBuffer, inherited: Option<string>, idx: nat)
    returns (r: Result<(), RecipeError>)
    requires f.ForStep?
    modifies buffer
    ensures match Compile(f.each, inherited)
            case Err(e) => r == Err(e)
            case Ok(body) => r.Ok? && buffer.ops == old(buffer.ops) + Round(f, inherited, body, idx)
    decreases f, 0
  {
    hide Compile, LoopValue;
    var current := LoopValue(f, idx);
    buffer.Push(Op(None, Iterate(f.signal, current)));
    buffer.Push(Op(inherited, Set(map[f.signal := Number(current)])));
    r := CompileRecipeSteps(f.each, buffer, inherited);
  }

  /** The checks of a loop's bounds. */
  method FindIterations(f: RecipeStep) returns (r: Result<nat, RecipeError>)
    requires f.ForStep?
    ensures r == Iterations(f)
  {
    if f.stride == 0.0 {
      return Err(ZeroStride);
    }
    var delta := f.to - f.from;
    if (f.stride > 0.0 && delta < 0.0) || (f.stride < 0.0 && delta > 0.0) {
      return Ok(0);
    }
    QuotientSign(delta, f.stride);
    var maxSteps := (delta / f.stride + 0.000000001).Floor;
    if maxSteps > U64_MAX {
      return Err(TooManyIterations);
    }
    r := Ok(maxSteps + 1);
  }
}
