/** Laws of the evaluator: how results, effects and errors travel through awaits. */
module TaskLaws {
  import opened TaskSemantics
  import opened Wrappers

  const LAST: Env -> Expected := e => if e == [] then Value(0) else e[|e| - 1]

  /** Awaiting a task and returning what it gave is running the task. */
  lemma AwaitLaw(child: Code, args: Env -> Env, env: Env)
    ensures Eval(Await(child, args, Return(LAST)), env) == Eval(child, args(env))
  {
    var r := Eval(child, args(env));
    assert (env + [r.outcome])[|env|] == r.outcome;
    assert r.trace + [] == r.trace;
  }

  function Acts(tags: seq<Env -> int>, next: Code): Code {
    if tags == [] then next else Act(tags[0], Acts(tags[1..], next))
  }

  function Labels(tags: seq<Env -> int>, env: Env): seq<int> {
    if tags == [] then [] else [tags[0](env)] + Labels(tags[1..], env)
  }

  /** Visible effects happen once each, in the order of the body, before what follows them. */
  lemma {:induction false} ActsInOrder(tags: seq<Env -> int>, next: Code, env: Env)
    ensures Eval(Acts(tags, next), env) == After(Labels(tags, env), Eval(next, env))
  {
    AfterAfter([], [], Eval(next, env));
    if tags != [] {
      ActsInOrder(tags[1..], next, env);
      AfterAfter([tags[0](env)], Labels(tags[1..], env), Eval(next, env));
    }
  }

  /** `co_await co_await child` with a value is a plain await; with an error it is the child's own
      run, whatever would have come next. */
  lemma TryLaw(child: Code, args: Env -> Env, next: Code, env: Env)
    ensures var r := Eval(child, args(env));
      Eval(Try(child, args, next), env) == if r.outcome.Error? then r else Eval(Await(child, args, next), env)
  {
  }

  /** Awaiting a value is awaiting a task that returns it. */
  lemma CheckLaw(value: Env -> Expected, next: Code, env: Env)
    ensures Eval(Check(value, next), env) == Eval(Try(Return(value), e => e, next), env)
  {
    var r := Eval(Return(value), env);
    assert r == Run(value(env), []);
    AfterAfter([], [], Eval(next, env + [value(env)]));
  }

  /** Awaiting a list is awaiting its values one after the other. */
  lemma CheckAllLaw(values: Env -> seq<Expected>, next: Code, env: Env)
    ensures var es := values(env);
      Eval(CheckAll(values, next), env)
      == if es == [] then Eval(next, env) else Eval(Check(_ => es[0], CheckAll(_ => es[1..], next)), env)
  {
    var es := values(env);
    if es == [] {
      assert env + es == env;
    } else {
      assert (env + [es[0]]) + es[1..] == env + es;
    }
  }

  /** A caller that awaits the task below it with `co_await co_await`. */
  datatype Level = Level(args: Env -> Env, next: Code)

  function Nested(levels: seq<Level>, inner: Code): Code {
    if levels == [] then inner else Try(Nested(levels[1..], inner), levels[0].args, levels[0].next)
  }

  /** The variables that the innermost task starts with. */
  function Through(levels: seq<Level>, env: Env): Env {
    if levels == [] then env else Through(levels[1..], levels[0].args(env))
  }

  /** An error falls through any number of callers unchanged, and none of them does anything more. */
  lemma {:induction false} ErrorEscapes(levels: seq<Level>, inner: Code, env: Env)
    requires Eval(inner, Through(levels, env)).outcome.Error?
    ensures Eval(Nested(levels, inner), env) == Eval(inner, Through(levels, env))
    decreases |levels|
  {
    if levels != [] {
      ErrorEscapes(levels[1..], inner, levels[0].args(env));
      TryLaw(Nested(levels[1..], inner), levels[0].args, levels[0].next, env);
    }
  }

  /** So it does in the machine that the awaiters implement. */
  lemma ErrorEscapesRun(levels: seq<Level>, inner: Code, env: Env)
    requires Eval(inner, Through(levels, env)).outcome.Error?
    ensures RunAll(Config([Activation(Nested(levels, inner), env)], None)) == Eval(inner, Through(levels, env))
  {
    ErrorEscapes(levels, inner, env);
    MachineRefinesEval(Nested(levels, inner), env);
  }
}
