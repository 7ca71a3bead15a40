/** What a tree of tasks means.  A coroutine body is a finite tree of suspension points; its
    results travel as `Expected` values.  `Eval` runs a body by plain recursion; `Step` is the
    machine that the awaiters implement: a chain of activations, each waiting for the next. */
module TaskSemantics {
  import opened Wrappers

  datatype Expected = Value(v: int) | Error(e: int)

  type Env = seq<Expected>

  /** The local variables are a list that grows; functions of it stand for the ordinary code
      between suspension points. */
  datatype Code =
    | Return(result: Env -> Expected)                      // co_return result
    | Act(tag: Env -> int, next: Code)                   // a visible effect
    | If(cond: Env -> bool, yes: Code, no: Code)
    | Await(child: Code, args: Env -> Env, next: Code)     // auto r = co_await child(args)
    | Try(child: Code, args: Env -> Env, next: Code)       // auto v = co_await co_await child(args)
    | Check(value: Env -> Expected, next: Code)            // auto v = co_await value
    | CheckAll(values: Env -> seq<Expected>, next: Code)   // auto vs = co_await values

  datatype Run = Run(outcome: Expected, trace: seq<int>)

  function After(labels: seq<int>, r: Run): Run { Run(r.outcome, labels + r.trace) }

  /** The first error of a list, if there is one. */
  function FirstError(es: seq<Expected>): Option<Expected> {
    if es == [] then None else if es[0].Error? then Some(es[0]) else FirstError(es[1..])
  }

  /** Recursive evaluation: children run to completion where they are awaited; an error that
      is awaited as `Expected` ends the body with that error. */
  function Eval(code: Code, env: Env): Run
    decreases code
  {
    match code
    case Return(result) => Run(result(env), [])
    case Act(tag, next) => After([tag(env)], Eval(next, env))
    case If(cond, yes, no) => if cond(env) then Eval(yes, env) else Eval(no, env)
    case Await(child, args, next) =>
      var r := Eval(child, args(env));
      After(r.trace, Eval(next, env + [r.outcome]))
    case Try(child, args, next) =>
      var r := Eval(child, args(env));
      if r.outcome.Error? then r else After(r.trace, Eval(next, env + [r.outcome]))
    case Check(value, next) =>
      var e := value(env);
      if e.Error? then Run(e, []) else Eval(next, env + [e])
    case CheckAll(values, next) =>
      var es := values(env);
      match FirstError(es)
      case Some(e) => Run(e, [])
      case None => Eval(next, env + es)
  }

  // ---------------------------------------------------------------- the chain of activations

  datatype Activation = Activation(code: Code, env: Env)

  /** Activations from the root task down, all but the last suspended in an await.  With
      `given` the last one is suspended as well and receives that result next. */
  datatype Config = Config(acts: seq<Activation>, given: Option<Expected>)

  predicate Suspended(a: Activation) { a.code.Await? || a.code.Try? }

  ghost predicate Good(c: Config) {
    && (c.given == None ==> c.acts != [])
    && forall i :: 0 <= i < (if c.given == None then |c.acts| - 1 else |c.acts|) ==> Suspended(c.acts[i])
  }

  function Top(c: Config): Activation
    requires c.acts != []
  {
    c.acts[|c.acts| - 1]
  }

  function Below(c: Config): seq<Activation>
    requires c.acts != []
  {
    c.acts[..|c.acts| - 1]
  }

  function Becomes(c: Config, a: Activation): Config
    requires c.acts != []
  {
    Config(Below(c) + [a], None)
  }

  /** The last activation is over: its result goes to the one that waits for it. */
  function Ends(c: Config, r: Expected): Config
    requires c.acts != []
  {
    Config(Below(c), Some(r))
  }

  datatype Moved = Moved(next: Config, labels: seq<int>)

  /** One resumption up to the next transfer of control. */
  function Step(c: Config): Moved
    requires c.acts != [] && (c.given.Some? ==> Suspended(Top(c)))
  {
    if c.given.Some? then Moved(Deliver(c), []) else
    var env := Top(c).env;
    match Top(c).code
    case Return(result) => Moved(Ends(c, result(env)), [])
    case Act(tag, next) => Moved(Becomes(c, Activation(next, env)), [tag(env)])
    case If(cond, yes, no) => Moved(Becomes(c, Activation(if cond(env) then yes else no, env)), [])
    case Await(child, args, _) => Moved(Config(c.acts + [Activation(child, args(env))], None), [])
    case Try(child, args, _) => Moved(Config(c.acts + [Activation(child, args(env))], None), [])
    case Check(value, next) =>
      var e := value(env);
      Moved(if e.Error? then Ends(c, e) else Becomes(c, Activation(next, env + [e])), [])
    case CheckAll(values, next) =>
      var es := values(env);
      Moved(match FirstError(es)
            case Some(e) => Ends(c, e)
            case None => Becomes(c, Activation(next, env + es)), [])
  }

  function Deliver(c: Config): Config
    requires c.acts != [] && c.given.Some? && Suspended(Top(c))
  {
    var r, a := c.given.value, Top(c);
    if a.code.Try? && r.Error? then Ends(c, r)
    else Becomes(c, Activation(a.code.next, a.env + [r]))
  }

  // ---------------------------------------------------------------- refinement

  /** What a suspended activation still does once its child has returned `r`. */
  function Continue(a: Activation, r: Expected): Run
    requires Suspended(a)
  {
    if a.code.Try? && r.Error? then Run(r, []) else Eval(a.code.next, a.env + [r])
  }

  /** What a chain of suspended activations still does once its last one gets `r`. */
  function Unwind(acts: seq<Activation>, r: Expected): Run
    requires forall i :: 0 <= i < |acts| ==> Suspended(acts[i])
  {
    if acts == [] then Run(r, [])
    else
      var one := Continue(acts[|acts| - 1], r);
      After(one.trace, Unwind(acts[..|acts| - 1], one.outcome))
  }

  /** All that is left to do, seen through the recursive evaluator. */
  function Remaining(c: Config): Run
    requires Good(c)
  {
    if c.given.Some? then Unwind(c.acts, c.given.value)
    else
      var one := Eval(Top(c).code, Top(c).env);
      After(one.trace, Unwind(Below(c), one.outcome))
  }

  lemma StepGood(c: Config)
    requires Good(c) && c.acts != []
    ensures Good(Step(c).next)
  {
  }

  lemma PushGood(c: Config, a: Activation)
    requires Good(c) && c.given == None && Suspended(Top(c))
    ensures Good(Config(c.acts + [a], None))
  {
  }

  lemma BecomesGood(c: Config, a: Activation)
    requires Good(c) && c.acts != []
    ensures Good(Becomes(c, a)) && |Becomes(c, a).acts| == |c.acts|
    ensures forall i :: 0 <= i < |c.acts| - 1 ==> Becomes(c, a).acts[i] == c.acts[i]
  {
  }

  lemma AfterAfter(s: seq<int>, t: seq<int>, r: Run)
    ensures After(s, After(t, r)) == After(s + t, r) && After([], r) == r
  {
  }

  lemma BecomesRemaining(c: Config, a: Activation)
    requires c.acts != [] && forall i :: 0 <= i < |c.acts| - 1 ==> Suspended(c.acts[i])
    ensures Good(Becomes(c, a))
    ensures Remaining(Becomes(c, a)) ==
      var one := Eval(a.code, a.env); After(one.trace, Unwind(Below(c), one.outcome))
  {
  }

  /** Awaiting a child leaves to do: the child, then the parent with its result, then the rest. */
  lemma CallRemaining(c: Config, child: Code, env: Env)
    requires Good(c) && c.given == None && Suspended(Top(c))
    ensures var c' := Config(c.acts + [Activation(child, env)], None);
      && Good(c')
      && var r := Eval(child, env);
         var one := Continue(Top(c), r.outcome);
         Remaining(c') == After(r.trace, After(one.trace, Unwind(Below(c), one.outcome)))
  {
  }

  /** One step of the machine does what the evaluator says is to be done next. */
  lemma StepRemaining(c: Config)
    requires Good(c) && c.acts != []
    ensures Good(Step(c).next)
    ensures Remaining(c) == After(Step(c).labels, Remaining(Step(c).next))
  {
    StepGood(c);
    AfterAfter([], [], Remaining(Step(c).next));
    if c.given.Some? { DeliverRemaining(c); return; }
    var env := Top(c).env;
    match Top(c).code
    case Return(result) => ReturnRemaining(c);
    case Act(tag, next) => ActRemaining(c);
    case If(cond, yes, no) => BecomesRemaining(c, Activation(if cond(env) then yes else no, env));
    case Await(_, _, _) => AwaitRemaining(c);
    case Try(_, _, _) => AwaitRemaining(c);
    case Check(_, _) => CheckRemaining(c);
    case CheckAll(_, _) => CheckRemaining(c);
  }

  lemma DeliverRemaining(c: Config)
    requires Good(c) && c.acts != [] && c.given.Some?
    ensures Good(Deliver(c)) && Remaining(c) == Remaining(Deliver(c))
  {
  }

  lemma ReturnRemaining(c: Config)
    requires Good(c) && c.given == None && Top(c).code.Return?
    ensures Remaining(c) == After(Step(c).labels, Remaining(Step(c).next))
  {
  }

  lemma ActRemaining(c: Config)
    requires Good(c) && c.given == None && Top(c).code.Act?
    ensures Remaining(c) == After(Step(c).labels, Remaining(Step(c).next))
  {
  }

  lemma AwaitRemaining(c: Config)
    requires Good(c) && c.given == None && Suspended(Top(c))
    ensures Good(Step(c).next) && Remaining(c) == Remaining(Step(c).next)
  {
    var a := Top(c);
    var env := a.code.args(a.env);
    var r := Eval(a.code.child, env);
    var one := Continue(a, r.outcome);
    CallRemaining(c, a.code.child, env);
    AfterAfter(r.trace, one.trace, Unwind(Below(c), one.outcome));
    assert r.trace + [] == r.trace;
  }

  lemma CheckRemaining(c: Config)
    requires Good(c) && c.given == None && (Top(c).code.Check? || Top(c).code.CheckAll?)
    ensures Good(Step(c).next) && Remaining(c) == Remaining(Step(c).next)
  {
  }

  // ---------------------------------------------------------------- termination

  function Size(code: Code): nat {
    match code
    case Return(_) => 1
    case Act(_, next) => 1 + Size(next)
    case If(_, yes, no) => 1 + Size(yes) + Size(no)
    case Await(child, _, next) => 2 + Size(child) + Size(next)
    case Try(child, _, next) => 2 + Size(child) + Size(next)
    case Check(_, next) => 1 + Size(next)
    case CheckAll(_, next) => 1 + Size(next)
  }

  function Waiting(acts: seq<Activation>): nat {
    if acts == [] then 0
    else
      var a := acts[|acts| - 1];
      Waiting(acts[..|acts| - 1]) + if Suspended(a) then 1 + Size(a.code.next) else 0
  }

  /** Bounds the number of steps that are left. */
  function Fuel(c: Config): nat
    requires c.given == None ==> c.acts != []
  {
    if c.given.Some? then Waiting(c.acts) else Waiting(Below(c)) + Size(Top(c).code)
  }

  lemma StepDescends(c: Config)
    requires Good(c) && c.acts != []
    ensures Good(Step(c).next) && Fuel(Step(c).next) < Fuel(c)
  {
    StepGood(c);
    var n := Step(c).next;
    if n.given.Some? {
      assert n.acts == Below(c);
    } else if |n.acts| > |c.acts| {
      assert Below(n) == c.acts;
    } else {
      assert Below(n) == Below(c);
    }
  }

  // ---------------------------------------------------------------- the whole run

  /** All steps from a configuration on. */
  function RunAll(c: Config): Run
    requires Good(c)
    decreases Fuel(c)
  {
    if c.acts == [] then Run(c.given.value, [])
    else
      StepDescends(c);
      After(Step(c).labels, RunAll(Step(c).next))
  }

  lemma {:induction false} RunAllRemaining(c: Config)
    requires Good(c)
    ensures RunAll(c) == Remaining(c)
    decreases Fuel(c)
  {
    if c.acts != [] {
      StepDescends(c);
      StepRemaining(c);
      RunAllRemaining(Step(c).next);
    }
  }

  /** The machine refines the evaluator: started on one task it ends with the evaluator's
      result and has done the evaluator's visible effects in the evaluator's order. */
  lemma MachineRefinesEval(code: Code, env: Env)
    ensures RunAll(Config([Activation(code, env)], None)) == Eval(code, env)
  {
    var c := Config([Activation(code, env)], None);
    RunAllRemaining(c);
    assert Below(c) == [];
    var r := Eval(code, env);
    assert r.trace + [] == r.trace;
  }

  predicate AllValues(es: seq<Expected>) { forall i :: 0 <= i < |es| ==> es[i].Value? }

  /** `FirstError` is the error of least index. */
  lemma {:induction false} FirstErrorIs(es: seq<Expected>)
    ensures FirstError(es) == None <==> AllValues(es)
    ensures FirstError(es).Some? ==>
      exists k :: 0 <= k < |es| && es[k] == FirstError(es).value && es[k].Error? && AllValues(es[..k])
  {
    if es != [] && es[0].Value? {
      FirstErrorIs(es[1..]);
      assert forall i :: 1 <= i < |es| ==> es[i] == es[1..][i - 1];
      if FirstError(es).Some? {
        var k :| 0 <= k < |es[1..]| && es[1..][k] == FirstError(es).value && es[1..][k].Error?
                 && AllValues(es[1..][..k]);
        assert es[k + 1] == FirstError(es).value;
        assert es[..k + 1] == [es[0]] + es[1..][..k];
      }
    }
  }
}
