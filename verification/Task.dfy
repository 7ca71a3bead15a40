/** Tasks as objects: coroutine frames, the awaiters that link a caller to its callee, and
    control moving from frame to frame by symmetric transfer. */
module Tasks {
  import opened TaskSemantics
  import opened Wrappers

  /** A coroutine frame together with its promise.  While it is suspended in `co_await` of a
      child, `code` still is that await and `held` the temporary that owns the child. */
  class Coroutine {
    var code: Code
    var env: Env
    var suspended: bool
    var held: TaskAwaiter?
    var mAwaiter: TaskAwaiter?
    /** How many frames are alive above this one. */
    ghost const depth: nat

    /** A new frame is suspended at its start; nobody waits for it yet. */
    constructor (code: Code, env: Env, ghost depth: nat)
      ensures this.code == code && this.env == env && this.depth == depth
      ensures !suspended && held == null && mAwaiter == null
    {
      this.code, this.env, this.depth, suspended, held, mAwaiter := code, env, depth, false, null, null;
    }
  }

  class TaskAwaiter {
    var mCallerCoroutine: Coroutine?
    const mCalleeCoroutine: Coroutine
    var mResult: Option<Expected>

    constructor (coroutine: Coroutine)
      modifies coroutine`mAwaiter
      ensures mCalleeCoroutine == coroutine && coroutine.mAwaiter == this
      ensures mCallerCoroutine == null && mResult == None
    {
      mCallerCoroutine, mCalleeCoroutine, mResult := null, coroutine, None;
      new;
      coroutine.mAwaiter := this;
    }

    method AwaitSuspend(coroutine: Coroutine) returns (next: Coroutine)
      modifies `mCallerCoroutine
      ensures mCallerCoroutine == coroutine && next == mCalleeCoroutine
    {
      mCallerCoroutine := coroutine;
      next := mCalleeCoroutine;
    }

    method ReturnValue(result: Expected)
      modifies `mResult
      ensures mResult == Some(result)
    {
      mResult := Some(result);
    }

    /** Moving out of the slot is defined only once it has been filled. */
    method AwaitResume() returns (r: Expected)
      requires mResult.Some?
      ensures r == mResult.value
    {
      r := mResult.value;
    }
  }

  /** Either ready with values, or the coroutine to jump back to. */
  datatype ValueOrReturnAwaiter = ValueOrReturnAwaiter(mPrevious: Coroutine?, mValue: seq<Expected>) {
    predicate AwaitReady() { mPrevious == null }
  }

  ghost predicate Distinct(s: seq<Coroutine>) {
    forall i, j :: 0 <= i < j < |s| ==> s[i] != s[j]
  }

  /** The run of one root task on behalf of `caller`. */
  class Execution {
    const caller: Coroutine
    /** The awaiter inside the caller's frame that owns the root. */
    const root: TaskAwaiter
    var current: Coroutine
    var trace: seq<int>
    /** Frames that exist, each owned by the one before: first the unfinished ones of `config`,
        then finished ones that have not been destroyed. */
    ghost var live: seq<Coroutine>
    ghost var config: Config
    ghost var created: seq<Coroutine>
    ghost var destroyed: seq<Coroutine>
    /** All coroutines that control was transferred to. */
    ghost var log: seq<Coroutine>
    ghost var frames: set<Coroutine>
    ghost var awaiters: set<TaskAwaiter>

    /** The i-th frame and its awaiter: the links to each other, back to the caller, and on to
        the child that the frame owns. */
    ghost predicate Linked(i: nat)
      requires i < |live|
      reads `live, `frames, `awaiters, frames`mAwaiter, frames`held, awaiters`mCallerCoroutine
    {
      && live[i] in frames && live[i].depth == i && live[i].mAwaiter != null && live[i].mAwaiter in awaiters
      && live[i].mAwaiter.mCalleeCoroutine == live[i]
      && live[i].mAwaiter.mCallerCoroutine == (if i == 0 then caller else live[i - 1])
      && (if i + 1 < |live| then live[i + 1] in frames && live[i].held != null && live[i].held == live[i + 1].mAwaiter
          else live[i].held == null)
    }

    ghost predicate Structure()
      reads `live, `frames, `awaiters, frames`mAwaiter, frames`held, awaiters`mCallerCoroutine
    {
      && caller !in frames
      && (forall i {:trigger Linked(i)} :: 0 <= i < |live| ==> Linked(i))
      && (live != [] ==> live[0] in frames && live[0].mAwaiter == root)
    }

    ghost predicate Doing(i: nat)
      requires i < |live| && i < |config.acts|
      reads `live, `frames, `config, frames`code, frames`env, frames`suspended
    {
      && live[i] in frames && live[i].depth == i
      && config.acts[i] == Activation(live[i].code, live[i].env)
      && (live[i].suspended <==> i + 1 < |live|)
    }

    ghost predicate Active()
      reads `live, `frames, `config, frames`code, frames`env, frames`suspended
    {
      |config.acts| <= |live| && forall i {:trigger Doing(i)} :: 0 <= i < |config.acts| ==> Doing(i)
    }

    /** The awaiter of the last unfinished frame's child holds the result to deliver. */
    ghost predicate Filled()
      reads `live, `frames, `config, `awaiters, frames`mAwaiter, awaiters`mResult
    {
      config.given.Some? ==>
        && |config.acts| < |live| && live[|config.acts|] in frames
        && live[|config.acts|].mAwaiter != null && live[|config.acts|].mAwaiter in awaiters
        && live[|config.acts|].mAwaiter.mResult == config.given
    }

    ghost predicate Logged()
      reads `log, `config
    {
      if config.acts == [] then log != [] && log[|log| - 1] == caller && caller !in log[..|log| - 1]
      else caller !in log
    }

    /** Each frame ever created is either alive or has been destroyed, exactly once. */
    ghost predicate Accounted()
      reads `created, `destroyed, `live, `frames
    {
      && Distinct(created) && (forall c :: c in created ==> c in frames)
      && multiset(created) == multiset(destroyed) + multiset(live)
    }

    ghost predicate Shape()
      reads `live, `config
    {
      && Good(config) && 1 <= |live| && |config.acts| <= |live|
      && (config.given.Some? <==> |config.acts| < |live|)
    }

    ghost predicate Valid()
      reads this, frames, awaiters
    {
      && Structure() && Accounted() && Logged() && Shape() && Active() && Filled()
      && current == (if config.acts == [] then caller else live[|config.acts| - 1])
    }

    /** Creates the root's frame and its awaiter and transfers control to it. */
    constructor (caller: Coroutine, code: Code, env: Env)
      ensures Valid() && this.caller == caller && fresh(frames) && fresh(awaiters)
      ensures config == Config([Activation(code, env)], None) && trace == []
    {
      var task := new Coroutine(code, env, 0);
      var awaiter := new TaskAwaiter(task);
      var next := awaiter.AwaitSuspend(caller);
      this.caller, root, trace := caller, awaiter, [];
      current, log := next, [next];
      live, created, destroyed := [task], [task], [];
      config := Config([Activation(code, env)], None);
      frames, awaiters := {task}, {awaiter};
    }

    twostate predicate Grown()
      reads `frames, `awaiters
    {
      fresh(frames - old(frames)) && fresh(awaiters - old(awaiters))
    }

    method Transfer(next: Coroutine)
      modifies `current, `log
      ensures current == next && log == old(log) + [next]
    {
      current, log := next, log + [next];
    }

    method Emit(tag: int)
      requires Valid()
      modifies `trace
      ensures Valid() && trace == old(trace) + [tag]
    {
      trace := trace + [tag];
    }

    /** The running coroutine goes on with other code. */
    method Proceed(c: Coroutine, code: Code, env: Env)
      requires Valid() && config.acts != [] && config.given == None && c == current
      modifies c`code, c`env, `config
      ensures Valid() && config == Becomes(old(config), Activation(code, env))
    {
      assert Doing(|config.acts| - 1);
      BecomesGood(config, Activation(code, env));
      c.code, c.env := code, env;
      config := Becomes(config, Activation(code, env));
      forall i | 0 <= i < |config.acts| ensures Doing(i) { assert old(Doing(i)); }
    }

    /** The result is stored where the caller finds it. */
    method Store(c: Coroutine, r: Expected)
      requires Valid() && config.acts != [] && c == current && c.mAwaiter != null
      modifies c.mAwaiter`mResult
      ensures Valid() && c.mAwaiter.mResult == Some(r)
    {
      ghost var n := |config.acts| - 1;
      assert Linked(n) && (config.given.Some? ==> Linked(n + 1));
      c.mAwaiter.ReturnValue(r);
    }

    /** Control goes back to the caller.  The frame stays as it is and is never resumed. */
    method Leave(c: Coroutine, previous: Coroutine, ghost r: Expected)
      requires Valid() && config.acts != [] && c == current && c.mAwaiter != null
      requires c.mAwaiter.mResult == Some(r) && previous == c.mAwaiter.mCallerCoroutine
      modifies `config, `current, `log
      ensures Valid() && config == Ends(old(config), r)
    {
      ghost var n := |config.acts| - 1;
      assert Linked(n);
      if n > 0 { assert Linked(n - 1); }
      config := Ends(config, r);
      Transfer(previous);
      forall i | 0 <= i < |config.acts| ensures Doing(i) { assert old(Doing(i)); }
    }

    /** Where the final awaiter of a coroutine goes. */
    method FinalSuspend(c: Coroutine) returns (next: Coroutine)
      requires c.mAwaiter != null && c.mAwaiter.mCallerCoroutine != null
      ensures next == c.mAwaiter.mCallerCoroutine
    {
      next := c.mAwaiter.mCallerCoroutine;
    }

    /** `co_return`. */
    method Finish(c: Coroutine, r: Expected)
      requires Valid() && config.acts != [] && c == current && c.mAwaiter != null
      modifies c.mAwaiter`mResult, `config, `current, `log
      ensures Valid() && config == Ends(old(config), r)
    {
      assert Linked(|config.acts| - 1);
      Store(c, r);
      var next := FinalSuspend(c);
      Leave(c, next, r);
    }

    /** A task: a frame suspended at its start, with the awaiter that links it to `c`. */
    method NewTask(c: Coroutine, child: Code, env: Env, ghost depth: nat)
      returns (frame: Coroutine, awaiter: TaskAwaiter)
      ensures fresh(frame) && fresh(awaiter) && frame.depth == depth
      ensures frame.code == child && frame.env == env && !frame.suspended && frame.held == null
      ensures frame.mAwaiter == awaiter && awaiter.mCalleeCoroutine == frame
      ensures awaiter.mCallerCoroutine == c && awaiter.mResult == None
    {
      frame := new Coroutine(child, env, depth);
      awaiter := new TaskAwaiter(frame);
      var callee := awaiter.AwaitSuspend(c);
    }

    lemma Link(created': seq<Coroutine>, live': seq<Coroutine>, c: Coroutine)
      requires Accounted() && c !in frames && created' == created + [c] && live' == live + [c]
      ensures Distinct(created') && multiset(created') == multiset(destroyed) + multiset(live')
    {
    }

    /** A task awaited by the running frame is owned by it from now on. */
    method Adopt(c: Coroutine, frame: Coroutine, awaiter: TaskAwaiter)
      requires Structure() && Accounted() && live != [] && c == live[|live| - 1]
      requires frame !in frames && awaiter !in awaiters && caller != frame && frame.depth == |live|
      requires frame.held == null && frame.mAwaiter == awaiter
      requires awaiter.mCalleeCoroutine == frame && awaiter.mCallerCoroutine == c
      modifies c`held, `live, `created, `frames, `awaiters
      ensures Structure() && Accounted() && (old(Above(config.acts)) ==> Above(config.acts))
      ensures live == old(live) + [frame] && frames == old(frames) + {frame} && awaiters == old(awaiters) + {awaiter}
    {
      Link(created + [frame], live + [frame], frame);
      assert Linked(|live| - 1);
      c.held := awaiter;
      live, created := live + [frame], created + [frame];
      frames, awaiters := frames + {frame}, awaiters + {awaiter};
      forall i | 0 <= i < |live| ensures Linked(i) { if i < |live| - 1 { assert old(Linked(i)); } }
    }

    /** What the frames of `config` but the last are doing. */
    ghost predicate Above(acts: seq<Activation>)
      reads `live, `frames, frames`code, frames`env, frames`suspended
    {
      && |live| >= |acts| > 0
      && forall i {:trigger live[i]} :: 0 <= i < |acts| - 1 ==>
           && live[i] in frames && live[i].depth == i && live[i].suspended
           && acts[i] == Activation(live[i].code, live[i].env)
    }

    /** The running frame suspends, and its new child runs. */
    method Enter(c: Coroutine, frame: Coroutine)
      requires Structure() && Accounted() && Logged() && Good(config) && config.given == None && Suspended(Top(config))
      requires |live| == |config.acts| + 1 && live[|live| - 2] == c && live[|live| - 1] == frame
      requires Above(config.acts) && Top(config) == Activation(c.code, c.env) && !frame.suspended
      modifies c`suspended, `config, `current, `log
      ensures Valid()
      ensures config == Config(old(config).acts + [Activation(frame.code, frame.env)], None)
    {
      assert Linked(|live| - 1) && Linked(|live| - 2);
      PushGood(config, Activation(frame.code, frame.env));
      c.suspended := true;
      config := Config(config.acts + [Activation(frame.code, frame.env)], None);
      forall i | 0 <= i < |config.acts| ensures Doing(i) {
        if i < |config.acts| - 2 { assert old(live[i]) == live[i]; }
      }
      Transfer(frame);
    }

    method Spawn(c: Coroutine, child: Code, env: Env) returns (frame: Coroutine)
      requires Valid() && config.acts != [] && config.given == None && c == current
      modifies c`held, `live, `created, `frames, `awaiters
      ensures Structure() && Accounted() && Above(config.acts) && Grown() && fresh(frame)
      ensures |live| == |config.acts| + 1 && live[|live| - 2] == c && live[|live| - 1] == frame
      ensures frame.code == child && frame.env == env && !frame.suspended
    {
      Busy();
      var awaiter;
      frame, awaiter := NewTask(c, child, env, |live|);
      Adopt(c, frame, awaiter);
    }

    /** `co_await` of a task: control goes over to the child. */
    method Call(c: Coroutine, child: Code, env: Env)
      requires Valid() && config.acts != [] && config.given == None && c == current && Suspended(Top(config))
      modifies c`suspended, c`held, `live, `created, `frames, `awaiters, `config, `current, `log
      ensures Valid() && Grown()
      ensures config == Config(old(config).acts + [Activation(child, env)], None)
    {
      Busy();
      var frame := Spawn(c, child, env);
      Enter(c, frame);
    }

    lemma Busy()
      requires Valid() && config.acts != [] && config.given == None
      ensures Above(config.acts) && current.depth == |live| - 1 && current in frames
      ensures Top(config) == Activation(current.code, current.env)
    {
      assert Doing(|config.acts| - 1);
      forall i | 0 <= i < |config.acts| - 1
        ensures live[i] in frames && live[i].depth == i && live[i].suspended
        ensures config.acts[i] == Activation(live[i].code, live[i].env)
      {
        assert Doing(i);
      }
    }

    /** Destroying a frame destroys what it owns first. */
    method Destroy(c: Coroutine, ghost i: nat)
      requires Structure() && i < |live| && c == live[i]
      modifies `destroyed
      ensures multiset(destroyed) == multiset(old(destroyed)) + multiset(live[i..])
      decreases |live| - i
    {
      assert Linked(i);
      assert live[i..] == [c] + live[i + 1..];
      if c.held != null {
        assert Linked(i + 1);
        Destroy(c.held.mCalleeCoroutine, i + 1);
      }
      destroyed := destroyed + [c];
    }

    lemma Unlink(s: seq<Coroutine>, d: seq<Coroutine>, e: seq<Coroutine>, n: nat)
      requires n <= |s| && multiset(e) == multiset(d) + multiset(s[n..])
      ensures multiset(e) + multiset(s[..n]) == multiset(d) + multiset(s)
    {
      assert s == s[..n] + s[n..];
    }

    /** The end of a full expression that awaited a child: the owning awaiter goes away, and
        with it the child's frame and all it still owns. */
    method Release(c: Coroutine)
      requires Valid() && config.acts != [] && config.given.Some? && c == current && c.held != null
      modifies c`held, `destroyed, `live
      ensures Structure() && Accounted() && live == old(live)[..|config.acts|]
    {
      ghost var n := |config.acts| - 1;
      assert Linked(n) && Linked(n + 1);
      Destroy(c.held.mCalleeCoroutine, n + 1);
      c.held := null;
      Unlink(live, old(destroyed), destroyed, n + 1);
      live := live[..n + 1];
      forall i | 0 <= i < |live| ensures Linked(i) { assert old(Linked(i)); }
    }

    /** The awaiting coroutine is no longer suspended and owns nothing. */
    method Wake(c: Coroutine)
      requires Valid() && config.acts != [] && config.given.Some? && c == current && c.held != null
      modifies c`held, c`suspended, `config, `destroyed, `live
      ensures Valid() && config == Config(old(config).acts, None)
    {
      ghost var n := |config.acts| - 1;
      assert Linked(n) && Doing(n);
      Release(c);
      label released:
      c.suspended := false;
      config := Config(config.acts, None);
      forall i | 0 <= i < |live| ensures Linked(i) { assert old@released(Linked(i)); }
      forall i | 0 <= i < |config.acts| ensures Doing(i) { assert old(Doing(i)); }
    }

    /** How a promise prepares an awaited list of `Expected`: the first error becomes the
        coroutine's own result, and the awaiter then jumps to the caller. */
    method AwaitTransform(c: Coroutine, es: seq<Expected>) returns (w: ValueOrReturnAwaiter)
      requires Valid() && config.acts != [] && c == current && c.mAwaiter != null
      modifies c.mAwaiter`mResult
      ensures Valid()
      ensures FirstError(es) == None ==> w == ValueOrReturnAwaiter(null, es)
      ensures FirstError(es).Some? ==>
        w.mPrevious != null && w.mPrevious == c.mAwaiter.mCallerCoroutine && c.mAwaiter.mResult == FirstError(es)
    {
      for i := 0 to |es|
        invariant Valid() && FirstError(es) == FirstError(es[i..])
      {
        assert es[i..][0] == es[i] && es[i..][1..] == es[i + 1..];
        if es[i].Error? {
          Store(c, es[i]);
          assert Linked(|config.acts| - 1);
          return ValueOrReturnAwaiter(c.mAwaiter.mCallerCoroutine, []);
        }
      }
      return ValueOrReturnAwaiter(null, es);
    }

    /** `co_await` of a child's result: an error is handed on, and the child stays until this
        frame goes. */
    method Propagate(c: Coroutine, r: Expected) returns (stays: bool)
      requires Valid() && config.acts != [] && c == current && c.mAwaiter != null
      modifies c.mAwaiter`mResult, `config, `current, `log
      ensures Valid() && stays == r.Value?
      ensures config == if stays then old(config) else Ends(old(config), r)
    {
      var w := AwaitTransform(c, [r]);
      stays := w.AwaitReady();
      if !stays { Leave(c, w.mPrevious, r); }
    }

    /** The child's result, and what the awaiting coroutine was doing. */
    method Receive(c: Coroutine) returns (r: Expected)
      requires Valid() && config.acts != [] && config.given.Some? && c == current && c.held != null
      ensures Some(r) == config.given && Top(config) == Activation(c.code, c.env) && Suspended(Top(config))
    {
      ghost var n := |config.acts| - 1;
      assert Linked(n) && Linked(n + 1) && Doing(n);
      r := c.held.AwaitResume();
    }

    method GoOn(c: Coroutine, code: Code, env: Env)
      requires Valid() && config.acts != [] && config.given.Some? && c == current && c.held != null
      modifies c, `config, `destroyed, `live
      ensures Valid() && config == Becomes(old(config), Activation(code, env))
    {
      Wake(c);
      Proceed(c, code, env);
    }

    /** A coroutine resumed inside an await goes on with its child's result. */
    method Resume(c: Coroutine)
      requires Valid() && config.acts != [] && config.given.Some? && c == current && c.held != null
      requires c.mAwaiter != null
      modifies c, c.mAwaiter`mResult, `config, `current, `log, `destroyed, `live
      ensures Valid() && config == Deliver(old(config))
    {
      var r := Receive(c);
      var stays := true;
      if c.code.Try? { stays := Propagate(c, r); }
      if stays { GoOn(c, c.code.next, c.env + [r]); }
    }

    /** Awaiting `Expected` values that the coroutine already has. */
    method CheckValues(c: Coroutine, es: seq<Expected>, next: Code)
      requires Valid() && config.acts != [] && config.given == None && c == current && c.mAwaiter != null
      modifies c, c.mAwaiter`mResult, `config, `current, `log
      ensures Valid()
      ensures config == match FirstError(es)
                        case Some(e) => Ends(old(config), e)
                        case None => Becomes(old(config), Activation(next, old(c.env) + es))
    {
      var w := AwaitTransform(c, es);
      if !w.AwaitReady() {
        Leave(c, w.mPrevious, FirstError(es).value);
      } else {
        Proceed(c, next, c.env + w.mValue);
      }
    }

    lemma OneError(e: Expected)
      ensures FirstError([e]) == (if e.Error? then Some(e) else None)
    {
    }

    method RunCheck(c: Coroutine)
      requires Valid() && config.acts != [] && config.given == None && c == current && c.mAwaiter != null
      requires c.code.Check? || c.code.CheckAll?
      modifies c, c.mAwaiter`mResult, `config, `current, `log
      ensures Valid()
      ensures config == old(Step(config)).next && old(Step(config)).labels == []
    {
      Busy();
      if c.code.Check? {
        OneError(c.code.value(c.env));
        CheckValues(c, [c.code.value(c.env)], c.code.next);
      } else {
        CheckValues(c, c.code.values(c.env), c.code.next);
      }
    }

    method RunAwait(c: Coroutine)
      requires Valid() && config.acts != [] && config.given == None && c == current
      requires c.code.Await? || c.code.Try?
      modifies c`suspended, c`held, `live, `created, `frames, `awaiters, `config, `current, `log
      ensures Valid() && Grown()
      ensures config == old(Step(config)).next && old(Step(config)).labels == []
    {
      Busy();
      Call(c, c.code.child, c.code.args(c.env));
    }

    method RunPlain(c: Coroutine)
      requires Valid() && config.acts != [] && config.given == None && c == current && c.mAwaiter != null
      requires c.code.Return? || c.code.Act? || c.code.If?
      modifies c`code, c`env, c.mAwaiter`mResult, `config, `current, `log, `trace
      ensures Valid()
      ensures config == old(Step(config)).next && trace == old(trace) + old(Step(config)).labels
    {
      Busy();
      match c.code
      case Return(result) => Finish(c, result(c.env));
      case Act(tag, next) =>
        Emit(tag(c.env));
        Proceed(c, next, c.env);
      case If(cond, yes, no) => Proceed(c, if cond(c.env) then yes else no, c.env);
    }

    /** The running coroutine runs up to its next transfer of control. */
    method RunCurrent(c: Coroutine)
      requires Valid() && config.acts != [] && config.given == None && c == current && c.mAwaiter != null
      modifies c, c.mAwaiter`mResult, this
      ensures Valid() && Grown()
      ensures config == old(Step(config)).next && trace == old(trace) + old(Step(config)).labels
    {
      if c.code.Await? || c.code.Try? {
        RunAwait(c);
      } else if c.code.Check? || c.code.CheckAll? {
        RunCheck(c);
      } else {
        RunPlain(c);
      }
    }

    /** One transfer of control to the next.  The heap of frames and awaiters follows the chain
        of activations exactly. */
    method Dispatch()
      requires Valid() && config.acts != []
      modifies this, frames, awaiters
      ensures Valid() && Grown()
      ensures config == old(Step(config)).next && trace == old(trace) + old(Step(config)).labels
    {
      assert Linked(|config.acts| - 1) && Doing(|config.acts| - 1);
      if current.suspended { Resume(current); } else { RunCurrent(current); }
    }

    /** Runs until control is back at the root's caller. */
    method RunToCaller(ghost goal: Run)
      requires Valid() && After(trace, RunAll(config)) == goal
      modifies this, frames, awaiters
      ensures Valid() && Grown() && config.acts == []
      ensures Run(config.given.value, trace) == goal
    {
      while current != caller
        invariant Valid() && Grown()
        invariant After(trace, RunAll(config)) == goal
        decreases Fuel(config)
      {
        assert config.acts != [];
        StepDescends(config);
        AfterAfter(trace, Step(config).labels, RunAll(Step(config).next));
        Dispatch();
      }
      assert config.acts != [] ==> Linked(|config.acts| - 1);
      assert trace + [] == trace;
    }

    /** The root's caller takes the result; its owning awaiter destroys the root. */
    method Collect() returns (r: Expected)
      requires Valid() && config.acts == []
      modifies `destroyed, `live
      ensures Some(r) == config.given
      ensures Distinct(created) && multiset(destroyed) == multiset(created)
    {
      assert Linked(0);
      r := root.AwaitResume();
      assert live[0..] == live;
      Destroy(root.mCalleeCoroutine, 0);
      live := [];
    }

    method RunRoot(ghost code: Code, ghost env: Env) returns (r: Expected)
      requires Valid() && config == Config([Activation(code, env)], None) && trace == []
      modifies this, frames, awaiters
      ensures Run(r, trace) == Eval(code, env)
      ensures log != [] && log[|log| - 1] == caller && caller !in log[..|log| - 1]
      ensures Distinct(created) && multiset(destroyed) == multiset(created)
    {
      MachineRefinesEval(code, env);
      AfterAfter([], [], Eval(code, env));
      RunToCaller(Eval(code, env));
      r := Collect();
    }
  }

  /** `co_await` of a task by `caller`: the caller is resumed exactly once, with the result and
      after the visible effects of the recursive evaluation, and every frame that was created
      on the way has been destroyed exactly once. */
  method CoAwait(caller: Coroutine, code: Code, env: Env) returns (r: Expected, e: Execution)
    ensures fresh(e) && e.caller == caller && Run(r, e.trace) == Eval(code, env)
    ensures e.log != [] && e.log[|e.log| - 1] == caller && caller !in e.log[..|e.log| - 1]
    ensures Distinct(e.created) && multiset(e.destroyed) == multiset(e.created)
  {
    e := new Execution(caller, code, env);
    r := e.RunRoot(code, env);
  }
}
