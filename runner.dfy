/** The runner object itself: its two tables are fields that `add`,
    `addComposed` and `before` update in place, and `invoke` works step by
    step on a fresh, mutable before-hook context. */
module Runner {
  import opened Tasks
  import opened Semantics
  import Properties

  /** The mutable argument holder shared by all hooks of one invocation. */
  class BeforeTaskContext {
    var arguments: Args

    constructor (args: Args)
      ensures arguments == args
    {
      arguments := args;
    }

    /** Replaces the whole argument map, as a hook's `setArguments` does. */
    method SetArguments(args: Args)
      modifies this
      ensures arguments == args
    {
      arguments := args;
    }
  }

  class TaskRunner {
    /** The task table: name to action (last registration wins). */
    var tasks: map<string, Action>
    /** `hooks['before']`: name to its before-hooks, in registration order. */
    var before: map<string, seq<Hook>>

    predicate Valid()
      reads this
    {
      Covers(tasks, before)
    }

    constructor ()
      ensures Valid()
      ensures tasks == map[] && before == map[]
    {
      tasks := map[];
      before := map[];
    }

    /** `add`: registers (or replaces) the action and makes sure the name
        has a hook list, keeping one that already exists. */
    method Add(name: string, action: Action)
      requires Valid()
      modifies this
      ensures Valid()
      ensures tasks == old(tasks)[name := action]
      ensures before == WithHookList(old(before), name)
    {
      tasks := tasks[name := action];
      if name !in before {
        before := before[name := []];
      }
    }

    /** `addComposed`: registers the synthetic action that invokes `subs`. */
    method AddComposed(name: string, subs: seq<string>)
      requires Valid()
      modifies this
      ensures Valid()
      ensures tasks == old(tasks)[name := Composed(subs)]
      ensures before == WithHookList(old(before), name)
    {
      Add(name, Composed(subs));
    }

    /** `before`: appends a hook to the name's list, creating the list if
        the name has none; the task table does not change. */
    method Before(name: string, hook: Hook)
      requires Valid()
      modifies this
      ensures Valid()
      ensures tasks == old(tasks)
      ensures before == WithHookAppended(old(before), name, hook)
    {
      var list := if name in before then before[name] else [];
      before := before[name := list + [hook]];
    }

    /** `dispatchBeforeHook`: calls the name's hooks in order, each on the
        same context; a hook that throws ends the dispatch. */
    method DispatchBeforeHook(name: string, context: BeforeTaskContext)
      returns (trace: seq<Event>, raised: Option<string>)
      requires name in before
      modifies context
      ensures Dispatch(name, before[name], old(context.arguments)) ==
              if raised.Some? then Halted(trace, raised.value) else Proceed(trace, context.arguments)
    {
      var hooks := before[name];
      ghost var args := context.arguments;
      trace := [];
      var i := 0;
      while i < |hooks|
        invariant 0 <= i <= |hooks|
        invariant Dispatch(name, hooks[..i], args) == Proceed(trace, context.arguments)
      {
        assert hooks[..i + 1][..i] == hooks[..i];
        trace := trace + [HookRan(name, i, context.arguments)];
        var step := hooks[i](context.arguments);
        if step.Raise? {
          Properties.HaltSkipsLaterHooks(name, hooks, i + 1, args);
          return trace, Some(step.reason);
        }
        context.SetArguments(step.args);
        i := i + 1;
      }
      assert hooks[..i] == hooks;
      raised := None;
    }

    /** `invoke`: fails with TaskNotDefined before any hook runs when the
        name is unregistered; otherwise runs the hooks on a fresh context and
        calls the action with the post-hook arguments. */
    method Invoke(name: string, args: Args, depth: nat) returns (o: Outcome)
      requires Valid()
      ensures o == Run(tasks, before, name, args, depth)
      ensures name !in tasks ==> o == Failed([], TaskNotDefined(name))
      decreases depth, 2
    {
      var located := Locate(tasks, name);
      if located.Err? {
        return Failed([], located.failure);
      }
      var context := new BeforeTaskContext(args);
      var hookTrace, raised := DispatchBeforeHook(name, context);
      if raised.Some? {
        return Failed(hookTrace, Raised(raised.value));
      }
      var called := InvokeCallable(located.value, context.arguments, depth);
      o := Prepend(hookTrace, called);
    }

    /** Calls an action with a task context carrying `args`: a leaf action
        returns or throws; the composed closure runs its sub-task loop. */
    method InvokeCallable(action: Action, args: Args, depth: nat) returns (o: Outcome)
      requires Valid()
      ensures o == Perform(tasks, before, action, args, depth)
      decreases depth, 1
    {
      match action
      case Leaf(id, body) =>
        var reply := body(args);
        if reply.Return? {
          o := Done([ActionRan(id, args)], reply.value);
        } else {
          o := Failed([ActionRan(id, args)], Raised(reply.reason));
        }
      case Composed(subs) =>
        if depth == 0 {
          o := Failed([], NestingTooDeep);
        } else {
          o := InvokeEach(subs, args, depth - 1);
        }
    }

    /** The closure `addComposed` registers: invokes each sub-task name in
        order, each from a fresh context holding the same `args`; the first
        failure propagates and the remaining names are not invoked. */
    method InvokeEach(subs: seq<string>, args: Args, depth: nat) returns (o: Outcome)
      requires Valid()
      ensures o == RunSeq(tasks, before, subs, args, depth)
      ensures o.Done? ==> o.value == Null
      decreases depth, 3
    {
      var calls: seq<Event> := [];
      var i := 0;
      while i < |subs|
        invariant 0 <= i <= |subs|
        invariant RunSeq(tasks, before, subs[..i], args, depth) == Done(calls, Null)
      {
        assert subs[..i + 1][..i] == subs[..i];
        var sub := Invoke(subs[i], args, depth);
        if sub.Failed? {
          Properties.SeqFailureStops(tasks, before, subs, i + 1, args, depth);
          return Failed(calls + sub.trace, sub.failure);
        }
        calls := calls + sub.trace;
        i := i + 1;
      }
      assert subs[..i] == subs;
      o := Done(calls, Null);
    }
  }
}
