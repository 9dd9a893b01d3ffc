/** Properties of the runner's semantics: how hooks are dispatched, what an
    unregistered name does, how composed tasks sequence their sub-tasks, and
    why the depth bound is a faithful stand-in for unbounded recursion. */
module Properties {
  import opened Tasks
  import opened Semantics

  // ---------------------------------------------------------------------
  // Before-hook dispatch
  // ---------------------------------------------------------------------

  /** `trace` and `post` are what running `hooks` in order on one shared
      context holding `args` yields when no hook throws: hook i is logged
      i-th, hook 0 sees `args`, hook i+1 sees what hook i left, and the
      action gets what the last hook left. */
  predicate Chained(task: string, hooks: seq<Hook>, args: Args, trace: seq<Event>, post: Args)
  {
    && |trace| == |hooks|
    && (forall i :: 0 <= i < |trace| ==> trace[i].HookRan? && trace[i].task == task && trace[i].index == i)
    && (if hooks == [] then post == args
        else
          && trace[0].seen == args
          && (forall i :: 0 <= i < |hooks| - 1 ==> hooks[i](trace[i].seen) == Continue(trace[i + 1].seen))
          && hooks[|hooks| - 1](trace[|hooks| - 1].seen) == Continue(post))
  }

  /** A dispatch that gets through all hooks is a chain of rewrites of one
      shared argument map. */
  lemma {:induction false} DispatchChained(task: string, hooks: seq<Hook>, args: Args)
    ensures Dispatch(task, hooks, args).Proceed? ==>
              Chained(task, hooks, args, Dispatch(task, hooks, args).trace, Dispatch(task, hooks, args).args)
    decreases |hooks|
  {
    if hooks != [] {
      var n := |hooks|;
      var init := hooks[..n - 1];
      DispatchChained(task, init, args);
      match Dispatch(task, init, args)
      case Halted(_, _) =>
      case Proceed(tr, ctx) =>
        if hooks[n - 1](ctx).Continue? {
          var trace := tr + [HookRan(task, n - 1, ctx)];
          var post := hooks[n - 1](ctx).args;
          assert Dispatch(task, hooks, args) == Proceed(trace, post);
          forall i | 0 <= i < n - 1
            ensures hooks[i](trace[i].seen) == Continue(trace[i + 1].seen)
          {
            assert hooks[i] == init[i];
            if i < n - 2 {
              assert trace[i] == tr[i] && trace[i + 1] == tr[i + 1];
            }
          }
        }
    }
  }

  /** Conversely, any chain of rewrites that the hooks agree with is what
      the dispatch produces. */
  lemma {:induction false} ChainedDispatch(task: string, hooks: seq<Hook>, args: Args, trace: seq<Event>, post: Args)
    requires Chained(task, hooks, args, trace, post)
    ensures Dispatch(task, hooks, args) == Proceed(trace, post)
    decreases |hooks|
  {
    if hooks != [] {
      var n := |hooks|;
      var init := hooks[..n - 1];
      var ctx := trace[n - 1].seen;
      assert Chained(task, init, args, trace[..n - 1], ctx) by {
        forall i | 0 <= i < |init| - 1
          ensures init[i](trace[..n - 1][i].seen) == Continue(trace[..n - 1][i + 1].seen)
        {
          assert init[i] == hooks[i];
        }
      }
      ChainedDispatch(task, init, args, trace[..n - 1], ctx);
      assert trace[..n - 1] + [HookRan(task, n - 1, ctx)] == trace;
    }
  }

  /** Once a hook throws, no later hook runs: the dispatch of the whole list
      is the dispatch of the prefix that threw. */
  lemma {:induction false} HaltSkipsLaterHooks(task: string, hooks: seq<Hook>, k: nat, args: Args)
    requires k <= |hooks|
    requires Dispatch(task, hooks[..k], args).Halted?
    ensures Dispatch(task, hooks, args) == Dispatch(task, hooks[..k], args)
    decreases |hooks|
  {
    if k < |hooks| {
      var init := hooks[..|hooks| - 1];
      assert init[..k] == hooks[..k];
      HaltSkipsLaterHooks(task, init, k, args);
    } else {
      assert hooks[..k] == hooks;
    }
  }

  /** What `before(t, hook)` does to a later dispatch of `t` when the
      earlier hooks get through: they run as before, yielding the chain
      `trace`, and then `hook` runs last on the arguments `ctx` they left. */
  lemma AppendedHookRunsLast(before: map<string, seq<Hook>>, t: string, hook: Hook, args: Args,
                             trace: seq<Event>, ctx: Args)
    requires Chained(t, if t in before then before[t] else [], args, trace, ctx)
    ensures var list := if t in before then before[t] else [];
            && WithHookAppended(before, t, hook)[t] == list + [hook]
            && Dispatch(t, WithHookAppended(before, t, hook)[t], args) ==
               match hook(ctx)
               case Continue(next) => Proceed(trace + [HookRan(t, |list|, ctx)], next)
               case Raise(why) => Halted(trace + [HookRan(t, |list|, ctx)], why)
  {
    var list := if t in before then before[t] else [];
    ChainedDispatch(t, list, args, trace, ctx);
    assert (list + [hook])[..|list|] == list;
  }

  /** When an earlier hook of `t` throws, a hook added by `before(t, hook)`
      never runs: the dispatch of the longer list is that of the old one. */
  lemma AppendedHookAfterThrow(before: map<string, seq<Hook>>, t: string, hook: Hook, args: Args)
    requires Dispatch(t, if t in before then before[t] else [], args).Halted?
    ensures Dispatch(t, WithHookAppended(before, t, hook)[t], args) ==
            Dispatch(t, if t in before then before[t] else [], args)
  {
    var list := if t in before then before[t] else [];
    assert (list + [hook])[..|list|] == list;
    HaltSkipsLaterHooks(t, list + [hook], |list|, args);
  }

  /** A dispatch that throws was stopped by its last logged hook: the hooks
      before it got through, and that hook raised the reason on what they
      left. */
  lemma {:induction false} HaltedReason(task: string, hooks: seq<Hook>, args: Args)
    requires Dispatch(task, hooks, args).Halted?
    ensures var d := Dispatch(task, hooks, args);
            var k := |d.trace| - 1;
            && 1 <= |d.trace| <= |hooks|
            && d.trace[k].HookRan? && d.trace[k].task == task && d.trace[k].index == k
            && Dispatch(task, hooks[..k], args) == Proceed(d.trace[..k], d.trace[k].seen)
            && hooks[k](d.trace[k].seen) == Raise(d.reason)
    decreases |hooks|
  {
    var n := |hooks|;
    var init := hooks[..n - 1];
    match Dispatch(task, init, args)
    case Halted(tr, why) =>
      HaltedReason(task, init, args);
      var k := |tr| - 1;
      assert init[..k] == hooks[..k] && init[k] == hooks[k];
    case Proceed(tr, ctx) =>
      DispatchChained(task, init, args);
      var trace := tr + [HookRan(task, n - 1, ctx)];
      assert Dispatch(task, hooks, args).trace == trace;
      assert trace[..n - 1] == tr;
  }

  // ---------------------------------------------------------------------
  // Invoking one name
  // ---------------------------------------------------------------------

  /** An unregistered name fails with TaskNotDefined(name) and runs
      nothing: no hook, no action. */
  lemma UndefinedRunsNothing(tasks: map<string, Action>, before: map<string, seq<Hook>>,
                             name: string, args: Args, depth: nat)
    requires Covers(tasks, before)
    requires name !in tasks
    ensures Run(tasks, before, name, args, depth) == Failed([], TaskNotDefined(name))
  {
  }

  /** TaskNotDefined(n) comes out of an invocation, however deeply nested,
      only for a name n that is not registered. */
  lemma {:induction false} UndefinedOnlyWhenMissing(tasks: map<string, Action>, before: map<string, seq<Hook>>,
                                                    name: string, args: Args, depth: nat)
    requires Covers(tasks, before)
    ensures var o := Run(tasks, before, name, args, depth);
            o.Failed? && o.failure.TaskNotDefined? ==> o.failure.name !in tasks
    decreases depth, 2, 0
  {
    if name in tasks {
      match Dispatch(name, before[name], args)
      case Halted(_, _) =>
      case Proceed(_, post) => PerformUndefinedOnlyWhenMissing(tasks, before, tasks[name], post, depth);
    }
  }

  lemma {:induction false} PerformUndefinedOnlyWhenMissing(tasks: map<string, Action>, before: map<string, seq<Hook>>,
                                                           action: Action, args: Args, depth: nat)
    requires Covers(tasks, before)
    ensures var o := Perform(tasks, before, action, args, depth);
            o.Failed? && o.failure.TaskNotDefined? ==> o.failure.name !in tasks
    decreases depth, 1, 0
  {
    if action.Composed? && depth > 0 {
      RunSeqUndefinedOnlyWhenMissing(tasks, before, action.subs, args, depth - 1);
    }
  }

  lemma {:induction false} RunSeqUndefinedOnlyWhenMissing(tasks: map<string, Action>, before: map<string, seq<Hook>>,
                                                          subs: seq<string>, args: Args, depth: nat)
    requires Covers(tasks, before)
    ensures var o := RunSeq(tasks, before, subs, args, depth);
            o.Failed? && o.failure.TaskNotDefined? ==> o.failure.name !in tasks
    decreases depth, 3, |subs|
  {
    if subs != [] {
      RunSeqUndefinedOnlyWhenMissing(tasks, before, subs[..|subs| - 1], args, depth);
      UndefinedOnlyWhenMissing(tasks, before, subs[|subs| - 1], args, depth);
    }
  }

  /** After `add(t, action)` the name is locatable: invoking it never fails
      with TaskNotDefined(t), and an earlier hook list of `t` is kept. */
  lemma AddedNameIsDefined(tasks: map<string, Action>, before: map<string, seq<Hook>>,
                           t: string, action: Action, args: Args, depth: nat)
    requires Covers(tasks, before)
    ensures Covers(tasks[t := action], WithHookList(before, t))
    ensures t in before ==> WithHookList(before, t)[t] == before[t]
    ensures var o := Run(tasks[t := action], WithHookList(before, t), t, args, depth);
            !(o.Failed? && o.failure == TaskNotDefined(t))
  {
    UndefinedOnlyWhenMissing(tasks[t := action], WithHookList(before, t), t, args, depth);
  }

  /** `before` keeps the runner's invariant and never drops a hook list. */
  lemma BeforeKeepsCovers(tasks: map<string, Action>, before: map<string, seq<Hook>>, t: string, hook: Hook)
    requires Covers(tasks, before)
    ensures Covers(tasks, WithHookAppended(before, t, hook))
    ensures before.Keys <= WithHookAppended(before, t, hook).Keys
  {
  }

  /** Invoking a leaf task runs exactly the hooks registered under that
      name, in registration order, and then calls the action exactly once
      with the arguments the last hook left; its return value or exception
      is the invocation's, unchanged. If a hook throws, the action is not
      called and the exception propagates. */
  lemma LeafInvocation(tasks: map<string, Action>, before: map<string, seq<Hook>>,
                       t: string, args: Args, depth: nat)
    requires Covers(tasks, before)
    requires t in tasks && tasks[t].Leaf?
    ensures var o := Run(tasks, before, t, args, depth);
            var d := Dispatch(t, before[t], args);
            && (forall i :: 0 <= i < |d.trace| ==> o.trace[i].HookRan? && o.trace[i].task == t && o.trace[i].index == i)
            && (d.Proceed? ==>
                  && |o.trace| == |before[t]| + 1
                  && o.trace[|before[t]|] == ActionRan(tasks[t].id, d.args)
                  && (o.Done? <==> tasks[t].body(d.args).Return?)
                  && (tasks[t].body(d.args).Return? ==> o.value == tasks[t].body(d.args).value)
                  && (tasks[t].body(d.args).Throw? ==> o.failure == Raised(tasks[t].body(d.args).reason)))
            && (d.Halted? ==> o == Failed(d.trace, Raised(d.reason)))
  {
    var d := Dispatch(t, before[t], args);
    DispatchChained(t, before[t], args);
    if d.Halted? {
      DispatchTraceIsHooks(t, before[t], args);
    }
  }

  /** Any dispatch logs only hooks of its own task, at most one per hook,
      in order. */
  lemma {:induction false} DispatchTraceIsHooks(task: string, hooks: seq<Hook>, args: Args)
    ensures var d := Dispatch(task, hooks, args);
            && |d.trace| <= |hooks|
            && (forall i :: 0 <= i < |d.trace| ==> d.trace[i].HookRan? && d.trace[i].task == task && d.trace[i].index == i)
    decreases |hooks|
  {
    if hooks != [] {
      var init := hooks[..|hooks| - 1];
      DispatchTraceIsHooks(task, init, args);
      match Dispatch(task, init, args)
      case Halted(_, _) =>
      case Proceed(tr, ctx) =>
        var trace := tr + [HookRan(task, |hooks| - 1, ctx)];
        assert Dispatch(task, hooks, args).trace == trace;
        assert |tr| == |init| by { DispatchChained(task, init, args); }
        forall i | 0 <= i < |trace|
          ensures trace[i].HookRan? && trace[i].task == task && trace[i].index == i
        {
          if i < |tr| { assert trace[i] == tr[i]; }
        }
    }
  }

  /** Invoking a composed task runs its own hooks first; if they get
      through, the sub-task loop runs with the arguments the last hook left,
      each sub-task from a fresh context holding those same arguments, and
      a completed loop makes the invocation return no value. */
  lemma ComposedInvocation(tasks: map<string, Action>, before: map<string, seq<Hook>>,
                           t: string, args: Args, depth: nat)
    requires Covers(tasks, before)
    requires t in tasks && tasks[t].Composed?
    ensures var o := Run(tasks, before, t, args, depth);
            var d := Dispatch(t, before[t], args);
            var subs := tasks[t].subs;
            && (d.Halted? ==> o == Failed(d.trace, Raised(d.reason)))
            && (d.Proceed? && depth == 0 ==> o == Failed(d.trace, NestingTooDeep))
            && (d.Proceed? && depth > 0 ==>
                  && o == Prepend(d.trace, RunSeq(tasks, before, subs, d.args, depth - 1))
                  && (o.Done? ==>
                        && o.value == Null
                        && forall i :: 0 <= i < |subs| ==> Run(tasks, before, subs[i], d.args, depth - 1).Done?))
  {
    var d := Dispatch(t, before[t], args);
    if d.Proceed? && depth > 0 {
      RunSeqDone(tasks, before, tasks[t].subs, d.args, depth - 1);
    }
  }

  /** Hooks registered under another name do not affect invoking a leaf
      task. */
  lemma LeafIgnoresOtherHooks(tasks: map<string, Action>, before: map<string, seq<Hook>>,
                              t: string, u: string, hooks: seq<Hook>, args: Args, depth: nat)
    requires Covers(tasks, before)
    requires t in tasks && tasks[t].Leaf? && u != t
    ensures Covers(tasks, before[u := hooks])
    ensures Run(tasks, before[u := hooks], t, args, depth) == Run(tasks, before, t, args, depth)
  {
  }

  // ---------------------------------------------------------------------
  // Composed tasks
  // ---------------------------------------------------------------------

  /** The sub-task loop is compositional: running `s1 + s2` runs `s1`, and,
      only if that succeeded, then `s2`, each with the same arguments. */
  lemma {:induction false} RunSeqAppend(tasks: map<string, Action>, before: map<string, seq<Hook>>,
                                        s1: seq<string>, s2: seq<string>, args: Args, depth: nat)
    requires Covers(tasks, before)
    ensures RunSeq(tasks, before, s1 + s2, args, depth) ==
            var first := RunSeq(tasks, before, s1, args, depth);
            if first.Failed? then first else Prepend(first.trace, RunSeq(tasks, before, s2, args, depth))
    decreases |s2|
  {
    if s2 == [] {
      assert s1 + s2 == s1;
    } else {
      var s := s1 + s2;
      var init2 := s2[..|s2| - 1];
      assert s[..|s| - 1] == s1 + init2;
      assert s[|s| - 1] == s2[|s2| - 1];
      RunSeqAppend(tasks, before, s1, init2, args, depth);
    }
  }

  /** Once a sub-task fails, later sub-tasks are not invoked: the outcome of
      the whole list is the outcome of the prefix that failed. */
  lemma SeqFailureStops(tasks: map<string, Action>, before: map<string, seq<Hook>>,
                        subs: seq<string>, k: nat, args: Args, depth: nat)
    requires Covers(tasks, before)
    requires k <= |subs|
    requires RunSeq(tasks, before, subs[..k], args, depth).Failed?
    ensures RunSeq(tasks, before, subs, args, depth) == RunSeq(tasks, before, subs[..k], args, depth)
  {
    assert subs == subs[..k] + subs[k..];
    RunSeqAppend(tasks, before, subs[..k], subs[k..], args, depth);
  }

  /** When the loop of a composed task completes, every sub-task was
      invoked, with the same arguments, and succeeded; the trace is theirs
      in list order. */
  lemma {:induction false} RunSeqDone(tasks: map<string, Action>, before: map<string, seq<Hook>>,
                                      subs: seq<string>, args: Args, depth: nat)
    requires Covers(tasks, before)
    ensures var o := RunSeq(tasks, before, subs, args, depth);
            o.Done? ==>
              && o.value == Null
              && (forall i :: 0 <= i < |subs| ==> Run(tasks, before, subs[i], args, depth).Done?)
              && o.trace == Traces(tasks, before, subs, args, depth)
    decreases |subs|
  {
    if subs != [] {
      var init := subs[..|subs| - 1];
      RunSeqDone(tasks, before, init, args, depth);
      forall i | 0 <= i < |init| ensures init[i] == subs[i] { }
    }
  }

  /** The traces of invoking each name of `subs`, one after the other. */
  function Traces(tasks: map<string, Action>, before: map<string, seq<Hook>>,
                  subs: seq<string>, args: Args, depth: nat): seq<Event>
    requires Covers(tasks, before)
    decreases |subs|
  {
    if subs == [] then []
    else Traces(tasks, before, subs[..|subs| - 1], args, depth) + Run(tasks, before, subs[|subs| - 1], args, depth).trace
  }

  /** When the loop of a composed task fails, there is a first failing
      sub-task k: all before it succeeded, its failure is the loop's, and
      nothing after it ran. */
  lemma {:induction false} RunSeqFailed(tasks: map<string, Action>, before: map<string, seq<Hook>>,
                                        subs: seq<string>, args: Args, depth: nat)
    requires Covers(tasks, before)
    requires RunSeq(tasks, before, subs, args, depth).Failed?
    ensures exists k :: 0 <= k < |subs| && FailsFirstAt(tasks, before, subs, k, args, depth)
    decreases |subs|
  {
    var init := subs[..|subs| - 1];
    var last := |subs| - 1;
    if RunSeq(tasks, before, init, args, depth).Failed? {
      RunSeqFailed(tasks, before, init, args, depth);
      var k :| 0 <= k < |init| && FailsFirstAt(tasks, before, init, k, args, depth);
      assert init[..k] == subs[..k] && init[k] == subs[k];
      SeqFailureStops(tasks, before, subs, |subs| - 1, args, depth);
      assert FailsFirstAt(tasks, before, subs, k, args, depth);
    } else {
      assert subs[..last] == init;
      assert FailsFirstAt(tasks, before, subs, last, args, depth);
    }
  }

  /** Sub-task k is the first to fail in `subs`, and the loop's outcome is
      the earlier sub-tasks' trace, then k's, with k's failure. */
  predicate FailsFirstAt(tasks: map<string, Action>, before: map<string, seq<Hook>>,
                         subs: seq<string>, k: nat, args: Args, depth: nat)
    requires Covers(tasks, before)
    requires k < |subs|
  {
    var earlier := RunSeq(tasks, before, subs[..k], args, depth);
    var failing := Run(tasks, before, subs[k], args, depth);
    var whole := RunSeq(tasks, before, subs, args, depth);
    && earlier.Done?
    && failing.Failed?
    && whole == Failed(earlier.trace + failing.trace, failing.failure)
  }

  // ---------------------------------------------------------------------
  // The depth bound
  // ---------------------------------------------------------------------

  /** The outcome that stands in for running out of call stack. */
  predicate Exhausted(o: Outcome)
  {
    o.Failed? && o.failure == NestingTooDeep
  }

  /** An invocation that did not hit the depth bound has its final
      outcome: any larger bound gives the same result. */
  lemma {:induction false} MoreDepthSameOutcome(tasks: map<string, Action>, before: map<string, seq<Hook>>,
                                                name: string, args: Args, depth: nat, deeper: nat)
    requires Covers(tasks, before)
    requires depth <= deeper
    requires !Exhausted(Run(tasks, before, name, args, depth))
    ensures Run(tasks, before, name, args, deeper) == Run(tasks, before, name, args, depth)
    decreases depth, 2, 0
  {
    if name in tasks {
      match Dispatch(name, before[name], args)
      case Halted(_, _) =>
      case Proceed(_, post) => PerformMoreDepth(tasks, before, tasks[name], post, depth, deeper);
    }
  }

  lemma {:induction false} PerformMoreDepth(tasks: map<string, Action>, before: map<string, seq<Hook>>,
                                            action: Action, args: Args, depth: nat, deeper: nat)
    requires Covers(tasks, before)
    requires depth <= deeper
    requires !Exhausted(Perform(tasks, before, action, args, depth))
    ensures Perform(tasks, before, action, args, deeper) == Perform(tasks, before, action, args, depth)
    decreases depth, 1, 0
  {
    if action.Composed? {
      RunSeqMoreDepth(tasks, before, action.subs, args, depth - 1, deeper - 1);
    }
  }

  lemma {:induction false} RunSeqMoreDepth(tasks: map<string, Action>, before: map<string, seq<Hook>>,
                                           subs: seq<string>, args: Args, depth: nat, deeper: nat)
    requires Covers(tasks, before)
    requires depth <= deeper
    requires !Exhausted(RunSeq(tasks, before, subs, args, depth))
    ensures RunSeq(tasks, before, subs, args, deeper) == RunSeq(tasks, before, subs, args, depth)
    decreases depth, 3, |subs|
  {
    if subs != [] {
      var init := subs[..|subs| - 1];
      RunSeqMoreDepth(tasks, before, init, args, depth, deeper);
      if RunSeq(tasks, before, init, args, depth).Done? {
        MoreDepthSameOutcome(tasks, before, subs[|subs| - 1], args, depth, deeper);
      }
    }
  }
}
