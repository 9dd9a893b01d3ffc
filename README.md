# TaskRunner: a verified model of named-task registration and invocation

This project models the `TaskRunner` class of mashbot-taskrunner
(`src/TaskRunner.php`). The class keeps two tables. The task table maps a
name to an action. The before-hook table (`$hooks['before']`) maps a name to
an ordered list of hooks. The class's operations are:

- `add` registers an action. It makes sure the name has a hook list, and an
  existing list is kept.
- `addComposed` registers a closure that invokes a list of sub-task names in
  order.
- `before` appends a hook to a name's list.
- `invoke` looks the name up and fails with `TaskNotDefinedException` if it
  is missing. Otherwise it runs the name's hooks in order on one shared
  `BeforeTaskContext`, then calls the action with a `TaskContext` that
  carries the post-hook arguments.

Files:

- `tasks.dfy` (module `Tasks`): the values involved.
  - Argument maps (`Args`).
  - Hooks: a function from the context's current arguments to "continue
    with these arguments" or "throw".
  - Actions: a leaf callable with an id, or the composed closure.
  - The events an invocation produces: a hook ran and what it saw, an
    action was called and with what.
  - Outcomes and failures.
- `semantics.dfy` (module `Semantics`): what the runner does, as functions
  of its two tables.
  - `Locate` is `locateCallable`.
  - `Dispatch` is `dispatchBeforeHook`, written as a left fold over the
    hook list.
  - `Run` is `invoke`, `Perform` is "call the action", and `RunSeq` is the
    composed closure's loop.
  - `WithHookList` and `WithHookAppended` give the hook table after `add`
    and after `before`.
- `runner.dfy` (module `Runner`): the imperative model.
  - `BeforeTaskContext` is a class with a mutable `arguments` field.
  - `TaskRunner` is a class with the fields `tasks` and `before`.
  - `Add`, `AddComposed` and `Before` update those fields in place.
  - `DispatchBeforeHook` loops over a name's hooks, mutating one shared
    context.
  - `Invoke` creates a fresh context for each invocation and calls
    `InvokeCallable`. For the composed closure, that runs `InvokeEach`,
    whose loop calls `Invoke` again for each sub-task.
  - Each method is proved against the function in `Semantics` that
    specifies it.
- `properties.dfy` (module `Properties`): lemmas about the semantics.
- `scenarios.dfy` (module `Scenarios`): worked examples (greet, an
  overriding hook, a composed `all` of `build` and `test`) and a client
  method that drives the class.

Notes on modelling choices:

- An invocation's trace records every hook run and every leaf-action call,
  in order. This makes "no hook ran", "in registration order" and "only
  this name's hooks" observable.
- Composed tasks can nest, including cyclically. The source does not
  terminate on a cycle; the model bounds the nesting instead.
  - `depth` is the number of composed actions that may still be entered.
  - Entering a composed action at depth 0 fails with `NestingTooDeep`.
  - `MoreDepthSameOutcome` shows that any outcome other than
    `NestingTooDeep` is final: a larger bound gives the same outcome.
- `before` on a name that was never added creates that name's list. This
  is PHP's auto-creation of an array on `$a[$k][] = $v` at line 71.
  Invoking such a name still fails at the lookup, before any hook runs.
- The source's `invoke` reads `$hooks['before'][$task]` (line 76) only
  after the lookup has succeeded, so the entry exists. The model states
  this as the invariant `Covers` (every registered name has a hook list),
  and `Run` and the class methods require it. The constructor establishes
  it, and `add` and `before` keep it.
- The composed closure discards its sub-tasks' return values and returns
  nothing (lines 60-66). So a composed task's outcome carries the value
  `Null`.

## Model

| member | source | states |
|---|---|---|
| Semantics.Locate | src/TaskRunner.php:100-107 | the lookup succeeds exactly when the name is registered, and then yields its action; otherwise it fails with TaskNotDefined carrying the requested name |
| Semantics.WithHookList | src/TaskRunner.php:53-55 | after `add` the name has a hook list: an existing list is kept unchanged, a new name gets the empty list, every other list is untouched, and no name loses its list |
| Semantics.WithHookAppended | src/TaskRunner.php:71 | after `before` the name's list is the old list (or none) with the hook added at the end; every other list is unchanged and no name loses its list |
| Runner.TaskRunner.constructor | src/TaskRunner.php:34-39 | a new runner has no tasks and no hook lists, and satisfies the invariant |
| Runner.TaskRunner.Add | src/TaskRunner.php:50-56 | the task table maps the name to the new action (last write wins) and nothing else changes in it; the hook table becomes `WithHookList` of the old one; the invariant is kept |
| Runner.TaskRunner.AddComposed | src/TaskRunner.php:58-67 | registers the composed closure for the sub-task list under the name, with the same effect on the hook table as `add` |
| Runner.TaskRunner.Before | src/TaskRunner.php:69-72 | the task table is unchanged and the hook table becomes `WithHookAppended` of the old one; the invariant is kept |
| Runner.TaskRunner.DispatchBeforeHook | src/TaskRunner.php:74-79 | the loop over the name's hooks, which mutates one shared context, yields exactly the fold `Dispatch`: the hooks that ran, and either the final contents of the context or the exception of the hook that threw |
| Runner.TaskRunner.Invoke | src/TaskRunner.php:81-89 | the imperative invoke, with its fresh context, hook loop and action call, has exactly the outcome `Run` gives; for an unregistered name that outcome is TaskNotDefined with an empty trace |
| Runner.TaskRunner.InvokeCallable | src/TaskRunner.php:88 | calling the located action with the post-hook arguments gives the outcome `Perform` specifies: a leaf returns or throws after one recorded call; a composed action runs its sub-task loop |
| Runner.TaskRunner.InvokeEach | src/TaskRunner.php:60-66 | the composed closure's loop of `invoke` calls has the outcome `RunSeq` specifies, and a completed loop returns no value |
| Properties.DispatchChained | src/TaskRunner.php:74-79 | a dispatch that gets through all hooks logs hook i of this name i-th. Hook 0 sees the invoke arguments, hook i+1 sees what hook i left, and the resulting arguments are what the last hook left |
| Properties.ChainedDispatch | src/TaskRunner.php:74-79 | the converse: any such chain of rewrites that the hooks agree with is the dispatch's result, so the chain characterises dispatch in both directions |
| Properties.HaltSkipsLaterHooks | src/TaskRunner.php:76-78 | once a hook throws, no later hook runs: the dispatch of the whole list equals that of the prefix that threw |
| Properties.DispatchTraceIsHooks | src/TaskRunner.php:74-79 | whatever happens, a dispatch logs at most one event per hook, and only hooks of its own name, in registration order |
| Properties.AppendedHookRunsLast | src/TaskRunner.php:69-79 | after `before(t, h)`, `t`'s list is its old list (or none) followed by `h`. When the earlier hooks get through with a given chain, a dispatch of `t` logs that chain, then runs `h` on what they left; `h`'s rewrite or throw ends the dispatch |
| Properties.AppendedHookAfterThrow | src/TaskRunner.php:69-79 | after `before(t, h)`, when one of `t`'s earlier hooks throws, `h` never runs: the dispatch equals that of the old list |
| Properties.HaltedReason | src/TaskRunner.php:76-78 | a dispatch that throws was stopped by its last logged hook k: hooks 0..k-1 got through, and hook k raised the reported reason on the arguments they left |
| Properties.UndefinedRunsNothing | src/TaskRunner.php:81-86 | invoking an unregistered name fails with TaskNotDefined(name) before any hook runs or any action is called (empty trace) |
| Properties.UndefinedOnlyWhenMissing | src/TaskRunner.php:100-107 | an invocation, however deeply composed, fails with TaskNotDefined(n) only for an unregistered n |
| Properties.PerformUndefinedOnlyWhenMissing | src/TaskRunner.php:88 | the same for calling an action |
| Properties.RunSeqUndefinedOnlyWhenMissing | src/TaskRunner.php:63-65 | the same for the composed closure's loop |
| Properties.AddedNameIsDefined | src/TaskRunner.php:50-56 | after `add(t, a)` the invariant holds, an existing hook list of `t` is unchanged, and invoking `t` never fails with TaskNotDefined(t) |
| Properties.BeforeKeepsCovers | src/TaskRunner.php:69-72 | `before` keeps every registered name's hook list and drops no list |
| Properties.LeafInvocation | src/TaskRunner.php:81-89 | invoking a leaf task logs exactly its own hooks in order. If none throws, the action is then called exactly once with the post-hook arguments; the invocation returns the action's value unchanged, or fails with the action's own exception. If a hook throws, the action is not called and that exception propagates |
| Properties.ComposedInvocation | src/TaskRunner.php:58-67 | invoking a composed task runs its own hooks first (a throw propagates). If they get through, the sub-task loop runs with the arguments the last hook left, and it fails with NestingTooDeep only at depth 0. Every sub-task gets those same arguments, and a completed loop returns no value |
| Properties.LeafIgnoresOtherHooks | src/TaskRunner.php:86 | changing another name's hook list does not change the outcome of invoking a leaf task |
| Properties.RunSeqAppend | src/TaskRunner.php:63-65 | the sub-task loop over `s1 + s2` runs `s1`, then, only if it succeeded, `s2`, all with the same arguments, and concatenates their traces |
| Properties.SeqFailureStops | src/TaskRunner.php:63-64 | once a sub-task fails, the remaining names are not invoked and the failure is the composed loop's |
| Properties.RunSeqDone | src/TaskRunner.php:60-66 | a completed sub-task loop returns no value, every sub-task was invoked with the same arguments and succeeded, and the trace is theirs in list order |
| Properties.RunSeqFailed | src/TaskRunner.php:63-65 | a failed sub-task loop has a first failing sub-task: all earlier ones succeeded, its failure is the loop's, and the trace ends with its events (nothing later ran) |
| Properties.MoreDepthSameOutcome | src/TaskRunner.php:81-89 | an invocation that did not reach the depth bound has its final outcome: every larger bound gives the same result |
| Properties.PerformMoreDepth | src/TaskRunner.php:88 | the same for calling an action |
| Properties.RunSeqMoreDepth | src/TaskRunner.php:63-65 | the same for the composed closure's loop |
| Scenarios.GreetReturnsArgument | src/TaskRunner.php:81-89 | `invoke("greet", {name: "Ada"})` on a task returning its `name` argument returns "Ada" after one call |
| Scenarios.HookOverridesArguments | src/TaskRunner.php:69-89 | with a before-hook that sets `{name: "Override"}`, the same invocation returns "Override" and the action sees the replaced map |
| Scenarios.ComposedRunsInOrder | src/TaskRunner.php:58-67 | `all = [build, test]` invoked with `{env: "ci"}` calls `build` then `test` with `{env: "ci"}`; if `build` throws, `test` is not called and `all` fails with `build`'s exception |

## Left out

- The logger. It is stored and forwarded into `TaskContext` but never inspected.
- `extend`. It hands the runner to a foreign extension object whose behaviour is not part of this model.
- `tasks()` and the `TaskList` inspection wrapper. That class is not part of this model.
- `TaskInvoker`'s reflection-based choice between passing a `TaskContext` and passing nothing. That class is not part of this model. Calling an action is modelled as recording the call with the post-hook arguments: an action that takes no context simply ignores them. The `UnsupportedCallableShape` error belongs to that class and is also not modelled.
- `MutableTaskList` internals. Its `add` and `find` are modelled as a map update and a map lookup, with `UndefinedTaskException` as a missing key.
- Side effects of hooks and actions beyond returning, replacing the arguments, or throwing. In particular, a hook or action cannot register tasks while an invocation is in progress: `Run` reads fixed tables.
- PHP's ordering of array keys. Argument maps are modelled as unordered maps, so hooks and actions are not allowed to depend on key order.
- Unbounded recursion through cyclic composition. It is cut off by the `depth` bound, which the source does not have: where the source would exhaust the call stack, the model fails with `NestingTooDeep`.
- Runner.TaskRunner.Invoke: the default `$args = []` of `invoke` (line 81) is not modelled as a default. Callers pass `map[]` explicitly.
- PHP argument arrays may have integer keys, and may hold arrays, objects or floats as values. The model uses string keys and null, boolean, integer and string values. The runner never looks inside the arguments, only passes them on and lets hooks replace them, so no behaviour of the runner depends on this.
- Return values of composed sub-tasks. The closure discards them, and the model does too.
