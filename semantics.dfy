/** What `TaskRunner` does, as functions of its two tables: the task table
    (name to action) and the before-hook table (name to the ordered list of
    hooks registered with `before`). */
module Semantics {
  import opened Tasks

  /** The runner's invariant: every registered task has a hook list,
      possibly empty. */
  predicate Covers(tasks: map<string, Action>, before: map<string, seq<Hook>>)
  {
    forall t :: t in tasks ==> t in before
  }

  /** The hook table after `add(name, ...)`: a list is created for a new
      name, an existing list is kept as it is. */
  function WithHookList(before: map<string, seq<Hook>>, name: string): (r: map<string, seq<Hook>>)
    ensures r.Keys == before.Keys + {name}
    ensures name in before ==> r == before
    ensures name !in before ==> r[name] == []
    ensures forall u :: u in before ==> r[u] == before[u]
  {
    if name in before then before else before[name := []]
  }

  /** The hook table after `before(name, hook)`: `hook` is appended to the
      name's list, which is created if absent; no other list changes. */
  function WithHookAppended(before: map<string, seq<Hook>>, name: string, hook: Hook): (r: map<string, seq<Hook>>)
    ensures r.Keys == before.Keys + {name}
    ensures |r[name]| == (if name in before then |before[name]| else 0) + 1
    ensures r[name][|r[name]| - 1] == hook
    ensures name in before ==> r[name][..|before[name]|] == before[name]
    ensures forall u :: u in before && u != name ==> r[u] == before[u]
  {
    var list := if name in before then before[name] else [];
    assert (list + [hook])[..|list|] == list;
    before[name := list + [hook]]
  }

  /** `locateCallable`: the registered action, or TaskNotDefined(name). */
  function Locate(tasks: map<string, Action>, name: string): (r: Result<Action>)
    ensures r.Ok? <==> name in tasks
    ensures r.Ok? ==> r.value == tasks[name]
    ensures r.Err? ==> r.failure == TaskNotDefined(name)
  {
    if name in tasks then Ok(tasks[name]) else Err(TaskNotDefined(name))
  }

  /** `dispatchBeforeHook`: runs `hooks` (the list registered under `task`)
      in order on one shared context that starts out holding `args`. It is
      written as a left fold: the last hook runs on what the others left. */
  function Dispatch(task: string, hooks: seq<Hook>, args: Args): HookRun
    decreases |hooks|
  {
    if hooks == [] then Proceed([], args)
    else
      match Dispatch(task, hooks[..|hooks| - 1], args)
      case Halted(tr, why) => Halted(tr, why)
      case Proceed(tr, ctx) =>
        var ran := HookRan(task, |hooks| - 1, ctx);
        match hooks[|hooks| - 1](ctx)
        case Continue(next) => Proceed(tr + [ran], next)
        case Raise(why) => Halted(tr + [ran], why)
  }

  /** `invoke(name, args)`: look the name up, run its hooks, then call its
      action with the post-hook arguments. `depth` bounds how deeply
      composed tasks may nest. */
  function Run(tasks: map<string, Action>, before: map<string, seq<Hook>>,
               name: string, args: Args, depth: nat): Outcome
    requires Covers(tasks, before)
    decreases depth, 2, 0
  {
    match Locate(tasks, name)
    case Err(f) => Failed([], f)
    case Ok(action) =>
      match Dispatch(name, before[name], args)
      case Halted(tr, why) => Failed(tr, Raised(why))
      case Proceed(tr, post) => Prepend(tr, Perform(tasks, before, action, post, depth))
  }

  /** Calling an action with a task context carrying `args`. A leaf action
      returns or throws; the composed closure invokes its sub-tasks. */
  function Perform(tasks: map<string, Action>, before: map<string, seq<Hook>>,
                   action: Action, args: Args, depth: nat): Outcome
    requires Covers(tasks, before)
    decreases depth, 1, 0
  {
    match action
    case Leaf(id, body) =>
      (match body(args)
       case Return(v) => Done([ActionRan(id, args)], v)
       case Throw(why) => Failed([ActionRan(id, args)], Raised(why)))
    case Composed(subs) =>
      if depth == 0 then Failed([], NestingTooDeep)
      else RunSeq(tasks, before, subs, args, depth - 1)
  }

  /** The composed closure's loop: invoke each sub-task name in order with
      the same arguments, stopping at the first failure. The closure itself
      returns nothing. */
  function RunSeq(tasks: map<string, Action>, before: map<string, seq<Hook>>,
                  subs: seq<string>, args: Args, depth: nat): Outcome
    requires Covers(tasks, before)
    decreases depth, 3, |subs|
  {
    if subs == [] then Done([], Null)
    else
      match RunSeq(tasks, before, subs[..|subs| - 1], args, depth)
      case Failed(tr, f) => Failed(tr, f)
      case Done(tr, _) =>
        match Run(tasks, before, subs[|subs| - 1], args, depth)
        case Done(tr2, _) => Done(tr + tr2, Null)
        case Failed(tr2, f) => Failed(tr + tr2, f)
  }
}
