/** The values a task runner works with: argument maps, hooks, actions,
    the events an invocation produces and the ways it can fail. */
module Tasks {

  /** A value stored in an argument map (the PHP array's values). */
  datatype Value = Null | Bool(b: bool) | Int(i: int) | Str(s: string)

  /** The argument map handed to `invoke`, rewritten by before-hooks. */
  type Args = map<string, Value>

  datatype Option<T> = None | Some(value: T)

  /** What one before-hook does with the shared context: leave it holding
      `args` (a hook that never calls `setArguments` returns the arguments it
      was given), or throw. */
  datatype HookStep = Continue(args: Args) | Raise(reason: string)

  /** A before-hook, as a function of the arguments the shared context holds
      when the hook is called. */
  type Hook = Args -> HookStep

  /** What a leaf action does when it is called: return a value or throw. */
  datatype Reply = Return(value: Value) | Throw(reason: string)

  /** A registered action: a user callable, identified by `id`, or the
      synthetic closure `addComposed` registers for a list of sub-task names. */
  datatype Action = Leaf(id: nat, body: Args -> Reply) | Composed(subs: seq<string>)

  /** Observable steps of an invocation: hook number `index` of `task` ran
      and saw `seen` in the shared context; leaf action `id` was called with
      a context carrying `args`. */
  datatype Event =
    | HookRan(task: string, index: nat, seen: Args)
    | ActionRan(id: nat, args: Args)

  /** Why an invocation failed: the name was not registered
      (TaskNotDefinedException), a hook or action threw (propagated
      unchanged), or composition nested deeper than the depth bound. */
  datatype Failure = TaskNotDefined(name: string) | Raised(reason: string) | NestingTooDeep

  /** The result of an invocation together with everything it ran, in order. */
  datatype Outcome =
    | Done(trace: seq<Event>, value: Value)
    | Failed(trace: seq<Event>, failure: Failure)

  /** The result of running one name's before-hooks. */
  datatype HookRun =
    | Proceed(trace: seq<Event>, args: Args)
    | Halted(trace: seq<Event>, reason: string)

  datatype Result<T> = Ok(value: T) | Err(failure: Failure)

  /** Puts `events` in front of an outcome's trace, keeping its verdict. */
  function Prepend(events: seq<Event>, o: Outcome): (r: Outcome)
    ensures r.trace == events + o.trace
    ensures r.Done? == o.Done?
    ensures r.Done? ==> r.value == o.value
    ensures r.Failed? ==> r.failure == o.failure
  {
    match o
    case Done(tr, v) => Done(events + tr, v)
    case Failed(tr, f) => Failed(events + tr, f)
  }
}
