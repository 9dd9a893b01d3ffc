/** Worked examples of registering and invoking tasks. */
module Scenarios {
  import opened Tasks
  import opened Semantics
  import opened Runner

  /** A task that returns the "name" argument it is given. */
  function Greet(): Action
  {
    Leaf(1, (a: Args) => if "name" in a then Return(a["name"]) else Return(Null))
  }

  /** A before-hook that replaces the whole argument map. */
  function Override(): Hook
  {
    (a: Args) => Continue(map["name" := Str("Override")])
  }

  function Ada(): Args
  {
    map["name" := Str("Ada")]
  }

  function Ci(): Args
  {
    map["env" := Str("ci")]
  }

  /** `greet` with no hooks returns the argument it was invoked with. */
  lemma GreetReturnsArgument()
    ensures Run(map["greet" := Greet()], map["greet" := []], "greet", Ada(), 0)
            == Done([ActionRan(1, Ada())], Str("Ada"))
  {
  }

  /** A hook that sets new arguments decides what the action sees. */
  lemma HookOverridesArguments()
    ensures Run(map["greet" := Greet()], map["greet" := [Override()]], "greet", Ada(), 0)
            == Done([HookRan("greet", 0, Ada()), ActionRan(1, map["name" := Str("Override")])], Str("Override"))
  {
    assert Dispatch("greet", [Override()], Ada()) ==
           Proceed([HookRan("greet", 0, Ada())], map["name" := Str("Override")]) by {
      assert [Override()][..0] == [];
    }
  }

  /** `all` composed of `build` and `test` invokes both, in order, with the
      arguments `all` received; a failing `build` stops `test`. */
  lemma ComposedRunsInOrder(failing: bool)
    ensures var build := Leaf(1, (a: Args) => if failing then Throw("boom") else Return(Null));
            var test := Leaf(2, (a: Args) => Return(Null));
            var tasks := map["build" := build, "test" := test, "all" := Composed(["build", "test"])];
            var before := map["build" := [], "test" := [], "all" := []];
            Run(tasks, before, "all", Ci(), 1) ==
              if failing then Failed([ActionRan(1, Ci())], Raised("boom"))
              else Done([ActionRan(1, Ci()), ActionRan(2, Ci())], Null)
  {
    var build := Leaf(1, (a: Args) => if failing then Throw("boom") else Return(Null));
    var test := Leaf(2, (a: Args) => Return(Null));
    var tasks := map["build" := build, "test" := test, "all" := Composed(["build", "test"])];
    var before := map["build" := [], "test" := [], "all" := []];
    assert ["build", "test"][..1] == ["build"];
    assert ["build"][..0] == [];
    assert Run(tasks, before, "build", Ci(), 0) ==
           if failing then Failed([ActionRan(1, Ci())], Raised("boom")) else Done([ActionRan(1, Ci())], Null);
  }

  /** The same scenarios driven through the runner object. */
  method UseRunner()
  {
    var runner := new TaskRunner();
    runner.Add("greet", Greet());
    var o := runner.Invoke("greet", Ada(), 0);
    assert runner.tasks == map["greet" := Greet()] && runner.before == map["greet" := []];
    GreetReturnsArgument();
    assert o.value == Str("Ada");

    runner.Before("greet", Override());
    assert runner.before == map["greet" := [Override()]];
    o := runner.Invoke("greet", Ada(), 0);
    HookOverridesArguments();
    assert o.value == Str("Override");

    o := runner.Invoke("deploy", Ada(), 0);
    assert o == Failed([], TaskNotDefined("deploy"));
  }
}
