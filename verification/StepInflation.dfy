/** Replacing a Promotion's references to tasks by the tasks' steps
    (pkg/api/promotion.go). Variables are values here. */
module StepInflation {
  import opened Results

  datatype Variable = Variable(name: string, value: string)
  datatype TaskReference = TaskReference(name: string, kind: string)
  datatype Step = Step(alias: string, task: Option<TaskReference>, vars: seq<Variable>, uses: string)
  datatype TaskSpec = TaskSpec(vars: seq<Variable>, steps: seq<Step>)

  /** The tasks of the Project, and those of the cluster. */
  datatype Tasks = Tasks(project: map<string, TaskSpec>, cluster: map<string, TaskSpec>)

  datatype InflateError = TaskNotFound(name: string) | UnknownKind(kind: string) | MissingVariable(name: string)

  const SEPARATOR := "::"

  // ----- Aliases

  function Decimal(n: nat): (r: string)
    ensures r != ""
  {
    if n < 10 then [('0' as int + n) as char] else Decimal(n / 10) + [('0' as int + n % 10) as char]
  }

  /** GetAlias of the step at position i. */
  function Alias(step: Step, i: nat): (r: string)
    ensures r != ""
  {
    if step.alias != "" then step.alias
    else if step.task.Some? then "task-" + Decimal(i + 1)
    else "step-" + Decimal(i + 1)
  }

  /** generatePromotionTaskStepAlias. */
  function TaskStepAlias(taskAlias: string, stepAlias: string): string
  {
    taskAlias + SEPARATOR + stepAlias
  }

  // ----- Tasks and their variables

  /** getPromotionTaskSpec. */
  function GetTask(tasks: Tasks, ref: TaskReference): Result<TaskSpec, InflateError>
  {
    if ref.kind == "PromotionTask" || ref.kind == "" then
      if ref.name in tasks.project then Success(tasks.project[ref.name]) else Failure(TaskNotFound(ref.name))
    else if ref.kind == "ClusterPromotionTask" then
      if ref.name in tasks.cluster then Success(tasks.cluster[ref.name]) else Failure(TaskNotFound(ref.name))
    else Failure(UnknownKind(ref.kind))
  }

  /** Some variable of this name has a value. */
  predicate IsSet(vars: seq<Variable>, name: string)
  {
    exists v <- vars :: v.name == name && v.value != ""
  }

  predicate Missing(v: Variable, promoVars: seq<Variable>, stepVars: seq<Variable>)
  {
    v.value == "" && !IsSet(promoVars, v.name) && !IsSet(stepVars, v.name)
  }

  /** The defaults that apply: those of variables not set on the Promotion. */
  function Defaults(taskVars: seq<Variable>, promoVars: seq<Variable>): seq<Variable>
  {
    if taskVars == [] then []
    else
      var last := taskVars[|taskVars| - 1];
      Defaults(taskVars[..|taskVars| - 1], promoVars)
      + (if last.value != "" && !IsSet(promoVars, last.name) then [last] else [])
  }

  method SetNames(vars: seq<Variable>) returns (names: set<string>)
    ensures forall n :: n in names <==> IsSet(vars, n)
  {
    names := {};
    for i := 0 to |vars|
      invariant forall n :: n in names <==> IsSet(vars[..i], n)
    {
      assert vars[..i + 1] == vars[..i] + [vars[i]];
      if vars[i].value != "" {
        names := names + {vars[i].name};
      }
    }
    assert vars[..|vars|] == vars;
  }

  ghost predicate VarsComplete(taskVars: seq<Variable>, promoVars: seq<Variable>, stepVars: seq<Variable>)
  {
    forall v <- taskVars :: !Missing(v, promoVars, stepVars)
  }

  /** promotionTaskVarsToStepVars. */
  method TaskVarsToStepVars(taskVars: seq<Variable>, promoVars: seq<Variable>, stepVars: seq<Variable>)
    returns (r: Result<seq<Variable>, InflateError>)
    ensures r.Success? <==> VarsComplete(taskVars, promoVars, stepVars)
    ensures r.Success? ==> r.value == Defaults(taskVars, promoVars) + stepVars
    ensures r.Failure? ==> exists v <- taskVars :: Missing(v, promoVars, stepVars) && r.error == MissingVariable(v.name)
  {
    var promoNames := SetNames(promoVars);
    var stepNames := SetNames(stepVars);
    var vars: seq<Variable> := [];
    for i := 0 to |taskVars|
      invariant vars == Defaults(taskVars[..i], promoVars)
      invariant forall v <- taskVars[..i] :: !Missing(v, promoVars, stepVars)
    {
      var v := taskVars[i];
      assert v in taskVars;
      assert taskVars[..i + 1][..i] == taskVars[..i];
      assert taskVars[..i + 1] == taskVars[..i] + [v];
      if v.name in promoNames {
        continue;
      }
      if v.value != "" {
        vars := vars + [v];
        continue;
      }
      if v.name !in stepNames {
        return Failure(MissingVariable(v.name));
      }
    }
    assert taskVars[..|taskVars|] == taskVars;
    return Success(vars + stepVars);
  }

  // ----- Inflation

  /** What a step of a task becomes. */
  function TaskSteps(taskAlias: string, vars: seq<Variable>, steps: seq<Step>): (r: seq<Step>)
    ensures |r| == |steps|
    ensures forall j :: 0 <= j < |r| ==>
      r[j] == steps[j].(alias := TaskStepAlias(taskAlias, Alias(steps[j], j)), vars := vars + steps[j].vars)
  {
    seq(|steps|, j requires 0 <= j < |steps| =>
      steps[j].(alias := TaskStepAlias(taskAlias, Alias(steps[j], j)), vars := vars + steps[j].vars))
  }

  ghost predicate StepInflates(tasks: Tasks, promoVars: seq<Variable>, step: Step)
  {
    step.task.Some? ==>
      && GetTask(tasks, step.task.value).Success?
      && VarsComplete(GetTask(tasks, step.task.value).value.vars, promoVars, step.vars)
  }

  /** What the step at position i expands to. */
  function Expansion(tasks: Tasks, promoVars: seq<Variable>, step: Step, i: nat): seq<Step>
  {
    match step.task
    case None => [step.(alias := Alias(step, i))]
    case Some(ref) =>
      match GetTask(tasks, ref)
      case Failure(_) => []
      case Success(spec) => TaskSteps(Alias(step, i), Defaults(spec.vars, promoVars) + step.vars, spec.steps)
  }

  function Inflated(tasks: Tasks, promoVars: seq<Variable>, steps: seq<Step>): seq<Step>
  {
    if steps == [] then []
    else
      Inflated(tasks, promoVars, steps[..|steps| - 1])
      + Expansion(tasks, promoVars, steps[|steps| - 1], |steps| - 1)
  }

  ghost predicate AllInflate(tasks: Tasks, promoVars: seq<Variable>, steps: seq<Step>)
  {
    forall step <- steps :: StepInflates(tasks, promoVars, step)
  }

  lemma {:induction false} InflatedNext(tasks: Tasks, promoVars: seq<Variable>, steps: seq<Step>, i: nat)
    requires i < |steps|
    ensures Inflated(tasks, promoVars, steps[..i + 1]) ==
      Inflated(tasks, promoVars, steps[..i]) + Expansion(tasks, promoVars, steps[i], i)
    ensures AllInflate(tasks, promoVars, steps[..i + 1]) <==>
      AllInflate(tasks, promoVars, steps[..i]) && StepInflates(tasks, promoVars, steps[i])
  {
    assert steps[..i + 1][..i] == steps[..i];
    assert steps[..i + 1] == steps[..i] + [steps[i]];
  }

  class Promotion {
    var vars: seq<Variable>
    var steps: seq<Step>

    constructor (vars: seq<Variable>, steps: seq<Step>)
      ensures this.vars == vars && this.steps == steps
    {
      this.vars, this.steps := vars, steps;
    }

    /** InflateSteps: all steps or, on an error, none. */
    method InflateSteps(tasks: Tasks) returns (err: Option<InflateError>)
      modifies this`steps
      ensures err == None <==> AllInflate(tasks, vars, old(steps))
      ensures err == None ==> steps == Inflated(tasks, vars, old(steps))
      ensures err.Some? ==> steps == old(steps)
    {
      var inflated: seq<Step> := [];
      for i := 0 to |steps|
        invariant steps == old(steps)
        invariant inflated == Inflated(tasks, vars, steps[..i])
        invariant AllInflate(tasks, vars, steps[..i])
      {
        var step := steps[i];
        assert step in steps;
        InflatedNext(tasks, vars, steps, i);
        if step.task.Some? {
          var taskSteps := InflateTaskSteps(tasks, Alias(step, i), step);
          if taskSteps.Failure? {
            return Some(taskSteps.error);
          }
          inflated := inflated + taskSteps.value;
        } else {
          step := step.(alias := Alias(step, i));
          inflated := inflated + [step];
        }
      }
      assert steps[..|steps|] == steps;
      steps := inflated;
      return None;
    }

    /** inflateTaskSteps. */
    method InflateTaskSteps(tasks: Tasks, taskAlias: string, taskStep: Step)
      returns (r: Result<seq<Step>, InflateError>)
      requires taskStep.task.Some?
      ensures r.Success? <==> StepInflates(tasks, vars, taskStep)
      ensures r.Success? ==>
        var spec := GetTask(tasks, taskStep.task.value).value;
        r.value == TaskSteps(taskAlias, Defaults(spec.vars, vars) + taskStep.vars, spec.steps)
    {
      var task := GetTask(tasks, taskStep.task.value);
      if task.Failure? {
        return Failure(task.error);
      }
      var mapped := TaskVarsToStepVars(task.value.vars, vars, taskStep.vars);
      if mapped.Failure? {
        return Failure(mapped.error);
      }
      var result: seq<Step> := [];
      for i := 0 to |task.value.steps|
        invariant result == TaskSteps(taskAlias, mapped.value, task.value.steps[..i])
      {
        var step := task.value.steps[i];
        result := result + [step.(
          alias := TaskStepAlias(taskAlias, Alias(step, i)), vars := mapped.value + step.vars)];
      }
      assert task.value.steps[..|task.value.steps|] == task.value.steps;
      return Success(result);
    }
  }

  // ----- What inflation guarantees

  /** The steps a step stands for, in order: itself, or those of the cluster's or
      the Project's task that it refers to. */
  function Sources(tasks: Tasks, step: Step): seq<Step>
  {
    match step.task
    case None => [step]
    case Some(ref) =>
      if ref.kind == "ClusterPromotionTask" && ref.name in tasks.cluster then tasks.cluster[ref.name].steps
      else if (ref.kind == "PromotionTask" || ref.kind == "") && ref.name in tasks.project then
        tasks.project[ref.name].steps
      else []
  }

  function AllSources(tasks: Tasks, steps: seq<Step>): seq<Step>
  {
    if steps == [] then []
    else AllSources(tasks, steps[..|steps| - 1]) + Sources(tasks, steps[|steps| - 1])
  }

  /** The inflated step is the source step, with a name and perhaps more variables. */
  predicate Stands(inflated: Step, source: Step)
  {
    && inflated.uses == source.uses && inflated.task == source.task && inflated.alias != ""
    && |inflated.vars| >= |source.vars|
    && inflated.vars[|inflated.vars| - |source.vars|..] == source.vars
  }

  lemma {:induction false} ExpansionKeepsOrder(tasks: Tasks, promoVars: seq<Variable>, step: Step, i: nat)
    ensures
      var e, s := Expansion(tasks, promoVars, step, i), Sources(tasks, step);
      |e| == |s| && forall k :: 0 <= k < |e| ==> Stands(e[k], s[k])
  {
  }

  /** Nothing is lost, added or reordered: the inflated steps are the source steps
      one for one. */
  lemma {:induction false} InflationKeepsOrder(tasks: Tasks, promoVars: seq<Variable>, steps: seq<Step>)
    ensures
      var r, s := Inflated(tasks, promoVars, steps), AllSources(tasks, steps);
      |r| == |s| && forall k :: 0 <= k < |r| ==> Stands(r[k], s[k])
  {
    if steps != [] {
      InflationKeepsOrder(tasks, promoVars, steps[..|steps| - 1]);
      ExpansionKeepsOrder(tasks, promoVars, steps[|steps| - 1], |steps| - 1);
    }
  }

  /** No reference to a task is left exactly if no referenced task refers to one. */
  lemma {:induction false} NoReferencesLeftExactly(tasks: Tasks, promoVars: seq<Variable>, steps: seq<Step>)
    ensures
      (forall x <- Inflated(tasks, promoVars, steps) :: x.task.None?) <==>
      (forall step <- steps :: step.task.Some? ==> forall x <- Sources(tasks, step) :: x.task.None?)
  {
    if steps != [] {
      var init, last := steps[..|steps| - 1], steps[|steps| - 1];
      assert steps == init + [last];
      NoReferencesLeftExactly(tasks, promoVars, init);
      ExpansionReferences(tasks, promoVars, last, |steps| - 1);
    }
  }

  lemma {:induction false} ExpansionReferences(tasks: Tasks, promoVars: seq<Variable>, step: Step, i: nat)
    ensures
      (forall x <- Expansion(tasks, promoVars, step, i) :: x.task.None?) <==>
      (step.task.Some? ==> forall x <- Sources(tasks, step) :: x.task.None?)
  {
    var e, s := Expansion(tasks, promoVars, step, i), Sources(tasks, step);
    assert |e| == |s| && forall k :: 0 <= k < |e| ==> e[k].task == s[k].task;
    assert step.task.None? ==> e[0].task.None?;
  }

  /** Inflating what has no references left changes nothing. */
  lemma {:induction false} InflationIsIdempotent(tasks: Tasks, promoVars: seq<Variable>, steps: seq<Step>)
    requires forall x <- Inflated(tasks, promoVars, steps) :: x.task.None?
    ensures Inflated(tasks, promoVars, Inflated(tasks, promoVars, steps)) == Inflated(tasks, promoVars, steps)
  {
    InflationKeepsOrder(tasks, promoVars, steps);
    NamedStepsStay(tasks, promoVars, Inflated(tasks, promoVars, steps));
  }

  lemma {:induction false} NamedStepsStay(tasks: Tasks, promoVars: seq<Variable>, steps: seq<Step>)
    requires forall k :: 0 <= k < |steps| ==> steps[k].task.None? && steps[k].alias != ""
    ensures Inflated(tasks, promoVars, steps) == steps
  {
    if steps != [] {
      NamedStepsStay(tasks, promoVars, steps[..|steps| - 1]);
      assert steps == steps[..|steps| - 1] + [steps[|steps| - 1]];
    }
  }

  // ----- Distinct aliases

  ghost predicate DistinctAliases(steps: seq<Step>)
  {
    forall i, j :: 0 <= i < j < |steps| ==> Alias(steps[i], i) != Alias(steps[j], j)
  }

  ghost predicate DistinctNames(steps: seq<Step>)
  {
    forall k, m :: 0 <= k < m < |steps| ==> steps[k].alias != steps[m].alias
  }

  /** The names that the step at position i can lead to, whatever its task holds. */
  predicate NamedAfter(step: Step, i: nat, name: string)
  {
    if step.task.None? then name == Alias(step, i) else Alias(step, i) + SEPARATOR < name
  }

  /** Two steps lead to different names: no plain alias repeats or extends a task's
      alias and separator, and of two tasks' aliases and separators none extends
      the other. */
  predicate Apart(x: Step, i: nat, y: Step, j: nat)
  {
    var a, b := Alias(x, i), Alias(y, j);
    if x.task.None? && y.task.None? then a != b
    else if x.task.None? then !(b + SEPARATOR < a)
    else if y.task.None? then !(a + SEPARATOR < b)
    else !(a + SEPARATOR <= b + SEPARATOR) && !(b + SEPARATOR <= a + SEPARATOR)
  }

  ghost predicate Unambiguous(steps: seq<Step>)
  {
    forall i, j :: 0 <= i < j < |steps| ==> Apart(steps[i], i, steps[j], j)
  }

  lemma {:induction false} PrefixesAgree(a: string, b: string, s: string)
    requires a <= s && b <= s
    ensures a <= b || b <= a
  {
  }

  lemma {:induction false} ApartNames(x: Step, i: nat, y: Step, j: nat, name: string)
    requires Apart(x, i, y, j) && NamedAfter(x, i, name)
    ensures !NamedAfter(y, j, name)
  {
    if x.task.Some? && y.task.Some? && NamedAfter(y, j, name) {
      PrefixesAgree(Alias(x, i) + SEPARATOR, Alias(y, j) + SEPARATOR, name);
    }
  }

  /** Every expanded step is named after what it expands, and no two alike. */
  lemma {:induction false} ExpansionNames(tasks: Tasks, promoVars: seq<Variable>, step: Step, i: nat)
    requires step.task.Some? ==> DistinctAliases(Sources(tasks, step))
    ensures
      var e := Expansion(tasks, promoVars, step, i);
      (forall k :: 0 <= k < |e| ==> NamedAfter(step, i, e[k].alias)) && DistinctNames(e)
  {
    var a, e, s := Alias(step, i), Expansion(tasks, promoVars, step, i), Sources(tasks, step);
    if step.task.Some? {
      forall k | 0 <= k < |e|
        ensures a + SEPARATOR < e[k].alias
        ensures e[k].alias[|a| + 2..] == Alias(s[k], k)
      {
        assert e[k].alias == (a + SEPARATOR) + Alias(s[k], k);
      }
    }
  }

  ghost predicate NamedAfterSome(steps: seq<Step>, name: string)
  {
    exists i: nat :: i < |steps| && NamedAfter(steps[i], i, name)
  }

  lemma {:induction false} NamedAfterMore(init: seq<Step>, steps: seq<Step>, name: string)
    requires init <= steps && NamedAfterSome(init, name)
    ensures NamedAfterSome(steps, name)
  {
    var i: nat :| i < |init| && NamedAfter(init[i], i, name);
    assert steps[i] == init[i];
  }

  /** Each task's own aliases are distinct. */
  ghost predicate TasksDistinct(tasks: Tasks, steps: seq<Step>)
  {
    forall step <- steps :: step.task.Some? ==> DistinctAliases(Sources(tasks, step))
  }

  lemma {:induction false} UnambiguousNames(tasks: Tasks, promoVars: seq<Variable>, steps: seq<Step>)
    requires Unambiguous(steps) && TasksDistinct(tasks, steps)
    ensures DistinctNames(Inflated(tasks, promoVars, steps))
    ensures forall x <- Inflated(tasks, promoVars, steps) :: NamedAfterSome(steps, x.alias)
  {
    if steps != [] {
      var n := |steps| - 1;
      var init, last := steps[..n], steps[n];
      UnambiguousNames(tasks, promoVars, init);
      ExpansionNames(tasks, promoVars, last, n);
      var before, e := Inflated(tasks, promoVars, init), Expansion(tasks, promoVars, last, n);
      forall k, m | 0 <= k < |before| && 0 <= m < |e|
        ensures before[k].alias != e[m].alias
      {
        assert before[k] in before;
        var i: nat :| i < |init| && NamedAfter(init[i], i, before[k].alias);
        ApartNames(steps[i], i, last, n, before[k].alias);
      }
      forall x: Step | x in before + e
        ensures NamedAfterSome(steps, x.alias)
      {
        if x in before {
          NamedAfterMore(init, steps, x.alias);
        } else {
          assert NamedAfter(steps[n], n, x.alias);
        }
      }
    }
  }

  // ----- And exactly when

  predicate KnownKind(step: Step)
  {
    step.task.Some? ==>
      step.task.value.kind == "" || step.task.value.kind == "PromotionTask"
      || step.task.value.kind == "ClusterPromotionTask"
  }

  /** Whatever the tasks hold, if inflation succeeds and each task's own aliases
      are distinct, all names are. */
  ghost predicate AlwaysDistinct(promoVars: seq<Variable>, steps: seq<Step>)
  {
    forall tasks | AllInflate(tasks, promoVars, steps) && TasksDistinct(tasks, steps) ::
      DistinctNames(Inflated(tasks, promoVars, steps))
  }

  lemma {:induction false} InflatedGrows(tasks: Tasks, promoVars: seq<Variable>, steps: seq<Step>, i: nat)
    requires i <= |steps|
    ensures Inflated(tasks, promoVars, steps[..i]) <= Inflated(tasks, promoVars, steps)
  {
    if i < |steps| {
      assert steps[..|steps| - 1][..i] == steps[..i];
      InflatedGrows(tasks, promoVars, steps[..|steps| - 1], i);
    } else {
      assert steps[..i] == steps;
    }
  }

  /** Where the expansion of the step at position i stands in the whole. */
  lemma {:induction false} ExpansionStands(tasks: Tasks, promoVars: seq<Variable>, steps: seq<Step>, i: nat, k: nat)
    requires i < |steps| && k < |Expansion(tasks, promoVars, steps[i], i)|
    ensures
      var start := |Inflated(tasks, promoVars, steps[..i])|;
      && start + k < |Inflated(tasks, promoVars, steps[..i + 1])| <= |Inflated(tasks, promoVars, steps)|
      && Inflated(tasks, promoVars, steps)[start + k] == Expansion(tasks, promoVars, steps[i], i)[k]
  {
    InflatedNext(tasks, promoVars, steps, i);
    InflatedGrows(tasks, promoVars, steps, i + 1);
    PrefixAt(
      Inflated(tasks, promoVars, steps[..i]), Expansion(tasks, promoVars, steps[i], i),
      Inflated(tasks, promoVars, steps), k);
  }

  lemma {:induction false} PrefixAt(before: seq<Step>, e: seq<Step>, all: seq<Step>, k: nat)
    requires before + e <= all && k < |e|
    ensures all[|before| + k] == e[k]
  {
    assert (before + e)[|before| + k] == e[k];
  }

  lemma {:induction false} SameNameTwice(
    tasks: Tasks, promoVars: seq<Variable>, steps: seq<Step>, i: nat, k: nat, j: nat, m: nat)
    requires i < j < |steps|
    requires k < |Expansion(tasks, promoVars, steps[i], i)| && m < |Expansion(tasks, promoVars, steps[j], j)|
    requires
      Expansion(tasks, promoVars, steps[i], i)[k].alias == Expansion(tasks, promoVars, steps[j], j)[m].alias
    ensures !DistinctNames(Inflated(tasks, promoVars, steps))
  {
    ExpansionStands(tasks, promoVars, steps, i, k);
    ExpansionStands(tasks, promoVars, steps, j, m);
    assert steps[..j][..i + 1] == steps[..i + 1];
    InflatedGrows(tasks, promoVars, steps[..j], i + 1);
  }

  function Named(alias: string): Step
  {
    Step(alias, None, [], "")
  }

  function References(steps: seq<Step>): set<string>
  {
    set step | step in steps && step.task.Some? :: step.task.value.name
  }

  /** Every task referred to, of either kind, holds these steps. */
  function Everywhere(steps: seq<Step>, held: seq<Step>): Tasks
  {
    var m := map name | name in References(steps) :: TaskSpec([], held);
    Tasks(m, m)
  }

  lemma {:induction false} EverywhereInflates(promoVars: seq<Variable>, steps: seq<Step>, held: seq<Step>)
    requires forall step <- steps :: KnownKind(step)
    requires DistinctAliases(held)
    ensures AllInflate(Everywhere(steps, held), promoVars, steps)
    ensures TasksDistinct(Everywhere(steps, held), steps)
    ensures forall step <- steps :: step.task.Some? ==>
      GetTask(Everywhere(steps, held), step.task.value) == Success(TaskSpec([], held))
  {
    forall step <- steps | step.task.Some?
      ensures GetTask(Everywhere(steps, held), step.task.value) == Success(TaskSpec([], held))
    {
      assert step.task.value.name in References(steps);
    }
  }

  /** What the step at position i expands to if every task holds these steps. */
  lemma {:induction false} HeldName(
    promoVars: seq<Variable>, steps: seq<Step>, held: seq<Step>, i: nat, k: nat)
    requires forall step <- steps :: KnownKind(step)
    requires DistinctAliases(held) && i < |steps|
    requires if steps[i].task.None? then k == 0 else k < |held| && held[k].alias != ""
    ensures
      var e := Expansion(Everywhere(steps, held), promoVars, steps[i], i);
      && k < |e|
      && e[k].alias ==
         if steps[i].task.None? then Alias(steps[i], i) else Alias(steps[i], i) + SEPARATOR + held[k].alias
  {
    EverywhereInflates(promoVars, steps, held);
    assert steps[i] in steps;
  }

  /** Steps that are not apart take the same name from some task. */
  lemma {:induction false} Collision(promoVars: seq<Variable>, steps: seq<Step>, i: nat, j: nat)
    requires i < j < |steps| && !Apart(steps[i], i, steps[j], j)
    requires forall step <- steps :: KnownKind(step)
    ensures !AlwaysDistinct(promoVars, steps)
  {
    var held, k, m := Colliding(steps[i], i, steps[j], j);
    HeldName(promoVars, steps, held, i, k);
    HeldName(promoVars, steps, held, j, m);
    EverywhereInflates(promoVars, steps, held);
    SameNameTwice(Everywhere(steps, held), promoVars, steps, i, k, j, m);
  }

  /** The name a step takes from the k-th of the steps its task holds. */
  function NameFrom(step: Step, i: nat, held: seq<Step>, k: nat): string
    requires step.task.Some? ==> k < |held|
  {
    if step.task.None? then Alias(step, i) else Alias(step, i) + SEPARATOR + held[k].alias
  }

  lemma {:induction false} Colliding(x: Step, i: nat, y: Step, j: nat) returns (held: seq<Step>, k: nat, m: nat)
    requires !Apart(x, i, y, j)
    ensures DistinctAliases(held) && forall step <- held :: step.alias != ""
    ensures if x.task.None? then k == 0 else k < |held|
    ensures if y.task.None? then m == 0 else m < |held|
    ensures NameFrom(x, i, held, k) == NameFrom(y, j, held, m)
  {
    var a, b := Alias(x, i), Alias(y, j);
    if x.task.None? && y.task.None? {
      held, k, m := [], 0, 0;
    } else if x.task.None? {
      held, k, m := [Named(a[|b| + 2..])], 0, 0;
      assert a == b + SEPARATOR + a[|b| + 2..];
    } else if y.task.None? {
      held, k, m := [Named(b[|a| + 2..])], 0, 0;
      assert b == a + SEPARATOR + b[|a| + 2..];
    } else if a + SEPARATOR <= b + SEPARATOR {
      held, k, m := BothTasks(a, b);
    } else {
      held, m, k := BothTasks(b, a);
    }
  }

  lemma {:induction false} BothTasks(a: string, b: string) returns (held: seq<Step>, k: nat, m: nat)
    requires a + SEPARATOR <= b + SEPARATOR
    ensures DistinctAliases(held) && forall step <- held :: step.alias != ""
    ensures k < |held| && m < |held| && a + SEPARATOR + held[k].alias == b + SEPARATOR + held[m].alias
  {
    var more := (b + SEPARATOR)[|a| + 2..];
    assert b + SEPARATOR == a + SEPARATOR + more;
    if more == "" {
      held, k, m := [Named("x")], 0, 0;
    } else {
      held, k, m := [Named(more + "x"), Named("x")], 0, 1;
      assert a + SEPARATOR + (more + "x") == a + SEPARATOR + more + "x";
    }
  }

  /** For which top-level steps, by their aliases alone, the inflated steps have
      pairwise distinct names whatever the tasks hold: those that are apart (and
      those that never inflate, for a reference of an unknown kind). */
  lemma {:induction false} AlwaysDistinctExactly(promoVars: seq<Variable>, steps: seq<Step>)
    ensures AlwaysDistinct(promoVars, steps) <==> Unambiguous(steps) || exists step <- steps :: !KnownKind(step)
  {
    if Unambiguous(steps) {
      forall tasks | AllInflate(tasks, promoVars, steps) && TasksDistinct(tasks, steps)
        ensures DistinctNames(Inflated(tasks, promoVars, steps))
      {
        UnambiguousNames(tasks, promoVars, steps);
      }
    } else if forall step <- steps :: KnownKind(step) {
      var i, j :| 0 <= i < j < |steps| && !Apart(steps[i], i, steps[j], j);
      Collision(promoVars, steps, i, j);
    } else {
      var step :| step in steps && !KnownKind(step);
      assert forall tasks :: !StepInflates(tasks, promoVars, step);
    }
  }

  /** In particular, distinct aliases free of colons are apart. */
  lemma {:induction false} InflatedAliasesDistinct(tasks: Tasks, promoVars: seq<Variable>, steps: seq<Step>)
    requires DistinctAliases(steps) && TasksDistinct(tasks, steps)
    requires forall i :: 0 <= i < |steps| ==> ':' !in Alias(steps[i], i)
    ensures DistinctNames(Inflated(tasks, promoVars, steps))
  {
    forall i, j | 0 <= i < j < |steps|
      ensures Apart(steps[i], i, steps[j], j)
    {
      ColonFreeApart(Alias(steps[i], i), Alias(steps[j], j));
      ColonFreeApart(Alias(steps[j], j), Alias(steps[i], i));
    }
    UnambiguousNames(tasks, promoVars, steps);
  }

  lemma {:induction false} ColonFreeApart(a: string, b: string)
    requires ':' !in a && ':' !in b && a != b
    ensures !(a + SEPARATOR <= b) && !(a + SEPARATOR <= b + SEPARATOR)
  {
    var s, t := a + SEPARATOR, b + SEPARATOR;
    assert s[|a|] == ':' && s[..|a|] == a && t[..|b|] == b;
    if |a| < |b| {
      assert t[|a|] == b[|a|] && b[|a|] in b;
    } else if |a| == |b| {
      assert t[..|a|] == b;
    }
  }

  /** A step named like a task's is the shortest such collision. */
  lemma {:induction false} ColonsCanCollide(ref: TaskReference, step: Step, taskAlias: string)
    requires ref.kind == "" && taskAlias != "" && step.alias != "" && step.task.None?
    ensures
      var tasks := Tasks(map[ref.name := TaskSpec([], [step])], map[]);
      var steps := [
        Step(taskAlias, Some(ref), [], ""),
        Step(TaskStepAlias(taskAlias, step.alias), None, [], "")];
      && DistinctAliases(steps)
      && |Inflated(tasks, [], steps)| == 2
      && Inflated(tasks, [], steps)[0].alias == Inflated(tasks, [], steps)[1].alias
  {
    var tasks := Tasks(map[ref.name := TaskSpec([], [step])], map[]);
    var first := Step(taskAlias, Some(ref), [], "");
    var second := Step(TaskStepAlias(taskAlias, step.alias), None, [], "");
    assert |TaskStepAlias(taskAlias, step.alias)| > |taskAlias|;
    assert [first, second][..1] == [first] && [first][..0] == [];
    assert Inflated(tasks, [], [first]) == Expansion(tasks, [], first, 0);
  }

  // ----- What the inflated steps' variables are worth

  /** A Promotion's variables are evaluated in turn, then the step's: the last of a
      name counts (pkg/promotion/evaluator.go). */
  function ValueOf(vars: seq<Variable>, name: string): Option<string>
  {
    if vars == [] then None
    else if vars[|vars| - 1].name == name then Some(vars[|vars| - 1].value)
    else ValueOf(vars[..|vars| - 1], name)
  }

  /** The last default of a name, empty ones being none. */
  function DefaultOf(taskVars: seq<Variable>, name: string): Option<string>
  {
    if taskVars == [] then None
    else if taskVars[|taskVars| - 1].name == name && taskVars[|taskVars| - 1].value != "" then
      Some(taskVars[|taskVars| - 1].value)
    else DefaultOf(taskVars[..|taskVars| - 1], name)
  }

  lemma {:induction false} ValueTogether(a: seq<Variable>, b: seq<Variable>, name: string)
    ensures ValueOf(a + b, name) == if ValueOf(b, name).Some? then ValueOf(b, name) else ValueOf(a, name)
    decreases |b|
  {
    if b == [] {
      assert a + b == a;
    } else {
      assert (a + b)[..|a + b| - 1] == a + b[..|b| - 1];
      ValueTogether(a, b[..|b| - 1], name);
    }
  }

  lemma {:induction false} ValueOfDefaults(taskVars: seq<Variable>, promoVars: seq<Variable>, name: string)
    ensures ValueOf(Defaults(taskVars, promoVars), name) ==
      if exists v <- promoVars :: v.name == name && v.value != "" then None else DefaultOf(taskVars, name)
  {
    if taskVars != [] {
      var init, last := taskVars[..|taskVars| - 1], taskVars[|taskVars| - 1];
      ValueOfDefaults(init, promoVars, name);
      var kept := if last.value != "" && !IsSet(promoVars, last.name) then [last] else [];
      ValueTogether(Defaults(init, promoVars), kept, name);
      assert kept != [] ==> kept[..0] == [];
    }
  }

  /** The value of a name for a step of a task: its own, or else that of the step
      that refers to the task, or else what the Promotion sets, or else the task's
      default. */
  lemma {:induction false} ValuesInOrder(
    taskVars: seq<Variable>, promoVars: seq<Variable>, refVars: seq<Variable>, ownVars: seq<Variable>, name: string)
    ensures ValueOf(promoVars + (Defaults(taskVars, promoVars) + refVars + ownVars), name) ==
      if ValueOf(ownVars, name).Some? then ValueOf(ownVars, name)
      else if ValueOf(refVars, name).Some? then ValueOf(refVars, name)
      else if exists v <- promoVars :: v.name == name && v.value != "" then ValueOf(promoVars, name)
      else if DefaultOf(taskVars, name).Some? then DefaultOf(taskVars, name)
      else ValueOf(promoVars, name)
  {
    var defaults := Defaults(taskVars, promoVars);
    ValueTogether(promoVars, defaults + refVars + ownVars, name);
    ValueTogether(defaults + refVars, ownVars, name);
    ValueTogether(defaults, refVars, name);
    ValueOfDefaults(taskVars, promoVars, name);
  }

  /** The k-th inflated step of a task sees its variables in that order, and bears
      the aliases of both steps. */
  lemma {:induction false} InflatedValues(
    tasks: Tasks, promoVars: seq<Variable>, step: Step, i: nat, k: nat, name: string)
    requires step.task.Some? && k < |Expansion(tasks, promoVars, step, i)|
    ensures GetTask(tasks, step.task.value).Success? && k < |Sources(tasks, step)|
    ensures
      var ownVars, taskVars := Sources(tasks, step)[k].vars, GetTask(tasks, step.task.value).value.vars;
      ValueOf(promoVars + Expansion(tasks, promoVars, step, i)[k].vars, name) ==
        if ValueOf(ownVars, name).Some? then ValueOf(ownVars, name)
        else if ValueOf(step.vars, name).Some? then ValueOf(step.vars, name)
        else if exists v <- promoVars :: v.name == name && v.value != "" then ValueOf(promoVars, name)
        else if DefaultOf(taskVars, name).Some? then DefaultOf(taskVars, name)
        else ValueOf(promoVars, name)
    ensures Expansion(tasks, promoVars, step, i)[k].alias == Alias(step, i) + "::" + Alias(Sources(tasks, step)[k], k)
  {
    ValuesInOrder(
      GetTask(tasks, step.task.value).value.vars, promoVars, step.vars, Sources(tasks, step)[k].vars, name);
  }

  /** A step inflates exactly if the task it refers to, if any, exists where its kind
      says and each variable it declares has a value: a default, or one on the
      Promotion or on the step. */
  lemma {:induction false} InflatesExactly(tasks: Tasks, promoVars: seq<Variable>, step: Step)
    ensures StepInflates(tasks, promoVars, step) <==>
      match step.task
      case None => true
      case Some(ref) =>
        var from := if ref.kind == "ClusterPromotionTask" then tasks.cluster else tasks.project;
        && ref.kind in {"ClusterPromotionTask", "PromotionTask", ""} && ref.name in from
        && forall v <- from[ref.name].vars ::
             || v.value != ""
             || (exists p <- promoVars :: p.name == v.name && p.value != "")
             || (exists r <- step.vars :: r.name == v.name && r.value != "")
  {
  }

  lemma {:induction false} SomeDefault(taskVars: seq<Variable>, name: string)
    requires exists v <- taskVars :: v.name == name && v.value != ""
    ensures DefaultOf(taskVars, name).Some? && DefaultOf(taskVars, name).value != ""
  {
    var init, last := taskVars[..|taskVars| - 1], taskVars[|taskVars| - 1];
    assert taskVars == init + [last];
    if last.name != name || last.value == "" {
      SomeDefault(init, name);
    }
  }

  lemma {:induction false} SomeValue(vars: seq<Variable>, name: string)
    requires exists v <- vars :: v.name == name
    ensures ValueOf(vars, name).Some?
  {
    var init, last := vars[..|vars| - 1], vars[|vars| - 1];
    assert vars == init + [last];
    if last.name != name {
      SomeValue(init, name);
    }
  }

  /** Yet a declared variable can come out empty after all, though its task demanded
      a value: exactly if the last entry of its name is empty, among the variables
      of the step that refers to the task or, if it has none there and one that is
      not empty on the Promotion, among the Promotion's. */
  lemma {:induction false} EmptyAfterAllExactly(
    taskVars: seq<Variable>, promoVars: seq<Variable>, refVars: seq<Variable>, v: Variable)
    requires VarsComplete(taskVars, promoVars, refVars) && v in taskVars
    ensures ValueOf(promoVars + (Defaults(taskVars, promoVars) + refVars + []), v.name).Some?
    ensures ValueOf(promoVars + (Defaults(taskVars, promoVars) + refVars + []), v.name) == Some("") <==>
      || ValueOf(refVars, v.name) == Some("")
      || (ValueOf(refVars, v.name).None? && IsSet(promoVars, v.name) && ValueOf(promoVars, v.name) == Some(""))
  {
    ValuesInOrder(taskVars, promoVars, refVars, [], v.name);
    if IsSet(promoVars, v.name) {
      SomeValue(promoVars, v.name);
    } else if ValueOf(refVars, v.name).None? {
      if v.value == "" {
        SomeValue(refVars, v.name);
      } else {
        SomeDefault(taskVars, v.name);
      }
    }
  }

  // ----- Default aliases

  /** The number that a text of digits denotes. */
  function Denotes(s: string): int
  {
    if s == "" then 0 else 10 * Denotes(s[..|s| - 1]) + (s[|s| - 1] as int - '0' as int)
  }

  lemma {:induction false} DecimalDenotes(n: nat)
    ensures Denotes(Decimal(n)) == n && forall c <- Decimal(n) :: '0' <= c <= '9'
    ensures n > 0 ==> Decimal(n)[0] != '0'
  {
    var last := [('0' as int + n % 10) as char];
    if n >= 10 {
      DecimalDenotes(n / 10);
      assert (Decimal(n / 10) + last)[..|Decimal(n)| - 1] == Decimal(n / 10);
    } else {
      assert Decimal(n) == last && last[..0] == "";
      assert Denotes(last) == 10 * Denotes("") + n;
    }
  }

  /** A step without an alias is named after its position, counted from one, and
      after whether it refers to a task. */
  lemma {:induction false} AliasMeans(step: Step, i: nat)
    ensures step.alias != "" ==> Alias(step, i) == step.alias
    ensures step.alias == "" ==>
      var name := Alias(step, i);
      && |name| > 5 && name[..5] == (if step.task.Some? then "task-" else "step-")
      && name[5] != '0' && (forall c <- name[5..] :: '0' <= c <= '9') && Denotes(name[5..]) == i + 1
  {
    DecimalDenotes(i + 1);
    var prefix := if step.task.Some? then "task-" else "step-";
    assert step.alias == "" ==> Alias(step, i) == prefix + Decimal(i + 1);
  }

  /** So steps without aliases never share a name. */
  lemma {:induction false} DefaultAliasesDiffer(x: Step, i: nat, y: Step, j: nat)
    requires x.alias == "" == y.alias && i != j
    ensures Alias(x, i) != Alias(y, j)
  {
    AliasMeans(x, i);
    AliasMeans(y, j);
  }
}
