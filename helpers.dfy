/** The orchestrator: validation of the selected generator, the read-once
    cache of the package manifest, loading the configured actions in
    manifest order, and the loop that runs each applicable action. */
module Helpers {
  import opened Wrappers

  const ValidationMessage := "Not all required arguments defined for selected engine"

  /** `validateGenerator(generator)`, given what the generator's
      `checkIfAllInputOptionsDefined()` returned: throws a `TypeError` exactly
      when not every required input is defined. */
  function ValidateGenerator(inputsDefined: bool): (r: Outcome)
    ensures r == Pass <==> inputsDefined
    ensures r.Fail? ==> r.error == TypeError(ValidationMessage)
  {
    if !inputsDefined then Fail(TypeError(ValidationMessage)) else Pass
  }

  /** The part of `package.json` the pipeline reads: the action names. */
  datatype Manifest = Manifest(actions: seq<string>)

  /** The module-level `jsonContent` cache behind `readPackageJSON`. The
      ghost counter `fileReads` counts reads of the file. */
  class ManifestCache {
    var jsonContent: Option<Manifest>
    ghost var fileReads: nat

    ghost predicate Valid()
      reads this
    {
      fileReads == if jsonContent.Some? then 1 else 0
    }

    constructor ()
      ensures Valid() && jsonContent == None
    {
      jsonContent := None;
      fileReads := 0;
    }

    /** `readPackageJSON()`, where `onDisk` is what the file holds now: the
        file is read only while nothing is cached, so it is read at most once,
        and every call returns the cached value. */
    method ReadPackageJSON(onDisk: Manifest) returns (m: Manifest)
      requires Valid()
      modifies this
      ensures Valid() && fileReads <= 1
      ensures jsonContent == Some(m)
      ensures old(jsonContent).Some? ==> m == old(jsonContent).value && fileReads == old(fileReads)
      ensures old(jsonContent).None? ==> m == onDisk && fileReads == old(fileReads) + 1
    {
      if jsonContent.None? {
        jsonContent := Some(onDisk);
        fileReads := fileReads + 1;
      }
      m := jsonContent.value;
    }
  }

  /** Two calls of `readPackageJSON` return the same manifest, even when the
      file changed in between. */
  method ReadPackageJSONTwice(cache: ManifestCache, first: Manifest, second: Manifest) returns (a: Manifest, b: Manifest)
    requires cache.Valid()
    modifies cache
    ensures a == b && cache.fileReads <= 1
  {
    a := cache.ReadPackageJSON(first);
    b := cache.ReadPackageJSON(second);
  }

  /** A resolved action, reduced to what the orchestrator sees of it: what
      `shouldRun(generator, gitInfo)` and `getDescription()` return, and
      whether `exec(generator, gitInfo)` throws. */
  datatype Action = Action(shouldRun: bool, description: Option<string>, execError: Option<Exception>)

  /** `loadAction(name)`: the action the module of that name provides. */
  type Loader = string -> Action

  /** One instance per name, in the names' order. */
  function Instances(names: seq<string>, load: Loader): seq<Action> {
    seq(|names|, i requires 0 <= i < |names| => load(names[i]))
  }

  /** The manifest `readPackageJSON` returns for a cache in the given state. */
  function CachedOr(jsonContent: Option<Manifest>, onDisk: Manifest): Manifest {
    if jsonContent.Some? then jsonContent.value else onDisk
  }

  /** `getAllActionsInstances()`: one loaded action per manifest name, in
      manifest order. */
  method GetAllActionsInstances(cache: ManifestCache, onDisk: Manifest, load: Loader) returns (actions: seq<Action>)
    requires cache.Valid()
    modifies cache
    ensures cache.Valid() && cache.fileReads <= 1
    ensures cache.jsonContent == Some(CachedOr(old(cache.jsonContent), onDisk))
    ensures actions == Instances(CachedOr(old(cache.jsonContent), onDisk).actions, load)
  {
    var manifest := cache.ReadPackageJSON(onDisk);
    var names := manifest.actions;
    actions := [];
    for i := 0 to |names|
      invariant |actions| == i
      invariant forall k :: 0 <= k < i ==> actions[k] == load(names[k])
    {
      actions := actions + [load(names[i])];
    }
  }

  /** What the orchestrator does, in order: log a line, or call an action's
      `exec` (the action's position in the configured list). */
  datatype Event = Info(text: string) | Exec(index: nat)

  datatype RunResult = RunResult(trace: seq<Event>, outcome: Outcome)

  /** The events one running action leaves in the trace: its description,
      when it has one, and then its `exec` call. */
  function Announced(a: Action, k: nat): (here: seq<Event>)
    ensures 1 <= |here| <= 2 && here[|here| - 1] == Exec(k)
    ensures |here| == 2 <==> a.description.Some?
    ensures |here| == 2 ==> here[0] == Info(a.description.value)
  {
    (if a.description.Some? then [Info(a.description.value)] else []) + [Exec(k)]
  }

  /** The action loop of `execGenerator` from position `k` on: skip an action
      whose `shouldRun` is false; otherwise log its description when it has
      one, call `exec`, and stop there if `exec` throws. */
  function Run(actions: seq<Action>, k: nat): RunResult
    requires k <= |actions|
    decreases |actions| - k
  {
    if k == |actions| then RunResult([], Pass)
    else
      var a := actions[k];
      if !a.shouldRun then Run(actions, k + 1)
      else
        var here := Announced(a, k);
        if a.execError.Some? then RunResult(here, Fail(a.execError.value))
        else
          var rest := Run(actions, k + 1);
          RunResult(here + rest.trace, rest.outcome)
  }

  /** The `for` loop of `execGenerator`. */
  method RunActions(actions: seq<Action>) returns (trace: seq<Event>, outcome: Outcome)
    ensures RunResult(trace, outcome) == Run(actions, 0)
  {
    trace := [];
    var i := 0;
    while i < |actions|
      invariant 0 <= i <= |actions|
      invariant Run(actions, 0) == RunResult(trace + Run(actions, i).trace, Run(actions, i).outcome)
    {
      var action := actions[i];
      if !action.shouldRun {
        i := i + 1;
        continue;
      }
      var here := [];
      if action.description.Some? {
        here := [Info(action.description.value)];
      }
      here := here + [Exec(i)];
      if action.execError.Some? {
        assert Run(actions, i) == RunResult(here, Fail(action.execError.value));
        return trace + here, Fail(action.execError.value);
      }
      assert Run(actions, i).trace == here + Run(actions, i + 1).trace;
      trace := trace + here;
      i := i + 1;
    }
    outcome := Pass;
  }

  /** `execGenerator`, with the generator already resolved (`inputsDefined`
      is its `checkIfAllInputOptionsDefined()`), `onDisk` the manifest file
      and `load` the action modules. Validation comes first: when it fails
      nothing is logged or executed and the manifest is not read. */
  method ExecGenerator(inputsDefined: bool, cache: ManifestCache, onDisk: Manifest, load: Loader)
    returns (trace: seq<Event>, outcome: Outcome)
    requires cache.Valid()
    modifies cache
    ensures cache.Valid() && cache.fileReads <= 1
    ensures !inputsDefined ==>
      trace == [] && outcome == Fail(TypeError(ValidationMessage)) && unchanged(cache)
    ensures inputsDefined ==> cache.jsonContent == Some(CachedOr(old(cache.jsonContent), onDisk))
    ensures inputsDefined ==>
      RunResult(trace, outcome) == Run(Instances(CachedOr(old(cache.jsonContent), onDisk).actions, load), 0)
  {
    var validation := ValidateGenerator(inputsDefined);
    if validation.Fail? {
      return [], validation;
    }
    var actions := GetAllActionsInstances(cache, onDisk, load);
    trace, outcome := RunActions(actions);
  }

  /** No action from `k` up to (not including) `i` runs and throws. */
  ghost predicate NoFailureBetween(actions: seq<Action>, k: nat, i: nat)
    requires k <= i <= |actions|
  {
    forall j :: k <= j < i ==> !(actions[j].shouldRun && actions[j].execError.Some?)
  }

  /** An action's `exec` is called exactly when its `shouldRun` is true and no
      earlier action's `exec` threw. */
  lemma {:induction false} ExecIffShouldRun(actions: seq<Action>, k: nat, i: nat)
    requires k <= i < |actions|
    ensures Exec(i) in Run(actions, k).trace <==> actions[i].shouldRun && NoFailureBetween(actions, k, i)
    decreases |actions| - k
  {
    RunTraceShape(actions, k);
    var a := actions[k];
    if k == i {
    } else if !a.shouldRun {
      ExecIffShouldRun(actions, k + 1, i);
    } else {
      var here := Announced(a, k);
      assert Exec(i) !in here;
      if a.execError.None? {
        ExecIffShouldRun(actions, k + 1, i);
        var rest := Run(actions, k + 1).trace;
        assert Exec(i) in here + rest <==> Exec(i) in rest;
      }
    }
  }

  /** The shape of a trace of the loop run from position `k`: every `exec`
      call is of an action at `k` or later that should run, the calls follow
      the configured order, a logged line is the description of the action
      whose `exec` comes right after it, and an action with a description is
      always logged right before its `exec`. */
  ghost predicate WellShaped(actions: seq<Action>, k: nat, t: seq<Event>) {
    && (forall p :: 0 <= p < |t| && t[p].Exec? ==> k <= t[p].index < |actions| && actions[t[p].index].shouldRun)
    && (forall p, q :: 0 <= p < q < |t| && t[p].Exec? && t[q].Exec? ==> t[p].index < t[q].index)
    && (forall p :: 0 <= p < |t| && t[p].Info? ==>
          p + 1 < |t| && t[p + 1].Exec? && t[p + 1].index < |actions|
          && actions[t[p + 1].index].description == Some(t[p].text))
    && (forall p :: 0 <= p < |t| && t[p].Exec? && t[p].index < |actions| && actions[t[p].index].description.Some? ==>
          p > 0 && t[p - 1] == Info(actions[t[p].index].description.value))
  }

  /** Every trace of the loop is well shaped. */
  lemma {:induction false} RunTraceShape(actions: seq<Action>, k: nat)
    requires k <= |actions|
    ensures WellShaped(actions, k, Run(actions, k).trace)
    decreases |actions| - k
  {
    if k < |actions| {
      RunTraceShape(actions, k + 1);
      var a := actions[k];
      var rest := Run(actions, k + 1).trace;
      if !a.shouldRun {
        assert Run(actions, k).trace == rest;
        ShapeFromLater(actions, k, rest);
      } else if a.execError.Some? {
        assert Run(actions, k).trace == Announced(a, k);
        ShapeExtend(actions, k, []);
        assert Announced(a, k) + [] == Announced(a, k);
      } else {
        assert Run(actions, k).trace == Announced(a, k) + rest;
        ShapeExtend(actions, k, rest);
      }
    }
  }

  /** A trace well shaped from `k + 1` on is well shaped from `k` on. */
  lemma ShapeFromLater(actions: seq<Action>, k: nat, t: seq<Event>)
    requires WellShaped(actions, k + 1, t)
    ensures WellShaped(actions, k, t)
  {
  }

  /** Putting the events of a running action in front of a well-shaped trace
      of the later actions keeps it well shaped. */
  lemma ShapeExtend(actions: seq<Action>, k: nat, rest: seq<Event>)
    requires k < |actions| && actions[k].shouldRun
    requires WellShaped(actions, k + 1, rest)
    ensures WellShaped(actions, k, Announced(actions[k], k) + rest)
  {
    var here := Announced(actions[k], k);
    ShapeExtendBounds(actions, k, here, rest);
    ShapeExtendOrder(actions, k, here, rest);
    ShapeExtendInfo(actions, k, here, rest);
    ShapeExtendDescription(actions, k, here, rest);
  }

  lemma ShapeExtendBounds(actions: seq<Action>, k: nat, here: seq<Event>, rest: seq<Event>)
    requires k < |actions| && actions[k].shouldRun && here == Announced(actions[k], k)
    requires forall p :: 0 <= p < |rest| && rest[p].Exec? ==> k + 1 <= rest[p].index < |actions| && actions[rest[p].index].shouldRun
    ensures var t := here + rest;
      forall p :: 0 <= p < |t| && t[p].Exec? ==> k <= t[p].index < |actions| && actions[t[p].index].shouldRun
  {
    var t := here + rest;
    var h := |here|;
    forall p | 0 <= p < |t| && t[p].Exec?
      ensures k <= t[p].index < |actions| && actions[t[p].index].shouldRun
    {
      if p < h {
        assert t[p] == here[p] && p == h - 1;
      } else {
        assert t[p] == rest[p - h];
      }
    }
  }

  lemma ShapeExtendOrder(actions: seq<Action>, k: nat, here: seq<Event>, rest: seq<Event>)
    requires k < |actions| && here == Announced(actions[k], k)
    requires forall p :: 0 <= p < |rest| && rest[p].Exec? ==> k + 1 <= rest[p].index
    requires forall p, q :: 0 <= p < q < |rest| && rest[p].Exec? && rest[q].Exec? ==> rest[p].index < rest[q].index
    ensures var t := here + rest;
      forall p, q :: 0 <= p < q < |t| && t[p].Exec? && t[q].Exec? ==> t[p].index < t[q].index
  {
    var t := here + rest;
    var h := |here|;
    forall p, q | 0 <= p < q < |t| && t[p].Exec? && t[q].Exec?
      ensures t[p].index < t[q].index
    {
      if q < h {
        assert false;
      } else if p < h {
        assert t[p] == here[p] && p == h - 1;
        assert t[q] == rest[q - h];
      } else {
        assert t[p] == rest[p - h] && t[q] == rest[q - h];
      }
    }
  }

  lemma ShapeExtendInfo(actions: seq<Action>, k: nat, here: seq<Event>, rest: seq<Event>)
    requires k < |actions| && here == Announced(actions[k], k)
    requires forall p :: 0 <= p < |rest| && rest[p].Info? ==>
          p + 1 < |rest| && rest[p + 1].Exec? && rest[p + 1].index < |actions|
          && actions[rest[p + 1].index].description == Some(rest[p].text)
    ensures var t := here + rest;
      forall p :: 0 <= p < |t| && t[p].Info? ==>
          p + 1 < |t| && t[p + 1].Exec? && t[p + 1].index < |actions|
          && actions[t[p + 1].index].description == Some(t[p].text)
  {
    var t := here + rest;
    var h := |here|;
    forall p | 0 <= p < |t| && t[p].Info?
      ensures p + 1 < |t| && t[p + 1].Exec? && t[p + 1].index < |actions|
              && actions[t[p + 1].index].description == Some(t[p].text)
    {
      if p >= h {
        assert t[p] == rest[p - h];
        assert t[p + 1] == rest[p + 1 - h];
      } else {
        assert t[p] == here[p];
        assert p == 0 && h == 2 && t[1] == here[1];
      }
    }
  }

  lemma ShapeExtendDescription(actions: seq<Action>, k: nat, here: seq<Event>, rest: seq<Event>)
    requires k < |actions| && here == Announced(actions[k], k)
    requires forall p :: 0 <= p < |rest| && rest[p].Exec? ==> k + 1 <= rest[p].index
    requires forall p :: 0 <= p < |rest| && rest[p].Exec? && rest[p].index < |actions| && actions[rest[p].index].description.Some? ==>
          p > 0 && rest[p - 1] == Info(actions[rest[p].index].description.value)
    ensures var t := here + rest;
      forall p :: 0 <= p < |t| && t[p].Exec? && t[p].index < |actions| && actions[t[p].index].description.Some? ==>
          p > 0 && t[p - 1] == Info(actions[t[p].index].description.value)
  {
    var t := here + rest;
    var h := |here|;
    forall p | 0 <= p < |t| && t[p].Exec? && t[p].index < |actions| && actions[t[p].index].description.Some?
      ensures p > 0 && t[p - 1] == Info(actions[t[p].index].description.value)
    {
      if p >= h {
        assert t[p] == rest[p - h];
        assert p != h;
        assert t[p - 1] == rest[p - 1 - h];
      } else {
        assert t[p] == here[p] && p == h - 1;
        assert t[p - 1] == here[p - 1];
      }
    }
  }

  /** The loop ends normally exactly when no action that should run throws;
      otherwise the last event is the `exec` call that threw, and its
      exception is the outcome. */
  lemma {:induction false} RunOutcome(actions: seq<Action>, k: nat)
    requires k <= |actions|
    ensures var r := Run(actions, k);
      && (r.outcome == Pass <==> NoFailureBetween(actions, k, |actions|))
      && (r.outcome.Fail? ==>
            |r.trace| > 0 && r.trace[|r.trace| - 1].Exec?
            && r.trace[|r.trace| - 1].index < |actions|
            && actions[r.trace[|r.trace| - 1].index].execError == Some(r.outcome.error))
    decreases |actions| - k
  {
    if k < |actions| {
      RunOutcome(actions, k + 1);
      var a := actions[k];
      if a.shouldRun && a.execError.None? {
        var here := (if a.description.Some? then [Info(a.description.value)] else []) + [Exec(k)];
        var rest := Run(actions, k + 1).trace;
        assert |rest| > 0 ==> (here + rest)[|here + rest| - 1] == rest[|rest| - 1];
      }
    }
  }
}
