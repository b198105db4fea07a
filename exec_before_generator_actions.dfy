/** The action that runs the generator's before-steps: it applies exactly
    when the generator has any, logs nothing of its own, and runs them in
    order, an exception of one step ending the run. */
module ExecBeforeGeneratorActions {
  import opened Wrappers
  import opened Host
  import opened Inputs
  import Steps
  import Helpers
  import CleanPhpdocMd

  /** `getDescription()`: no description, so the orchestrator logs nothing
      before this action. */
  function GetDescription(): (d: Option<string>)
    ensures d.None?
  {
    None
  }

  /** `shouldRun(generator, info)`, given the generator's before-steps. */
  predicate ShouldRun(before: seq<Steps.StepDefinition>) {
    |before| > 0
  }

  /** `exec(generator, info)`, given the generator's before-steps and, as
      `perform`, how running one step ends: the steps run in order, and the
      first that throws ends the run with its exception. `started` lists the
      steps whose `exec` was called, in the order of the calls. */
  method Exec(before: seq<Steps.StepDefinition>, perform: Steps.StepDefinition -> Outcome)
    returns (started: seq<Steps.StepDefinition>, outcome: Outcome)
    ensures |started| <= |before| && started == before[..|started|]
    ensures forall j :: 0 <= j < |started| - 1 ==> perform(started[j]) == Pass
    ensures outcome == Pass <==> started == before && forall j :: 0 <= j < |before| ==> perform(before[j]) == Pass
    ensures outcome.Fail? ==> 0 < |started| && outcome == perform(started[|started| - 1])
  {
    started := [];
    while |started| < |before|
      invariant |started| <= |before| && started == before[..|started|]
      invariant forall j :: 0 <= j < |started| ==> perform(started[j]) == Pass
    {
      var step := before[|started|];
      started := started + [step];
      var result := perform(step);
      if result.Fail? {
        return started, result;
      }
    }
    outcome := Pass;
  }

  /** With this generator the action always applies: the generator hands
      over exactly one before-step, generating the phpdoc-md configuration. */
  lemma AlwaysRunsForCleanPhpdocMd(env: Environment, processCwd: string, eol: string)
    requires ValidEol(eol)
    ensures ShouldRun(CleanPhpdocMd.GetBeforeActions(env, processCwd, eol))
  {
    var before := CleanPhpdocMd.GetBeforeActions(env, processCwd, eol);
    assert |before| == 1;
  }

  /** The action as the orchestrator sees it, given its before-steps and how
      its `exec` ends. */
  function AsAction(before: seq<Steps.StepDefinition>, outcome: Outcome): (a: Helpers.Action)
    ensures a.shouldRun <==> |before| > 0
    ensures a.description.None?
    ensures a.execError.None? <==> outcome == Pass
  {
    Helpers.Action(ShouldRun(before), GetDescription(), if outcome.Fail? then Some(outcome.error) else None)
  }

  /** In any run of the orchestrator, the `exec` call of this action, at
      position `i`, is never preceded by a logged line of its own: whatever
      comes before it is another action's call or nothing. */
  lemma NothingLoggedBefore(actions: seq<Helpers.Action>, i: nat, before: seq<Steps.StepDefinition>, outcome: Outcome)
    requires i < |actions| && actions[i] == AsAction(before, outcome)
    ensures var t := Helpers.Run(actions, 0).trace;
      forall p :: 1 <= p < |t| && t[p] == Helpers.Exec(i) ==> !t[p - 1].Info?
  {
    Helpers.RunTraceShape(actions, 0);
  }
}
