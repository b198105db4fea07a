/** The action that clones the repository's existing wiki into the old-docs
    directory and puts it on the branch of the current build: on the
    branch when the remote has it, on a new branch of that name otherwise. */
module CloneWiki {
  import opened Wrappers
  import opened Host
  import opened Inputs
  import opened Paths
  import Helpers

  /** What the action reads from the build's git information. */
  datatype GitInfo = GitInfo(currentRepositoryName: string, branchOrTagName: string)

  /** How the `git show-branch` probe went under `spawnSync`: the process
      started and exited with `status`, or it could not be started at all,
      in which case the result carries no output and reading it throws. */
  datatype ProbeOutcome = Exited(status: int) | SpawnFailed

  const Description := "Cloning old wiki..."

  /** `getDescription()`. */
  function GetDescription(): (d: Option<string>)
    ensures d.Some? && d.value != ""
  {
    Some(Description)
  }

  /** `shouldRun()`: the action runs whatever the generator and the build. */
  predicate ShouldRun() {
    true
  }

  /** `getOldDocsPath()`: the temporary docs folder with `.old` appended, so
      the old-docs directory sits beside that folder and never coincides
      with it. */
  function GetOldDocsPath(env: Environment): (dir: string)
    ensures |dir| == |GetInput(env, "temp_docs_folder")| + 4
    ensures dir[..|dir| - 4] == GetInput(env, "temp_docs_folder") && dir[|dir| - 4..] == ".old"
  {
    GetInput(env, "temp_docs_folder") + ".old"
  }

  /** The message of the error thrown when the old-docs directory exists. */
  function AlreadyExists(dir: string): string {
    dir + " already exists but shouldn't"
  }

  /** The wiki's clone URL, with the update user and token as credentials. */
  function WikiUrl(env: Environment, gitInfo: GitInfo): string {
    "https://" + GetInput(env, "wiki_github_update_user") + ":" + GetInput(env, "wiki_github_update_token")
      + "@github.com/" + gitInfo.currentRepositoryName + ".wiki.git"
  }

  function Git(args: seq<string>, cwd: string): Command {
    Run("git", args, cwd)
  }

  /** `git clone <url> <basename(dir)>`, run in `dirname(dir)`. */
  function CloneInto(url: string, dir: string): Command {
    Git(["clone", url, Basename(dir)], Dirname(dir))
  }

  /** Turns off automatic garbage collection in the clone. */
  function DisableGc(dir: string): Command {
    Git(["config", "--local", "gc.auto", "0"], dir)
  }

  /** Lists the remote branches (for the log only). */
  function ListRemoteBranches(dir: string): Command {
    Git(["branch", "-r"], dir)
  }

  /** The probe `branchExist` spawns. */
  function ShowBranch(branch: string, dir: string): Command {
    Git(["show-branch", "origin/" + branch], dir)
  }

  function Checkout(branch: string, dir: string): Command {
    Git(["checkout", branch], dir)
  }

  function Pull(dir: string): Command {
    Git(["pull"], dir)
  }

  function CheckoutNew(branch: string, dir: string): Command {
    Git(["checkout", "-b", branch], dir)
  }

  /** The commands of a run of `exec` that gets past the existence check, in
      the order they are spawned, for the clone URL `url`, the old-docs
      directory `dir` and the build's `branch`, when the branch probe
      answered `onRemote`. */
  function CloneCommands(url: string, dir: string, branch: string, onRemote: bool): (cs: seq<Command>)
    ensures |cs| == if onRemote then 6 else 5
    ensures cs[0] == CloneInto(url, dir)
    ensures forall i :: 1 <= i < |cs| ==> cs[i].Run? && cs[i].program == "git" && cs[i].cwd == dir
    ensures cs[1] == DisableGc(dir) && cs[2] == ListRemoteBranches(dir) && cs[3] == ShowBranch(branch, dir)
    ensures onRemote ==> cs[4] == Checkout(branch, dir) && cs[5] == Pull(dir)
    ensures !onRemote ==> cs[4] == CheckoutNew(branch, dir)
  {
    var prepare := [CloneInto(url, dir), DisableGc(dir), ListRemoteBranches(dir), ShowBranch(branch, dir)];
    var switch := if onRemote then [Checkout(branch, dir), Pull(dir)] else [CheckoutNew(branch, dir)];
    prepare + switch
  }

  /** `branchExist(branch, dir)`: spawns the probe and reports whether it
      did not throw. Reading the output of a process that exited, with any
      status, does not throw, so only a probe that could not be started
      counts as a missing branch. */
  method BranchExist(ws: Workspace, branch: string, dir: string, probe: ProbeOutcome) returns (found: bool)
    modifies ws
    ensures found <==> probe.Exited?
    ensures ws.commands == old(ws.commands) + [ShowBranch(branch, dir)]
    ensures ws.dirs == old(ws.dirs) && ws.files == old(ws.files)
  {
    ws.Spawn(ShowBranch(branch, dir));
    match probe
    case Exited(_) => found := true;
    case SpawnFailed => found := false;
  }

  /** `exec(generator, gitInfo)`: refuses to run when the old-docs
      directory already exists, and otherwise creates it, clones the wiki
      into it and switches to the build's branch. */
  method Exec(ws: Workspace, env: Environment, gitInfo: GitInfo, probe: ProbeOutcome) returns (outcome: Outcome)
    modifies ws
    ensures var dir := GetOldDocsPath(env);
      old(ws.Exists(dir)) ==>
        && outcome == Fail(Error(AlreadyExists(dir)))
        && ws.dirs == old(ws.dirs) && ws.files == old(ws.files) && ws.commands == old(ws.commands)
    ensures var dir := GetOldDocsPath(env);
      !old(ws.Exists(dir)) ==>
        && outcome == Pass
        && ws.dirs == old(ws.dirs) + {dir} && ws.files == old(ws.files)
        && ws.commands == old(ws.commands) + CloneCommands(WikiUrl(env, gitInfo), dir, gitInfo.branchOrTagName, probe.Exited?)
  {
    var oldDocsDir := GetOldDocsPath(env);
    if ws.Exists(oldDocsDir) {
      return Fail(Error(AlreadyExists(oldDocsDir)));
    }
    ws.Mkdir(oldDocsDir);
    CloneAndSwitch(ws, WikiUrl(env, gitInfo), oldDocsDir, gitInfo.branchOrTagName, probe);
    outcome := Pass;
  }

  /** The commands `exec` spawns once the old-docs directory `dir` exists. */
  method CloneAndSwitch(ws: Workspace, url: string, dir: string, branch: string, probe: ProbeOutcome)
    modifies ws
    ensures ws.commands == old(ws.commands) + CloneCommands(url, dir, branch, probe.Exited?)
    ensures ws.dirs == old(ws.dirs) && ws.files == old(ws.files)
  {
    ghost var before := ws.commands;
    ws.Spawn(CloneInto(url, dir));
    ws.Spawn(DisableGc(dir));
    ws.Spawn(ListRemoteBranches(dir));
    var found := BranchExist(ws, branch, dir, probe);
    ghost var prepare := [CloneInto(url, dir), DisableGc(dir), ListRemoteBranches(dir), ShowBranch(branch, dir)];
    assert ws.commands == before + prepare;
    if found {
      ws.Spawn(Checkout(branch, dir));
      ws.Spawn(Pull(dir));
    } else {
      ws.Spawn(CheckoutNew(branch, dir));
    }
  }

  /** As written, only whether the probe started decides the branch: when
      it started, the branch is checked out and pulled; only when it could
      not be started is a new branch created, which is then never pulled. */
  lemma CheckoutFollowsProbe(url: string, dir: string, branch: string, probe: ProbeOutcome)
    ensures var cs := CloneCommands(url, dir, branch, probe.Exited?);
      && (Pull(dir) in cs <==> probe.Exited?)
      && (Checkout(branch, dir) in cs <==> probe.Exited?)
      && (CheckoutNew(branch, dir) in cs <==> probe.SpawnFailed?)
  {
    SwitchFollowsAnswer(url, dir, branch, probe.Exited?);
  }

  /** The switch after the probe: checkout and pull when the branch was
      reported on the remote, `checkout -b` otherwise, never both. */
  lemma SwitchFollowsAnswer(url: string, dir: string, branch: string, onRemote: bool)
    ensures var cs := CloneCommands(url, dir, branch, onRemote);
      && (Pull(dir) in cs <==> onRemote)
      && (Checkout(branch, dir) in cs <==> onRemote)
      && (CheckoutNew(branch, dir) in cs <==> !onRemote)
  {
    var prepare := [CloneInto(url, dir), DisableGc(dir), ListRemoteBranches(dir), ShowBranch(branch, dir)];
    PrepareNeverSwitches(url, dir, branch);
    if onRemote {
      assert CloneCommands(url, dir, branch, onRemote) == prepare + [Checkout(branch, dir), Pull(dir)];
    } else {
      assert CloneCommands(url, dir, branch, onRemote) == prepare + [CheckoutNew(branch, dir)];
    }
  }

  /** `git show-branch` exits with status 128 for a branch the remote does
      not have. As written, `branchExist` still answers true, so `exec`
      checks out and pulls a branch that does not exist and never creates
      it. */
  lemma MissingBranchIsCheckedOut(url: string, dir: string, branch: string)
    ensures var cs := CloneCommands(url, dir, branch, Exited(128).Exited?);
      && Checkout(branch, dir) in cs && Pull(dir) in cs && CheckoutNew(branch, dir) !in cs
  {
    CheckoutFollowsProbe(url, dir, branch, Exited(128));
  }

  /** The probe as the comment of `branchExist` describes it ("Checks if
      branch exist"): the branch is on the remote exactly when `git
      show-branch` ran and exited with status 0. */
  method BranchOnRemote(ws: Workspace, branch: string, dir: string, probe: ProbeOutcome) returns (found: bool)
    modifies ws
    ensures found <==> probe == Exited(0)
    ensures ws.commands == old(ws.commands) + [ShowBranch(branch, dir)]
    ensures ws.dirs == old(ws.dirs) && ws.files == old(ws.files)
  {
    ws.Spawn(ShowBranch(branch, dir));
    found := probe == Exited(0);
  }

  /** With the intended probe the branch follows the exit status: checkout
      and pull exactly when the probe exited with 0, and a new branch for
      every other status and when the probe could not be started. */
  lemma CheckoutFollowsRemote(url: string, dir: string, branch: string, probe: ProbeOutcome)
    ensures var cs := CloneCommands(url, dir, branch, probe == Exited(0));
      && (Pull(dir) in cs <==> probe == Exited(0))
      && (Checkout(branch, dir) in cs <==> probe == Exited(0))
      && (CheckoutNew(branch, dir) in cs <==> probe != Exited(0))
  {
    SwitchFollowsAnswer(url, dir, branch, probe == Exited(0));
  }

  /** None of the commands before the probe's verdict checks out or pulls. */
  lemma PrepareNeverSwitches(url: string, dir: string, branch: string)
    ensures var prepare := [CloneInto(url, dir), DisableGc(dir), ListRemoteBranches(dir), ShowBranch(branch, dir)];
      && Checkout(branch, dir) !in prepare && Pull(dir) !in prepare && CheckoutNew(branch, dir) !in prepare
  {
    assert "clone" != "checkout";
    assert "config" != "pull";
  }

  /** The clone lands in the old-docs directory `folder + ".old"` itself
      (`folder` being the temporary docs folder): run in `dirname` of it
      into `basename` of it, it creates that directory, either in the
      current directory when the path has no slash or at the literal join
      of the two. */
  lemma CloneTargetIsOldDocsDir(folder: string)
    ensures var dir := folder + ".old";
      && (LastSlashIn(dir, 0, |dir|).None? ==> Dirname(dir) == "." && Basename(dir) == dir)
      && (var r := LastSlashIn(dir, 0, |dir|);
          r.Some? && r.value >= 1 && dir[r.value - 1] != '/' ==> Dirname(dir) + "/" + Basename(dir) == dir)
  {
    var dir := folder + ".old";
    assert dir[|dir| - 1] == 'd';
    DirnameBasename(dir);
  }

  /** The action as the orchestrator sees it, given how its `exec` ends. */
  function AsAction(outcome: Outcome): (a: Helpers.Action)
    ensures a.shouldRun && a.description == Some(Description)
    ensures a.execError.None? <==> outcome == Pass
  {
    Helpers.Action(ShouldRun(), GetDescription(), if outcome.Fail? then Some(outcome.error) else None)
  }

  /** In a run of the orchestrator where this action sits at position `i`
      and no earlier action threw, "Cloning old wiki..." is logged and the
      action's `exec` is called right after it. */
  lemma LoggedBeforeCloning(actions: seq<Helpers.Action>, i: nat, outcome: Outcome)
    requires i < |actions| && actions[i] == AsAction(outcome)
    requires Helpers.NoFailureBetween(actions, 0, i)
    ensures var t := Helpers.Run(actions, 0).trace;
      exists p :: 1 <= p < |t| && t[p - 1] == Helpers.Info(Description) && t[p] == Helpers.Exec(i)
  {
    Helpers.ExecIffShouldRun(actions, 0, i);
    Helpers.RunTraceShape(actions, 0);
    var t := Helpers.Run(actions, 0).trace;
    var p :| 0 <= p < |t| && t[p] == Helpers.Exec(i);
    assert t[p].Exec? && t[p].index < |actions| && actions[t[p].index].description.Some?;
    assert t[p - 1] == Helpers.Info(Description);
  }
}
