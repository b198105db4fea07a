# phpdocs-wiki-update-action: a Dafny model of its core

The action regenerates a GitHub wiki from PHP doc comments. An
orchestrator validates the selected documentation generator, reads the
ordered action list from the package manifest (once, then from a cache),
and runs every action whose `shouldRun` holds, logging its description
first. This model covers:

- the orchestrator (`src/helpers.ts`): `validateGenerator`, the
  read-once `readPackageJSON` cache, `getAllActionsInstances` and the
  action loop of `execGenerator`;
- the `clean/phpdoc-md` generator (`src/generators/clean-phpdoc-md.ts`):
  - its package requirements and the check of its inputs;
  - the before-step, which captures the include rules parsed from the
    `include` input;
  - the after-step, which renames `README.md` to `HOME.md`;
  - `generateConfig`. It normalises the include rules and splits off the
    `!` exclude patterns, then filters the installed class map through
    them. It throws when no class is left, and otherwise writes the
    `.phpdoc-md` PHP config with every string rendered by `JSON.stringify`;
- the clone-wiki action (`src/actions/clone-wiki.ts`):
  - it refuses to run when the old-docs directory exists;
  - otherwise it creates the directory, clones the wiki, disables gc and
    lists the remote branches;
  - it then checks out and pulls the build's branch, or creates that
    branch;
- the exec-before-generator-actions action
  (`build/actions/exec-before-generator-actions.js`): it has no
  description, applies exactly when the generator has before-steps, and
  runs those steps in order.

Layout:

- `wrappers.dfy`: `Option`, the thrown exceptions, and call outcomes.
- `strings.dfy`: the JavaScript string operations used (`trim`, global
  `replace`, `split`, `join`) and the sub-list relation that `filter`
  produces.
- `json_string.dfy`: `JSON.stringify` of a string, and a reader for it.
- `paths.dfy`: POSIX `basename` and `dirname`.
- `inputs.dfy`: `getInput`.
- `host.dfy`: the machine. It is a `Workspace` class whose directories,
  written files and spawned-command log change in place.
- `steps.dfy`: step definitions.
- `phpdoc_md_config.dfy`: the config text and its reader.
- `clean_phpdoc_md.dfy`, `helpers.dfy`, `clone_wiki.dfy` and
  `exec_before_generator_actions.dfy`: one module per core file.

Code over values is modelled as functions and lemmas. State the source
changes in place is a class with `modifies` clauses: the manifest cache,
and the file system and process log. Loops the source has are methods
with loop invariants:

- the action loop, proved equal to the specification function `Run`
  (`RunActions`);
- the loading loop, proved equal to `Instances` (`GetAllActionsInstances`);
- the step loop (`ExecBeforeGeneratorActions.Exec`), whose contract states
  which steps were started, in which order, and how the run ended.

Points where the code does something other than its names and comments
suggest, and which the model keeps as the code has them:

- **The branch probe.** `branchExist` (`src/actions/clone-wiki.ts`
  56-71) is documented as "Checks if branch exist" and answers from
  whether `execCommand` throws. `execCommand` (`src/helpers.ts` 29-35)
  throws only when the process could not be started: `spawnSync` does not
  throw on a non-zero exit status. So the probe answers true for a branch
  the remote does not have. See "## Findings".
- **Commands and exit status.** `execCommand` (`src/helpers.ts` 29-35)
  never looks at the exit status, so a failing `git` command run through
  it does not stop the clone action. The model records spawned commands
  and never fails on them.
- **Exclude patterns.** The filter at `src/generators/clean-phpdoc-md.ts`
  108-110 drops every include rule whose text after its first character
  is an exclude pattern, whether or not that rule starts with `!`. So a
  rule `xFoo/**` is dropped when `!Foo/**` is also a rule.
  `CleanPhpdocMd.KeepIncludeRules` keeps that behaviour.

## Model

| member | source | states |
|---|---|---|
| CleanPhpdocMd.GetGlobalComposerRequirements | src/generators/clean-phpdoc-md.ts:13-15 | no package is required globally |
| CleanPhpdocMd.GetComposerRequirements | src/generators/clean-phpdoc-md.ts:20-22 | exactly one requirement, `clean/phpdoc-md` at any version |
| CleanPhpdocMd.CheckIfAllInputOptionsDefined | src/generators/clean-phpdoc-md.ts:27-32 | true iff both `class_root_namespace` and `include` are set to something other than white space (both directions) |
| Inputs.GetInput | src/generators/clean-phpdoc-md.ts:29-30 | the value is the raw input with only white space cut from either end, is trimmed, and is empty iff the input is unset or blank |
| Strings.Trim | src/generators/clean-phpdoc-md.ts:63 | the result is a slice of the input with only white space before and after it, has no white space at either end, is empty iff the input is blank, and leaves a trimmed string unchanged |
| Strings.SplitJoin | src/generators/clean-phpdoc-md.ts:62 | joining the pieces of `split(sep)` with `sep` gives back the string |
| Strings.SplitOnEolIsLines | src/generators/clean-phpdoc-md.ts:61-62 | replacing line feeds by `os.EOL` and splitting on `os.EOL` gives the line-feed lines, for both end-of-line sequences |
| CleanPhpdocMd.NonBlankTrimmed | src/generators/clean-phpdoc-md.ts:63-64 | every kept line is non-empty and trimmed, and the kept lines are a subsequence of the trimmed lines |
| CleanPhpdocMd.KeepNonEmptyCounts | src/generators/clean-phpdoc-md.ts:64 | the length filter keeps every non-empty string exactly as often as it occurs |
| CleanPhpdocMd.NonBlankTrimmedCounts | src/generators/clean-phpdoc-md.ts:63-64 | each non-empty trimmed line becomes an include rule exactly as often as it occurs |
| CleanPhpdocMd.ParseInclude | src/generators/clean-phpdoc-md.ts:60-64 | the captured include rules are the non-blank trimmed lines of the input, whatever `os.EOL` is |
| CleanPhpdocMd.GetBeforeActions | src/generators/clean-phpdoc-md.ts:52-68 | one generator-bound step generating the config, capturing the working directory, the trimmed root namespace and docs folder, and as include rules the non-blank trimmed lines of `include`, the same for either `os.EOL` |
| CleanPhpdocMd.GetAfterActions | src/generators/clean-phpdoc-md.ts:37-47 | one free step renaming `<temp_docs_folder>/README.md` to `<temp_docs_folder>/HOME.md` |
| CleanPhpdocMd.ToSlash | src/generators/clean-phpdoc-md.ts:104 | each backslash becomes `/` and every other character stays where it was, so no backslash is left |
| CleanPhpdocMd.ToBackslash | src/generators/clean-phpdoc-md.ts:116 | each `/` becomes a backslash and every other character stays where it was, so no slash is left |
| CleanPhpdocMd.NormaliseRules | src/generators/clean-phpdoc-md.ts:104 | one rule per input rule, each in slash form |
| CleanPhpdocMd.Excludes | src/generators/clean-phpdoc-md.ts:105-107 | a pattern is excluded iff `!` followed by it is a rule (both directions) |
| CleanPhpdocMd.KeepIncludeRules | src/generators/clean-phpdoc-md.ts:108-110 | the kept rules are the rules in order minus exactly those whose tail is excluded, each with its multiplicity |
| CleanPhpdocMd.RulePartition | src/generators/clean-phpdoc-md.ts:104-110 | no rule keeps a backslash, no kept include rule starts with `!`, and the exclude patterns are exactly the `!` rules without their `!` |
| CleanPhpdocMd.SelectClasses | src/generators/clean-phpdoc-md.ts:111-116 | the classes are in backslash form and come from the catalogue in catalogue order |
| CleanPhpdocMd.SelectClassesSound | src/generators/clean-phpdoc-md.ts:112-115 | every written class comes from a non-null entry matched by an include rule and by no exclude pattern |
| CleanPhpdocMd.SelectClassesComplete | src/generators/clean-phpdoc-md.ts:112-115 | every non-null entry matched by an include rule and by no exclude pattern is written |
| CleanPhpdocMd.NoClassesIffNothingSelected | src/generators/clean-phpdoc-md.ts:111-135 | the no-classes error is raised iff no catalogue entry is selected (both directions) |
| CleanPhpdocMd.GenerateConfig | src/generators/clean-phpdoc-md.ts:85-164 | composer install then the class-map run are spawned, and then either the no-classes error with no file written, or the rendered config written to `<cwd>/.phpdoc-md` |
| PhpdocMdConfig.RenderConfig | src/generators/clean-phpdoc-md.ts:136-158 | the text opens with the header `<?php`, `os.EOL`, `return (object)[` and ends with the footer that closes the class list and the object with `];` |
| PhpdocMdConfig.LayoutRoundTrip | src/generators/clean-phpdoc-md.ts:136-158 | for any fixed pieces whose footer does not start with the class separator, the rendered values read back unchanged |
| PhpdocMdConfig.ConfigRoundTrip | src/generators/clean-phpdoc-md.ts:136-158 | reading the rendered config gives back the root namespace, destination directory and class list |
| PhpdocMdConfig.ReadClassesRoundTrip | src/generators/clean-phpdoc-md.ts:153 | the quoted classes joined by the separator read back as the same class list |
| JsonString.Quote | src/generators/clean-phpdoc-md.ts:141 | `JSON.stringify` of a string: double quotes around at least as many characters as the string has |
| JsonString.QuoteRoundTrip | src/generators/clean-phpdoc-md.ts:141 | a string rendered by `JSON.stringify` reads back as itself, whatever follows it |
| JsonString.EscapeRoundTrip | src/generators/clean-phpdoc-md.ts:141 | the escaped body of a rendered string reads back up to the closing quote |
| JsonString.EscapeChar | src/generators/clean-phpdoc-md.ts:141 | a character is kept as itself iff it is not a quote, a backslash or a control character, and is otherwise escaped in at most six characters |
| Helpers.ValidateGenerator | src/helpers.ts:14-20 | passes iff all inputs are defined, and otherwise throws the `TypeError` with the fixed message |
| Helpers.ManifestCache.ReadPackageJSON | src/helpers.ts:68-80 | the file is read only when nothing is cached (at most once overall), and every call returns the cached manifest |
| Helpers.ReadPackageJSONTwice | src/helpers.ts:73-80 | two calls return the same manifest even when the file changed in between |
| Helpers.GetAllActionsInstances | src/helpers.ts:85-98 | one loaded action per manifest name, in manifest order |
| Helpers.RunActions | src/helpers.ts:110-119 | the loop's log and `exec` calls and its outcome are those of the specification `Run` |
| Helpers.ExecGenerator | src/helpers.ts:105-119 | validation comes first: on failure nothing is logged, executed or read; otherwise the manifest is cached (the earlier cache or the file read now) and the loop runs over its actions |
| Helpers.ExecIffShouldRun | src/helpers.ts:110-118 | an action's `exec` is called iff its `shouldRun` holds and no earlier action threw (both directions) |
| Helpers.RunTraceShape | src/helpers.ts:110-118 | `exec` calls follow manifest order and only concern actions that should run; every logged line is the description of the action executed next, and every action with a description is logged right before it runs |
| Helpers.RunOutcome | src/helpers.ts:110-119 | the loop ends normally iff no running action throws; otherwise the last event is the `exec` that threw and the outcome is its exception |
| CloneWiki.GetDescription | src/actions/clone-wiki.ts:13-15 | a non-empty description |
| CloneWiki.AsAction | src/actions/clone-wiki.ts:13-22 | the action always runs (`shouldRun` is true), its description is "Cloning old wiki...", and its `exec` throws iff it does not pass |
| CloneWiki.GetOldDocsPath | src/actions/clone-wiki.ts:90-92 | the old-docs path is the `temp_docs_folder` input followed by `.old` |
| CloneWiki.LoggedBeforeCloning | src/actions/clone-wiki.ts:13-22 | when no earlier action threw, "Cloning old wiki..." is logged right before the action's `exec` |
| CloneWiki.CloneCommands | src/actions/clone-wiki.ts:33-53 | the clone runs first, in the directory's parent, then `config --local gc.auto 0`, `branch -r` and the `show-branch` probe in the old-docs directory; then `checkout <branch>` followed by `pull` when the probe reports the branch, or `checkout -b <branch>` alone otherwise; every command after the clone is a `git` command in the old-docs directory |
| CloneWiki.BranchExist | src/actions/clone-wiki.ts:64-71 | spawns the `show-branch` probe and answers true iff the probe process could be started |
| CloneWiki.CloneAndSwitch | src/actions/clone-wiki.ts:33-53 | the spawned commands are exactly `CloneCommands`, and directories and files are unchanged |
| CloneWiki.Exec | src/actions/clone-wiki.ts:27-54 | an existing old-docs directory throws "... already exists but shouldn't" and changes nothing; otherwise the directory is created and the clone commands are spawned |
| CloneWiki.CheckoutFollowsProbe | src/actions/clone-wiki.ts:44-53 | as written, checkout and pull happen iff the probe process started, and `checkout -b` happens iff it could not start; a new branch is never pulled |
| CloneWiki.SwitchFollowsAnswer | src/actions/clone-wiki.ts:44-53 | checkout and pull happen iff the probe reported the branch, `checkout -b` iff it did not |
| CloneWiki.MissingBranchIsCheckedOut | src/actions/clone-wiki.ts:64-71 | as written, a probe that exits with 128 (no such remote branch) still leads to checkout and pull, and no `checkout -b` |
| CloneWiki.BranchOnRemote | src/actions/clone-wiki.ts:56-71 | the intended probe: spawns `show-branch` and answers true iff it exited with status 0 |
| CloneWiki.CheckoutFollowsRemote | src/actions/clone-wiki.ts:44-53 | with the intended probe, checkout and pull happen iff the probe exited with 0, and `checkout -b` for every other outcome |
| CloneWiki.CloneTargetIsOldDocsDir | src/actions/clone-wiki.ts:33-41 | cloning in `dirname(dir)` into `basename(dir)` creates exactly `dir` in two cases: when `dir` has no slash (`.` and `dir`), and when its last slash is past the first character and not doubled (the literal join) |
| Paths.DirnameBasename | src/actions/clone-wiki.ts:38-40 | for a path with no trailing slash, `dirname` joined by a slash to `basename` gives the path back; with no slash at all, the directory is `.` and the name is the path |
| ExecBeforeGeneratorActions.GetDescription | build/actions/exec-before-generator-actions.js:7-9 | no description |
| ExecBeforeGeneratorActions.AsAction | build/actions/exec-before-generator-actions.js:7-15 | the action applies iff the generator has before-steps, and it has no description |
| ExecBeforeGeneratorActions.NothingLoggedBefore | build/actions/exec-before-generator-actions.js:7-9 | no line is ever logged right before this action's `exec` |
| ExecBeforeGeneratorActions.AlwaysRunsForCleanPhpdocMd | build/actions/exec-before-generator-actions.js:13-15 | with the `clean/phpdoc-md` generator the action always applies |
| ExecBeforeGeneratorActions.Exec | build/actions/exec-before-generator-actions.js:19-23 | the started steps are a prefix of the before-steps, in list order, each once; all but the last passed; the run passes iff every step was started and passed, and otherwise stops at the first step that threw, with that step's exception |

## Findings

| source | as written | input that shows it | evidently intended | confidence | as-written member | corrected member |
|---|---|---|---|---|---|---|
| src/actions/clone-wiki.ts:64-71 | `branchExist` returns true whenever the `git show-branch` process started, whatever its exit status | a build branch the wiki remote does not have: `git show-branch origin/<branch>` exits with 128, the probe answers true, `exec` runs `git checkout <branch>` and `git pull`, and `git checkout -b <branch>` never runs | the branch exists exactly when the probe exits with status 0, and a missing branch is created with `checkout -b` | medium, not executed | CloneWiki.BranchExist, CloneWiki.MissingBranchIsCheckedOut | CloneWiki.BranchOnRemote, CloneWiki.CheckoutFollowsRemote |

## Left out

- Process spawning, its output, and `debug` logging are not modelled. A
  spawned command is recorded in the workspace's command log. The debug
  loops over the rules and the generated text
  (`clean-phpdoc-md.ts` 117-132 and 159-162) are left out, because they
  change nothing.
- `picomatch.isMatch` is a parameter of the model, because the library is
  not part of it. picomatch throws on an empty pattern (the rule `!`
  alone); that case is not modelled.
- `composer`, `execCommandAndReturn`, `GeneratorActionStepDefinition`,
  `GitInfo` and the `ActionInterface`/`GeneratorInterface` declarations
  are not part of this model. Composer runs appear as their own command
  kind. The git information is a parameter. Running a step is a
  parameter of `ExecBeforeGeneratorActions.Exec`.
- `readComposerConfig`: the class map the `php` run prints is a parameter
  (`catalogue`). A `JSON.parse` failure on that output is not modelled.
- CleanPhpdocMd.GenerateConfig: a failing spawn, `writeFileSync` error or
  file-system race is not modelled.
- CloneWiki.Exec: a failing spawn of any command other than the branch
  probe, and a `mkdirSync` failure, are not modelled.
- The after-step's `renameSync` is not executed in the model, because no
  core file runs it.
- `generate()`, `makeGeneratorInstance`, `loadAction`'s dynamic import,
  `getSelectedEngineName` and `execCommand` are left out. They are module
  loading and I/O: `loadAction` is the `Loader` parameter, and
  `execCommand` is `Workspace.Spawn`.
- Helpers.ExecGenerator takes the generator's
  `checkIfAllInputOptionsDefined()` result as a boolean. `GitInfo` is
  created between validation and action loading; that creation has no
  modelled effect.
- `exec` calls are synchronous in the source. The model treats a throw as
  ending the loop, which is what happens.
- PhpdocMdConfig.ConfigRoundTrip reads strings with JSON string syntax.
  PHP reads a double-quoted literal differently for `$` and `\u`, so the
  round trip is about the text as written, not about PHP's evaluation of
  it.
- Strings are sequences of Unicode scalar values, while JavaScript strings
  are UTF-16 code units. Lengths differ for characters above U+FFFF, and
  the `\uXXXX` escape `JSON.stringify` writes for a lone surrogate cannot
  occur in the model. Trimming and the emptiness tests are unaffected.
- How a failing `composer` run or `execCommandAndReturn` behaves cannot
  be read from the modelled files (`composer` is imported by
  `clean-phpdoc-md.ts` but is not part of this model). The model treats
  them as never failing.
- `Helpers.Action` fixes each action's `shouldRun` answer and `exec`
  result when the action is loaded, while the loop calls `shouldRun` only
  when it reaches the action, after the earlier `exec` calls. For the
  modelled actions this makes no difference, because their `shouldRun`
  reads only inputs and the generator's before-steps.
- CloneWiki.Exec models `branchExist` as written; the intended probe
  (`BranchOnRemote`) is modelled beside it, see "## Findings".
- Paths: only POSIX `basename` and `dirname` are modelled. Windows paths
  are out of scope.
- The manifest's `jsonContent` cache is modelled as a class with a ghost
  read counter. The module-level global stands for one process, and
  concurrency is not modelled.
