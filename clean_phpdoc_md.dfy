/** The `clean/phpdoc-md` generator: its package requirements, the check of
    its inputs, the step definitions it hands to the before- and
    after-actions, and `generateConfig`, which turns the include rules and
    the installed class map into the `.phpdoc-md` config file. */
module CleanPhpdocMd {
  import opened Wrappers
  import opened Strings
  import opened Inputs
  import opened Host
  import Steps
  import opened PhpdocMdConfig

  /** Package requirements installed globally for this generator: none. */
  function GetGlobalComposerRequirements(): (r: map<string, string>)
    ensures |r| == 0
  {
    map[]
  }

  /** Package requirements of this generator: any version of `clean/phpdoc-md`. */
  function GetComposerRequirements(): (r: map<string, string>)
    ensures r.Keys == {"clean/phpdoc-md"} && r["clean/phpdoc-md"] == "*"
  {
    map["clean/phpdoc-md" := "*"]
  }

  /** The input `name` is set to something other than white space. */
  predicate HasValue(env: Environment, name: string) {
    name in env && exists k :: 0 <= k < |env[name]| && !IsWhitespace(env[name][k])
  }

  /** `checkIfAllInputOptionsDefined`: both the root namespace and the
      include rules are given (`getInput` trims, so white space alone does not
      count). */
  function CheckIfAllInputOptionsDefined(env: Environment): (ok: bool)
    ensures ok <==> HasValue(env, "class_root_namespace") && HasValue(env, "include")
  {
    |GetInput(env, "class_root_namespace")| > 0 && |GetInput(env, "include")| > 0
  }

  /** Every line trimmed (`.map(x => x.trim())`). */
  function TrimEach(lines: seq<string>): (r: seq<string>)
    ensures |r| == |lines| && forall i :: 0 <= i < |lines| ==> r[i] == Trim(lines[i])
  {
    seq(|lines|, i requires 0 <= i < |lines| => Trim(lines[i]))
  }

  /** `.filter(x => x.length > 0)`: the non-empty strings of `xs` in their
      order. */
  function KeepNonEmpty(xs: seq<string>): (ys: seq<string>)
    ensures forall i :: 0 <= i < |ys| ==> ys[i] != "" && ys[i] in xs
    ensures IsSubsequence(ys, xs)
  {
    if xs == [] then []
    else
      var rest := KeepNonEmpty(xs[1..]);
      if xs[0] == "" then
        SubsequenceSkip(xs[0], rest, xs[1..]);
        assert xs == [xs[0]] + xs[1..];
        rest
      else
        SubsequenceCons(xs[0], rest, xs[1..]);
        assert xs == [xs[0]] + xs[1..];
        [xs[0]] + rest
  }

  /** The filter drops the empty strings only: every non-empty string is
      kept exactly as often as it occurs. */
  lemma {:induction false} KeepNonEmptyCounts(xs: seq<string>, x: string)
    requires x != ""
    ensures multiset(KeepNonEmpty(xs))[x] == multiset(xs)[x]
  {
    if xs != [] {
      KeepNonEmptyCounts(xs[1..], x);
      assert xs == [xs[0]] + xs[1..];
      assert multiset(xs) == multiset([xs[0]]) + multiset(xs[1..]);
      if xs[0] != "" {
        assert multiset(KeepNonEmpty(xs)) == multiset([xs[0]]) + multiset(KeepNonEmpty(xs[1..]));
      }
    }
  }

  /** `lines.map(x => x.trim()).filter(x => x.length > 0)`: the trimmed lines
      in their order, blank ones dropped. */
  function NonBlankTrimmed(lines: seq<string>): (rules: seq<string>)
    ensures forall i :: 0 <= i < |rules| ==> rules[i] != "" && IsTrimmed(rules[i])
    ensures IsSubsequence(rules, TrimEach(lines))
  {
    EachTrimmed(lines);
    KeepNonEmpty(TrimEach(lines))
  }

  /** Whatever `TrimEach` yields is trimmed. */
  lemma EachTrimmed(lines: seq<string>)
    ensures forall t :: t in TrimEach(lines) ==> IsTrimmed(t)
  {
    var trimmed := TrimEach(lines);
    forall t | t in trimmed
      ensures IsTrimmed(t)
    {
      var j :| 0 <= j < |trimmed| && trimmed[j] == t;
    }
  }

  /** Each non-blank trimmed line becomes an include rule exactly as often
      as it occurs. */
  lemma NonBlankTrimmedCounts(lines: seq<string>, x: string)
    requires x != ""
    ensures multiset(NonBlankTrimmed(lines))[x] == multiset(TrimEach(lines))[x]
  {
    KeepNonEmptyCounts(TrimEach(lines), x);
  }

  /** The include rules `getBeforeActions` captures from the `include`
      input: line feeds rewritten as `os.EOL`, split on `os.EOL`, trimmed,
      blank lines dropped. The result does not depend on the platform's
      end-of-line sequence. */
  function ParseInclude(input: string, eol: string): (rules: seq<string>)
    requires ValidEol(eol)
    ensures rules == NonBlankTrimmed(Lines(input))
  {
    SplitOnEolIsLines(input, eol);
    NonBlankTrimmed(Split(ReplaceAll(input, '\n', eol), eol))
  }

  /** `key.replace(/\\/g, '/')`. */
  function ToSlash(s: string): (r: string)
    ensures |r| == |s| && '\\' !in r
    ensures forall i :: 0 <= i < |s| ==> r[i] == (if s[i] == '\\' then '/' else s[i])
  {
    ReplaceChar(s, '\\', '/')
  }

  /** `key.replace(/\//g, '\\')`. */
  function ToBackslash(s: string): (r: string)
    ensures |r| == |s| && '/' !in r
    ensures forall i :: 0 <= i < |s| ==> r[i] == (if s[i] == '/' then '\\' else s[i])
  {
    ReplaceChar(s, '/', '\\')
  }

  /** `include.map(key => key.replace(/\\/g, '/'))`. */
  function NormaliseRules(rules: seq<string>): (r: seq<string>)
    ensures |r| == |rules|
    ensures forall i :: 0 <= i < |r| ==> r[i] == ToSlash(rules[i]) && '\\' !in r[i]
  {
    seq(|rules|, i requires 0 <= i < |rules| => ToSlash(rules[i]))
  }

  /** `s.substring(1)`. */
  function Tail(s: string): string {
    if |s| == 0 then "" else s[1..]
  }

  /** `rules.filter(rule => rule.startsWith('!')).map(rule => rule.substring(1))`:
      the patterns the `!`-prefixed rules name. */
  function Excludes(rules: seq<string>): (bad: seq<string>)
    ensures |bad| <= |rules|
    ensures forall x :: x in bad <==> ['!'] + x in rules
  {
    if rules == [] then []
    else
      var rest := Excludes(rules[1..]);
      assert forall x :: ['!'] + x in rules <==> ['!'] + x == rules[0] || ['!'] + x in rules[1..];
      if |rules[0]| > 0 && rules[0][0] == '!' then
        assert rules[0] == ['!'] + rules[0][1..];
        [rules[0][1..]] + rest
      else
        rest
  }

  /** `rules.filter(rule => !bad.includes(rule.substring(1)))`: drops every
      rule whose text after the first character is an excluded pattern. */
  function KeepIncludeRules(rules: seq<string>, bad: seq<string>): (kept: seq<string>)
    ensures IsSubsequence(kept, rules)
    ensures forall i :: 0 <= i < |kept| ==> Tail(kept[i]) !in bad
    ensures forall x :: Tail(x) !in bad ==> multiset(kept)[x] == multiset(rules)[x]
  {
    if rules == [] then []
    else
      var rest := KeepIncludeRules(rules[1..], bad);
      assert rules == [rules[0]] + rules[1..];
      if Tail(rules[0]) in bad then
        SubsequenceSkip(rules[0], rest, rules[1..]);
        rest
      else
        SubsequenceCons(rules[0], rest, rules[1..]);
        [rules[0]] + rest
  }

  /** What the rule handling of `generateConfig` guarantees: no rule keeps a
      backslash, no `!`-prefixed rule is left among the include rules, and
      the exclude patterns are exactly the `!`-prefixed normalised rules
      without their `!`. */
  lemma RulePartition(rules: seq<string>)
    ensures var n := NormaliseRules(rules);
            var bad := Excludes(n);
            var kept := KeepIncludeRules(n, bad);
            && (forall i :: 0 <= i < |kept| ==> '\\' !in kept[i] && (kept[i] == [] || kept[i][0] != '!'))
            && (forall x :: x in bad ==> '\\' !in x)
            && (forall x :: x in bad <==> exists i :: 0 <= i < |rules| && ToSlash(rules[i]) == ['!'] + x)
  {
    var n := NormaliseRules(rules);
    var bad := Excludes(n);
    var kept := KeepIncludeRules(n, bad);
    forall i | 0 <= i < |kept|
      ensures '\\' !in kept[i] && (kept[i] == [] || kept[i][0] != '!')
    {
      assert kept[i] in multiset(kept);
      assert kept[i] in n by { SubsequenceIn(kept, n, i); }
    }
    forall x | x in bad ensures '\\' !in x {
      var i :| 0 <= i < |n| && n[i] == ['!'] + x;
      assert forall k :: 0 <= k < |x| ==> x[k] == n[i][k + 1];
    }
  }

  /** Every element of a sub-list occurs in the longer list. */
  lemma {:induction false} SubsequenceIn<T>(a: seq<T>, b: seq<T>, i: nat)
    requires IsSubsequence(a, b) && i < |a|
    ensures a[i] in b
    decreases |b|
  {
    if a[0] == b[0] && IsSubsequence(a[1..], b[1..]) {
      if i > 0 {
        SubsequenceIn(a[1..], b[1..], i - 1);
      }
    } else {
      SubsequenceIn(a, b[1..], i);
    }
  }

  /** `picomatch.isMatch(key, pattern)`, an external library: the model
      takes it as given. */
  type Matcher = (string, string) -> bool

  /** `picomatch.isMatch(key, patterns)` for a list of patterns: some pattern matches. */
  predicate MatchesAny(isMatch: Matcher, key: string, patterns: seq<string>) {
    exists i :: 0 <= i < |patterns| && isMatch(key, patterns[i])
  }

  /** A class in slash form is kept: some include rule matches it and no
      exclude pattern does. */
  predicate Selected(isMatch: Matcher, key: string, includes: seq<string>, excludes: seq<string>) {
    MatchesAny(isMatch, key, includes) && !MatchesAny(isMatch, key, excludes)
  }

  /** The name a catalogue entry is written under: slashes first, then every
      slash turned into a backslash. */
  function ClassName(key: string): string {
    ToBackslash(ToSlash(key))
  }

  /** The names of the non-null catalogue entries, in catalogue order. */
  function Candidates(catalogue: seq<Option<string>>): seq<string> {
    if catalogue == [] then []
    else (if catalogue[0].Some? then [ClassName(catalogue[0].value)] else []) + Candidates(catalogue[1..])
  }

  /** The class filter of `generateConfig`: drop null entries, match the
      slash form against the include and exclude rules, turn the kept ones
      back to backslash form. */
  function SelectClasses(catalogue: seq<Option<string>>, isMatch: Matcher, includes: seq<string>, excludes: seq<string>): (classes: seq<string>)
    ensures forall i :: 0 <= i < |classes| ==> '/' !in classes[i]
    ensures IsSubsequence(classes, Candidates(catalogue))
  {
    if catalogue == [] then []
    else
      var rest := SelectClasses(catalogue[1..], isMatch, includes, excludes);
      var cands := Candidates(catalogue[1..]);
      match catalogue[0]
      case None =>
        assert Candidates(catalogue) == cands;
        rest
      case Some(k) =>
        assert Candidates(catalogue) == [ClassName(k)] + cands;
        if Selected(isMatch, ToSlash(k), includes, excludes) then
          SubsequenceCons(ClassName(k), rest, cands);
          [ClassName(k)] + rest
        else
          SubsequenceSkip(ClassName(k), rest, cands);
          rest
  }

  /** Every output class comes from a non-null catalogue entry whose slash
      form is selected. */
  lemma {:induction false} SelectClassesSound(catalogue: seq<Option<string>>, isMatch: Matcher, includes: seq<string>, excludes: seq<string>, i: nat)
    requires i < |SelectClasses(catalogue, isMatch, includes, excludes)|
    ensures exists j :: (0 <= j < |catalogue| && catalogue[j].Some?
      && Selected(isMatch, ToSlash(catalogue[j].value), includes, excludes)
      && SelectClasses(catalogue, isMatch, includes, excludes)[i] == ClassName(catalogue[j].value))
  {
    var rest := SelectClasses(catalogue[1..], isMatch, includes, excludes);
    var head := catalogue[0].Some? && Selected(isMatch, ToSlash(catalogue[0].value), includes, excludes);
    if head && i == 0 {
      assert catalogue[0].Some?;
    } else {
      var i' := if head then i - 1 else i;
      SelectClassesSound(catalogue[1..], isMatch, includes, excludes, i');
      var j' :| 0 <= j' < |catalogue[1..]| && catalogue[1..][j'].Some?
        && Selected(isMatch, ToSlash(catalogue[1..][j'].value), includes, excludes)
        && rest[i'] == ClassName(catalogue[1..][j'].value);
      assert catalogue[j' + 1] == catalogue[1..][j'];
    }
  }

  /** Every non-null catalogue entry whose slash form is selected is in the output. */
  lemma {:induction false} SelectClassesComplete(catalogue: seq<Option<string>>, isMatch: Matcher, includes: seq<string>, excludes: seq<string>, j: nat)
    requires j < |catalogue| && catalogue[j].Some?
    requires Selected(isMatch, ToSlash(catalogue[j].value), includes, excludes)
    ensures ClassName(catalogue[j].value) in SelectClasses(catalogue, isMatch, includes, excludes)
  {
    if j > 0 {
      assert catalogue[1..][j - 1] == catalogue[j];
      SelectClassesComplete(catalogue[1..], isMatch, includes, excludes, j - 1);
    }
  }

  /** The classes `generateConfig` writes for a catalogue and the captured
      include rules. */
  function ConfigClasses(catalogue: seq<Option<string>>, isMatch: Matcher, includeRules: seq<string>): seq<string> {
    var n := NormaliseRules(includeRules);
    var bad := Excludes(n);
    SelectClasses(catalogue, isMatch, KeepIncludeRules(n, bad), bad)
  }

  /** `generateConfig` finds no class, and throws, exactly when no non-null
      catalogue entry is matched by a kept include rule and by no exclude
      pattern. */
  lemma NoClassesIffNothingSelected(catalogue: seq<Option<string>>, isMatch: Matcher, includeRules: seq<string>)
    ensures var n := NormaliseRules(includeRules);
            var bad := Excludes(n);
            var kept := KeepIncludeRules(n, bad);
            (ConfigClasses(catalogue, isMatch, includeRules) == [] <==>
               forall j :: 0 <= j < |catalogue| && catalogue[j].Some? ==> !Selected(isMatch, ToSlash(catalogue[j].value), kept, bad))
  {
    var n := NormaliseRules(includeRules);
    var bad := Excludes(n);
    var kept := KeepIncludeRules(n, bad);
    var classes := SelectClasses(catalogue, isMatch, kept, bad);
    if classes != [] {
      SelectClassesSound(catalogue, isMatch, kept, bad, 0);
    }
    forall j | 0 <= j < |catalogue| && catalogue[j].Some? && Selected(isMatch, ToSlash(catalogue[j].value), kept, bad)
      ensures classes != []
    {
      SelectClassesComplete(catalogue, isMatch, kept, bad, j);
    }
  }

  /** The arguments of the `composer install` run. */
  const ComposerInstallArgs: seq<string> :=
    ["install", "--classmap-authoritative", "--no-progress", "--no-suggest", "-o", "--no-cache", "--no-scripts"]

  /** The arguments of the `php` run that prints the class map's keys as JSON. */
  const ClassmapArgs: seq<string> :=
    ["-d", "display_errors=0", "-d", "error_reporting=0", "-r",
     "require \"./vendor/autoload.php\"; echo json_encode(array_keys(require(\"./vendor/composer/autoload_classmap.php\")));"]

  const NoClassesMessage := "No classes matches include rules"

  /** Where the config file is written. */
  function ConfigPath(cwd: string): string {
    cwd + "/.phpdoc-md"
  }

  /** `generateConfig(cwd, rootNamespace, include, tempDocsPath)`. The class
      map that the `php` run prints is `catalogue`; `processCwd` is
      `process.cwd()`, where that run happens. */
  method GenerateConfig(ws: Workspace, processCwd: string, eol: string, isMatch: Matcher, catalogue: seq<Option<string>>,
                        cwd: string, rootNamespace: string, includeRules: seq<string>, tempDocsPath: string)
    returns (outcome: Outcome)
    modifies ws
    ensures ws.commands == old(ws.commands) + [Composer(ComposerInstallArgs, cwd), Run("php", ClassmapArgs, processCwd)]
    ensures ws.dirs == old(ws.dirs)
    ensures var classes := ConfigClasses(catalogue, isMatch, includeRules);
            if classes == [] then
              outcome == Fail(Error(NoClassesMessage)) && ws.files == old(ws.files)
            else
              outcome == Pass && ws.files == old(ws.files)[ConfigPath(cwd) := RenderConfig(eol, rootNamespace, tempDocsPath, classes)]
  {
    ws.Spawn(Composer(ComposerInstallArgs, cwd));
    var changedIncludeRules := NormaliseRules(includeRules);
    var badChangedIncludeRules := Excludes(changedIncludeRules);
    changedIncludeRules := KeepIncludeRules(changedIncludeRules, badChangedIncludeRules);
    ws.Spawn(Run("php", ClassmapArgs, processCwd));
    var classes := SelectClasses(catalogue, isMatch, changedIncludeRules, badChangedIncludeRules);
    if |classes| == 0 {
      return Fail(Error(NoClassesMessage));
    }
    var generated := RenderConfig(eol, rootNamespace, tempDocsPath, classes);
    ws.WriteFile(ConfigPath(cwd), generated);
    outcome := Pass;
  }

  const BeforeDescription := "Generating generator config..."
  const AfterDescription := "Renaming README.md to Home.md..."

  /** The step `getBeforeActions` builds from the raw `include` value and
      the other captured arguments. */
  function BeforeStep(processCwd: string, rootNamespace: string, includeInput: string, tempDocsPath: string, eol: string): (step: Steps.StepDefinition)
    requires ValidEol(eol)
    ensures step.ownedByGenerator && step.operation.GenerateConfig?
    ensures var op := step.operation;
            && op.cwd == processCwd && op.rootNamespace == rootNamespace && op.tempDocsPath == tempDocsPath
            && op.includeRules == NonBlankTrimmed(Lines(includeInput))
  {
    Steps.StepDefinition(true, BeforeDescription,
      Steps.GenerateConfig(processCwd, rootNamespace, ParseInclude(includeInput, eol), tempDocsPath))
  }

  /** `getBeforeActions()`: one step, bound to the generator, that runs
      `generateConfig` with the working directory, the root namespace, the
      parsed include rules and the temporary docs folder captured now. The
      captured rules are the same on every platform. */
  function GetBeforeActions(env: Environment, processCwd: string, eol: string): (steps: seq<Steps.StepDefinition>)
    requires ValidEol(eol)
    ensures |steps| == 1 && steps[0].ownedByGenerator && steps[0].operation.GenerateConfig?
    ensures var op := steps[0].operation;
            && op.cwd == processCwd
            && op.rootNamespace == GetInput(env, "class_root_namespace")
            && op.tempDocsPath == GetInput(env, "temp_docs_folder")
            && op.includeRules == NonBlankTrimmed(Lines(GetInput(env, "include")))
  {
    [BeforeStep(processCwd, GetInput(env, "class_root_namespace"), GetInput(env, "include"), GetInput(env, "temp_docs_folder"), eol)]
  }

  /** `getAfterActions()`: one free-function step renaming `README.md` in the
      temporary docs folder to `HOME.md`. */
  function GetAfterActions(env: Environment): (steps: seq<Steps.StepDefinition>)
    ensures |steps| == 1 && !steps[0].ownedByGenerator && steps[0].operation.RenameFile?
    ensures var folder := GetInput(env, "temp_docs_folder");
            steps[0].operation.oldPath == folder + "/README.md" && steps[0].operation.newPath == folder + "/HOME.md"
  {
    var folder := GetInput(env, "temp_docs_folder");
    [Steps.StepDefinition(false, AfterDescription, Steps.RenameFile(folder + "/README.md", folder + "/HOME.md"))]
  }
}
