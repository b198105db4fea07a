/** The action's configuration inputs as `getInput` of `@actions/core`
    returns them. */
module Inputs {
  import opened Strings

  /** The raw input values, by input name. */
  type Environment = map<string, string>

  /** `getInput(name)`: the raw value with surrounding white space trimmed,
      or the empty string when the input is not set. */
  function GetInput(env: Environment, name: string): (v: string)
    ensures IsTrimmed(v)
    ensures v == "" <==> (name !in env || IsBlank(env[name]))
    ensures name in env ==>
      exists i, j :: 0 <= i <= j <= |env[name]| && v == env[name][i..j] && IsBlank(env[name][..i]) && IsBlank(env[name][j..])
  {
    Trim(if name in env then env[name] else "")
  }
}
