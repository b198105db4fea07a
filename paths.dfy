/** `basename` and `dirname` of Node's `path` module on POSIX systems,
    as the clone step uses them to split the old-docs directory into the
    directory `git clone` runs in and the name it clones into. */
module Paths {
  import opened Wrappers

  /** `p` without its trailing slashes. */
  function StripTrailingSlashes(p: string): (q: string)
    ensures |q| <= |p| && q == p[..|q|]
    ensures q == [] || q[|q| - 1] != '/'
    ensures forall i :: |q| <= i < |p| ==> p[i] == '/'
  {
    if |p| > 0 && p[|p| - 1] == '/' then StripTrailingSlashes(p[..|p| - 1]) else p
  }

  /** The position of the last slash of `p` in `[lo, hi)`, if there is one. */
  function LastSlashIn(p: string, lo: nat, hi: nat): (r: Option<nat>)
    requires hi <= |p|
    ensures r.Some? ==> lo <= r.value < hi && p[r.value] == '/'
    ensures r.Some? ==> forall j :: r.value < j < hi ==> p[j] != '/'
    ensures r.None? ==> forall j :: lo <= j < hi ==> p[j] != '/'
    decreases hi
  {
    if hi <= lo then None
    else if p[hi - 1] == '/' then Some(hi - 1)
    else LastSlashIn(p, lo, hi - 1)
  }

  /** `path.basename(p)`: the last segment, trailing slashes ignored, and
      the empty string when `p` is made of slashes only. */
  function Basename(p: string): (b: string)
    ensures '/' !in b
  {
    var q := StripTrailingSlashes(p);
    match LastSlashIn(q, 0, |q|)
    case None => q
    case Some(i) => q[i + 1..]
  }

  /** `path.dirname(p)`: everything before the last slash that precedes the
      last segment; `.` when there is no such slash, `/` (or `//`) when it
      is the root. Trailing slashes and the first character never count as
      that slash. */
  function Dirname(p: string): (d: string)
    ensures d != ""
  {
    if p == [] then "."
    else
      var stripped := |StripTrailingSlashes(p)|;
      var end := if stripped == 0 then 1 else stripped;
      match LastSlashIn(p, 1, end)
      case None => if p[0] == '/' then "/" else "."
      case Some(j) => if j == 1 && p[0] == '/' then "//" else p[..j]
  }

  /** A last slash beyond the first character is also the last slash once
      the first character is ignored, and the other way round. */
  lemma {:induction false} LastSlashSkipsFirst(p: string, hi: nat)
    requires hi <= |p|
    ensures LastSlashIn(p, 0, hi).Some? && LastSlashIn(p, 0, hi).value >= 1 ==> LastSlashIn(p, 1, hi) == LastSlashIn(p, 0, hi)
    ensures LastSlashIn(p, 1, hi).Some? ==> LastSlashIn(p, 0, hi) == LastSlashIn(p, 1, hi)
    decreases hi
  {
    if hi > 1 && p[hi - 1] != '/' {
      LastSlashSkipsFirst(p, hi - 1);
    }
  }

  /** For a path with no trailing slash, `dirname` and `basename` put back
      together give the path: `git clone` run in `dirname(p)` into
      `basename(p)` creates exactly `p`. Without a slash the directory is
      the current one; otherwise the join is literal, as long as the last
      slash is not doubled and not the root. */
  lemma DirnameBasename(p: string)
    requires p != [] && p[|p| - 1] != '/'
    ensures LastSlashIn(p, 0, |p|).None? ==> Dirname(p) == "." && Basename(p) == p
    ensures var r := LastSlashIn(p, 0, |p|);
      r.Some? && r.value >= 1 && p[r.value - 1] != '/' ==> Dirname(p) + "/" + Basename(p) == p
  {
    assert StripTrailingSlashes(p) == p;
    LastSlashSkipsFirst(p, |p|);
    var r := LastSlashIn(p, 0, |p|);
    if r.Some? && r.value >= 1 && p[r.value - 1] != '/' {
      JoinAtLastSlash(p, r.value);
    }
  }

  /** The join at a last slash `i` that is neither doubled nor the root. */
  lemma JoinAtLastSlash(p: string, i: nat)
    requires p != [] && p[|p| - 1] != '/' && StripTrailingSlashes(p) == p
    requires 1 <= i < |p| && p[i - 1] != '/'
    requires LastSlashIn(p, 0, |p|) == Some(i) && LastSlashIn(p, 1, |p|) == Some(i)
    ensures Dirname(p) == p[..i] && Basename(p) == p[i + 1..]
    ensures Dirname(p) + "/" + Basename(p) == p
  {
    var b := p[i + 1..];
    var d := p[..i];
    assert d + "/" + b == p;
  }
}
