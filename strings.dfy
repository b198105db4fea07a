/** The JavaScript string and array operations the pipeline is built from:
    `trim`, `replace` with a global pattern, `split`, `join`, and the
    order-preserving sub-list relation that `filter` produces. */
module Strings {

  /** The characters `String.prototype.trim` removes: ECMAScript's white
      space and line terminators. */
  predicate IsWhitespace(c: char) {
    var n := c as int;
    (0x09 <= n <= 0x0D) || n == 0x20 || n == 0xA0 || n == 0x1680
    || (0x2000 <= n <= 0x200A) || n == 0x2028 || n == 0x2029
    || n == 0x202F || n == 0x205F || n == 0x3000 || n == 0xFEFF
  }

  /** Neither end of `s` is white space. */
  predicate IsTrimmed(s: string) {
    s == [] || (!IsWhitespace(s[0]) && !IsWhitespace(s[|s| - 1]))
  }

  /** Every character of `s` is white space. */
  predicate IsBlank(s: string) {
    forall k :: 0 <= k < |s| ==> IsWhitespace(s[k])
  }

  /** `s.trimStart()`: the suffix left after the leading white space. */
  function TrimStart(s: string): (r: string)
    ensures |r| <= |s| && r == s[|s| - |r|..]
    ensures IsBlank(s[..|s| - |r|])
    ensures r == [] || !IsWhitespace(r[0])
  {
    if |s| > 0 && IsWhitespace(s[0]) then TrimStart(s[1..]) else s
  }

  /** `s.trimEnd()`: the prefix left before the trailing white space. */
  function TrimEnd(s: string): (r: string)
    ensures |r| <= |s| && r == s[..|r|]
    ensures IsBlank(s[|r|..])
    ensures r == [] || !IsWhitespace(r[|r| - 1])
  {
    if |s| > 0 && IsWhitespace(s[|s| - 1]) then
      var r := TrimEnd(s[..|s| - 1]);
      assert s[|r|..] == s[..|s| - 1][|r|..] + [s[|s| - 1]];
      r
    else s
  }

  /** `s.trim()`: `s` with its leading and trailing white space removed. */
  function Trim(s: string): (r: string)
    ensures IsTrimmed(r)
    ensures r == [] <==> IsBlank(s)
    ensures IsTrimmed(s) ==> r == s
    ensures exists i, j :: 0 <= i <= j <= |s| && r == s[i..j] && IsBlank(s[..i]) && IsBlank(s[j..])
  {
    var t := TrimStart(s);
    var r := TrimEnd(t);
    assert r != [] ==> r[0] == t[0];
    assert r == [] ==> t == [];
    assert t == [] ==> s[..|s| - |t|] == s;
    SliceBetweenBlanks(s, t, r);
    r
  }

  /** A suffix `t` of `s` after a blank stretch, cut down to a prefix `r`
      before a blank stretch, is a slice of `s` between blank ends. */
  lemma SliceBetweenBlanks(s: string, t: string, r: string)
    requires |t| <= |s| && t == s[|s| - |t|..] && IsBlank(s[..|s| - |t|])
    requires |r| <= |t| && r == t[..|r|] && IsBlank(t[|r|..])
    ensures exists i, j :: 0 <= i <= j <= |s| && r == s[i..j] && IsBlank(s[..i]) && IsBlank(s[j..])
  {
    var i := |s| - |t|;
    assert r == s[i..i + |r|];
    assert s[i + |r|..] == t[|r|..];
  }

  /** `s.replace(/c/g, t)`: every occurrence of the character `c` replaced by `t`. */
  function ReplaceAll(s: string, c: char, t: string): (r: string)
    ensures c !in t ==> c !in r
    ensures forall d :: d in r ==> d in s || d in t
  {
    if s == [] then []
    else (if s[0] == c then t else [s[0]]) + ReplaceAll(s[1..], c, t)
  }

  /** `s.replace(/from/g, to)` for a one-character pattern and replacement:
      the string keeps its length and only the `from` positions change. */
  function ReplaceChar(s: string, from: char, to: char): (r: string)
    ensures |r| == |s|
    ensures forall i :: 0 <= i < |s| ==> r[i] == (if s[i] == from then to else s[i])
    ensures from != to ==> from !in r
  {
    if s == [] then []
    else [if s[0] == from then to else s[0]] + ReplaceChar(s[1..], from, to)
  }

  /** `sep` is a prefix of `s`. */
  predicate HasPrefix(s: string, sep: string) {
    |sep| <= |s| && s[..|sep|] == sep
  }

  /** `s.split(sep)` for a non-empty separator: the pieces between the
      leftmost non-overlapping occurrences of `sep`. */
  function Split(s: string, sep: string): (pieces: seq<string>)
    requires |sep| > 0
    ensures |pieces| >= 1
    decreases |s|
  {
    if |s| < |sep| then [s]
    else if HasPrefix(s, sep) then [""] + Split(s[|sep|..], sep)
    else
      var rest := Split(s[1..], sep);
      [[s[0]] + rest[0]] + rest[1..]
  }

  /** `parts.join(sep)`. */
  function Join(parts: seq<string>, sep: string): string {
    if |parts| == 0 then ""
    else if |parts| == 1 then parts[0]
    else parts[0] + sep + Join(parts[1..], sep)
  }

  /** The lines of `s`: `s.split('\n')`. */
  function Lines(s: string): seq<string> {
    Split(s, "\n")
  }

  /** Joining the pieces of a split with the same separator gives back the
      original string. */
  lemma {:induction false} SplitJoin(s: string, sep: string)
    requires |sep| > 0
    ensures Join(Split(s, sep), sep) == s
    decreases |s|
  {
    if |s| < |sep| {
    } else if HasPrefix(s, sep) {
      SplitJoin(s[|sep|..], sep);
      SplitJoinAtSeparator(s, sep);
    } else {
      SplitJoin(s[1..], sep);
      SplitJoinStep(s, sep);
    }
  }

  /** The step of `SplitJoin` where `s` starts with the separator. */
  lemma SplitJoinAtSeparator(s: string, sep: string)
    requires |sep| > 0 && |s| >= |sep| && HasPrefix(s, sep)
    requires Join(Split(s[|sep|..], sep), sep) == s[|sep|..]
    ensures Join(Split(s, sep), sep) == s
  {
    var tail := s[|sep|..];
    assert Split(s, sep) == [""] + Split(tail, sep);
    JoinCons("", Split(tail, sep), sep);
    assert s == sep + tail;
  }

  /** The step of `SplitJoin` where `s` does not start with the separator. */
  lemma SplitJoinStep(s: string, sep: string)
    requires |sep| > 0 && |s| >= |sep| && !HasPrefix(s, sep)
    requires Join(Split(s[1..], sep), sep) == s[1..]
    ensures Join(Split(s, sep), sep) == s
  {
    var rest := Split(s[1..], sep);
    var head := [s[0]] + rest[0];
    assert Split(s, sep) == [head] + rest[1..];
    JoinExtendHead(s, sep, rest);
  }

  /** Prepending `s[0]` to the first of the pieces of `s[1..]` joins to `s`. */
  lemma JoinExtendHead(s: string, sep: string, rest: seq<string>)
    requires |s| > 0 && |rest| >= 1
    requires Join(rest, sep) == s[1..]
    ensures Join([[s[0]] + rest[0]] + rest[1..], sep) == s
  {
    var head := [s[0]] + rest[0];
    if |rest| == 1 {
      assert Join([head], sep) == head;
      assert s == [s[0]] + s[1..];
    } else {
      var p := [head] + rest[1..];
      assert p[0] == head && p[1..] == rest[1..];
      var j := Join(rest[1..], sep);
      assert Join(p, sep) == head + sep + j;
      assert Join(rest, sep) == rest[0] + sep + j;
      assert head + sep + j == [s[0]] + (rest[0] + sep + j);
      assert s == [s[0]] + s[1..];
    }
  }

  lemma JoinCons(a: string, rest: seq<string>, sep: string)
    requires |rest| >= 1
    ensures Join([a] + rest, sep) == a + sep + Join(rest, sep)
  {
    assert ([a] + rest)[1..] == rest;
  }

  /** No piece of a split on a one-character separator contains that character. */
  lemma {:induction false} SplitPiecesAvoidSeparator(s: string, c: char)
    ensures forall p :: p in Split(s, [c]) ==> c !in p
    decreases |s|
  {
    if |s| < 1 {
    } else if HasPrefix(s, [c]) {
      SplitPiecesAvoidSeparator(s[1..], c);
    } else {
      SplitPiecesAvoidSeparator(s[1..], c);
      var rest := Split(s[1..], [c]);
      assert s[0] != c by { assert s[..1] == [s[0]]; }
      assert rest[0] in rest;
      forall p | p in Split(s, [c]) ensures c !in p {
        if p != [s[0]] + rest[0] {
          assert p in rest[1..];
        }
      }
    }
  }

  /** Rewriting line feeds as the platform's end-of-line sequence and then
      splitting on that sequence gives exactly the line-feed-separated lines,
      for both end-of-line sequences a host uses ("\n" and "\r\n"). */
  lemma {:induction false} SplitOnEolIsLines(s: string, eol: string)
    requires eol == "\n" || eol == "\r\n"
    ensures Split(ReplaceAll(s, '\n', eol), eol) == Lines(s)
    decreases |s|
  {
    if eol == "\n" {
      ReplaceLineFeedByItself(s);
    } else {
      var r := ReplaceAll(s, '\n', eol);
      if s == [] {
      } else if s[0] == '\n' {
        SplitOnEolIsLines(s[1..], eol);
        assert r == eol + ReplaceAll(s[1..], '\n', eol);
        assert r[|eol|..] == ReplaceAll(s[1..], '\n', eol);
        assert HasPrefix(s, "\n");
        assert s[1..] == s[|"\n"|..];
      } else {
        var tail := ReplaceAll(s[1..], '\n', eol);
        SplitOnEolIsLines(s[1..], eol);
        NoLeadingLineFeed(s[1..]);
        assert r == [s[0]] + tail;
        assert !HasPrefix(s, "\n") by { assert s[..1] == [s[0]]; }
        if tail == [] {
          assert s[1..] == [];
          assert Split(r, eol) == [r];
        } else {
          assert !HasPrefix(r, eol) by { assert r[1] == tail[0]; }
          assert r[1..] == tail;
        }
      }
    }
  }

  lemma {:induction false} ReplaceLineFeedByItself(s: string)
    ensures ReplaceAll(s, '\n', "\n") == s
  {
    if s != [] {
      ReplaceLineFeedByItself(s[1..]);
      assert s == [s[0]] + s[1..];
    }
  }

  lemma {:induction false} NoLeadingLineFeed(s: string)
    ensures var r := ReplaceAll(s, '\n', "\r\n"); r == [] || r[0] != '\n'
  {
  }

  /** `a` is an order-preserving sub-list of `b`: what `filter` leaves. */
  ghost predicate IsSubsequence<T>(a: seq<T>, b: seq<T>)
    decreases |b|
  {
    a == [] || (b != [] && ((a[0] == b[0] && IsSubsequence(a[1..], b[1..])) || IsSubsequence(a, b[1..])))
  }

  /** A common first element can be added to both sides of a sub-list. */
  lemma SubsequenceCons<T>(x: T, a: seq<T>, b: seq<T>)
    requires IsSubsequence(a, b)
    ensures IsSubsequence([x] + a, [x] + b)
  {
    assert ([x] + a)[1..] == a && ([x] + b)[1..] == b;
  }

  /** An element may be added in front of the longer side. */
  lemma SubsequenceSkip<T>(x: T, a: seq<T>, b: seq<T>)
    requires IsSubsequence(a, b)
    ensures IsSubsequence(a, [x] + b)
  {
    assert ([x] + b)[1..] == b;
  }
}
