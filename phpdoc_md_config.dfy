/** The `.phpdoc-md` file that `generateConfig` writes: a PHP script
    returning an object with the root namespace, the destination directory,
    the output format and the class list; and a reader for that layout, which
    shows that the file determines the values it was written from. */
module PhpdocMdConfig {
  import opened Wrappers
  import opened Strings
  import opened JsonString
  import opened Host

  /** What the config file carries. */
  datatype Config = Config(rootNamespace: string, destDirectory: string, classes: seq<string>)

  /** The fixed text before the quoted root namespace. */
  function Header(eol: string): string {
    "<?php" + eol + "return (object)[" + eol + "    \"rootNamespace\" => "
  }

  /** The fixed text between the root namespace and the destination directory. */
  function AfterNamespace(eol: string): string {
    "," + eol + "    \"destDirectory\" => "
  }

  /** The fixed text between the destination directory and the first class. */
  function AfterDestination(eol: string): string {
    "," + eol + "    \"format\" => \"github\"," + eol + "    \"classes\" => [" + eol + "        "
  }

  /** What stands between two quoted classes. */
  function ClassSeparator(eol: string): string {
    "," + eol + "        "
  }

  /** The fixed text after the last class. */
  function Footer(eol: string): string {
    eol + "    ]," + eol + "];"
  }

  /** `classes.map(k => JSON.stringify(k))`. */
  function QuoteAll(classes: seq<string>): (r: seq<string>)
    ensures |r| == |classes|
  {
    seq(|classes|, i requires 0 <= i < |classes| => Quote(classes[i]))
  }

  /** The fixed pieces of the file that surround the quoted values. */
  datatype Layout = Layout(header: string, afterNamespace: string, afterDestination: string,
                           separator: string, footer: string)

  /** The layout `generateConfig` uses with `os.EOL` as `eol`. */
  function LayoutFor(eol: string): Layout {
    Layout(Header(eol), AfterNamespace(eol), AfterDestination(eol), ClassSeparator(eol), Footer(eol))
  }

  /** The values quoted and laid out between the fixed pieces. */
  function Render(l: Layout, rootNamespace: string, destDirectory: string, classes: seq<string>): string {
    l.header + (Quote(rootNamespace) + (l.afterNamespace + (Quote(destDirectory)
      + (l.afterDestination + (Join(QuoteAll(classes), l.separator) + l.footer)))))
  }

  /** The text `generateConfig` writes to `.phpdoc-md`: a PHP script that
      opens with `<?php` and `return (object)[` and closes the returned
      object with `];`. */
  function RenderConfig(eol: string, rootNamespace: string, destDirectory: string, classes: seq<string>): (text: string)
    ensures HasPrefix(text, Header(eol)) && EndsWith(text, Footer(eol))
  {
    RenderBracketed(LayoutFor(eol), rootNamespace, destDirectory, classes);
    Render(LayoutFor(eol), rootNamespace, destDirectory, classes)
  }

  /** `s` ends with `f`. */
  predicate EndsWith(s: string, f: string) {
    |s| >= |f| && s[|s| - |f|..] == f
  }

  /** Any rendering starts with the header and ends with the footer. */
  lemma RenderBracketed(l: Layout, rootNamespace: string, destDirectory: string, classes: seq<string>)
    ensures var text := Render(l, rootNamespace, destDirectory, classes);
      HasPrefix(text, l.header) && EndsWith(text, l.footer)
  {
    var x5 := Join(QuoteAll(classes), l.separator) + l.footer;
    var x4 := l.afterDestination + x5;
    var x3 := Quote(destDirectory) + x4;
    var x2 := l.afterNamespace + x3;
    var x1 := Quote(rootNamespace) + x2;
    EndsWithConcat(Join(QuoteAll(classes), l.separator), l.footer, l.footer);
    EndsWithConcat(l.afterDestination, x5, l.footer);
    EndsWithConcat(Quote(destDirectory), x4, l.footer);
    EndsWithConcat(l.afterNamespace, x3, l.footer);
    EndsWithConcat(Quote(rootNamespace), x2, l.footer);
    EndsWithConcat(l.header, x1, l.footer);
    PrefixOfConcat(l.header, x1);
  }

  lemma EndsWithConcat(a: string, b: string, f: string)
    requires EndsWith(b, f) || b == f
    ensures EndsWith(a + b, f)
  {
    assert (a + b)[|a + b| - |f|..] == b[|b| - |f|..];
  }

  lemma PrefixOfConcat(a: string, b: string)
    ensures HasPrefix(a + b, a)
  {
    assert (a + b)[..|a|] == a;
  }

  /** Reads a non-empty list of quoted strings separated by `sep`: the strings
      and the text after the last one. */
  function ReadClasses(sep: string, s: string): (r: Option<(seq<string>, string)>)
    requires |sep| > 0
    decreases |s|
  {
    match ReadQuoted(s)
    case None => None
    case Some((c, rest)) =>
      if HasPrefix(rest, sep) then
        match ReadClasses(sep, rest[|sep|..])
        case None => None
        case Some((cs, after)) => Some(([c] + cs, after))
      else Some(([c], rest))
  }

  /** Reads a text laid out as `Render` writes it, taking the quoted values
      in JSON's string syntax. */
  function ReadLayout(l: Layout, text: string): Option<Config>
    requires |l.separator| > 0
  {
    if !HasPrefix(text, l.header) then None else
    match ReadQuoted(text[|l.header|..])
    case None => None
    case Some((ns, t1)) =>
      if !HasPrefix(t1, l.afterNamespace) then None else
      match ReadQuoted(t1[|l.afterNamespace|..])
      case None => None
      case Some((dir, t2)) =>
        if !HasPrefix(t2, l.afterDestination) then None else
        match ReadClasses(l.separator, t2[|l.afterDestination|..])
        case None => None
        case Some((cs, t3)) => if t3 == l.footer then Some(Config(ns, dir, cs)) else None
  }

  /** Reads a `.phpdoc-md` file written with `os.EOL` as `eol`. */
  function ReadConfig(eol: string, text: string): Option<Config> {
    ReadLayout(LayoutFor(eol), text)
  }

  /** Reading a list that starts with a quoted string. */
  lemma ReadClassesAfterQuote(sep: string, c: string, rest: string)
    requires |sep| > 0
    ensures ReadClasses(sep, Quote(c) + rest) ==
      if HasPrefix(rest, sep) then
        match ReadClasses(sep, rest[|sep|..])
        case None => None
        case Some((cs, after)) => Some(([c] + cs, after))
      else Some(([c], rest))
  {
    QuoteRoundTrip(c, rest);
  }

  /** The class list reads back from its joined, quoted form. */
  lemma {:induction false} ReadClassesRoundTrip(sep: string, classes: seq<string>, tail: string)
    requires |sep| > 0 && |classes| > 0 && !HasPrefix(tail, sep)
    ensures ReadClasses(sep, Join(QuoteAll(classes), sep) + tail) == Some((classes, tail))
    decreases |classes|
  {
    var c := classes[0];
    if |classes| == 1 {
      JoinQuotedSingle(sep, classes, tail);
      ReadClassesAfterQuote(sep, c, tail);
      assert classes == [c];
    } else {
      var later := Join(QuoteAll(classes[1..]), sep) + tail;
      JoinQuotedCons(sep, classes, tail);
      ReadClassesAfterQuote(sep, c, sep + later);
      SeparatorThen(sep, later);
      ReadClassesRoundTrip(sep, classes[1..], tail);
      assert [c] + classes[1..] == classes;
    }
  }

  /** A one-class list is that class quoted. */
  lemma JoinQuotedSingle(sep: string, classes: seq<string>, tail: string)
    requires |classes| == 1
    ensures Join(QuoteAll(classes), sep) + tail == Quote(classes[0]) + tail
  {
  }

  /** A longer list is the first class quoted, the separator and the rest. */
  lemma JoinQuotedCons(sep: string, classes: seq<string>, tail: string)
    requires |classes| > 1
    ensures Join(QuoteAll(classes), sep) + tail == Quote(classes[0]) + (sep + (Join(QuoteAll(classes[1..]), sep) + tail))
  {
    var q, r := QuoteAll(classes), QuoteAll(classes[1..]);
    QuoteAllTail(classes);
    assert q == [q[0]] + r;
    JoinCons(q[0], r, sep);
    Regroup(q[0], sep, Join(r, sep), tail);
  }

  lemma QuoteAllTail(classes: seq<string>)
    requires |classes| > 0
    ensures QuoteAll(classes)[0] == Quote(classes[0])
    ensures QuoteAll(classes)[1..] == QuoteAll(classes[1..])
  {
    assert QuoteAll(classes)[1..] == QuoteAll(classes[1..]);
  }

  lemma Regroup(a: string, b: string, c: string, d: string)
    ensures a + b + c + d == a + (b + (c + d))
  {
  }

  lemma SeparatorThen(sep: string, later: string)
    ensures HasPrefix(sep + later, sep) && (sep + later)[|sep|..] == later
  {
    PrefixOfConcat(sep, later);
  }

  /** Round trip of any layout whose footer does not start with the class
      separator, for a non-empty class list. */
  lemma LayoutRoundTrip(l: Layout, rootNamespace: string, destDirectory: string, classes: seq<string>)
    requires |l.separator| > 0 && !HasPrefix(l.footer, l.separator) && |classes| > 0
    ensures ReadLayout(l, Render(l, rootNamespace, destDirectory, classes))
         == Some(Config(rootNamespace, destDirectory, classes))
  {
    var x3 := Join(QuoteAll(classes), l.separator) + l.footer;
    var x2 := l.afterDestination + x3;
    var x1 := l.afterNamespace + (Quote(destDirectory) + x2);
    var text := Render(l, rootNamespace, destDirectory, classes);
    PrefixOfConcat(l.header, Quote(rootNamespace) + x1);
    assert text[|l.header|..] == Quote(rootNamespace) + x1;
    QuoteRoundTrip(rootNamespace, x1);
    PrefixOfConcat(l.afterNamespace, Quote(destDirectory) + x2);
    assert x1[|l.afterNamespace|..] == Quote(destDirectory) + x2;
    QuoteRoundTrip(destDirectory, x2);
    PrefixOfConcat(l.afterDestination, x3);
    assert x2[|l.afterDestination|..] == x3;
    ReadClassesRoundTrip(l.separator, classes, l.footer);
  }

  /** Round trip of the config file: for a non-empty class list, the written
      text reads back as exactly the root namespace, destination directory and
      classes it was rendered from. */
  lemma ConfigRoundTrip(eol: string, rootNamespace: string, destDirectory: string, classes: seq<string>)
    requires ValidEol(eol) && |classes| > 0
    ensures ReadConfig(eol, RenderConfig(eol, rootNamespace, destDirectory, classes))
         == Some(Config(rootNamespace, destDirectory, classes))
  {
    var l := LayoutFor(eol);
    assert !HasPrefix(l.footer, l.separator) by {
      assert l.footer[0] == eol[0] && l.separator[0] == ',';
    }
    LayoutRoundTrip(l, rootNamespace, destDirectory, classes);
  }
}
