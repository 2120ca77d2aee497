/** The passes of `markdownToHTML` anchored at line starts (blog.js:167-169,
    184, 187, 194). Each is a global, multiline `replace` whose pattern is
    a fixed line prefix followed by `(.*$)` or `(.+)$`: `^` matches at the
    start of the text or after a line terminator, and `.` stops at one, so a
    match covers exactly one line from its start to its end. The pass
    therefore rewrites every line on its own and keeps the line terminators
    between them; `MapLines` states it that way. */
module Lines {
  import opened Text

  datatype LineRule =
    | H3       // /^### (.*$)/gim
    | H2       // /^## (.*$)/gim
    | H1       // /^# (.*$)/gim
    | Quote    // /^> (.*$)/gim
    | Bullet   // /^- (.+)$/gim
    | Ordered  // /^\d+\. (.+)$/gim

  /** Number of consecutive digits at the start of `line`. */
  function DigitRun(line: string): (n: nat)
    ensures n <= |line|
    ensures forall i :: 0 <= i < n ==> IsDigit(line[i])
    ensures n < |line| ==> !IsDigit(line[n])
  {
    if line != [] && IsDigit(line[0]) then 1 + DigitRun(line[1..]) else 0
  }

  /** `line` with `prefix` replaced by an opening tag and a closing tag
      appended, when it starts with `prefix` (and, if `needRest`, has at
      least one character after it). */
  function Tagged(line: string, prefix: string, tag: string, needRest: bool): (r: string)
    ensures TerminatorFree(line) && TerminatorFree(tag) ==> TerminatorFree(r)
  {
    if StartsWith(line, prefix) && (!needRest || |line| > |prefix|) then
      "<" + tag + ">" + line[|prefix|..] + "</" + tag + ">"
    else line
  }

  function ApplyRule(rule: LineRule, line: string): (r: string)
    ensures TerminatorFree(line) ==> TerminatorFree(r)
  {
    match rule
    case H3 => Tagged(line, "### ", "h3", false)
    case H2 => Tagged(line, "## ", "h2", false)
    case H1 => Tagged(line, "# ", "h1", false)
    case Quote => Tagged(line, "> ", "blockquote", false)
    case Bullet => Tagged(line, "- ", "li", true)
    case Ordered =>
      var d := DigitRun(line);
      if 0 < d && d + 2 < |line| && line[d] == '.' && line[d + 1] == ' ' then
        "<li>" + line[d + 2..] + "</li>"
      else line
  }

  /** The rules applied to one line, in order. */
  function RewriteLine(rules: seq<LineRule>, line: string): (r: string)
    ensures TerminatorFree(line) ==> TerminatorFree(r)
  {
    if rules == [] then line
    else ApplyRule(rules[|rules| - 1], RewriteLine(rules[..|rules| - 1], line))
  }

  /** Every line of `s` rewritten by `rules`; the terminators are kept. A
      text of one line is that line rewritten. */
  function MapLines(rules: seq<LineRule>, s: string): (r: string)
    ensures TerminatorFree(s) ==> r == RewriteLine(rules, s)
    decreases |s|
  {
    var k := LineEnd(s, 0);
    assert k < |s| ==> s[k] in s;
    if k == |s| then RewriteLine(rules, s)
    else RewriteLine(rules, s[..k]) + [s[k]] + MapLines(rules, s[k + 1..])
  }

  /** The line terminators of `s`, in order. */
  function Breaks(s: string): string {
    if s == [] then []
    else (if IsLineTerminator(s[0]) then [s[0]] else []) + Breaks(s[1..])
  }

  lemma {:induction false} BreaksAppend(a: string, b: string)
    ensures Breaks(a + b) == Breaks(a) + Breaks(b)
    decreases |a|
  {
    if a != [] {
      assert (a + b)[1..] == a[1..] + b;
      BreaksAppend(a[1..], b);
    } else {
      assert a + b == b;
    }
  }

  lemma {:induction false} NoBreaks(a: string)
    requires TerminatorFree(a)
    ensures Breaks(a) == []
    decreases |a|
  {
    if a != [] {
      NoBreaks(a[1..]);
    }
  }

  /** One line, its terminator, and the rest. */
  lemma MapLinesStep(rules: seq<LineRule>, a: string, c: char, rest: string)
    requires TerminatorFree(a) && IsLineTerminator(c)
    ensures MapLines(rules, a + [c] + rest) == RewriteLine(rules, a) + [c] + MapLines(rules, rest)
  {
    var s := a + [c] + rest;
    assert s[|a|] == c;
    assert forall m :: 0 <= m < |a| ==> s[m] == a[m];
    assert LineEnd(s, 0) == |a|;
    assert s[..|a|] == a && s[|a| + 1..] == rest;
  }

  /** The line passes never add, remove or reorder line breaks. */
  lemma {:induction false} BreaksKept(rules: seq<LineRule>, s: string)
    ensures Breaks(MapLines(rules, s)) == Breaks(s)
    decreases |s|
  {
    var k := LineEnd(s, 0);
    if k == |s| {
      assert TerminatorFree(s);
      NoBreaks(s);
      NoBreaks(RewriteLine(rules, s));
    } else {
      var a := s[..k];
      assert TerminatorFree(a);
      assert s == a + [s[k]] + s[k + 1..];
      NoBreaks(a);
      NoBreaks(RewriteLine(rules, a));
      BreaksKept(rules, s[k + 1..]);
      BreaksAppend(RewriteLine(rules, a) + [s[k]], MapLines(rules, s[k + 1..]));
      BreaksAppend(RewriteLine(rules, a), [s[k]]);
      BreaksAppend(a + [s[k]], s[k + 1..]);
      BreaksAppend(a, [s[k]]);
    }
  }

  /** A one-line text run through a single rule. */
  lemma OneLine(r: LineRule, s: string)
    requires TerminatorFree(s)
    ensures MapLines([r], s) == ApplyRule(r, s)
  {
    assert [r][..0] == [];
    assert MapLines([r], s) == RewriteLine([r], s);
  }

  /** `> T` on a line of its own becomes a block quote of T. */
  lemma QuoteLine(x: string)
    requires TerminatorFree(x)
    ensures ApplyRule(Quote, "> " + x) == "<blockquote>" + x + "</blockquote>"
    ensures MapLines([Quote], "> " + x) == "<blockquote>" + x + "</blockquote>"
  {
    var line := "> " + x;
    QuoteRule(x, line);
    FreeAppend("> ", x);
    OneLine(Quote, line);
  }

  lemma QuoteRule(x: string, line: string)
    requires line == "> " + x
    ensures ApplyRule(Quote, line) == "<blockquote>" + x + "</blockquote>"
  {
    assert line[..2] == "> ";
    assert line[2..] == x;
  }

  /** `- T` with T non-empty becomes a list item holding T; on a line of
      its own, so does the whole multiline pass. */
  lemma BulletLine(x: string)
    requires x != []
    ensures ApplyRule(Bullet, "- " + x) == "<li>" + x + "</li>"
    ensures TerminatorFree(x) ==> MapLines([Bullet], "- " + x) == "<li>" + x + "</li>"
  {
    var line := "- " + x;
    BulletRule(x, line);
    if TerminatorFree(x) {
      FreeAppend("- ", x);
      OneLine(Bullet, line);
    }
  }

  lemma BulletRule(x: string, line: string)
    requires x != [] && line == "- " + x
    ensures ApplyRule(Bullet, line) == "<li>" + x + "</li>"
  {
    assert line[..2] == "- " && line[2..] == x;
  }

  /** A run of one or more digits, a dot, a space and a non-empty rest of
      line becomes a list item holding that rest; the number itself is
      dropped. */
  lemma OrderedLine(d: string, x: string)
    requires d != [] && forall i :: 0 <= i < |d| ==> IsDigit(d[i])
    requires x != [] && TerminatorFree(x)
    ensures ApplyRule(Ordered, d + ". " + x) == "<li>" + x + "</li>"
    ensures MapLines([Ordered], d + ". " + x) == "<li>" + x + "</li>"
  {
    var line := d + ". " + x;
    assert line[|d|] == '.' && line[|d| + 1] == ' ';
    var n := DigitRun(line);
    assert n == |d|;
    assert line[|d| + 2..] == x;
    assert TerminatorFree(d + ". ") by {
      forall c | c in d + ". " ensures !IsLineTerminator(c) {
        var i :| 0 <= i < |d + ". "| && (d + ". ")[i] == c;
      }
    }
    FreeAppend(d + ". ", x);
    OneLine(Ordered, line);
  }

  lemma FreeAppend(a: string, b: string)
    requires TerminatorFree(a) && TerminatorFree(b)
    ensures TerminatorFree(a + b)
  {
    forall c | c in a + b ensures !IsLineTerminator(c) {
      assert c in a || c in b;
    }
  }

  /** A line that opens with a tag is left alone by every line rule. */
  lemma TagLineKept(r: LineRule, line: string)
    requires line != [] && line[0] == '<'
    ensures ApplyRule(r, line) == line
  {
    HeadOf(line, "### ");
    HeadOf(line, "## ");
    HeadOf(line, "# ");
    HeadOf(line, "> ");
    HeadOf(line, "- ");
  }

  /** Running one more line pass over the result is the same as applying
      that rule last to every line. */
  lemma {:induction false} MapLinesThen(rules: seq<LineRule>, r: LineRule, s: string)
    ensures MapLines([r], MapLines(rules, s)) == MapLines(rules + [r], s)
    decreases |s|
  {
    var k := LineEnd(s, 0);
    if k == |s| {
      assert TerminatorFree(s);
      RewriteSnoc(rules, r, s);
    } else {
      var a := s[..k];
      var rest := s[k + 1..];
      assert TerminatorFree(a);
      assert MapLines(rules, s) == RewriteLine(rules, a) + [s[k]] + MapLines(rules, rest);
      assert MapLines(rules + [r], s) == RewriteLine(rules + [r], a) + [s[k]] + MapLines(rules + [r], rest);
      MapLinesStep([r], RewriteLine(rules, a), s[k], MapLines(rules, rest));
      RewriteSnoc(rules, r, a);
      MapLinesThen(rules, r, rest);
    }
  }

  /** One more rule after `rules` is that rule applied to the result. */
  lemma RewriteSnoc(rules: seq<LineRule>, r: LineRule, line: string)
    ensures RewriteLine([r], RewriteLine(rules, line)) == RewriteLine(rules + [r], line)
  {
    assert (rules + [r])[..|rules|] == rules;
    assert [r][..0] == [];
  }

  /** The heading a line becomes, decided from its prefix: `### `, `## `,
      `# ` give `<h3>`, `<h2>`, `<h1>` around the rest of the line; any other
      line is left as it is. */
  function Heading(line: string): string {
    if StartsWith(line, "### ") then "<h3>" + line[4..] + "</h3>"
    else if StartsWith(line, "## ") then "<h2>" + line[3..] + "</h2>"
    else if StartsWith(line, "# ") then "<h1>" + line[2..] + "</h1>"
    else line
  }

  /** The three header passes, run one after the other over the text, turn
      each line into its `Heading` and leave the line breaks in place. */
  lemma HeadingPasses(s: string)
    ensures MapLines([H1], MapLines([H2], MapLines([H3], s))) == MapLines([H3, H2, H1], s)
    ensures Breaks(MapLines([H3, H2, H1], s)) == Breaks(s)
    ensures forall line :: RewriteLine([H3, H2, H1], line) == Heading(line)
  {
    MapLinesThen([H3], H2, s);
    MapLinesThen([H3, H2], H1, s);
    assert [H3] + [H2] == [H3, H2] && [H3, H2] + [H1] == [H3, H2, H1];
    BreaksKept([H3, H2, H1], s);
    forall line ensures RewriteLine([H3, H2, H1], line) == Heading(line) {
      HeadingLine(line);
    }
  }

  lemma HeadingLine(line: string)
    ensures RewriteLine([H3, H2, H1], line) == Heading(line)
  {
    ThreeRules(line);
    if StartsWith(line, "### ") {
      HeadingThree(line);
    } else if StartsWith(line, "## ") {
      HeadingTwo(line);
    } else {
      HeadingOther(line);
    }
  }

  lemma HeadingThree(line: string)
    requires StartsWith(line, "### ")
    ensures ApplyRule(H1, ApplyRule(H2, ApplyRule(H3, line))) == Heading(line)
  {
    var l3 := ApplyRule(H3, line);
    assert l3 == "<h3>" + line[4..] + "</h3>";
    assert l3[0] == '<';
    TagLineKept(H2, l3);
    TagLineKept(H1, l3);
  }

  lemma HeadingTwo(line: string)
    requires !StartsWith(line, "### ") && StartsWith(line, "## ")
    ensures ApplyRule(H1, ApplyRule(H2, ApplyRule(H3, line))) == Heading(line)
  {
    assert ApplyRule(H3, line) == line;
    var l2 := ApplyRule(H2, line);
    assert l2 == "<h2>" + line[3..] + "</h2>";
    assert l2[0] == '<';
    TagLineKept(H1, l2);
  }

  lemma HeadingOther(line: string)
    requires !StartsWith(line, "### ") && !StartsWith(line, "## ")
    ensures ApplyRule(H1, ApplyRule(H2, ApplyRule(H3, line))) == Heading(line)
  {
    assert ApplyRule(H3, line) == line;
    assert ApplyRule(H2, line) == line;
  }

  lemma ThreeRules(line: string)
    ensures RewriteLine([H3, H2, H1], line) == ApplyRule(H1, ApplyRule(H2, ApplyRule(H3, line)))
  {
    assert [H3, H2, H1][..2] == [H3, H2] && [H3, H2][..1] == [H3] && [H3][..0] == [];
    assert RewriteLine([H3], line) == ApplyRule(H3, line);
    assert RewriteLine([H3, H2], line) == ApplyRule(H2, ApplyRule(H3, line));
  }
}
