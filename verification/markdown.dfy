/** `markdownToHTML` (blog.js:158-210): one text threaded through a fixed
    sequence of rewriting passes, each applied once to the whole result of
    the one before. The passes run over everything the earlier passes
    produced, including the inside of `<pre><code>` blocks: the comment at
    blog.js:161 says code is kept from further processing, but nothing in
    the code does that, and `CodeIsNotProtected` shows a bold span inside a
    fence being rewritten. */
module Markdown {
  import opened Text
  import opened HtmlEscape
  import opened Spans
  import opened Lines
  import opened Paragraphs

  /** The header passes, `###` first (blog.js:167-169). */
  function Headers(h: string): string {
    MapLines([H1], MapLines([H2], MapLines([H3], h)))
  }

  /** Links, bold, italic and inline code, in that order (blog.js:172-181). */
  function InlineSpans(h: string): string {
    ReplaceAll(InlineCode, ReplaceAll(Italic, ReplaceAll(Bold, ReplaceAll(Link, h))))
  }

  /** Block quotes, bullet items, their wrapping in `<ul>`, and ordered items
      (blog.js:184-194). */
  function BlockLines(h: string): string {
    MapLines([Ordered], ReplaceAll(ListRun, MapLines([Bullet], MapLines([Quote], h))))
  }

  /** The converted text opens with a tag, or with the blank line left by
      an empty first paragraph, or is empty. */
  function MarkdownToHtml(markdown: string): (html: string)
    ensures html == [] || html[0] == '<' || html[0] == '\n'
  {
    WrapParagraphs(BlockLines(InlineSpans(Headers(ReplaceAll(CodeBlock, markdown)))))
  }

  /** Text with no markup character and no line break: no pass finds
      anything to rewrite in it. */
  predicate Plain(x: string) {
    && x != []
    && forall c | c in x ::
         && !IsLineTerminator(c)
         && c != '`' && c != '[' && c != '*' && c != '<' && c != '>' && c != '&' && c != Nbsp
  }

  // ---------------------------------------------------------------------
  // How each group of passes treats one line of text

  /** A line that does not start with `#` is left alone by the headers. */
  lemma HeadersKeep(s: string)
    requires TerminatorFree(s) && s != [] && s[0] != '#'
    ensures Headers(s) == s
  {
    HeadingPasses(s);
    HeadOf(s, "### ");
    HeadOf(s, "## ");
    HeadOf(s, "# ");
  }

  /** Text without `[`, `*` or a backtick is left alone by the span passes. */
  lemma InlineKeep(h: string)
    requires '[' !in h && '*' !in h && '`' !in h
    ensures InlineSpans(h) == h
  {
    Unchanged(Link, None, h);
    Unchanged(Bold, None, h);
    Unchanged(Italic, None, h);
    Unchanged(InlineCode, None, h);
  }

  /** A line that opens with a tag and holds no `<li>` is left alone by the
      block-line passes. */
  lemma BlockLinesKeepTag(h: string)
    requires TerminatorFree(h) && h != [] && h[0] == '<' && NoItemTag(h)
    ensures BlockLines(h) == h
  {
    OneLine(Quote, h);
    TagLineKept(Quote, h);
    OneLine(Bullet, h);
    TagLineKept(Bullet, h);
    NoItemTagKept(None, h);
    OneLine(Ordered, h);
    TagLineKept(Ordered, h);
  }

  /** A single line that opens and closes with a tag is one paragraph, kept
      when it opens a block element and wrapped in `<p>` otherwise. */
  lemma OneTagParagraph(h: string)
    requires TerminatorFree(h) && h != [] && h[0] == '<' && h[|h| - 1] == '>'
    ensures WrapParagraphs(h) == if IsBlockStart(h) then h else "<p>" + h + "</p>"
  {
    LineHasNoBlank(h);
    TagChunk(h);
  }

  lemma TagChunk(h: string)
    requires h != [] && h[0] == '<' && h[|h| - 1] == '>'
    ensures WrapChunk(h) == if IsBlockStart(h) then h else "<p>" + h + "</p>"
  {
    TrimNoop(h);
  }

  /** `h` is `a`, then text free of `<`, then `b`, where `a` and `b` are
      tags with no `<l` inside. */
  lemma NoItemTagBetween(a: string, x: string, b: string)
    requires NoItemTag(a) && NoItemTag(b) && '<' !in x
    requires a != [] && a[|a| - 1] != '<' && b != [] && b[1..] != [] && b[0] == '<' && b[1] != 'l'
    ensures NoItemTag(a + x + b)
  {
    var h := a + x + b;
    forall k | 0 <= k < |h| - 1 ensures !(h[k] == '<' && h[k + 1] == 'l') {
      if k < |a| - 1 {
        assert h[k] == a[k] && h[k + 1] == a[k + 1];
      } else if k < |a| + |x| {
        if k >= |a| {
          assert h[k] == x[k - |a|];
        } else {
          assert h[k] == a[|a| - 1];
        }
      } else {
        assert h[k] == b[k - |a| - |x|];
        if k + 1 - |a| - |x| < |b| {
          assert h[k + 1] == b[k + 1 - |a| - |x|];
        }
      }
    }
  }

  // ---------------------------------------------------------------------
  // Whole documents

  /** The converter is the passes run stage by stage. */
  lemma Pipeline(s: string, h0: string, h1: string, h2: string, h3: string)
    requires ReplaceAll(CodeBlock, s) == h0 && Headers(h0) == h1
    requires InlineSpans(h1) == h2 && BlockLines(h2) == h3
    ensures MarkdownToHtml(s) == WrapParagraphs(h3)
  {
  }

  /** A one-line element with no markup character inside: the span and
      block-line passes leave it alone. */
  lemma ElementKept(h: string)
    requires TerminatorFree(h) && h != [] && h[0] == '<' && NoItemTag(h)
    requires '[' !in h && '*' !in h && '`' !in h
    ensures InlineSpans(h) == h && BlockLines(h) == h
  {
    InlineKeep(h);
    BlockLinesKeepTag(h);
  }

  /** Regrouping a text between two pairs of tags. */
  lemma Enclosed(x: string)
    ensures "<p>" + ("<strong>" + x + "</strong>") + "</p>" == "<p><strong>" + x + "</strong></p>"
    ensures "<p>" + ("<li>" + x + "</li>") + "</p>" == "<p><li>" + x + "</li></p>"
  {
  }

  /** A text opening with `<` and a lower-case letter that starts none of
      the block tag names is not a block start. */
  lemma OpensWith(h: string, c: char)
    requires |h| >= 2 && h[0] == '<' && h[1] == c
    requires c in "acefgijklmnqrstvwxyz"
    ensures !IsBlockStart(h)
  {
    assert LowerAscii(c) == c;
    assert h[1..][0] == c;
  }

  /** A document that is one `# ` heading line becomes one `<h1>` element,
      not wrapped in a paragraph. */
  lemma HeadingDocument(x: string)
    requires Plain(x)
    ensures MarkdownToHtml("# " + x) == "<h1>" + x + "</h1>"
  {
    var s := "# " + x;
    var h := "<h1>" + x + "</h1>";
    HeadingStages(x, s, h);
    Pipeline(s, s, h, h, h);
    OneTagParagraph(h);
  }

  /** What each pass does to `# T`. */
  lemma HeadingStages(x: string, s: string, h: string)
    requires Plain(x) && s == "# " + x && h == "<h1>" + x + "</h1>"
    ensures ReplaceAll(CodeBlock, s) == s && Headers(s) == h
    ensures InlineSpans(h) == h && BlockLines(h) == h
    ensures TerminatorFree(h) && h != [] && h[0] == '<' && h[|h| - 1] == '>' && IsBlockStart(h)
  {
    HeadingShape(x, s, h);
    Unchanged(CodeBlock, None, s);
    HeadingStage(x);
    ElementKept(h);
  }

  lemma HeadingShape(x: string, s: string, h: string)
    requires Plain(x) && s == "# " + x && h == "<h1>" + x + "</h1>"
    ensures '`' !in s && TerminatorFree(h) && '[' !in h && '*' !in h && '`' !in h
    ensures h != [] && h[0] == '<' && h[|h| - 1] == '>' && IsBlockStart(h) && NoItemTag(h)
  {
    HeadingChars(x, s, h);
    assert IsBlockStart(h) by {
      assert h[1..][0] == 'h' && h[1..][1] == '1';
    }
    NoItemTagBetween("<h1>", x, "</h1>");
  }

  lemma HeadingChars(x: string, s: string, h: string)
    requires Plain(x) && s == "# " + x && h == "<h1>" + x + "</h1>"
    ensures '`' !in s && TerminatorFree(h) && '[' !in h && '*' !in h && '`' !in h
    ensures h[0] == '<' && h[|h| - 1] == '>'
  {
  }

  lemma HeadingLineShape(x: string, s: string)
    requires Plain(x) && s == "# " + x
    ensures TerminatorFree(s) && !StartsWith(s, "### ") && !StartsWith(s, "## ")
    ensures StartsWith(s, "# ") && s[2..] == x
  {
    assert TerminatorFree(s);
    assert s[..3][1] == ' ';
    assert s[..2] == "# " && s[2..] == x;
  }

  lemma HeadingStage(x: string)
    requires Plain(x)
    ensures Headers("# " + x) == "<h1>" + x + "</h1>"
  {
    var s := "# " + x;
    HeadingLineShape(x, s);
    HeadingPasses(s);
  }

  /** `**T**` as a whole document becomes a paragraph holding
      `<strong>T</strong>`. */
  lemma BoldDocument(x: string)
    requires Plain(x)
    ensures MarkdownToHtml("**" + x + "**") == "<p><strong>" + x + "</strong></p>"
  {
    var s := "**" + x + "**";
    var h := "<strong>" + x + "</strong>";
    BoldStages(x, s, h);
    Pipeline(s, s, s, h, h);
    OneTagParagraph(h);
    Enclosed(x);
  }

  /** What each pass does to `**T**`. */
  lemma BoldStages(x: string, s: string, h: string)
    requires Plain(x) && s == "**" + x + "**" && h == "<strong>" + x + "</strong>"
    ensures ReplaceAll(CodeBlock, s) == s && Headers(s) == s
    ensures InlineSpans(s) == h && BlockLines(h) == h
    ensures TerminatorFree(h) && h != [] && h[0] == '<' && h[|h| - 1] == '>' && !IsBlockStart(h)
  {
    BoldShape(x, s, h);
    Unchanged(CodeBlock, None, s);
    HeadersKeep(s);
    BoldStage(x);
    BlockLinesKeepTag(h);
  }

  lemma BoldStage(x: string)
    requires Plain(x)
    ensures InlineSpans("**" + x + "**") == "<strong>" + x + "</strong>"
  {
    var s := "**" + x + "**";
    var h := "<strong>" + x + "</strong>";
    assert '[' !in s && '`' !in h && '*' !in h && '*' !in x;
    assert s + [] == s;
    assert h + [] == h;
    Unchanged(Link, None, s);
    BoldSpan(None, x, []);
    Unchanged(Italic, None, h);
    Unchanged(InlineCode, None, h);
  }

  /** The inside of a code fence is not protected from the later passes:
      ```` ```**T**``` ```` comes out as a code block holding
      `<strong>T</strong>`. */
  lemma CodeIsNotProtected(x: string)
    requires Plain(x)
    ensures MarkdownToHtml("```**" + x + "**```") == "<pre><code><strong>" + x + "</strong></code></pre>"
  {
    var s := "```**" + x + "**```";
    var h1 := "<pre><code>**" + x + "**</code></pre>";
    var h2 := "<pre><code><strong>" + x + "</strong></code></pre>";
    CodeStages(x, s, h1, h2);
    Pipeline(s, h1, h1, h2, h2);
    OneTagParagraph(h2);
  }

  lemma BoldShape(x: string, s: string, h: string)
    requires Plain(x) && s == "**" + x + "**" && h == "<strong>" + x + "</strong>"
    ensures '`' !in s && TerminatorFree(s) && s != [] && s[0] == '*'
    ensures TerminatorFree(h) && h != [] && h[0] == '<' && h[|h| - 1] == '>'
    ensures !IsBlockStart(h) && NoItemTag(h)
  {
    BoldChars(x, s, h);
    OpensWith(h, 's');
    NoItemTagBetween("<strong>", x, "</strong>");
  }

  lemma BoldChars(x: string, s: string, h: string)
    requires Plain(x) && s == "**" + x + "**" && h == "<strong>" + x + "</strong>"
    ensures '`' !in s && TerminatorFree(s) && TerminatorFree(h)
    ensures s[0] == '*' && h[0] == '<' && h[|h| - 1] == '>'
  {
  }

  /** What each pass does to ```` ```**T**``` ````. */
  lemma CodeStages(x: string, s: string, h1: string, h2: string)
    requires Plain(x) && s == "```**" + x + "**```"
    requires h1 == "<pre><code>**" + x + "**</code></pre>"
    requires h2 == "<pre><code><strong>" + x + "</strong></code></pre>"
    ensures ReplaceAll(CodeBlock, s) == h1 && Headers(h1) == h1
    ensures InlineSpans(h1) == h2 && BlockLines(h2) == h2
    ensures TerminatorFree(h2) && h2 != [] && h2[0] == '<' && h2[|h2| - 1] == '>' && IsBlockStart(h2)
  {
    CodeShape(x, h1, h2);
    CodeStage(x);
    HeadersKeep(h1);
    BoldInCode(x);
    BlockLinesKeepTag(h2);
  }

  lemma CodeShape(x: string, h1: string, h2: string)
    requires Plain(x)
    requires h1 == "<pre><code>**" + x + "**</code></pre>"
    requires h2 == "<pre><code><strong>" + x + "</strong></code></pre>"
    ensures TerminatorFree(h1) && h1 != [] && h1[0] == '<'
    ensures TerminatorFree(h2) && h2 != [] && h2[0] == '<' && h2[|h2| - 1] == '>'
    ensures IsBlockStart(h2) && NoItemTag(h2)
  {
    CodeChars(x, h1, h2);
    assert IsBlockStart(h2) by {
      assert h2[1..][0] == 'p';
    }
    NoItemTagBetween("<pre><code><strong>", x, "</strong></code></pre>");
  }

  lemma CodeChars(x: string, h1: string, h2: string)
    requires Plain(x)
    requires h1 == "<pre><code>**" + x + "**</code></pre>"
    requires h2 == "<pre><code><strong>" + x + "</strong></code></pre>"
    ensures TerminatorFree(h1) && TerminatorFree(h2)
    ensures h1[0] == '<' && h2[0] == '<' && h2[|h2| - 1] == '>' && h2[1..][0] == 'p'
  {
  }

  /** The fence pass on ```` ```**T**``` ````: trimming and escaping leave
      `**T**` as it is. */
  lemma CodeStage(x: string)
    requires Plain(x)
    ensures ReplaceAll(CodeBlock, "```**" + x + "**```") == "<pre><code>**" + x + "**</code></pre>"
  {
    var body := "**" + x + "**";
    assert '`' !in body && '&' !in body && '<' !in body && '>' !in body && Nbsp !in body;
    assert body[0] == '*' && body[|body| - 1] == '*';
    FenceConcat(x, body);
    FenceFreeOf(body);
    TrimNoop(body);
    EscapePlain(body);
    CodeBlockSpan(None, body, []);
  }

  lemma FenceConcat(x: string, body: string)
    requires body == "**" + x + "**"
    ensures "```**" + x + "**```" == "```" + body + "```" + []
    ensures "<pre><code>" + body + "</code></pre>" + [] == "<pre><code>**" + x + "**</code></pre>"
  {
  }

  /** The span passes on the code block: the bold span inside it is
      rewritten. */
  lemma BoldInCode(x: string)
    requires Plain(x)
    ensures InlineSpans("<pre><code>**" + x + "**</code></pre>")
            == "<pre><code><strong>" + x + "</strong></code></pre>"
  {
    var h1 := "<pre><code>**" + x + "**</code></pre>";
    var h2 := "<pre><code><strong>" + x + "</strong></code></pre>";
    CodeMarks(x, h1, h2);
    Unchanged(Link, None, h1);
    BoldInCodeStep(x);
    Unchanged(Italic, None, h2);
    Unchanged(InlineCode, None, h2);
  }

  lemma CodeMarks(x: string, h1: string, h2: string)
    requires Plain(x)
    requires h1 == "<pre><code>**" + x + "**</code></pre>"
    requires h2 == "<pre><code><strong>" + x + "</strong></code></pre>"
    ensures '[' !in h1 && '*' !in h2 && '`' !in h2
  {
  }

  lemma BoldInCodeStep(x: string)
    requires Plain(x)
    ensures ReplaceAll(Bold, "<pre><code>**" + x + "**</code></pre>")
            == "<pre><code><strong>" + x + "</strong></code></pre>"
  {
    var rest := "</code></pre>";
    assert '*' !in "<pre><code>" && '*' !in x && '*' !in rest;
    CodeConcat(x, rest);
    SkipPrefix(Bold, None, "<pre><code>", "**" + x + "**" + rest);
    BoldSpan(Some('>'), x, rest);
    Unchanged(Bold, Some('*'), rest);
  }

  lemma CodeConcat(x: string, rest: string)
    requires rest == "</code></pre>"
    ensures "<pre><code>**" + x + "**</code></pre>" == "<pre><code>" + ("**" + x + "**" + rest)
    ensures "<pre><code>" + ("<strong>" + x + "</strong>" + rest)
            == "<pre><code><strong>" + x + "</strong></code></pre>"
  {
  }

  /** A single `- ` item becomes a list of one item. */
  lemma BulletDocument(x: string)
    requires Plain(x)
    ensures MarkdownToHtml("- " + x) == "<ul><li>" + x + "</li></ul>"
  {
    var s := "- " + x;
    var h := "<ul><li>" + x + "</li></ul>";
    BulletStages(x, s, h);
    Pipeline(s, s, s, s, h);
    OneTagParagraph(h);
  }

  /** What each pass does to `- T`. */
  lemma BulletStages(x: string, s: string, h: string)
    requires Plain(x) && s == "- " + x && h == "<ul><li>" + x + "</li></ul>"
    ensures ReplaceAll(CodeBlock, s) == s && Headers(s) == s
    ensures InlineSpans(s) == s && BlockLines(s) == h
    ensures TerminatorFree(h) && h != [] && h[0] == '<' && h[|h| - 1] == '>' && IsBlockStart(h)
  {
    assert '`' !in s && '[' !in s && '*' !in s && TerminatorFree(s) && TerminatorFree(h);
    assert IsBlockStart(h) by {
      assert h[1..][0] == 'u' && h[1..][1] == 'l';
    }
    Unchanged(CodeBlock, None, s);
    HeadersKeep(s);
    InlineKeep(s);
    BulletStage(x);
  }

  lemma BulletStage(x: string)
    requires Plain(x)
    ensures BlockLines("- " + x) == "<ul><li>" + x + "</li></ul>"
  {
    var s := "- " + x;
    var h := "<ul><li>" + x + "</li></ul>";
    assert TerminatorFree(s) && TerminatorFree(x) && TerminatorFree(h);
    assert s[..2] == "- " && s[2..] == x;
    HeadOf(s, "> ");
    OneLine(Quote, s);
    OneLine(Bullet, s);
    BulletLine(x);
    LastItemWrapped(None, x);
    OneLine(Ordered, h);
    TagLineKept(Ordered, h);
  }

  /** An ordered item is turned into `<li>` only after the wrapping pass, so
      it gets no `<ul>` (nor `<ol>`); and since `<li` does not open a block
      element, the paragraph pass wraps it in `<p>`. */
  lemma OrderedItemNotWrapped(x: string)
    requires Plain(x)
    ensures MarkdownToHtml("1. " + x) == "<p><li>" + x + "</li></p>"
  {
    var s := "1. " + x;
    var h := "<li>" + x + "</li>";
    OrderedStages(x, s, h);
    Pipeline(s, s, s, s, h);
    OneTagParagraph(h);
    Enclosed(x);
  }

  /** What each pass does to `1. T`. */
  lemma OrderedStages(x: string, s: string, h: string)
    requires Plain(x) && s == "1. " + x && h == "<li>" + x + "</li>"
    ensures ReplaceAll(CodeBlock, s) == s && Headers(s) == s
    ensures InlineSpans(s) == s && BlockLines(s) == h
    ensures TerminatorFree(h) && h != [] && h[0] == '<' && h[|h| - 1] == '>' && !IsBlockStart(h)
  {
    assert '`' !in s && '[' !in s && '*' !in s && TerminatorFree(s) && TerminatorFree(h);
    OpensWith(h, 'l');
    Unchanged(CodeBlock, None, s);
    HeadersKeep(s);
    InlineKeep(s);
    OrderedStage(x);
  }

  lemma OrderedStage(x: string)
    requires Plain(x)
    ensures BlockLines("1. " + x) == "<li>" + x + "</li>"
  {
    var s := "1. " + x;
    assert TerminatorFree(s) && '<' !in s;
    assert DigitRun(s) == 1 by {
      assert s[1..][0] == '.';
    }
    assert s[3..] == x;
    HeadOf(s, "> ");
    HeadOf(s, "- ");
    OneLine(Quote, s);
    OneLine(Bullet, s);
    Unchanged(ListRun, None, s);
    OneLine(Ordered, s);
  }
}
