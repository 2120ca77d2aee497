/** The passes of `markdownToHTML` that rewrite spans anywhere in the text
    (blog.js:162-164, 172, 175, 178, 181, 189-191). Each is a call of
    `String.prototype.replace` with a global regular expression: the text is
    scanned from the left, the leftmost match is replaced, the scan resumes
    after it, and a position where nothing matches is copied unchanged.
    `ReplaceFrom` is that scan; `MatchAt` says what each pattern matches at
    the current position. For every pattern below, backtracking cannot lead
    to a match other than the one written out: each character class is
    taken greedily up to the first character it excludes, and that
    character is the one the pattern needs next. */
module Spans {
  import opened Text
  import opened HtmlEscape

  datatype SpanRule =
    | CodeBlock    // /```([\s\S]*?)```/g
    | Link         // /\[([^\]]+)\]\(([^)]+)\)/g
    | Bold         // /\*\*([^*]+)\*\*/g
    | Italic       // /(?<!\*)\*([^*]+)\*(?!\*)/g
    | InlineCode   // /`([^`]+)`/g
    | ListRun      // /(<li>.*<\/li>\n?)+/g

  /** A match at the current position: how many characters it consumes and
      what replaces them. */
  datatype Hit = Hit(len: nat, out: string)

  /** The text a match of `rule` must begin with. */
  function Opener(rule: SpanRule): string {
    match rule
    case CodeBlock => "```"
    case Link => "["
    case Bold => "**"
    case Italic => "*"
    case InlineCode => "`"
    case ListRun => "<li>"
  }

  /** Non-greedy `[\s\S]*?`: the body ends at the first closing fence; the
      callback trims it and escapes it. */
  function CodeBlockAt(t: string): (r: Option<Hit>)
    ensures r.Some? ==> var n := r.value.len;
      && 6 <= n <= |t| && StartsWith(t, "```") && StartsAt(t, "```", n - 3)
      && (forall m :: 3 <= m < n - 3 ==> !StartsAt(t, "```", m))
      && r.value.out == "<pre><code>" + EscapeHtml(Trim(t[3..n - 3])) + "</code></pre>"
    ensures r.None? ==> !StartsWith(t, "```") || forall m :: 3 <= m ==> !StartsAt(t, "```", m)
  {
    if StartsWith(t, "```") then
      match Find(t, "```", 3)
      case Some(j) => Some(Hit(j + 3, "<pre><code>" + EscapeHtml(Trim(t[3..j])) + "</code></pre>"))
      case None => None
    else None
  }

  function AnchorHtml(url: string, caption: string): string {
    "<a href=\"" + url + "\" target=\"_blank\" rel=\"noopener noreferrer\">" + caption + "</a>"
  }

  /** `[L](U)` at the start of `t`, L being non-empty and free of `]` and
      U non-empty and free of `)`, becomes an anchor to U labelled L. */
  function LinkAt(t: string): (r: Option<Hit>)
    ensures r.Some? ==> exists a :: LinkSplit(t, a, r.value)
  {
    if t != [] && t[0] == '[' then
      var a := IndexOfFrom(t, ']', 1);
      if 1 < a && a + 1 < |t| && t[a + 1] == '(' then
        var b := IndexOfFrom(t, ')', a + 2);
        if a + 2 < b < |t| then
          LinkParts(t, a, b);
          assert LinkSplit(t, a, Hit(b + 1, AnchorHtml(t[a + 2..b], t[1..a])));
          Some(Hit(b + 1, AnchorHtml(t[a + 2..b], t[1..a])))
        else None
      else None
    else None
  }

  /** `h` replaces `[L](U)` where the `]` is at `a`: L is `t[1..a]`, U the
      text between `(` and the `)` that ends the match. */
  predicate LinkSplit(t: string, a: nat, h: Hit) {
    && 1 < a && a + 3 < h.len <= |t|
    && t[0] == '[' && t[a] == ']' && t[a + 1] == '(' && t[h.len - 1] == ')'
    && ']' !in t[1..a] && ')' !in t[a + 2..h.len - 1]
    && h.out == AnchorHtml(t[a + 2..h.len - 1], t[1..a])
  }

  lemma LinkParts(t: string, a: nat, b: nat)
    requires t != [] && t[0] == '[' && 1 < a && a + 2 < b < |t|
    requires t[a] == ']' && t[a + 1] == '(' && t[b] == ')'
    requires forall m :: 1 <= m < a ==> t[m] != ']'
    requires forall m :: a + 2 <= m < b ==> t[m] != ')'
    ensures ']' !in t[1..a] && ')' !in t[a + 2..b]
  {
    Starless(t, 1, a, ']');
    Starless(t, a + 2, b, ')');
  }

  /** `**T**` at the start of `t`, T non-empty and free of `*`, becomes
      `<strong>T</strong>`. */
  function BoldAt(t: string): (r: Option<Hit>)
    ensures r.Some? ==> var n := r.value.len;
      && 4 < n <= |t| && t[..2] == "**" && t[n - 2..n] == "**" && '*' !in t[2..n - 2]
      && r.value.out == "<strong>" + t[2..n - 2] + "</strong>"
  {
    if StartsWith(t, "**") then
      var a := IndexOfFrom(t, '*', 2);
      if 2 < a && a + 1 < |t| && t[a + 1] == '*' then
        Starless(t, 2, a, '*');
        assert t[a..a + 2] == [t[a], t[a + 1]];
        Some(Hit(a + 2, "<strong>" + t[2..a] + "</strong>"))
      else None
    else None
  }

  /** A stretch of `t` that `IndexOfFrom` skipped holds no `c`. */
  lemma Starless(t: string, i: nat, j: nat, c: char)
    requires i <= j <= |t| && forall m :: i <= m < j ==> t[m] != c
    ensures c !in t[i..j]
  {
    assert forall m :: 0 <= m < j - i ==> t[i..j][m] == t[m + i];
  }

  /** `prev` is the character before the current position in the text being
      scanned (the lookbehind reads the input, not the output). */
  function ItalicAt(prev: Option<char>, t: string): (r: Option<Hit>)
    ensures r.Some? ==> var n := r.value.len;
      && prev != Some('*') && 2 < n <= |t| && t[0] == '*' && t[n - 1] == '*'
      && '*' !in t[1..n - 1] && (n == |t| || t[n] != '*')
      && r.value.out == "<em>" + t[1..n - 1] + "</em>"
  {
    if prev != Some('*') && t != [] && t[0] == '*' then
      var a := IndexOfFrom(t, '*', 1);
      if 1 < a < |t| && (a + 1 == |t| || t[a + 1] != '*') then
        Starless(t, 1, a, '*');
        Some(Hit(a + 1, "<em>" + t[1..a] + "</em>"))
      else None
    else None
  }

  function InlineCodeAt(t: string): (r: Option<Hit>)
    ensures r.Some? ==> var n := r.value.len;
      && 2 < n <= |t| && t[0] == '`' && t[n - 1] == '`' && '`' !in t[1..n - 1]
      && r.value.out == "<code>" + t[1..n - 1] + "</code>"
  {
    if t != [] && t[0] == '`' then
      var a := IndexOfFrom(t, '`', 1);
      if 1 < a < |t| then
        Starless(t, 1, a, '`');
        Some(Hit(a + 1, "<code>" + t[1..a] + "</code>"))
      else None
    else None
  }

  /** One iteration of `(<li>.*<\/li>\n?)` at `k`: the greedy `.*` stops at
      the end of the line and backs off to the LAST `</li>` on it; a `\n`
      right after is taken too. There is no iteration exactly when `<li>`
      does not start at `k` or no `</li>` follows it on its line. */
  function ItemEnd(t: string, k: nat): (r: Option<nat>)
    requires k <= |t|
    ensures r.Some? ==> k + 9 <= r.value <= |t| && StartsAt(t, "<li>", k)
    ensures r.Some? ==> IterationShape(t, k, ClosingStart(t, r.value), r.value)
    ensures StartsAt(t, "<li>", k) && r.None? ==>
      forall m :: k + 4 <= m && m + 5 <= LineEnd(t, k + 4) ==> !StartsAt(t, "</li>", m)
  {
    if StartsAt(t, "<li>", k) then
      var e := LineEnd(t, k + 4);
      match FindLast(t, "</li>", k + 4, e)
      case Some(j) =>
        var n := if j + 5 < |t| && t[j + 5] == '\n' then j + 6 else j + 5;
        ClosingOf(t, k, j, n);
        Some(n)
      case None => None
    else None
  }

  /** Where the `</li>` of an iteration ending at `n` starts. */
  function ClosingStart(t: string, n: nat): int
    requires 0 < n <= |t|
  {
    if t[n - 1] == '\n' then n - 6 else n - 5
  }

  /** The iteration at `k` ends at `n` with its `</li>` at `j`: the `</li>`
      lies on the `<li>`'s line after the `<li>`, no later `</li>` does,
      and a `\n` right after it is taken. */
  predicate IterationShape(t: string, k: nat, j: int, n: nat) {
    && k + 4 <= |t| && k + 4 <= j && j + 5 <= LineEnd(t, k + 4)
    && StartsAt(t, "</li>", j)
    && (forall m :: j < m && m + 5 <= LineEnd(t, k + 4) ==> !StartsAt(t, "</li>", m))
    && n == (if j + 5 < |t| && t[j + 5] == '\n' then j + 6 else j + 5)
  }

  lemma ClosingOf(t: string, k: nat, j: nat, n: nat)
    requires StartsAt(t, "<li>", k) && FindLast(t, "</li>", k + 4, LineEnd(t, k + 4)) == Some(j)
    requires n == (if j + 5 < |t| && t[j + 5] == '\n' then j + 6 else j + 5)
    ensures k + 9 <= n <= |t| && IterationShape(t, k, j, n) && ClosingStart(t, n) == j
  {
    assert t[j + 4] == t[j..j + 5][4] == '>';
  }

  /** `r` is reached from `k` by whole iterations of the group, each taken
      where the previous one ended. */
  predicate Iterates(t: string, k: nat, r: nat)
    requires k <= |t|
    decreases |t| - k
  {
    k == r || (ItemEnd(t, k).Some? && Iterates(t, ItemEnd(t, k).value, r))
  }

  /** The greedy `+`: iterations are taken for as long as one matches. */
  function RunEnd(t: string, k: nat): (r: nat)
    requires k <= |t|
    ensures k <= r <= |t|
    ensures Iterates(t, k, r) && ItemEnd(t, r).None?
    decreases |t| - k
  {
    match ItemEnd(t, k)
    case Some(k') => RunEnd(t, k')
    case None => k
  }

  /** A run of items at the start of `t`, taken until no item follows,
      becomes a `<ul>` around it. */
  function ListRunAt(t: string): (h: Option<Hit>)
    ensures h.Some? <==> ItemEnd(t, 0).Some?
    ensures h.Some? ==> var n := h.value.len;
      && 0 < n <= |t| && Iterates(t, 0, n) && ItemEnd(t, n).None?
      && h.value.out == "<ul>" + t[..n] + "</ul>"
  {
    if ItemEnd(t, 0).Some? then
      var n := RunEnd(t, 0);
      Some(Hit(n, "<ul>" + t[..n] + "</ul>"))
    else None
  }

  /** The match of `rule` at the start of `t`, if any. Every match is
      non-empty, begins with the rule's opener, and its replacement begins
      with the `<` of a tag. */
  function MatchAt(rule: SpanRule, prev: Option<char>, t: string): (h: Option<Hit>)
    ensures h.Some? ==> 0 < h.value.len <= |t| && StartsWith(t, Opener(rule))
    ensures h.Some? ==> h.value.out != [] && h.value.out[0] == '<'
  {
    match rule
    case CodeBlock => CodeBlockAt(t)
    case Link => LinkAt(t)
    case Bold => BoldAt(t)
    case Italic => ItalicAt(prev, t)
    case InlineCode => InlineCodeAt(t)
    case ListRun => ListRunAt(t)
  }

  /** The global replace, scanning `t`; `prev` is the input character just
      before `t`. */
  function ReplaceFrom(rule: SpanRule, prev: Option<char>, t: string): (r: string)
    ensures r == [] <==> t == []
    ensures '<' !in r ==> r == t
    decreases |t|
  {
    if t == [] then []
    else match MatchAt(rule, prev, t)
      case Some(h) => h.out + ReplaceFrom(rule, Some(t[h.len - 1]), t[h.len..])
      case None => [t[0]] + ReplaceFrom(rule, Some(t[0]), t[1..])
  }

  function ReplaceAll(rule: SpanRule, s: string): (r: string)
    ensures r == [] <==> s == []
    ensures '<' !in r ==> r == s
  {
    ReplaceFrom(rule, None, s)
  }

  function LastOr(prev: Option<char>, a: string): Option<char> {
    if a == [] then prev else Some(a[|a| - 1])
  }

  /** One step of the scan where the pattern matches. */
  lemma MatchStep(rule: SpanRule, prev: Option<char>, t: string, h: Hit)
    requires MatchAt(rule, prev, t) == Some(h)
    ensures ReplaceFrom(rule, prev, t) == h.out + ReplaceFrom(rule, Some(t[h.len - 1]), t[h.len..])
  {
  }

  /** One step of the scan where the pattern does not match. */
  lemma NoMatchStep(rule: SpanRule, prev: Option<char>, t: string)
    requires t != [] && MatchAt(rule, prev, t).None?
    ensures ReplaceFrom(rule, prev, t) == [t[0]] + ReplaceFrom(rule, Some(t[0]), t[1..])
  {
  }

  /** The output of a scan starts with a tag where the pattern matches. */
  lemma FirstOut(rule: SpanRule, prev: Option<char>, t: string)
    requires t != []
    ensures ReplaceFrom(rule, prev, t) != []
    ensures ReplaceFrom(rule, prev, t)[0] != '<' ==> MatchAt(rule, prev, t).None?
  {
  }

  /** A position where the opener does not start is copied. */
  lemma CopyStep(rule: SpanRule, prev: Option<char>, t: string)
    requires t != [] && !StartsWith(t, Opener(rule))
    ensures ReplaceFrom(rule, prev, t) == [t[0]] + ReplaceFrom(rule, Some(t[0]), t[1..])
  {
    assert MatchAt(rule, prev, t).None?;
  }

  /** Positions where no match can start are copied: a prefix that lacks
      the first character of the rule's opener passes through unchanged. */
  lemma {:induction false} SkipPrefix(rule: SpanRule, prev: Option<char>, a: string, rest: string)
    requires Opener(rule)[0] !in a
    ensures ReplaceFrom(rule, prev, a + rest) == a + ReplaceFrom(rule, LastOr(prev, a), rest)
    decreases |a|
  {
    if a != [] {
      var t := a + rest;
      ConsSplit(a, rest);
      HeadOf(t, Opener(rule));
      CopyStep(rule, prev, t);
      SkipPrefix(rule, Some(a[0]), a[1..], rest);
      LastOrStep(prev, a);
      var x := ReplaceFrom(rule, LastOr(prev, a), rest);
      assert [a[0]] + (a[1..] + x) == a + x;
    } else {
      assert a + rest == rest;
    }
  }

  lemma ConsSplit(a: string, rest: string)
    requires a != []
    ensures (a + rest)[0] == a[0] && (a + rest)[1..] == a[1..] + rest && a == [a[0]] + a[1..]
  {
  }

  lemma LastOrStep(prev: Option<char>, a: string)
    requires a != []
    ensures LastOr(Some(a[0]), a[1..]) == LastOr(prev, a)
  {
  }

  /** A text that lacks the first character of the opener is left
      unchanged. */
  lemma Unchanged(rule: SpanRule, prev: Option<char>, t: string)
    requires Opener(rule)[0] !in t
    ensures ReplaceFrom(rule, prev, t) == t
  {
    assert t + [] == t;
    SkipPrefix(rule, prev, t, []);
  }

  /** When the output begins with text free of `<`, that text was copied from
      the input (every replacement begins with `<`). */
  lemma {:induction false} RawPrefix(rule: SpanRule, prev: Option<char>, t: string, p: string)
    requires |p| <= |ReplaceFrom(rule, prev, t)| && ReplaceFrom(rule, prev, t)[..|p|] == p
    requires '<' !in p
    ensures |p| <= |t| && t[..|p|] == p
    decreases |p|
  {
    if p != [] {
      var o := ReplaceFrom(rule, prev, t);
      assert t != [];
      assert o[0] == p[0] && p[0] in p;
      FirstOut(rule, prev, t);
      var o' := ReplaceFrom(rule, Some(t[0]), t[1..]);
      NoMatchStep(rule, prev, t);
      TailPrefix(o, o', t[0], p);
      assert '<' !in p[1..] by {
        forall c | c in p[1..] ensures c != '<' {
          assert c in p;
        }
      }
      RawPrefix(rule, Some(t[0]), t[1..], p[1..]);
      ConsPrefix(t, p);
    }
  }

  /** A prefix of `[c] + o'` is `c` followed by a prefix of `o'`. */
  lemma TailPrefix(o: string, o': string, c: char, p: string)
    requires o == [c] + o' && p != [] && |p| <= |o| && o[..|p|] == p
    ensures c == p[0] && |p| - 1 <= |o'| && o'[..|p| - 1] == p[1..]
  {
    assert o[0] == o[..|p|][0];
    forall m | 0 <= m < |p| - 1 ensures o'[m] == p[1..][m] {
      assert o'[m] == o[m + 1] == o[..|p|][m + 1];
    }
  }

  /** A text whose first character and the prefix of whose tail agree with
      `p` starts with `p`. */
  lemma ConsPrefix(t: string, p: string)
    requires t != [] && p != [] && t[0] == p[0]
    requires |p| - 1 <= |t[1..]| && t[1..][..|p| - 1] == p[1..]
    ensures |p| <= |t| && t[..|p|] == p
  {
    forall m | 0 <= m < |p| ensures t[m] == p[m] {
      if m > 0 {
        assert t[m] == t[1..][..|p| - 1][m - 1];
      }
    }
  }

  // ---------------------------------------------------------------------
  // Fenced code blocks (blog.js:162-164)

  /** The body of a code block: it does not contain the fence, and ends
      early enough that no fence starts inside it or across its end. */
  predicate FenceFreeBody(x: string) {
    forall m :: 0 <= m < |x| ==> !StartsAt(x + "``", "```", m)
  }

  /** A span "```X```" is replaced by `<pre><code>`, X trimmed and escaped,
      and `</code></pre>`; the escaped body holds no `<` or `>`. X may span
      lines. */
  lemma CodeBlockSpan(prev: Option<char>, x: string, rest: string)
    requires FenceFreeBody(x)
    ensures var body := EscapeHtml(Trim(x));
            && '<' !in body && '>' !in body
            && ReplaceFrom(CodeBlock, prev, "```" + x + "```" + rest)
               == "<pre><code>" + body + "</code></pre>" + ReplaceFrom(CodeBlock, Some('`'), rest)
  {
    var t := "```" + x + "```" + rest;
    CodeBlockMatch(x, rest);
    MatchStep(CodeBlock, prev, t, Hit(|x| + 6, "<pre><code>" + EscapeHtml(Trim(x)) + "</code></pre>"));
  }

  lemma CodeBlockMatch(x: string, rest: string)
    requires FenceFreeBody(x)
    ensures var t := "```" + x + "```" + rest;
            && CodeBlockAt(t) == Some(Hit(|x| + 6, "<pre><code>" + EscapeHtml(Trim(x)) + "</code></pre>"))
            && t[|x| + 5] == '`' && t[|x| + 6..] == rest
  {
    var t := "```" + x + "```" + rest;
    var j := 3 + |x|;
    assert t[..3] == "```";
    ClosingFence(x, rest);
    CodeBlockFound(t, j);
    assert t[3..j] == x && t[j + 3..] == rest && t[j + 2] == '`';
  }

  lemma CodeBlockFound(t: string, j: nat)
    requires StartsWith(t, "```") && 3 <= |t| && Find(t, "```", 3) == Some(j)
    ensures CodeBlockAt(t) == Some(Hit(j + 3, "<pre><code>" + EscapeHtml(Trim(t[3..j])) + "</code></pre>"))
  {
  }

  /** The first closing fence after the opening one ends the body. */
  lemma ClosingFence(x: string, rest: string)
    requires FenceFreeBody(x)
    ensures Find("```" + x + "```" + rest, "```", 3) == Some(3 + |x|)
  {
    var t := "```" + x + "```" + rest;
    var j := 3 + |x|;
    assert t[j..j + 3] == "```";
    assert StartsAt(t, "```", j);
    assert t == "```" + (x + "``") + ("`" + rest);
    forall m | 3 <= m < j
      ensures !StartsAt(t, "```", m)
    {
      assert !StartsAt(x + "``", "```", m - 3);
      assert t[m..m + 3] == (x + "``")[m - 3..m];
    }
  }

  /** A body without backticks cannot hold or end a fence. */
  lemma FenceFreeOf(x: string)
    requires '`' !in x
    ensures FenceFreeBody(x)
  {
    forall m | 0 <= m < |x| ensures !StartsAt(x + "``", "```", m) {
      assert (x + "``")[m] == x[m];
    }
  }

  // ---------------------------------------------------------------------
  // Links (blog.js:172)

  /** `[L](U)`, with L free of `]` and U free of `)`, becomes an anchor to U
      opening in a new tab, labelled L. */
  lemma LinkSpan(prev: Option<char>, caption: string, url: string, rest: string)
    requires caption != [] && ']' !in caption
    requires url != [] && ')' !in url
    ensures ReplaceFrom(Link, prev, "[" + caption + "](" + url + ")" + rest)
            == "<a href=\"" + url + "\" target=\"_blank\" rel=\"noopener noreferrer\">" + caption + "</a>"
               + ReplaceFrom(Link, Some(')'), rest)
  {
    var t := "[" + caption + "](" + url + ")" + rest;
    LinkMatch(caption, url, rest);
    MatchStep(Link, prev, t, Hit(|caption| + |url| + 4, AnchorHtml(url, caption)));
  }

  lemma LinkMatch(caption: string, url: string, rest: string)
    requires caption != [] && ']' !in caption
    requires url != [] && ')' !in url
    ensures var t := "[" + caption + "](" + url + ")" + rest;
            && LinkAt(t) == Some(Hit(|caption| + |url| + 4, AnchorHtml(url, caption)))
            && t[|caption| + |url| + 3] == ')' && t[|caption| + |url| + 4..] == rest
  {
    var t := "[" + caption + "](" + url + ")" + rest;
    var a := 1 + |caption|;
    var b := a + 2 + |url|;
    LinkText(t, caption, url, rest);
    assert IndexOfFrom(t, ']', 1) == a;
    assert IndexOfFrom(t, ')', a + 2) == b;
    LinkFound(t, a, b);
  }

  lemma LinkText(t: string, caption: string, url: string, rest: string)
    requires caption != [] && ']' !in caption
    requires url != [] && ')' !in url
    requires t == "[" + caption + "](" + url + ")" + rest
    ensures var a := 1 + |caption|; var b := a + 2 + |url|;
            && |t| == b + 1 + |rest| && t[0] == '['
            && t[a] == ']' && t[a + 1] == '(' && t[b] == ')'
            && t[1..a] == caption && t[a + 2..b] == url && t[b + 1..] == rest
            && (forall m :: 1 <= m < a ==> t[m] != ']')
            && (forall m :: a + 2 <= m < b ==> t[m] != ')')
  {
    var a := 1 + |caption|;
    var b := a + 2 + |url|;
    forall m | 1 <= m < a ensures t[m] != ']' {
      assert t[m] == caption[m - 1];
    }
    forall m | a + 2 <= m < b ensures t[m] != ')' {
      assert t[m] == url[m - a - 2];
    }
  }

  lemma LinkFound(t: string, a: nat, b: nat)
    requires t != [] && t[0] == '[' && 1 < a && a + 2 < b < |t| && t[a + 1] == '('
    requires IndexOfFrom(t, ']', 1) == a && IndexOfFrom(t, ')', a + 2) == b
    ensures LinkAt(t) == Some(Hit(b + 1, AnchorHtml(t[a + 2..b], t[1..a])))
  {
  }

  // ---------------------------------------------------------------------
  // Bold and italic (blog.js:175, 178)

  /** `**T**`, with T non-empty and free of `*`, becomes `<strong>T</strong>`. */
  lemma BoldSpan(prev: Option<char>, x: string, rest: string)
    requires x != [] && '*' !in x
    ensures ReplaceFrom(Bold, prev, "**" + x + "**" + rest)
            == "<strong>" + x + "</strong>" + ReplaceFrom(Bold, Some('*'), rest)
  {
    var t := "**" + x + "**" + rest;
    var a := 2 + |x|;
    assert t[a] == '*' && t[a + 1] == '*';
    assert t[2..a] == x && t[a + 2..] == rest;
    assert forall m :: 2 <= m < a ==> t[m] == x[m - 2];
    assert IndexOfFrom(t, '*', 2) == a;
  }

  /** The bold pass can leave a `**T**` behind: in `****x****` the scan
      matches nothing at the first two stars and then replaces `**x**`, so
      the output opens with `**`, a star-free non-empty text, and `**`,
      which the same pattern would match. */
  lemma BoldCanRemain(x: string)
    requires x != [] && '*' !in x
    ensures ReplaceAll(Bold, "****" + x + "****") == "**<strong>" + x + "</strong>**"
    ensures BoldAt("**<strong>" + x + "</strong>**").Some?
  {
    var t := "****" + x + "****";
    var t1 := "***" + x + "****";
    var t2 := "**" + x + "**" + "**";
    assert t[1..] == t1 && t1[1..] == t2;
    NoBoldAtStar(None, t);
    NoBoldAtStar(Some('*'), t1);
    BoldSpan(Some('*'), x, "**");
    TwoStarsKept();
    var o2 := "<strong>" + x + "</strong>" + "**";
    assert ReplaceFrom(Bold, Some('*'), t2) == o2;
    assert ReplaceFrom(Bold, Some('*'), t1) == "*" + o2;
    assert ReplaceAll(Bold, t) == "*" + ("*" + o2);
    StarsAround(x, o2);
    StrongBetweenStars(x);
  }

  lemma StarsAround(x: string, o2: string)
    requires o2 == "<strong>" + x + "</strong>" + "**"
    ensures "*" + ("*" + o2) == "**<strong>" + x + "</strong>**"
  {
  }

  lemma TwoStarsKept()
    ensures ReplaceFrom(Bold, Some('*'), "**") == "**"
  {
    NoBoldAtStar(Some('*'), "**");
    assert "**"[1..] == "*";
    assert ReplaceFrom(Bold, Some('*'), "*") == "*";
  }

  /** Two stars followed by a third one do not open a bold span. */
  lemma NoBoldAtStar(prev: Option<char>, t: string)
    requires |t| >= 2 && t[0] == '*' && t[1] == '*' && (|t| == 2 || t[2] == '*')
    ensures ReplaceFrom(Bold, prev, t) == "*" + ReplaceFrom(Bold, Some('*'), t[1..])
  {
    assert IndexOfFrom(t, '*', 2) == 2;
    assert MatchAt(Bold, prev, t).None?;
  }

  lemma StrongBetweenStars(x: string)
    requires '*' !in x
    ensures BoldAt("**<strong>" + x + "</strong>**").Some?
  {
    var y := "<strong>" + x + "</strong>";
    var o := "**" + y + "**";
    assert '*' !in y;
    assert forall m :: 2 <= m < 2 + |y| ==> o[m] == y[m - 2];
    assert o[2 + |y|] == '*' && o[3 + |y|] == '*';
    assert IndexOfFrom(o, '*', 2) == 2 + |y|;
    assert o[..2] == "**";
    assert o == "**<strong>" + x + "</strong>**";
  }

  /** `t` begins with `**T**` where T is non-empty and free of both `*` and
      `<`: text the bold pattern would match. */
  predicate OpensBold(t: string) {
    && StartsWith(t, "**")
    && var a := IndexOfFrom(t, '*', 2);
       2 < a && a + 1 < |t| && t[a + 1] == '*' && '<' !in t[2..a]
  }

  /** No `**T**` with T free of `*` and `<` starts anywhere in `o`. */
  predicate NoBoldIn(o: string) {
    forall i :: 0 <= i <= |o| ==> !OpensBold(o[i..])
  }

  /** After the bold pass no `**T**` with T free of `*` and `<` is left: the
      pass is a single scan, and any such span that survives would have been
      matched where it starts. */
  lemma {:induction false} NoBoldLeft(prev: Option<char>, t: string)
    ensures NoBoldIn(ReplaceFrom(Bold, prev, t))
    decreases |t|
  {
    if t != [] {
      match MatchAt(Bold, prev, t)
      case Some(h) =>
        MatchStep(Bold, prev, t, h);
        NoBoldLeft(Some(t[h.len - 1]), t[h.len..]);
        BoldOutStarless(prev, t, h);
        NoBoldAfterStarless(h.out, ReplaceFrom(Bold, Some(t[h.len - 1]), t[h.len..]));
      case None =>
        NoMatchStep(Bold, prev, t);
        NoBoldLeft(Some(t[0]), t[1..]);
        NoBoldAtStart(prev, t);
        NoBoldCons(t[0], ReplaceFrom(Bold, Some(t[0]), t[1..]));
    }
  }

  /** What the bold pass writes for a match holds no `*`. */
  lemma BoldOutStarless(prev: Option<char>, t: string, h: Hit)
    requires MatchAt(Bold, prev, t) == Some(h)
    ensures '*' !in h.out
  {
    var a := IndexOfFrom(t, '*', 2);
    assert '*' !in t[2..a];
  }

  /** A character in front of a text without a bold span adds none, unless
      one opens at that very character. */
  lemma NoBoldCons(c: char, o': string)
    requires NoBoldIn(o') && !OpensBold([c] + o')
    ensures NoBoldIn([c] + o')
  {
    var o := [c] + o';
    forall i | 0 <= i <= |o|
      ensures !OpensBold(o[i..])
    {
      if i == 0 {
        assert o[i..] == o;
      } else {
        assert o[i..] == o'[i - 1..];
      }
    }
  }

  lemma NoBoldAfterStarless(x: string, y: string)
    requires '*' !in x && NoBoldIn(y)
    ensures NoBoldIn(x + y)
  {
    forall i | 0 <= i <= |x + y|
      ensures !OpensBold((x + y)[i..])
    {
      if i < |x| {
        assert (x + y)[i..][0] == x[i];
        HeadOf((x + y)[i..], "**");
      } else {
        assert (x + y)[i..] == y[i - |x|..];
      }
    }
  }

  /** Where the bold pattern does not match, the output does not open a bold
      span either. */
  lemma NoBoldAtStart(prev: Option<char>, t: string)
    requires t != [] && MatchAt(Bold, prev, t).None?
    ensures !OpensBold(ReplaceFrom(Bold, prev, t))
  {
    var o := ReplaceFrom(Bold, prev, t);
    var o' := ReplaceFrom(Bold, Some(t[0]), t[1..]);
    NoMatchStep(Bold, prev, t);
    if OpensBold(o) {
      var n := IndexOfFrom(o, '*', 2) + 2;
      OpenedBoldRaw(o, o', t[0]);
      RawPrefix(Bold, Some(t[0]), t[1..], o[1..n]);
      SamePrefix(t, o, n);
      BoldFromPrefix(t, o, n);
      assert false;
    }
  }

  /** The span `**T**` opening `[c] + o'`, apart from its first star, is
      free of `<` and is a prefix of `o'`. */
  lemma OpenedBoldRaw(o: string, o': string, c: char)
    requires o == [c] + o' && OpensBold(o)
    ensures var n := IndexOfFrom(o, '*', 2) + 2;
            n - 1 <= |o'| && o[1..n] == o'[..n - 1] && '<' !in o[1..n]
  {
    var a := IndexOfFrom(o, '*', 2);
    assert o[1] == o[..2][1] == '*';
    forall m | 1 <= m < a + 2 ensures o[m] != '<' {
      if 2 <= m < a {
        assert o[m] == o[2..a][m - 2] && o[2..a][m - 2] in o[2..a];
      }
    }
    var p := o[1..a + 2];
    forall c | c in p ensures c != '<' {
      var m :| 0 <= m < |p| && p[m] == c;
      assert c == o[m + 1];
    }
    forall m | 0 <= m < a + 1 ensures p[m] == o'[m] {
      assert p[m] == o[m + 1];
    }
  }

  /** Texts that agree after their first character, and on it, agree. */
  lemma SamePrefix(t: string, o: string, n: nat)
    requires t != [] && o != [] && t[0] == o[0] && 1 <= n <= |o|
    requires n - 1 <= |t[1..]| && t[1..][..n - 1] == o[1..n]
    ensures n <= |t| && t[..n] == o[..n]
  {
    forall m | 0 <= m < n ensures t[m] == o[m] {
      if m > 0 {
        assert t[m] == t[1..][..n - 1][m - 1];
      }
    }
  }

  /** Whether `**T**` opens a text depends only on the text's first
      characters. */
  lemma BoldFromPrefix(t: string, o: string, n: nat)
    requires n <= |t| && n <= |o| && t[..n] == o[..n]
    requires OpensBold(o) && IndexOfFrom(o, '*', 2) + 2 <= n
    ensures BoldAt(t).Some?
  {
    var a := IndexOfFrom(o, '*', 2);
    OpensBoldParts(o);
    PrefixChars(t, o, n);
    BoldFound(t, a);
  }

  lemma OpensBoldParts(o: string)
    requires OpensBold(o)
    ensures var a := IndexOfFrom(o, '*', 2);
            && 2 < a && a + 1 < |o| && o[0] == '*' && o[1] == '*' && o[a] == '*' && o[a + 1] == '*'
  {
    assert o[0] == o[..2][0] && o[1] == o[..2][1];
  }

  /** Two stars, a star-free text, and two stars open a bold span. */
  lemma BoldFound(t: string, a: nat)
    requires |t| >= 2 && t[0] == '*' && t[1] == '*' && 2 < a && a + 1 < |t| && t[a] == '*' && t[a + 1] == '*'
    requires forall m :: 2 <= m < a ==> t[m] != '*'
    ensures BoldAt(t).Some?
  {
    assert t[..2] == "**";
    assert IndexOfFrom(t, '*', 2) == a;
  }

  lemma PrefixChars(t: string, o: string, n: nat)
    requires n <= |t| && n <= |o| && t[..n] == o[..n]
    ensures forall m :: 0 <= m < n ==> t[m] == o[m]
  {
    forall m | 0 <= m < n ensures t[m] == o[m] {
      assert t[m] == t[..n][m];
    }
  }

  /** A single-`*` span, not preceded or followed by another `*`, with T
      non-empty and free of `*`, becomes `<em>T</em>`. */
  lemma ItalicSpan(prev: Option<char>, x: string, rest: string)
    requires prev != Some('*')
    requires x != [] && '*' !in x
    requires rest == [] || rest[0] != '*'
    ensures ReplaceFrom(Italic, prev, "*" + x + "*" + rest)
            == "<em>" + x + "</em>" + ReplaceFrom(Italic, Some('*'), rest)
  {
    var t := "*" + x + "*" + rest;
    var a := 1 + |x|;
    assert t[a] == '*' && t[1..a] == x && t[a + 1..] == rest;
    assert forall m :: 1 <= m < a ==> t[m] == x[m - 1];
    assert IndexOfFrom(t, '*', 1) == a;
  }

  // ---------------------------------------------------------------------
  // Inline code (blog.js:181)

  /** `` `T` ``, with T non-empty and free of backticks, becomes
      `<code>T</code>`; T is not escaped. */
  lemma InlineCodeSpan(prev: Option<char>, x: string, rest: string)
    requires x != [] && '`' !in x
    ensures ReplaceFrom(InlineCode, prev, "`" + x + "`" + rest)
            == "<code>" + x + "</code>" + ReplaceFrom(InlineCode, Some('`'), rest)
  {
    var t := "`" + x + "`" + rest;
    var a := 1 + |x|;
    assert t[a] == '`' && t[1..a] == x && t[a + 1..] == rest;
    assert forall m :: 1 <= m < a ==> t[m] == x[m - 1];
    assert IndexOfFrom(t, '`', 1) == a;
  }

  // ---------------------------------------------------------------------
  // Wrapping list items in <ul> (blog.js:189-191)

  function Item(x: string): string {
    "<li>" + x + "</li>\n"
  }

  /** Consecutive item lines, each ended by a newline. */
  function ItemLines(xs: seq<string>): string {
    if xs == [] then [] else Item(xs[0]) + ItemLines(xs[1..])
  }

  lemma SliceSplit(t: string, k: nat, u: string, v: string)
    requires k + |u + v| <= |t| && t[k..k + |u + v|] == u + v
    ensures t[k..k + |u|] == u && t[k + |u|..k + |u| + |v|] == v
  {
    assert t[k..k + |u|] == t[k..k + |u + v|][..|u|];
    assert t[k + |u|..k + |u| + |v|] == t[k..k + |u + v|][|u|..];
  }

  lemma ItemAt(t: string, k: nat, x: string)
    requires TerminatorFree(x)
    requires k + |Item(x)| <= |t| && t[k..k + |Item(x)|] == Item(x)
    ensures ItemEnd(t, k) == Some(k + |Item(x)|)
  {
    var e := k + 4 + |x| + 5;
    ItemLine(t, k, x);
    assert FindLast(t, "</li>", k + 4, e) == Some(e - 5);
  }

  /** Where the line of an item placed at `k` ends. */
  lemma ItemLine(t: string, k: nat, x: string)
    requires TerminatorFree(x)
    requires k + |Item(x)| <= |t| && t[k..k + |Item(x)|] == Item(x)
    ensures StartsAt(t, "<li>", k) && StartsAt(t, "</li>", k + 4 + |x|)
    ensures LineEnd(t, k + 4) == k + 4 + |x| + 5 && t[k + 4 + |x| + 5] == '\n'
  {
    var e := k + 4 + |x| + 5;
    SliceSplit(t, k, "<li>" + x, "</li>\n");
    SliceSplit(t, k, "<li>", x);
    SliceSplit(t, k + 4 + |x|, "</li>", "\n");
    assert t[e] == t[e..e + 1][0] == '\n';
    assert forall m :: k + 4 <= m < k + 4 + |x| ==> t[m] == x[m - k - 4];
    assert LineEnd(t, k + 4) == e;
  }

  /** One iteration of the wrap pattern matches at `k` for each item of
      `xs` in turn, each ending where the item line ends. */
  predicate ItemsFrom(t: string, k: nat, xs: seq<string>)
    decreases xs
  {
    xs == [] ||
      (&& k <= |t| && ItemEnd(t, k) == Some(k + |Item(xs[0])|)
       && ItemsFrom(t, k + |Item(xs[0])|, xs[1..]))
  }

  /** Where those items end. */
  function ItemsEnd(k: nat, xs: seq<string>): nat
    decreases xs
  {
    if xs == [] then k else ItemsEnd(k + |Item(xs[0])|, xs[1..])
  }

  /** The repetition of the wrap pattern takes every item and stops after
      the last one. */
  lemma {:induction false} RunOfItems(t: string, k: nat, xs: seq<string>)
    requires ItemsFrom(t, k, xs) && ItemsEnd(k, xs) <= |t| && !StartsAt(t, "<li>", ItemsEnd(k, xs))
    ensures RunEnd(t, k) == ItemsEnd(k, xs)
    decreases xs
  {
    if xs == [] {
      RunEndStop(t, k);
    } else {
      var k' := k + |Item(xs[0])|;
      ItemsFromCons(t, k, xs, k');
      RunEndStep(t, k, k');
      RunOfItems(t, k', xs[1..]);
    }
  }

  /** The first item of a chain, and the chain of the others after it. */
  lemma ItemsFromCons(t: string, k: nat, xs: seq<string>, k': nat)
    requires xs != [] && ItemsFrom(t, k, xs) && k' == k + |Item(xs[0])|
    ensures k <= |t| && ItemEnd(t, k) == Some(k')
    ensures ItemsFrom(t, k', xs[1..]) && ItemsEnd(k, xs) == ItemsEnd(k', xs[1..])
  {
  }

  /** A chain is its first item followed by the chain of the others. */
  lemma ItemsFromStep(t: string, k: nat, xs: seq<string>, k': nat)
    requires xs != [] && k' == k + |Item(xs[0])| && k <= |t|
    requires ItemEnd(t, k) == Some(k') && ItemsFrom(t, k', xs[1..])
    ensures ItemsFrom(t, k, xs)
  {
  }

  /** The item lines of `xs` lie one after the other in `t` from `k` on,
      each free of line breaks. */
  predicate ItemSlices(t: string, k: nat, xs: seq<string>)
    decreases xs
  {
    xs == [] ||
      (&& TerminatorFree(xs[0])
       && k + |Item(xs[0])| <= |t| && t[k..k + |Item(xs[0])|] == Item(xs[0])
       && ItemSlices(t, k + |Item(xs[0])|, xs[1..]))
  }

  /** Item lines at `k`, each free of line breaks, lie one after the other,
      ending where the lines end. */
  lemma {:induction false} ItemLinesFrom(t: string, k: nat, xs: seq<string>)
    requires forall i :: 0 <= i < |xs| ==> TerminatorFree(xs[i])
    requires k + |ItemLines(xs)| <= |t| && t[k..k + |ItemLines(xs)|] == ItemLines(xs)
    ensures ItemSlices(t, k, xs) && ItemsEnd(k, xs) == k + |ItemLines(xs)|
    decreases xs
  {
    if xs != [] {
      var ys := xs[1..];
      ItemsSplit(t, k, xs);
      forall i | 0 <= i < |ys| ensures TerminatorFree(ys[i]) {
        assert ys[i] == xs[i + 1];
      }
      ItemLinesFrom(t, k + |Item(xs[0])|, ys);
    }
  }

  /** Each item line is one iteration of the wrap pattern. */
  lemma {:induction false} SlicesAreItems(t: string, k: nat, xs: seq<string>)
    requires ItemSlices(t, k, xs)
    ensures ItemsFrom(t, k, xs)
    decreases xs
  {
    if xs != [] {
      var k' := k + |Item(xs[0])|;
      SlicesCons(t, k, xs, k');
      ItemAt(t, k, xs[0]);
      SlicesAreItems(t, k', xs[1..]);
      ItemsFromStep(t, k, xs, k');
    }
  }

  lemma SlicesCons(t: string, k: nat, xs: seq<string>, k': nat)
    requires xs != [] && ItemSlices(t, k, xs) && k' == k + |Item(xs[0])|
    ensures TerminatorFree(xs[0]) && k' <= |t| && t[k..k'] == Item(xs[0])
    ensures ItemSlices(t, k', xs[1..])
  {
  }

  /** Item lines at `k` are their first item followed by the others. */
  lemma ItemsSplit(t: string, k: nat, xs: seq<string>)
    requires xs != []
    requires k + |ItemLines(xs)| <= |t| && t[k..k + |ItemLines(xs)|] == ItemLines(xs)
    ensures var n := |Item(xs[0])|;
            && k + n + |ItemLines(xs[1..])| == k + |ItemLines(xs)|
            && t[k..k + n] == Item(xs[0])
            && t[k + n..k + n + |ItemLines(xs[1..])|] == ItemLines(xs[1..])
  {
    ItemLinesCons(xs);
    SliceSplit(t, k, Item(xs[0]), ItemLines(xs[1..]));
  }

  lemma ItemLinesCons(xs: seq<string>)
    requires xs != []
    ensures ItemLines(xs) == Item(xs[0]) + ItemLines(xs[1..])
    ensures |ItemLines(xs)| == |Item(xs[0])| + |ItemLines(xs[1..])|
  {
  }

  /** The repetition goes on after an item that matched. */
  lemma RunEndStep(t: string, k: nat, k': nat)
    requires k <= |t| && ItemEnd(t, k) == Some(k')
    ensures RunEnd(t, k) == RunEnd(t, k')
  {
  }

  /** The repetition stops where no item starts. */
  lemma RunEndStop(t: string, k: nat)
    requires k <= |t| && !StartsAt(t, "<li>", k)
    ensures RunEnd(t, k) == k
  {
  }

  lemma {:induction false} ItemLinesEnd(xs: seq<string>)
    requires xs != []
    ensures |ItemLines(xs)| > 0 && ItemLines(xs)[|ItemLines(xs)| - 1] == '\n'
    decreases xs
  {
    if xs[1..] != [] {
      ItemLinesEnd(xs[1..]);
    }
  }

  /** A text in which `<` is never followed by `l` holds no `<li>`. */
  predicate NoItemTag(t: string) {
    forall k :: 0 <= k < |t| - 1 ==> !(t[k] == '<' && t[k + 1] == 'l')
  }

  /** Where `<l` never occurs (so no `<li>` either), the wrapping pass
      leaves the text as it is. */
  lemma {:induction false} NoItemTagKept(prev: Option<char>, t: string)
    requires NoItemTag(t)
    ensures ReplaceFrom(ListRun, prev, t) == t
    decreases |t|
  {
    if t != [] {
      if |t| >= 4 {
        assert t[..4][0] == t[0] && t[..4][1] == t[1];
      }
      CopyStep(ListRun, prev, t);
      NoItemTagKept(Some(t[0]), t[1..]);
    }
  }

  /** A single item at the very end of the text, without a newline after
      it, is wrapped on its own. */
  lemma LastItemWrapped(prev: Option<char>, x: string)
    requires TerminatorFree(x)
    ensures ReplaceFrom(ListRun, prev, "<li>" + x + "</li>") == "<ul><li>" + x + "</li></ul>"
  {
    var t := "<li>" + x + "</li>";
    LastItemEnd(t, x);
    RunEndStep(t, 0, |t|);
    RunEndStop(t, |t|);
    WholeRun(prev, t);
    MatchStep(ListRun, prev, t, Hit(|t|, "<ul>" + t + "</ul>"));
    assert t[|t|..] == [];
    WrappedItem(x, t);
  }

  /** A run of items that fills the whole text is one match. */
  lemma WholeRun(prev: Option<char>, t: string)
    requires ItemEnd(t, 0).Some? && RunEnd(t, 0) == |t|
    ensures MatchAt(ListRun, prev, t) == Some(Hit(|t|, "<ul>" + t + "</ul>"))
  {
    assert t[..|t|] == t;
  }

  lemma WrappedItem(x: string, t: string)
    requires t == "<li>" + x + "</li>"
    ensures "<ul>" + t + "</ul>" + [] == "<ul><li>" + x + "</li></ul>"
  {
  }

  lemma LastItemEnd(t: string, x: string)
    requires TerminatorFree(x) && t == "<li>" + x + "</li>"
    ensures ItemEnd(t, 0) == Some(|t|)
  {
    var e := |t|;
    assert t[..4] == "<li>";
    assert TerminatorFree(t);
    assert LineEnd(t, 4) == e;
    assert t[e - 5..] == "</li>";
    assert StartsAt(t, "</li>", e - 5);
    assert FindLast(t, "</li>", 4, e) == Some(e - 5);
  }

  /** A maximal run of item lines is wrapped in exactly one `<ul>…</ul>`,
      the newlines staying inside it. */
  lemma ListBlockWrapped(prev: Option<char>, xs: seq<string>, rest: string)
    requires xs != []
    requires forall i :: 0 <= i < |xs| ==> TerminatorFree(xs[i])
    requires !StartsWith(rest, "<li>")
    ensures ReplaceFrom(ListRun, prev, ItemLines(xs) + rest)
            == "<ul>" + ItemLines(xs) + "</ul>" + ReplaceFrom(ListRun, Some('\n'), rest)
  {
    var b := ItemLines(xs);
    var t := b + rest;
    assert b == Item(xs[0]) + ItemLines(xs[1..]);
    assert t[..|Item(xs[0])|] == Item(xs[0]);
    ItemAt(t, 0, xs[0]);
    assert t[0..|b|] == b;
    assert t[|b|..] == rest;
    ItemLinesFrom(t, 0, xs);
    SlicesAreItems(t, 0, xs);
    RunOfItems(t, 0, xs);
    ItemLinesEnd(xs);
    assert t[..|b|] == b && t[|b|..] == rest && t[|b| - 1] == '\n';
  }
}
