/** The last pass of `markdownToHTML` (blog.js:198-207): the text is split at
    every run of two or more newlines, each chunk is trimmed, an empty chunk
    becomes empty, a chunk that already opens a block-level element is kept,
    any other is wrapped in `<p>…</p>`, and the chunks are joined again with
    one blank line between them. */
module Paragraphs {
  import opened Text

  /** End of the run of newlines starting at `k`. */
  function NewlineRunEnd(s: string, k: nat): (r: nat)
    requires k <= |s|
    ensures k <= r <= |s|
    ensures forall m :: k <= m < r ==> s[m] == '\n'
    ensures r < |s| ==> s[r] != '\n'
    decreases |s| - k
  {
    if k < |s| && s[k] == '\n' then NewlineRunEnd(s, k + 1) else k
  }

  /** No two newlines follow each other in `s`. */
  predicate NoBlankLine(s: string) {
    forall m :: 0 <= m < |s| - 1 ==> !(s[m] == '\n' && s[m + 1] == '\n')
  }

  lemma LineHasNoBlank(s: string)
    requires TerminatorFree(s)
    ensures NoBlankLine(s)
  {
    forall m | 0 <= m < |s| - 1 ensures s[m] != '\n' {
      assert s[m] in s;
    }
  }

  lemma NoBlankLineFind(s: string)
    requires NoBlankLine(s)
    ensures Find(s, "\n\n", 0).None?
  {
    forall m: nat | m + 2 <= |s| ensures !StartsAt(s, "\n\n", m) {
      assert s[m..m + 2] == [s[m], s[m + 1]];
    }
  }

  /** `split(/\n\n+/)`: the chunks between maximal runs of at least two
      newlines. There is always at least one chunk, and none holds a blank
      line. The first chunk is where `s` starts, and when there are more it
      is followed by a newline. Each run is taken whole: no chunk after the
      first starts with a newline, and no chunk before the last ends with
      one, so only the first and the last chunk can be empty. */
  function SplitBlankLines(s: string): (chunks: seq<string>)
    ensures |chunks| >= 1
    ensures forall i :: 0 <= i < |chunks| ==> NoBlankLine(chunks[i])
    ensures |chunks[0]| <= |s| && chunks[0] == s[..|chunks[0]|]
    ensures |chunks| > 1 ==> |chunks[0]| + 2 <= |s| && s[|chunks[0]|] == '\n'
    ensures RunsTakenWhole(chunks)
    decreases |s|
  {
    match Find(s, "\n\n", 0)
    case None =>
      NoBlankLineOf(s);
      [s]
    case Some(q) =>
      var e := NewlineRunEnd(s, q);
      BlankLineAt(s, q, e);
      var rest := SplitBlankLines(s[e..]);
      assert rest[0] != [] ==> rest[0][0] == s[e];
      assert |rest| > 1 ==> rest[0] != [];
      RunsTakenWholeCons(s[..q], rest);
      [s[..q]] + rest
  }

  /** A text where no blank line is found has none. */
  lemma NoBlankLineOf(s: string)
    requires Find(s, "\n\n", 0).None?
    ensures NoBlankLine(s)
  {
    forall m | 0 <= m < |s| - 1 ensures !(s[m] == '\n' && s[m + 1] == '\n') {
      assert !StartsAt(s, "\n\n", m);
      assert s[m..m + 2] == [s[m], s[m + 1]];
    }
  }

  /** The first blank line of `s` is at `q` and its run of newlines ends at
      `e`: what comes before holds no blank line and does not end with a
      newline. */
  lemma BlankLineAt(s: string, q: nat, e: nat)
    requires Find(s, "\n\n", 0) == Some(q) && q <= |s| && e == NewlineRunEnd(s, q)
    ensures q + 2 <= e <= |s| && s[q] == '\n' && (e < |s| ==> s[e] != '\n')
    ensures NoBlankLine(s[..q]) && (q > 0 ==> s[q - 1] != '\n')
  {
    assert s[q] == s[q..q + 2][0] == '\n' && s[q + 1] == s[q..q + 2][1] == '\n';
    forall m | 0 <= m < q - 1 ensures !(s[..q][m] == '\n' && s[..q][m + 1] == '\n') {
      assert !StartsAt(s, "\n\n", m);
      assert s[m..m + 2] == [s[m], s[m + 1]];
    }
    if q > 0 {
      assert !StartsAt(s, "\n\n", q - 1);
      assert s[q - 1..q + 1] == [s[q - 1], s[q]];
    }
  }

  /** What splitting at maximal runs leaves: no chunk after the first
      starts with a newline, no chunk before the last ends with one, and no
      chunk between the first and the last is empty. */
  predicate RunsTakenWhole(chunks: seq<string>) {
    && (forall i :: 1 <= i < |chunks| ==> chunks[i] == [] || chunks[i][0] != '\n')
    && (forall i :: 0 <= i < |chunks| - 1 ==> chunks[i] == [] || chunks[i][|chunks[i]| - 1] != '\n')
    && (forall i :: 0 < i < |chunks| - 1 ==> chunks[i] != [])
  }

  lemma RunsTakenWholeCons(c: string, rest: seq<string>)
    requires RunsTakenWhole(rest) && rest != []
    requires NoBlankLine(c) && forall i :: 0 <= i < |rest| ==> NoBlankLine(rest[i])
    requires c == [] || c[|c| - 1] != '\n'
    requires rest[0] == [] || rest[0][0] != '\n'
    requires |rest| > 1 ==> rest[0] != []
    ensures RunsTakenWhole([c] + rest)
    ensures forall i :: 0 <= i < |[c] + rest| ==> NoBlankLine(([c] + rest)[i])
  {
    var chunks := [c] + rest;
    assert forall i :: 1 <= i < |chunks| ==> chunks[i] == rest[i - 1];
  }

  /** A chunk that joining and splitting keep as it is: non-empty, without
      a blank line, and neither starting nor ending with a newline. */
  predicate IsChunk(c: string) {
    c != [] && c[0] != '\n' && c[|c| - 1] != '\n' && NoBlankLine(c)
  }

  lemma JoinHead(cs: seq<string>, sep: string)
    requires cs != [] && cs[0] != []
    ensures Join(cs, sep) != [] && Join(cs, sep)[0] == cs[0][0]
  {
  }

  /** Splitting undoes joining with a blank line, for chunks that are kept
      as they are. */
  lemma {:induction false} SplitJoin(cs: seq<string>)
    requires cs != []
    requires forall i :: 0 <= i < |cs| ==> IsChunk(cs[i])
    ensures SplitBlankLines(Join(cs, "\n\n")) == cs
    decreases |cs|
  {
    if |cs| == 1 {
      NoBlankLineFind(cs[0]);
    } else {
      var c := cs[0];
      var rest := Join(cs[1..], "\n\n");
      var t := Join(cs, "\n\n");
      assert t == c + "\n\n" + rest;
      JoinHead(cs[1..], "\n\n");
      FirstChunk(c, rest);
      SplitStep(t, |c|);
      SplitJoin(cs[1..]);
    }
  }

  /** Where the first blank line is, and where the newline run after it
      ends, in a chunk followed by a blank line and more text. */
  lemma FirstChunk(c: string, rest: string)
    requires IsChunk(c) && rest != [] && rest[0] != '\n'
    ensures var t := c + "\n\n" + rest;
            && Find(t, "\n\n", 0) == Some(|c|) && NewlineRunEnd(t, |c|) == |c| + 2
            && t[..|c|] == c && t[|c| + 2..] == rest
  {
    var t := c + "\n\n" + rest;
    ChunkParts(t, c, rest);
    NoBlankBefore(t, c);
    assert StartsAt(t, "\n\n", |c|);
    assert t[|c| + 2] == rest[0];
  }

  lemma ChunkParts(t: string, c: string, rest: string)
    requires t == c + "\n\n" + rest
    ensures |t| == |c| + 2 + |rest|
    ensures t[..|c|] == c && t[|c|..|c| + 2] == "\n\n" && t[|c| + 2..] == rest
  {
  }

  /** No blank line starts inside a chunk that is followed by a newline. */
  lemma NoBlankBefore(t: string, c: string)
    requires NoBlankLine(c) && (c == [] || c[|c| - 1] != '\n') && |c| < |t| && t[..|c|] == c
    ensures forall m :: 0 <= m < |c| ==> !StartsAt(t, "\n\n", m)
  {
    forall m | 0 <= m < |c| ensures !StartsAt(t, "\n\n", m) {
      assert t[m] == t[..|c|][m];
      if m < |c| - 1 {
        assert t[m + 1] == t[..|c|][m + 1];
        assert !(c[m] == '\n' && c[m + 1] == '\n');
      }
      assert t[m..m + 2] == [t[m], t[m + 1]];
    }
  }

  /** Splitting at the first blank line. */
  lemma SplitStep(s: string, q: nat)
    requires q <= |s| && Find(s, "\n\n", 0) == Some(q)
    ensures SplitBlankLines(s) == [s[..q]] + SplitBlankLines(s[NewlineRunEnd(s, q)..])
  {
  }

  /** A run of two or more newlines is one separator, however long: the
      text before it is one chunk and the text after it is split on its
      own. */
  lemma SplitRun(c: string, run: string, rest: string)
    requires NoBlankLine(c) && (c == [] || c[|c| - 1] != '\n')
    requires |run| >= 2 && forall i :: 0 <= i < |run| ==> run[i] == '\n'
    requires rest == [] || rest[0] != '\n'
    ensures SplitBlankLines(c + run + rest) == [c] + SplitBlankLines(rest)
  {
    var t := c + run + rest;
    RunParts(t, c, run, rest);
    FirstRun(t, c, run);
    assert NewlineRunEnd(t, |c|) == |c| + |run|;
    SplitStep(t, |c|);
  }

  lemma RunParts(t: string, c: string, run: string, rest: string)
    requires t == c + run + rest
    ensures |t| == |c| + |run| + |rest|
    ensures t[..|c|] == c && t[|c|..|c| + |run|] == run && t[|c| + |run|..] == rest
  {
  }

  /** The first blank line of a chunk followed by a run of newlines is
      where the run starts. */
  lemma FirstRun(t: string, c: string, run: string)
    requires NoBlankLine(c) && (c == [] || c[|c| - 1] != '\n')
    requires |run| >= 2 && forall i :: 0 <= i < |run| ==> run[i] == '\n'
    requires |c| + |run| <= |t| && t[..|c|] == c && t[|c|..|c| + |run|] == run
    ensures Find(t, "\n\n", 0) == Some(|c|)
  {
    assert t[|c|] == run[0] && t[|c| + 1] == run[1] by {
      assert t[|c|..|c| + |run|][0] == t[|c|] && t[|c|..|c| + |run|][1] == t[|c| + 1];
    }
    assert StartsAt(t, "\n\n", |c|) by {
      assert t[|c|..|c| + 2] == [t[|c|], t[|c| + 1]];
    }
    NoBlankBefore(t, c);
    match Find(t, "\n\n", 0)
    case None =>
      assert false;
    case Some(v) =>
      assert !(v > |c|) && !(v < |c|);
  }

  /** ASCII case folding, which is what the `i` flag does for the letters of
      these patterns (no `u` flag). */
  function LowerAscii(c: char): char {
    if 'A' <= c <= 'Z' then (c as int - 'A' as int + 'a' as int) as char else c
  }

  /** `x` starts with the lower-case word `w`, ignoring ASCII case. */
  predicate StartsWithFolded(x: string, w: string) {
    |w| <= |x| && forall i :: 0 <= i < |w| ==> LowerAscii(x[i]) == w[i]
  }

  /** `/^<(h[1-6]|p|pre|ul|ol|blockquote|div)/i`: the chunk opens a heading,
      paragraph, preformatted block, list, block quote or division. (`pre`
      is subsumed by `p`, which also accepts any other tag starting with p.) */
  predicate IsBlockStart(p: string) {
    && |p| >= 2 && p[0] == '<'
    && var x := p[1..];
       || (LowerAscii(x[0]) == 'h' && |x| >= 2 && '1' <= x[1] <= '6')
       || StartsWithFolded(x, "p") || StartsWithFolded(x, "pre")
       || StartsWithFolded(x, "ul") || StartsWithFolded(x, "ol")
       || StartsWithFolded(x, "blockquote") || StartsWithFolded(x, "div")
  }

  /** The blocks the earlier passes make (headings, quotes, lists, code
      blocks, paragraphs) open a block element, in either case. */
  lemma BlockTagStart(p: string)
    ensures (|| StartsWith(p, "<ul") || StartsWith(p, "<blockquote") || StartsWith(p, "<p")
             || StartsWith(p, "<UL") || StartsWith(p, "<BLOCKQUOTE") || StartsWith(p, "<P")) ==> IsBlockStart(p)
  {
    FoldedTag(p, "<ul", "ul");
    FoldedTag(p, "<UL", "ul");
    FoldedTag(p, "<blockquote", "blockquote");
    FoldedTag(p, "<BLOCKQUOTE", "blockquote");
    FoldedTag(p, "<p", "p");
    FoldedTag(p, "<P", "p");
  }

  lemma HeadingStart(p: string)
    ensures (StartsWith(p, "<h") || StartsWith(p, "<H")) && |p| >= 3 && '1' <= p[2] <= '6' ==> IsBlockStart(p)
  {
    if |p| >= 3 {
      assert p[1..][0] == p[1] && p[1..][1] == p[2];
      CharAt(p, "<h", 0);
      CharAt(p, "<h", 1);
      CharAt(p, "<H", 0);
      CharAt(p, "<H", 1);
    }
  }

  /** What the inline passes make (emphasis, links, code spans, list
      items) does not open a block element. */
  lemma InlineTagStart(p: string)
    ensures (|| StartsWith(p, "<li") || StartsWith(p, "<em") || StartsWith(p, "<strong")
             || StartsWith(p, "<code") || StartsWith(p, "<a")) ==> !IsBlockStart(p)
  {
    if |p| >= 2 {
      assert p[1..][0] == p[1];
    }
    CharAt(p, "<li", 1);
    CharAt(p, "<em", 1);
    CharAt(p, "<strong", 1);
    CharAt(p, "<code", 1);
    CharAt(p, "<a", 1);
  }

  lemma CharAt(p: string, pat: string, i: nat)
    requires i < |pat|
    ensures StartsWith(p, pat) ==> p[i] == pat[i]
  {
    if StartsWith(p, pat) {
      assert p[..|pat|][i] == p[i];
    }
  }

  /** A text starting with `<` and a tag name whose lower-case form is `w`. */
  lemma FoldedTag(p: string, tag: string, w: string)
    requires w != [] && |tag| == |w| + 1 && tag[0] == '<'
    requires forall i :: 0 <= i < |w| ==> LowerAscii(tag[i + 1]) == w[i]
    ensures StartsWith(p, tag) ==> StartsWithFolded(p[1..], w) && |p| >= 2 && p[0] == '<'
  {
    if StartsWith(p, tag) {
      forall i | 0 <= i < |w| ensures LowerAscii(p[1..][i]) == w[i] {
        assert p[1..][i] == p[..|tag|][i + 1] == tag[i + 1];
      }
      assert p[0] == p[..|tag|][0];
    }
  }

  /** One chunk of the paragraph pass. The result is empty exactly when the
      chunk is blank; otherwise it opens a block element, has nothing to
      trim, and holds the trimmed chunk, unchanged when that already opened
      a block element. */
  function WrapChunk(chunk: string): (r: string)
    ensures (r == []) == (Trim(chunk) == [])
    ensures r != [] ==> IsBlockStart(r) && Trim(r) == r
    ensures Contains(r, Trim(chunk))
    ensures IsBlockStart(Trim(chunk)) ==> r == Trim(chunk)
    ensures Trim(chunk) != [] && !IsBlockStart(Trim(chunk)) ==> r == "<p>" + Trim(chunk) + "</p>"
  {
    var p := Trim(chunk);
    if p == [] then
      assert StartsAt([], p, 0);
      []
    else if IsBlockStart(p) then
      TrimNoop(p);
      assert StartsAt(p, p, 0);
      p
    else
      var r := "<p>" + p + "</p>";
      WrappedParagraph(p, r);
      TrimNoop(r);
      r
  }

  lemma WrappedParagraph(p: string, r: string)
    requires p != [] && !IsJsWhitespace(p[0]) && !IsJsWhitespace(p[|p| - 1])
    requires r == "<p>" + p + "</p>"
    ensures IsBlockStart(r) && r[0] == '<' && r[|r| - 1] == '>' && Contains(r, p)
  {
    ParagraphParts(r, p);
    assert StartsAt(r, p, 3);
    OpensParagraph(r);
  }

  lemma OpensParagraph(r: string)
    requires |r| >= 2 && r[0] == '<' && r[1..][0] == 'p'
    ensures IsBlockStart(r)
  {
    assert StartsWithFolded(r[1..], "p");
  }

  lemma ParagraphParts(r: string, p: string)
    requires r == "<p>" + p + "</p>"
    ensures |r| == |p| + 7 && r[3..3 + |p|] == p
    ensures r[0] == '<' && r[|r| - 1] == '>' && r[1..][0] == 'p'
  {
  }

  /** Wrapping a chunk a second time changes nothing. */
  lemma WrapChunkIdempotent(chunk: string)
    ensures WrapChunk(WrapChunk(chunk)) == WrapChunk(chunk)
  {
  }

  /** The paragraph pass: split, wrap each chunk, join with a blank line.
      A text without a blank line is a single chunk. */
  function WrapParagraphs(html: string): (r: string)
    ensures NoBlankLine(html) ==> r == WrapChunk(html)
    ensures r == [] || r[0] == '<' || r[0] == '\n'
  {
    var chunks := SplitBlankLines(html);
    assert NoBlankLine(html) ==> chunks == [html] by {
      if NoBlankLine(html) {
        NoBlankLineFind(html);
      }
    }
    JoinStart(WrapAll(chunks));
    Join(WrapAll(chunks), "\n\n")
  }

  /** The chunks joined start with the first one, or with the separator
      when that one is empty. */
  lemma JoinStart(ws: seq<string>)
    requires ws != [] && (ws[0] == [] || ws[0][0] == '<')
    ensures var r := Join(ws, "\n\n"); r == [] || r[0] == '<' || r[0] == '\n'
  {
    if |ws| > 1 {
      var r := Join(ws, "\n\n");
      assert r == ws[0] + "\n\n" + Join(ws[1..], "\n\n");
      if ws[0] == [] {
        assert r[0] == '\n';
      } else {
        assert r[0] == ws[0][0];
      }
    }
  }

  function WrapAll(chunks: seq<string>): (ws: seq<string>)
    ensures |ws| == |chunks| && forall i :: 0 <= i < |chunks| ==> ws[i] == WrapChunk(chunks[i])
  {
    seq(|chunks|, i requires 0 <= i < |chunks| => WrapChunk(chunks[i]))
  }

  /** A wrapped chunk that is not empty is kept as it is by splitting and
      joining. */
  lemma WrappedIsChunk(chunk: string)
    requires NoBlankLine(chunk) && Trim(chunk) != []
    ensures IsChunk(WrapChunk(chunk))
  {
    WrapNoBlank(chunk);
    ChunkOf(Trim(chunk), WrapChunk(chunk));
  }

  lemma ChunkOf(p: string, r: string)
    requires p != [] && !IsJsWhitespace(p[0]) && !IsJsWhitespace(p[|p| - 1]) && NoBlankLine(r)
    requires r == p || r == "<p>" + p + "</p>"
    ensures IsChunk(r)
  {
    if r != p {
      ParagraphParts(r, p);
    }
  }

  lemma WrapNoBlank(chunk: string)
    requires NoBlankLine(chunk)
    ensures NoBlankLine(WrapChunk(chunk))
  {
    var p := Trim(chunk);
    var a: nat :| a <= |chunk| && CutAt(chunk, p, a);
    SliceNoBlank(chunk, a, p);
    if p != [] && !IsBlockStart(p) {
      ParagraphNoBlank(p, "<p>" + p + "</p>");
    }
  }


  lemma SliceNoBlank(s: string, a: nat, p: string)
    requires NoBlankLine(s) && a + |p| <= |s| && p == s[a..a + |p|]
    ensures NoBlankLine(p)
  {
    forall m | 0 <= m < |p| - 1 ensures !(p[m] == '\n' && p[m + 1] == '\n') {
      assert p[m] == s[a + m] && p[m + 1] == s[a + m + 1];
    }
  }

  lemma ParagraphNoBlank(p: string, r: string)
    requires NoBlankLine(p) && r == "<p>" + p + "</p>"
    ensures NoBlankLine(r)
  {
    forall m | 0 <= m < |r| - 1 ensures !(r[m] == '\n' && r[m + 1] == '\n') {
      if 3 <= m && m + 1 < 3 + |p| {
        assert r[m] == p[m - 3] && r[m + 1] == p[m - 2];
      }
    }
  }

  /** When no chunk is blank, the paragraph pass is idempotent: a second
      pass finds the same chunks and keeps each of them. (A blank chunk
      leaves four newlines behind, which a second pass reads as one
      separator.) */
  lemma WrapParagraphsIdempotent(html: string)
    requires forall i :: 0 <= i < |SplitBlankLines(html)| ==> Trim(SplitBlankLines(html)[i]) != []
    ensures WrapParagraphs(WrapParagraphs(html)) == WrapParagraphs(html)
  {
    var cs := SplitBlankLines(html);
    var ws := WrapAll(cs);
    forall i | 0 <= i < |ws| ensures IsChunk(ws[i]) && WrapChunk(ws[i]) == ws[i] {
      WrappedIsChunk(cs[i]);
      WrapChunkIdempotent(cs[i]);
    }
    SplitJoin(ws);
    KeptAll(ws);
  }

  lemma KeptAll(ws: seq<string>)
    requires forall i :: 0 <= i < |ws| ==> WrapChunk(ws[i]) == ws[i]
    ensures WrapAll(ws) == ws
  {
  }
}
