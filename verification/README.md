# blog.js: the markdown converter and the view rules, in Dafny

`blog.js` is the client side of a static personal blog. It loads a list of
posts, shows them newest first, shows one post with its markdown body
converted to HTML, and keeps the view in step with the address bar and the
browser history. The model covers the parts of it that decide something:

- `markdownToHTML` (blog.js:158-210) and `escapeHtml` (blog.js:213-217).
  The converter is a fixed sequence of regular-expression passes, each run
  once over the whole text. In the model it is a composition of functions
  over `seq<char>`:
  - `text.dfy` holds JavaScript's character classes, substring search,
    `trim` and `join`.
  - `escape.dfy` holds the escape of the code-block text.
  - `spans.dfy` holds the passes that rewrite spans anywhere: code blocks,
    links, bold, italic, inline code and the `<ul>` wrap. They share one
    left-to-right global-replace scan.
  - `lines.dfy` holds the multiline `^…$` passes, which rewrite each line on
    its own.
  - `paragraphs.dfy` holds the final paragraph pass.
  - `markdown.dfy` composes the passes and proves what whole documents
    become.
- `posts.dfy`:
  - post lookup by id (blog.js:97);
  - the newest-first order of the list view (blog.js:54), a stable sort of
    a copy, so the list it is given is left as it was;
  - the markup of a post card and of the post view.
- `navigation.dfy`:
  - the query-string reading of `URLSearchParams`;
  - the screen a location shows on load and on back/forward (blog.js:326-341,
    235-246);
  - what `showPage` and `renderPost` show (blog.js:249-284, 96-128);
  - the URL each click pushes (blog.js:79, 90, 138-140, 229).

  A click is modelled as a pair: the screen it shows and the URL it pushes.
  Going back or forward is `OnLoad` on the URL of the history entry that is
  reached.

The model follows the code where a shorter description of the blog says
otherwise:

- The comment at blog.js:161 says code blocks are handled first so that
  their content is not processed. Nothing in the code does that: every later
  pass also runs inside `<pre><code>` (`Markdown.CodeIsNotProtected`).
- `"**bold**"` as a whole document becomes `<p><strong>bold</strong></p>`,
  not `<strong>bold</strong>`, because the paragraph pass wraps it
  (`Markdown.BoldDocument`). The bold pass alone gives
  `<strong>bold</strong>` (`Spans.BoldSpan`).
- Ordered items become `<li>` after the `<ul>` wrap, so they are never
  inside a list (`Markdown.OrderedItemNotWrapped`).
- The two arms of the conditional at blog.js:139 are both `index.html`.
  `Navigation.BackUrl` keeps the test and gives `index.html` either way.

## Model

| member | source | states |
|---|---|---|
| Text.Trim | blog.js:163 | `trim`: the result neither starts nor ends with JavaScript whitespace, and it is a slice of the input with only whitespace cut away on either side |
| Text.TrimNoop | blog.js:200 | trimming a text whose ends are not whitespace changes nothing |
| HtmlEscape.EscapeHtml | blog.js:213-217 | the escaped text contains no raw `<` or `>` and is never shorter than the input |
| HtmlEscape.UnescapeEscape | blog.js:213-217 | the escape loses nothing: decoding its four character references gives back the text |
| HtmlEscape.EscapePlain | blog.js:213-217 | text without `&`, `<`, `>` or U+00A0 is its own escape |
| Spans.CodeBlockAt | blog.js:162-164 | a code-block match opens with a fence, ends at the first closing fence after it and is replaced by `<pre><code>`, the escaped trimmed body and `</code></pre>`; there is no match exactly when the text lacks an opening fence or any later fence |
| Spans.LinkAt | blog.js:172 | a link match is `[L](U)` with L non-empty and free of `]`, U non-empty and free of `)`, and is replaced by the anchor to U opening in a new tab, labelled L |
| Spans.BoldAt | blog.js:175 | a bold match is `**T**` with T non-empty and free of `*`, replaced by `<strong>T</strong>` |
| Spans.ItalicAt | blog.js:178 | an italic match is `*T*` with T non-empty and free of `*`, not preceded by a `*` in the input nor followed by one, replaced by `<em>T</em>` |
| Spans.InlineCodeAt | blog.js:181 | an inline-code match is `` `T` `` with T non-empty and free of backticks, replaced by `<code>T</code>` |
| Spans.ItemEnd | blog.js:189 | one iteration of the wrap pattern starts with `<li>` and ends after the last `</li>` on that line, taking the `\n` that follows it when there is one; there is no iteration when `<li>` does not start there or no `</li>` follows it on its line |
| Spans.RunEnd | blog.js:189 | the repeated group is reached by whole iterations, each starting where the previous one ended, and stops at the first place where no further iteration matches |
| Spans.ListRunAt | blog.js:189-191 | the wrap matches exactly where an iteration matches; its match is made of whole iterations taken back to back until none follows, and is replaced by `<ul>` + the match + `</ul>` |
| Spans.MatchAt | blog.js:162-191 | every match of a span pattern is non-empty and starts with the pattern's opening text, and its replacement starts with a tag |
| Spans.ReplaceAll | blog.js:162-191 | a global replace gives empty text exactly for empty input, and output free of `<` only when nothing was replaced |
| Spans.Unchanged | blog.js:162-191 | a text lacking the first character of a pattern's opening text passes through that global replace unchanged |
| Spans.SkipPrefix | blog.js:162-191 | a stretch of text lacking that character is copied to the output, and the scan carries on after it |
| Spans.RawPrefix | blog.js:162-191 | output that starts with text free of `<` was copied unchanged from the input |
| Spans.CodeBlockSpan | blog.js:162-164 | ```` ```X``` ```` (ended at the first closing fence) becomes `<pre><code>` + escape(trim(X)) + `</code></pre>`, even across lines |
| Spans.LinkSpan | blog.js:172 | `[L](U)`, with L free of `]` and U free of `)`, becomes the anchor to U opening in a new tab, labelled L |
| Spans.BoldSpan | blog.js:175 | `**T**`, with T non-empty and free of `*`, becomes `<strong>T</strong>` |
| Spans.NoBoldLeft | blog.js:175 | after the bold pass no `**T**` with T non-empty and free of `*` and `<` starts anywhere |
| Spans.BoldCanRemain | blog.js:175 | `****x****` becomes `**<strong>x</strong>**`, which still contains a `**T**` the bold pattern matches |
| Spans.ItalicSpan | blog.js:178 | `*T*` that is not preceded or followed by another `*`, with T non-empty and free of `*`, becomes `<em>T</em>` |
| Spans.InlineCodeSpan | blog.js:181 | `` `T` ``, with T non-empty and free of backticks, becomes `<code>T</code>` |
| Spans.ListBlockWrapped | blog.js:189-191 | a maximal run of `<li>…</li>` lines is wrapped in exactly one `<ul>…</ul>`, with its newlines inside |
| Spans.LastItemWrapped | blog.js:189-191 | a single item at the end of the text, without a newline after it, is wrapped on its own |
| Spans.NoItemTagKept | blog.js:189-191 | a text in which `<l` never occurs (so no `<li>` either) is left as it is by the wrap |
| Spans.RunOfItems | blog.js:189 | the repeated group of the wrap pattern ends exactly after the last of consecutive item lines |
| Lines.ApplyRule | blog.js:167-194 | a line pass never puts a line break into a line |
| Lines.MapLines | blog.js:167-194 | a multiline pass over a text of one line rewrites that line as a whole |
| Lines.MapLinesStep | blog.js:167-194 | a multiline pass rewrites the first line on its own, keeps its terminator and goes on with the rest |
| Lines.BreaksKept | blog.js:167-194 | the line passes never add, remove or reorder line breaks |
| Lines.TagLineKept | blog.js:167-194 | a line that opens with `<` is left alone by every line pass |
| Lines.MapLinesThen | blog.js:167-194 | running one more line pass over the result equals running it on each line after the earlier ones |
| Lines.HeadingPasses | blog.js:167-169 | the three header passes together turn each line into its heading (`### `, `## `, `# ` give `<h3>`, `<h2>`, `<h1>` around the rest of the line), leave other lines unchanged and keep the line breaks |
| Lines.HeadingLine | blog.js:167-169 | on one line, the three header passes give that line's heading |
| Lines.QuoteLine | blog.js:184 | the line `> T` becomes `<blockquote>T</blockquote>`, by the rule and by the multiline pass |
| Lines.BulletLine | blog.js:187 | the line `- T`, with T non-empty, becomes `<li>T</li>`, by the rule and by the multiline pass |
| Lines.OrderedLine | blog.js:194 | the line `N. T`, with N one or more digits and T non-empty, becomes `<li>T</li>` and the number is dropped |
| Paragraphs.NewlineRunEnd | blog.js:198 | the run of newlines at a position ends at the first character that is not a newline |
| Paragraphs.SplitBlankLines | blog.js:198 | `split(/\n\n+/)` gives at least one chunk and no chunk holds a blank line; the first chunk is where the text starts and, when there are more, a newline follows it; each run of newlines is taken whole, so only the first and last chunks can be empty |
| Paragraphs.SplitRun | blog.js:198 | a run of two or more newlines of any length is one separator: the text before it is one chunk and the text after it is split on its own |
| Paragraphs.SplitJoin | blog.js:198 | splitting undoes joining with a blank line, for non-empty chunks that neither hold a blank line nor start or end with a newline |
| Paragraphs.BlockTagStart | blog.js:203 | a chunk opening with `<ul`, `<blockquote` or `<p`, in either case, opens a block element |
| Paragraphs.HeadingStart | blog.js:203 | a chunk opening with `<h1` to `<h6`, in either case, opens a block element |
| Paragraphs.InlineTagStart | blog.js:203 | a chunk opening with `<li`, `<em`, `<strong`, `<code` or `<a` does not open a block element |
| Paragraphs.WrapChunk | blog.js:199-206 | a chunk becomes empty exactly when it is blank; otherwise the result opens a block element, has nothing to trim and contains the trimmed chunk; it is the trimmed chunk when that already opened a block element, and the trimmed chunk in `<p>…</p>` when it did not |
| Paragraphs.WrapChunkIdempotent | blog.js:199-206 | handling a chunk a second time changes nothing |
| Paragraphs.WrapParagraphs | blog.js:198-207 | a text without a blank line is handled as one chunk; the result is empty, opens a tag or opens with the blank line left by an empty first chunk |
| Paragraphs.WrapParagraphsIdempotent | blog.js:198-207 | when no chunk is blank, a second paragraph pass changes nothing |
| Markdown.MarkdownToHtml | blog.js:158-210 | the converted text is empty, opens with a tag, or opens with the blank line left by an empty first paragraph |
| Markdown.HeadersKeep | blog.js:167-169 | a line that does not start with `#` is left alone by the header passes |
| Markdown.InlineKeep | blog.js:172-181 | text without `[`, `*` or a backtick is left alone by the span passes |
| Markdown.BlockLinesKeepTag | blog.js:184-194 | a line that opens with a tag and in which `<l` never occurs is left alone by the quote and list passes |
| Markdown.OneTagParagraph | blog.js:198-207 | a line that opens and closes with a tag is kept when it opens a block element and is wrapped in `<p>` otherwise |
| Markdown.HeadingStage | blog.js:169 | `# T` becomes `<h1>T</h1>` after the header passes |
| Markdown.HeadingDocument | blog.js:158-210 | the document `# T` becomes `<h1>T</h1>` |
| Markdown.BoldStage | blog.js:172-181 | `**T**` becomes `<strong>T</strong>` after the span passes |
| Markdown.BoldDocument | blog.js:158-210 | the document `**T**` becomes `<p><strong>T</strong></p>` |
| Markdown.CodeStage | blog.js:162-164 | the fence pass leaves `**T**` inside `<pre><code>` |
| Markdown.BoldInCode | blog.js:175 | the span passes rewrite the bold span inside `<pre><code>` |
| Markdown.CodeIsNotProtected | blog.js:161-181 | the document ```` ```**T**``` ```` becomes `<pre><code><strong>T</strong></code></pre>`: code content is processed by the later passes |
| Markdown.BulletStage | blog.js:187-191 | `- T` becomes `<ul><li>T</li></ul>` after the list passes |
| Markdown.BulletDocument | blog.js:158-210 | the document `- T` becomes `<ul><li>T</li></ul>` |
| Markdown.OrderedStage | blog.js:194 | `1. T` becomes `<li>T</li>` after the list passes, with no `<ul>` around it |
| Markdown.OrderedItemNotWrapped | blog.js:194-206 | the document `1. T` becomes `<p><li>T</li></p>` |
| Posts.FindIndex | blog.js:97 | the index of the first post with the id, or none exactly when no post has it |
| Posts.FindPost | blog.js:97 | `find`: a post from the list with the requested id, or nothing exactly when no post has that id |
| Posts.FindPostFirst | blog.js:97 | any post with the id makes the lookup succeed, and the lookup returns the earliest such post |
| Posts.InsertByDate | blog.js:54 | inserting a post adds exactly that post to the list |
| Posts.InsertSorted | blog.js:54 | inserting into a newest-first list keeps it newest first |
| Posts.SortNewestFirst | blog.js:54 | the sorted list is a permutation of the posts in which no post is later than one before it |
| Posts.InsertKeepsTies | blog.js:54 | insertion keeps the order of the posts of any one day |
| Posts.SortIsStable | blog.js:54 | the posts of any one day keep their original order |
| Posts.PostPageHtml | blog.js:114-128 | the post view contains the title as its `<h1>` and the content converted from markdown |
| Posts.PostCardHtml | blog.js:56-69 | a card links to `?post=<id>` and shows the title |
| Posts.CardsHtml | blog.js:56-70 | the cards link to every post of the list |
| Posts.PostsListHtml | blog.js:45-70 | the fixed message when there are no posts; otherwise the cards of the posts newest first, linking to every post |
| Navigation.PlusToSpace | blog.js:327 | the query reading keeps the length of the text and turns each `+`, and nothing else, into a space |
| Navigation.ParsePair | blog.js:327 | a piece splits at its first `=`: the name never holds `=`, a piece without `=` is all name with an empty value, and otherwise name, `=` and value make up the piece |
| Navigation.ParsePairs | blog.js:327 | the pieces between `&`s give at most one pair per character, none with `=` in its name, and a non-empty text without `&` gives exactly one pair |
| Navigation.ParseQuery | blog.js:327 | an empty search or a lone `?` gives no pairs, and no search gives more pairs than it has characters |
| Navigation.SearchOf | blog.js:327 | `location.search` is empty or a `?` with at least one character after it; it is the tail of the URL from its first `?`, and empty when the URL has no `?` |
| Navigation.SearchOfQuery | blog.js:327 | the search of `A?Q`, with A free of `?` and Q non-empty, is `?Q` |
| Navigation.Get | blog.js:328 | `get` gives the value of the first pair with that name, and nothing exactly when no pair has the name |
| Navigation.ParseEncode | blog.js:327 | reading a query gives back the pairs it was written from, for names and values of query-safe characters |
| Navigation.ListView | blog.js:45-54 | the list view shows a permutation of the posts, newest first |
| Navigation.RenderPost | blog.js:96-109 | `renderPost` shows a post from the list with the requested id, or the not-found message exactly when no post has it |
| Navigation.ShowPage | blog.js:273-283 | the blog page shows the post the location names, or the list when it names none; `about` shows the about page; other pages have no content of their own |
| Navigation.PageName | blog.js:329 | a truthy `post` parameter gives `blog`; otherwise a non-empty `page` parameter gives its value, and a missing or empty one gives `blog`; the name is never empty |
| Navigation.OnLoad | blog.js:326-340 | a truthy `post` parameter shows what `renderPost` shows for it; otherwise the list for no page or `blog`, the about page for `about` and a blank page for any other name; read back, a post is shown only when the location names it and it is in the list, and the not-found message exactly when the location names a post the list lacks |
| Navigation.PostWins | blog.js:327-340 | a query with both a `post` and a `page` parameter, in either order, shows the post |
| Navigation.NavUrl | blog.js:229 | a nav click pushes a URL starting with `index.html`, and exactly `index.html` when the page is `blog` |
| Navigation.PostUrl | blog.js:84-90 | a post link (and a card, blog.js:79) pushes `?post=` followed by the id, all of it the search part of the URL |
| Navigation.BackUrl | blog.js:138-139 | the back link's URL is `index.html` whatever the path |
| Navigation.NavClick | blog.js:223-230 | a nav click pushes `NavUrl(page)`; it shows the about page for `about` and, for `blog`, the post the location names before the push or else the list |
| Navigation.NavUrlQuery | blog.js:229 | the URL of a nav click has no query for `blog` and the single pair `page=P` for any other page |
| Navigation.NavClickMatchesReload | blog.js:223-230 | a nav click from a location without a `post` parameter shows what loading the pushed URL shows |
| Navigation.PostLinkMatchesReload | blog.js:84-90 | loading the URL a post link pushes shows that post, or the not-found message |
| Navigation.BackLinkClick | blog.js:133-143 | the post view's back link pushes `index.html` and shows all the posts, newest first |
| Navigation.BackLinkMatchesReload | blog.js:133-143 | the back link pushes `index.html` whatever the path, and shows the list, as loading that URL does |
| Navigation.NotFoundBackAsWritten | blog.js:105 | the not-found message's back link, through `showPage` as written, shows the list without a `post` parameter, the not-found message again for a missing post, and otherwise, whenever it finishes, what loading the location shows |
| Navigation.NotFoundBackStaysPut | blog.js:100-105 | a location naming a missing post shows the not-found message, and that message's back link shows it again at any stack depth, instead of the list |
| Navigation.ShowPageAsWritten | blog.js:249-284 | `showPage` as written always finishes unless it is asked for the blog page while the location names a post, and whenever it finishes it shows what `ShowPage` shows |
| Navigation.RenderPostAsWritten | blog.js:96-112 | `renderPost` as written shows the not-found message at once for a missing post, and whenever it finishes it shows what `RenderPost` shows |
| Navigation.PostUrlOverflows | blog.js:111-112 | with the location at `?post=<id>` of an existing post, `renderPost` and `showPage('blog')` call each other until the stack runs out, however deep it is |
| Navigation.ClickFromListShowsPost | blog.js:74-79 | from a location without a `post` parameter, `renderPost` as written shows the post, as `RenderPost` does |

## Findings

| source | as written | input that shows it | evidently intended | confidence | as-written member | corrected member |
|---|---|---|---|---|---|---|
| blog.js:112 | `renderPost` calls `showPage('blog')` for a post it finds, and `showPage('blog')` calls `renderPost` again whenever the location has a `post` parameter (blog.js:273-277) | loading `index.html?post=<id of an existing post>`, going back or forward to such a URL, or clicking the blog nav link while it is the location. On a fresh load the overflow's `RangeError` is raised inside `initBlog` (blog.js:19); the `catch` of `loadPosts` (blog.js:20-28) puts the "Error loading posts" message in the container and calls `initBlog` again, which registers the listeners a second time and overflows again, this time uncaught | the post is shown once; `showPage` only makes the blog page visible when called from `renderPost` | high, not executed | Navigation.PostUrlOverflows | Navigation.RenderPost |
| blog.js:105 | the not-found message's back link calls `showPage('blog')`, which reads the location again | loading `?post=missing` when no post has the id `missing`, then clicking "Back to all posts" | the back link shows the list, as the post view's back link does | high, not executed | Navigation.NotFoundBackStaysPut | Navigation.BackLinkMatchesReload |

`Navigation.ShowPageAsWritten` and `Navigation.RenderPostAsWritten` are
the two functions as blog.js writes them, with the stack depth as a
parameter. `Navigation.ShowPage`, `Navigation.RenderPost` and
`Navigation.OnLoad` are the corrected rules that the rest of the model uses.
`Navigation.NotFoundBackAsWritten` is the not-found back link as written.
`Navigation.BackLinkClick` is the back link of the post view, which shows
the list.

## Left out

- Loading the posts (blog.js:5-30): `fetch`, JSON parsing and the error
  message are network I/O. The model takes the post list as a parameter.
- DOM work: `innerHTML`, `querySelectorAll`, `classList` and the listener
  registration. A screen value stands for what the container shows.
- History: `pushState` and the `popstate` wiring are left out. A click
  returns the URL it would push, and back/forward is `OnLoad` on the URL
  reached.
- `formatDate` (blog.js:33-42) depends on the JavaScript `Date` and its
  locale formatting. Its text is a parameter of the markup functions.
  Dates are (year, month, day) triples compared in that order. A date that
  does not parse, whose comparator gives `NaN`, is not modelled.
- `loadAbout` (blog.js:287-323) writes static content into its own
  container. The about page is the screen `About`.
- The whitespace and indentation inside the markup templates are left out.
  The markup is written without them.
- The calendar glyph before the date (blog.js:60, 118) and the arrow before
  the back-link text (blog.js:115) are left out. They are decoration and do
  not affect any property stated here.
- `escapeHtml` is modelled as the character escape the HTML serialisation
  applies to text, not as DOM round-tripping.
- Query strings: percent-decoding is not modelled, only `+` as a space.
  `SearchOf` does not look for a `#` fragment; no URL the blog builds has one.
- JavaScript strings are UTF-16 code units; the model works on characters.
  No pattern of the converter can tell the difference.
- Spans.NoBoldLeft: proved only for `**T**` with T free of `<`. The
  unqualified claim that no `**T**` remains after the bold pass is false:
  `Spans.BoldCanRemain` shows `****x****` leaving one behind.
- Navigation.NavClickMatchesReload: requires a location without a `post`
  parameter and a non-empty page name made of query-safe characters
  (`QuerySafe`: no `&`, `=`, `+`, `%`, `#` or `?`), since percent-decoding
  is left out. From a post URL, the corrected
  `ShowPage` shows that post again. As written, the code overflows instead
  (first row of the findings).
- Navigation.ParseEncode, Navigation.PostLinkMatchesReload: names, values
  and ids are restricted to characters that a query string carries
  unchanged when percent-decoding is left out. These are characters other
  than `&`, `=`, `+`, `%`, `#` and `?`.
