/** The post list the blog works on (loaded from posts.json, blog.js:16):
    lookup by id (blog.js:97), the newest-first order of the list view
    (blog.js:54) and the markup of one post (blog.js:114-128). */
module Posts {
  import opened Text
  import Markdown

  /** A `YYYY-MM-DD` date, already split into its three numbers. */
  datatype Date = Date(year: int, month: int, day: int)

  /** `a` is a strictly later day than `b`. For valid dates this is the
      sign of `new Date(a) - new Date(b)`, the difference in milliseconds
      between their midnights. */
  predicate Later(a: Date, b: Date) {
    || a.year > b.year
    || (a.year == b.year && a.month > b.month)
    || (a.year == b.year && a.month == b.month && a.day > b.day)
  }

  datatype Post = Post(id: string, title: string, date: Date, tags: seq<string>, excerpt: string, content: string)

  // ---------------------------------------------------------------------
  // Lookup (blog.js:97)

  /** Index of the first post with the given id. */
  function FindIndex(posts: seq<Post>, id: string): (r: Option<nat>)
    ensures r.Some? ==> r.value < |posts| && posts[r.value].id == id
    ensures r.Some? ==> forall i :: 0 <= i < r.value ==> posts[i].id != id
    ensures r.None? ==> forall i :: 0 <= i < |posts| ==> posts[i].id != id
  {
    if posts == [] then None
    else if posts[0].id == id then Some(0)
    else match FindIndex(posts[1..], id)
      case Some(i) => Some(i + 1)
      case None => None
  }

  /** `posts.find(p => p.id === postId)`: the first post with that id, or
      nothing when no post has it. */
  function FindPost(posts: seq<Post>, id: string): (r: Option<Post>)
    ensures r.Some? ==> r.value in posts && r.value.id == id
    ensures r.None? <==> forall p | p in posts :: p.id != id
  {
    match FindIndex(posts, id)
    case Some(i) => Some(posts[i])
    case None => None
  }

  /** Any post with the id makes the lookup succeed, and it returns the
      earliest one in the list. */
  lemma FindPostFirst(posts: seq<Post>, id: string, j: nat)
    requires j < |posts| && posts[j].id == id
    ensures FindPost(posts, id).Some?
    ensures exists i :: 0 <= i <= j && FindPost(posts, id) == Some(posts[i])
                        && forall k :: 0 <= k < i ==> posts[k].id != id
  {
    var i := FindIndex(posts, id).value;
    assert FindPost(posts, id) == Some(posts[i]);
  }

  // ---------------------------------------------------------------------
  // Newest first (blog.js:54)

  /** No post is later than one before it. */
  predicate NewestFirst(s: seq<Post>) {
    forall i, j :: 0 <= i < j < |s| ==> !Later(s[j].date, s[i].date)
  }

  /** `p` placed in front of the first post that is not later than it. */
  function InsertByDate(p: Post, s: seq<Post>): (r: seq<Post>)
    ensures multiset(r) == multiset(s) + multiset{p}
    ensures |r| == |s| + 1
  {
    if s == [] || !Later(s[0].date, p.date) then [p] + s
    else
      assert s == [s[0]] + s[1..];
      [s[0]] + InsertByDate(p, s[1..])
  }

  lemma {:induction false} InsertSorted(p: Post, s: seq<Post>)
    requires NewestFirst(s)
    ensures NewestFirst(InsertByDate(p, s))
    decreases |s|
  {
    if s == [] || !Later(s[0].date, p.date) {
      InFront(p, s);
    } else {
      InsertSorted(p, s[1..]);
      Behind(p, s, InsertByDate(p, s[1..]));
    }
  }

  /** Not being later is transitive. */
  lemma NotLaterTrans(a: Date, b: Date, c: Date)
    requires !Later(a, b) && !Later(b, c)
    ensures !Later(a, c)
  {
  }

  /** `p` in front of a newest-first list whose head is not later than it. */
  lemma InFront(p: Post, s: seq<Post>)
    requires NewestFirst(s) && (s == [] || !Later(s[0].date, p.date))
    ensures NewestFirst([p] + s)
  {
    var r := [p] + s;
    forall i, j | 0 <= i < j < |r| ensures !Later(r[j].date, r[i].date) {
      if i > 0 {
        assert r[i] == s[i - 1] && r[j] == s[j - 1];
      } else {
        assert r[j] == s[j - 1];
        if j > 1 {
          NotLaterTrans(s[j - 1].date, s[0].date, p.date);
        }
      }
    }
  }

  /** The head of `s`, later than `p`, in front of the sorted insertion of
      `p` into the rest. */
  lemma Behind(p: Post, s: seq<Post>, r': seq<Post>)
    requires NewestFirst(s) && s != [] && Later(s[0].date, p.date)
    requires r' == InsertByDate(p, s[1..]) && NewestFirst(r')
    ensures NewestFirst([s[0]] + r')
  {
    var r := [s[0]] + r';
    forall q | q in r' ensures !Later(q.date, s[0].date) {
      HeadNotEarlier(p, s, r', q);
    }
    forall i, j | 0 <= i < j < |r| ensures !Later(r[j].date, r[i].date) {
      if i == 0 {
        assert r[j] == r'[j - 1] && r'[j - 1] in r';
      } else {
        assert r[i] == r'[i - 1] && r[j] == r'[j - 1];
      }
    }
  }

  /** Every post of the insertion is `p` or a post of the rest of `s`, so
      none is later than the head of `s`. */
  lemma HeadNotEarlier(p: Post, s: seq<Post>, r': seq<Post>, q: Post)
    requires NewestFirst(s) && s != [] && Later(s[0].date, p.date)
    requires r' == InsertByDate(p, s[1..]) && q in r'
    ensures !Later(q.date, s[0].date)
  {
    assert q in multiset(r');
    if q != p {
      assert q in multiset(s[1..]);
      var k :| 0 <= k < |s[1..]| && s[1..][k] == q;
      assert s[k + 1] == q;
    }
  }

  /** The list view's order: newest first, posts of the same day keeping
      their order in `posts` (the sort is stable). It works on a copy, so
      the original list is left as it is. */
  function SortNewestFirst(posts: seq<Post>): (r: seq<Post>)
    ensures multiset(r) == multiset(posts)
    ensures NewestFirst(r)
  {
    if posts == [] then []
    else
      var rest := SortNewestFirst(posts[1..]);
      InsertSorted(posts[0], rest);
      assert posts == [posts[0]] + posts[1..];
      InsertByDate(posts[0], rest)
  }

  /** The posts of `s` dated `d`, in order. */
  function OnDate(s: seq<Post>, d: Date): seq<Post> {
    if s == [] then []
    else (if s[0].date == d then [s[0]] else []) + OnDate(s[1..], d)
  }

  lemma {:induction false} InsertKeepsTies(p: Post, s: seq<Post>, d: Date)
    ensures OnDate(InsertByDate(p, s), d) == (if p.date == d then [p] else []) + OnDate(s, d)
    decreases |s|
  {
    if s == [] || !Later(s[0].date, p.date) {
      assert ([p] + s)[1..] == s;
    } else {
      var r' := InsertByDate(p, s[1..]);
      assert ([s[0]] + r')[1..] == r';
      InsertKeepsTies(p, s[1..], d);
      assert s[0].date != p.date;
    }
  }

  /** The sort is stable: posts of any one day come out in the order they
      had. With `NewestFirst` and the permutation this fixes the result. */
  lemma {:induction false} SortIsStable(posts: seq<Post>, d: Date)
    ensures OnDate(SortNewestFirst(posts), d) == OnDate(posts, d)
    decreases |posts|
  {
    if posts != [] {
      SortIsStable(posts[1..], d);
      InsertKeepsTies(posts[0], SortNewestFirst(posts[1..]), d);
    }
  }

  // ---------------------------------------------------------------------
  // The markup of posts (blog.js:56-70, 114-128)

  function TagHtml(tag: string): string {
    "<span class=\"tag " + tag + "\">" + tag + "</span>"
  }

  /** `post.tags.map(...).join('')`. */
  function TagsHtml(tags: seq<string>): string {
    if tags == [] then [] else TagHtml(tags[0]) + TagsHtml(tags[1..])
  }

  /** The post view; `dateText` is what `formatDate` makes of the date. The
      title is the page's `<h1>` and the body is the content converted
      from markdown. */
  function PostPageHtml(p: Post, dateText: string): (html: string)
    ensures Contains(html, "<h1>" + p.title + "</h1>")
    ensures Contains(html, Markdown.MarkdownToHtml(p.content))
  {
    var head := "<a href=\"#\" class=\"back-link\" id=\"backToBlogLink\">Back to all posts</a>"
      + "<article class=\"post-content\"><div class=\"post-meta\"><span class=\"post-date\">"
      + dateText + "</span></div>";
    var title := "<h1>" + p.title + "</h1>";
    var tags := "<div class=\"post-tags\">" + TagsHtml(p.tags) + "</div><div class=\"post-body\">";
    var body := Markdown.MarkdownToHtml(p.content);
    var tail := "</div></article>";
    SecondOfFive(head, title, tags, body, tail);
    FourthOfFive(head, title, tags, body, tail);
    head + title + tags + body + tail
  }

  lemma SecondOfFive(a: string, x: string, b: string, c: string, d: string)
    ensures Contains(a + x + b + c + d, x)
  {
    var t := a + x + b + c + d;
    assert t[|a|..|a| + |x|] == x;
    assert StartsAt(t, x, |a|);
  }

  lemma FourthOfFive(a: string, b: string, c: string, x: string, d: string)
    ensures Contains(a + b + c + x + d, x)
  {
    var t := a + b + c + x + d;
    var k := |a| + |b| + |c|;
    assert t[k..k + |x|] == x;
    assert StartsAt(t, x, k);
  }

  /** The post view when no post has the id (blog.js:100-108). */
  const NotFoundHtml: string :=
    "<div class=\"post-content\"><h1>Post Not Found</h1><p>The post you're looking for doesn't exist.</p>"
    + "<a href=\"#\" class=\"back-link\" onclick=\"showPage('blog'); return false;\">Back to all posts</a></div>"

  /** The list view when there are no posts (blog.js:48-50). */
  const NoPostsHtml: string := "<p>No posts yet. Check back soon!</p>"

  /** One card of the list view: it links to `?post=<id>` and shows the
      title. */
  function PostCardHtml(p: Post, dateText: string): (html: string)
    ensures Contains(html, PostLink(p.id))
    ensures Contains(html, p.title)
  {
    var head := "<article class=\"post-card\" data-post-id=\"" + p.id + "\"><div class=\"post-meta\"><span class=\"post-date\">"
      + dateText + "</span></div><h2>";
    var link := PostLink(p.id);
    var mid := " class=\"post-link\" data-post-id=\"" + p.id + "\">";
    var title := p.title;
    var tail := "</a></h2><div class=\"post-tags\">" + TagsHtml(p.tags) + "</div><p class=\"post-excerpt\">"
      + p.excerpt + "</p><a href=\"?post=" + p.id + "\" class=\"read-more post-link\" data-post-id=\""
      + p.id + "\">Read more</a></article>";
    SecondOfFive(head, link, mid, title, tail);
    FourthOfFive(head, link, mid, title, tail);
    head + link + mid + title + tail
  }

  /** The link of a card to its post. */
  function PostLink(id: string): string {
    "<a href=\"?post=" + id + "\""
  }

  /** The cards of the list, in the given order, joined with nothing
      between them; every post's link is in it. */
  function CardsHtml(posts: seq<Post>, formatDate: Date -> string): (html: string)
    ensures forall p | p in posts :: Contains(html, PostLink(p.id))
  {
    if posts == [] then []
    else
      var card := PostCardHtml(posts[0], formatDate(posts[0].date));
      var rest := CardsHtml(posts[1..], formatDate);
      forall p | p in posts ensures Contains(card + rest, PostLink(p.id)) {
        if p == posts[0] {
          ContainsConcat(card, rest, PostLink(p.id));
        } else {
          assert p in posts[1..];
          ContainsConcat(card, rest, PostLink(p.id));
        }
      }
      card + rest
  }

  /** What occurs in either part occurs in the concatenation. */
  lemma ContainsConcat(a: string, b: string, x: string)
    ensures Contains(a, x) ==> Contains(a + b, x)
    ensures Contains(b, x) ==> Contains(a + b, x)
  {
    if Contains(a, x) {
      var k: nat :| k <= |a| && StartsAt(a, x, k);
      assert (a + b)[k..k + |x|] == a[k..k + |x|];
      assert StartsAt(a + b, x, k);
    }
    if Contains(b, x) {
      var k: nat :| k <= |b| && StartsAt(b, x, k);
      assert (a + b)[|a| + k..|a| + k + |x|] == b[k..k + |x|];
      assert StartsAt(a + b, x, |a| + k);
    }
  }

  /** The list view (blog.js:45-70): the fixed message when there are no
      posts, otherwise one card per post, newest first, so that every post
      is linked from it. */
  function PostsListHtml(posts: seq<Post>, formatDate: Date -> string): (html: string)
    ensures posts == [] ==> html == NoPostsHtml
    ensures posts != [] ==> html == CardsHtml(SortNewestFirst(posts), formatDate)
    ensures posts != [] ==> forall p | p in posts :: Contains(html, PostLink(p.id))
  {
    if |posts| == 0 then NoPostsHtml
    else
      var sorted := SortNewestFirst(posts);
      SortedKeepsPosts(posts, sorted);
      CardsHtml(sorted, formatDate)
  }

  lemma SortedKeepsPosts(posts: seq<Post>, sorted: seq<Post>)
    requires multiset(sorted) == multiset(posts)
    ensures forall p | p in posts :: p in sorted
  {
    forall p | p in posts ensures p in sorted {
      assert p in multiset(posts);
    }
  }
}
