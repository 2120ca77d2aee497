/** The view rules of the blog, lifted out of its DOM code: which screen a
    location shows on load and on back/forward (blog.js:326-341, 235-246),
    what `showPage` and `renderPost` put in the container (blog.js:249-284,
    96-112), and which URL each click pushes (blog.js:79, 90, 138-140,
    229). The location's query string is read through `URLSearchParams`;
    the part of it the blog relies on is modelled here. */
module Navigation {
  import opened Text
  import opened Posts

  // ---------------------------------------------------------------------
  // Query strings (URLSearchParams)

  datatype Param = Param(name: string, value: string)

  /** The `application/x-www-form-urlencoded` reading of `+` as a space. */
  function PlusToSpace(s: string): (r: string)
    ensures |r| == |s|
    ensures forall i :: 0 <= i < |s| ==> r[i] == (if s[i] == '+' then ' ' else s[i])
  {
    if s == [] then [] else [if s[0] == '+' then ' ' else s[0]] + PlusToSpace(s[1..])
  }

  /** One `name=value` piece; without `=` the whole piece is the name and
      the value is empty. */
  function ParsePair(piece: string): (p: Param)
    ensures '=' !in p.name
    ensures '=' !in piece ==> p == Param(PlusToSpace(piece), [])
    ensures '=' in piece ==> |p.name| + 1 + |p.value| == |piece|
  {
    var k := IndexOfFrom(piece, '=', 0);
    if k < |piece| then
      var name := PlusToSpace(piece[..k]);
      assert forall i :: 0 <= i < |name| ==> name[i] != '=' by {
        forall i | 0 <= i < |name| ensures name[i] != '=' {
          assert piece[..k][i] == piece[i];
        }
      }
      Param(name, PlusToSpace(piece[k + 1..]))
    else
      var name := PlusToSpace(piece);
      assert forall i :: 0 <= i < |name| ==> name[i] != '=';
      Param(name, [])
  }

  /** The pieces between `&`s, empty pieces skipped. */
  function ParsePairs(q: string): (ps: seq<Param>)
    ensures |ps| <= |q|
    ensures forall i :: 0 <= i < |ps| ==> '=' !in ps[i].name
    ensures q != [] && '&' !in q ==> ps == [ParsePair(q)]
    decreases |q|
  {
    if q == [] then []
    else
      var k := IndexOfFrom(q, '&', 0);
      var head := if k == 0 then [] else [ParsePair(q[..k])];
      var tail := if k < |q| then ParsePairs(q[k + 1..]) else [];
      assert k < |q| ==> q[k] in q;
      assert k == |q| ==> q[..k] == q;
      NamesCons(head, tail);
      head + tail
  }

  lemma NamesCons(head: seq<Param>, tail: seq<Param>)
    requires forall i :: 0 <= i < |head| ==> '=' !in head[i].name
    requires forall i :: 0 <= i < |tail| ==> '=' !in tail[i].name
    ensures forall i :: 0 <= i < |head + tail| ==> '=' !in (head + tail)[i].name
  {
    forall i | 0 <= i < |head + tail| ensures '=' !in (head + tail)[i].name {
      if i >= |head| {
        assert (head + tail)[i] == tail[i - |head|];
      }
    }
  }

  /** `new URLSearchParams(search)`: a leading `?` is dropped. */
  function ParseQuery(search: string): (ps: seq<Param>)
    ensures |ps| <= |search|
    ensures search == [] || search == "?" ==> ps == []
  {
    ParsePairs(if search != [] && search[0] == '?' then search[1..] else search)
  }

  /** `params.get(name)`: the value of the first pair with that name, or
      `null`. */
  function Get(ps: seq<Param>, name: string): (r: Option<string>)
    ensures r.None? <==> forall i :: 0 <= i < |ps| ==> ps[i].name != name
    ensures r.Some? ==> exists i :: 0 <= i < |ps| && ps[i] == Param(name, r.value)
                                    && forall k :: 0 <= k < i ==> ps[k].name != name
  {
    if ps == [] then None
    else if ps[0].name == name then Some(ps[0].value)
    else
      var r := Get(ps[1..], name);
      assert r.Some? ==> exists i :: 0 <= i < |ps| && ps[i] == Param(name, r.value)
                                     && forall k :: 0 <= k < i ==> ps[k].name != name by {
        if r.Some? {
          var i :| 0 <= i < |ps[1..]| && ps[1..][i] == Param(name, r.value)
                   && forall k :: 0 <= k < i ==> ps[1..][k].name != name;
          assert ps[i + 1] == Param(name, r.value);
          assert forall k :: 0 <= k < i + 1 ==> ps[k].name != name by {
            forall k | 0 <= k < i + 1 ensures ps[k].name != name {
              if k > 0 { assert ps[k] == ps[1..][k - 1]; }
            }
          }
        }
      }
      r
  }

  /** A string parameter tested in a condition: `null` and `""` are falsy. */
  predicate Truthy(v: Option<string>) {
    v.Some? && v.value != []
  }

  /** Characters that survive being written into a query string and read
      back unchanged (percent-decoding is not modelled). */
  predicate QuerySafe(s: string) {
    forall c | c in s :: c != '&' && c != '=' && c != '+' && c != '%' && c != '#' && c != '?'
  }

  function PairText(p: Param): string {
    p.name + "=" + p.value
  }

  /** The query a list of pairs is written as, pairs joined by `&`. */
  function EncodePairs(ps: seq<Param>): string {
    if ps == [] then []
    else if |ps| == 1 then PairText(ps[0])
    else PairText(ps[0]) + "&" + EncodePairs(ps[1..])
  }

  lemma PlusFree(s: string)
    requires '+' !in s
    ensures PlusToSpace(s) == s
  {
  }

  lemma ParsePairText(p: Param)
    requires QuerySafe(p.name) && QuerySafe(p.value)
    ensures ParsePair(PairText(p)) == p
  {
    var t := PairText(p);
    forall m | 0 <= m < |p.name| ensures t[m] != '=' {
      assert t[m] == p.name[m] && p.name[m] in p.name;
    }
    assert t[|p.name|] == '=';
    assert IndexOfFrom(t, '=', 0) == |p.name|;
    assert t[..|p.name|] == p.name && t[|p.name| + 1..] == p.value;
    PlusFree(p.name);
    PlusFree(p.value);
  }

  /** The first piece of a query: it ends at the first `&`. */
  lemma FirstPiece(p: Param, rest: string)
    requires QuerySafe(p.name) && QuerySafe(p.value)
    requires rest == [] || rest[0] == '&'
    ensures IndexOfFrom(PairText(p) + rest, '&', 0) == |PairText(p)|
  {
    var a := PairText(p);
    assert forall m :: 0 <= m < |a| ==> a[m] != '&' by {
      forall m | 0 <= m < |a| ensures a[m] != '&' {
        if m < |p.name| {
          assert a[m] == p.name[m] && p.name[m] in p.name;
        } else if m > |p.name| {
          assert a[m] == p.value[m - |p.name| - 1] && p.value[m - |p.name| - 1] in p.value;
        }
      }
    }
    var t := a + rest;
    assert forall m :: 0 <= m < |a| ==> t[m] == a[m];
    if rest != [] {
      assert t[|a|] == '&';
    }
  }

  /** Parsing gives back the pairs that were written, for names and values
      made of query-safe characters. */
  lemma {:induction false} ParseEncode(ps: seq<Param>)
    requires forall i :: 0 <= i < |ps| ==> QuerySafe(ps[i].name) && QuerySafe(ps[i].value)
    ensures ParsePairs(EncodePairs(ps)) == ps
    decreases |ps|
  {
    if |ps| == 1 {
      var t := PairText(ps[0]);
      FirstPiece(ps[0], []);
      assert t + [] == t;
      ParsePairText(ps[0]);
      LastPiece(t);
    } else if |ps| > 1 {
      var a := PairText(ps[0]);
      var rest := EncodePairs(ps[1..]);
      var t := a + "&" + rest;
      assert t == a + ("&" + rest);
      FirstPiece(ps[0], "&" + rest);
      ParsePairText(ps[0]);
      ParseEncode(ps[1..]);
      PieceStep(t, a, rest);
      assert ps == [ps[0]] + ps[1..];
    }
  }

  /** A query without `&` is one piece. */
  lemma LastPiece(t: string)
    requires t != [] && IndexOfFrom(t, '&', 0) == |t|
    ensures ParsePairs(t) == [ParsePair(t)]
  {
    assert t[..|t|] == t;
  }

  /** The first piece of a query, then the rest after its `&`. */
  lemma PieceStep(t: string, a: string, rest: string)
    requires a != [] && t == a + "&" + rest && IndexOfFrom(t, '&', 0) == |a|
    ensures ParsePairs(t) == [ParsePair(a)] + ParsePairs(rest)
  {
    assert t[..|a|] == a && t[|a| + 1..] == rest;
  }

  /** `location.search` of a URL without a fragment: from the first `?` on,
      or empty when there is no query or it is empty. */
  function SearchOf(url: string): (r: string)
    ensures r == [] || (|r| >= 2 && r[0] == '?')
    ensures |r| <= |url|
    ensures r != [] ==> url[|url| - |r|..] == r && '?' !in url[..|url| - |r|]
    ensures '?' !in url ==> r == []
  {
    var k := IndexOfFrom(url, '?', 0);
    assert forall m :: 0 <= m < k ==> url[..k][m] != '?';
    if k + 1 < |url| then url[k..] else []
  }

  lemma SearchOfQuery(a: string, q: string)
    requires '?' !in a && q != []
    ensures SearchOf(a + "?" + q) == "?" + q
  {
    var url := a + "?" + q;
    assert forall m :: 0 <= m < |a| ==> url[m] == a[m];
    assert url[|a|] == '?';
    assert IndexOfFrom(url, '?', 0) == |a|;
    assert url[|a|..] == "?" + q;
  }

  // ---------------------------------------------------------------------
  // Screens

  /** What the blog's container ends up showing. */
  datatype Screen =
    | PostsList(posts: seq<Post>)   // the list view, posts in display order
    | PostPage(post: Post)          // one post
    | NotFound                      // the post-not-found message
    | About                         // the about page (static content)
    | Blank(page: string)           // a page name with no content loader

  /** `renderPostsList` (blog.js:45-70). */
  function ListView(posts: seq<Post>): (s: Screen)
    ensures s.PostsList?
    ensures multiset(s.posts) == multiset(posts) && NewestFirst(s.posts)
  {
    PostsList(SortNewestFirst(posts))
  }

  /** `renderPost` (blog.js:96-128): the post with that id, or the
      not-found message exactly when no post has it. */
  function RenderPost(id: string, posts: seq<Post>): (s: Screen)
    ensures s == NotFound <==> forall p | p in posts :: p.id != id
    ensures s.PostPage? ==> s.post in posts && s.post.id == id
    ensures s.PostsList? || s.About? || s.Blank? ==> false
  {
    match FindPost(posts, id)
    case Some(p) => PostPage(p)
    case None => NotFound
  }

  /** `showPage(page)` (blog.js:249-284), with `urlPost` the location's
      `post` parameter at the time of the call: the blog page shows that
      post when there is one and the list otherwise; `about` loads the
      about page; any other page has no content of its own. (Here
      `renderPost` does not call back into `showPage`; see
      `RenderPostAsWritten` for the code as it stands.) */
  function ShowPage(page: string, urlPost: Option<string>, posts: seq<Post>): (s: Screen)
    ensures page == "blog" && Truthy(urlPost) ==> s == RenderPost(urlPost.value, posts)
    ensures page == "blog" && !Truthy(urlPost) ==> s == ListView(posts)
    ensures page == "about" ==> s == About
    ensures page != "blog" && page != "about" ==> s == Blank(page)
  {
    if page == "blog" then
      if Truthy(urlPost) then RenderPost(urlPost.value, posts) else ListView(posts)
    else if page == "about" then About
    else Blank(page)
  }

  /** `postId ? 'blog' : (urlParams.get('page') || 'blog')`. */
  function PageName(ps: seq<Param>): (page: string)
    ensures page != []
    ensures Truthy(Get(ps, "post")) ==> page == "blog"
    ensures !Truthy(Get(ps, "post")) && Truthy(Get(ps, "page")) ==> page == Get(ps, "page").value
    ensures !Truthy(Get(ps, "post")) && !Truthy(Get(ps, "page")) ==> page == "blog"
  {
    if Truthy(Get(ps, "post")) then "blog"
    else if Truthy(Get(ps, "page")) then Get(ps, "page").value
    else "blog"
  }

  /** The screen for a location's query string, as `initBlog` and the
      `popstate` handler decide it (the same rule, blog.js:327-340 and
      236-245): a `post` parameter wins and shows that post; otherwise the
      `page` parameter, `blog` when it is missing or empty. */
  function OnLoad(search: string, posts: seq<Post>): (s: Screen)
    ensures var post := Get(ParseQuery(search), "post");
      && (s.PostPage? ==> post == Some(s.post.id) && s.post in posts)
      && (s.NotFound? <==> Truthy(post) && forall p | p in posts :: p.id != post.value)
      && (s.PostsList? ==> !Truthy(post) && multiset(s.posts) == multiset(posts))
      && (s.About? ==> Get(ParseQuery(search), "page") == Some("about"))
    ensures var ps := ParseQuery(search); var post := Get(ps, "post"); var page := Get(ps, "page");
      && (Truthy(post) ==> s == RenderPost(post.value, posts))
      && (!Truthy(post) && (!Truthy(page) || page == Some("blog")) ==> s == ListView(posts))
      && (!Truthy(post) && page == Some("about") ==> s == About)
      && (!Truthy(post) && Truthy(page) && page.value != "blog" && page.value != "about" ==> s == Blank(page.value))
  {
    var ps := ParseQuery(search);
    var post := Get(ps, "post");
    if Truthy(post) then RenderPost(post.value, posts)
    else ShowPage(PageName(ps), post, posts)
  }

  // ---------------------------------------------------------------------
  // Clicks and the URLs they push

  /** The URL a nav click pushes (blog.js:229). */
  function NavUrl(page: string): (url: string)
    ensures StartsWith(url, "index.html")
    ensures url == "index.html" <==> page == "blog"
  {
    if page == "blog" then "index.html" else "index.html?page=" + page
  }

  /** The URL a post card or post link pushes (blog.js:79, 90). */
  function PostUrl(id: string): (url: string)
    ensures |url| == 6 + |id| && url[6..] == id
    ensures SearchOf(url) == url
  {
    var url := "?post=" + id;
    assert IndexOfFrom(url, '?', 0) == 0;
    url
  }

  /** The URL the back link pushes (blog.js:138-139): both arms of its
      conditional are `index.html`, whatever the path. */
  function BackUrl(pathname: string): (url: string)
    ensures url == "index.html"
  {
    var baseUrl := pathname[..IndexOfFrom(pathname, '?', 0)];
    if EndsWith(baseUrl, "index.html") || EndsWith(baseUrl, "/") then "index.html" else "index.html"
  }

  /** A nav click shows `page` at once (reading the location as it is
      before the push) and pushes `NavUrl(page)`. */
  function NavClick(page: string, search: string, posts: seq<Post>): (r: (Screen, string))
    ensures r.1 == NavUrl(page)
    ensures page == "about" ==> r.0 == About
    ensures var post := Get(ParseQuery(search), "post");
      && (page == "blog" && Truthy(post) ==> r.0 == RenderPost(post.value, posts))
      && (page == "blog" && !Truthy(post) ==> r.0 == ListView(posts))
  {
    (ShowPage(page, Get(ParseQuery(search), "post"), posts), NavUrl(page))
  }

  /** Loading a query of one parameter. */
  lemma OneParam(name: string, value: string)
    requires QuerySafe(name) && QuerySafe(value)
    ensures ParseQuery("?" + name + "=" + value) == [Param(name, value)]
  {
    var q := "?" + name + "=" + value;
    assert q[1..] == EncodePairs([Param(name, value)]);
    ParseEncode([Param(name, value)]);
  }

  /** A nav click shows what loading the pushed URL shows, so a reload or
      a back/forward step to it gives the same screen; this needs a
      non-empty page name and a location without a `post` parameter
      (with one, the click shows that post again). */
  lemma NavClickMatchesReload(page: string, search: string, posts: seq<Post>)
    requires QuerySafe(page) && page != []
    requires !Truthy(Get(ParseQuery(search), "post"))
    ensures NavClick(page, search, posts).0 == OnLoad(SearchOf(NavClick(page, search, posts).1), posts)
  {
    NavUrlQuery(page);
  }

  lemma NavUrlQuery(page: string)
    requires QuerySafe(page)
    ensures ParseQuery(SearchOf(NavUrl(page))) == if page == "blog" then [] else [Param("page", page)]
  {
    if page == "blog" {
      assert IndexOfFrom("index.html", '?', 0) == 10;
    } else {
      PageQuery(page);
      OneParam("page", page);
    }
  }

  lemma PageQuery(page: string)
    ensures SearchOf("index.html?page=" + page) == "?" + "page" + "=" + page
  {
    SearchOfQuery("index.html", "page=" + page);
    assert "index.html?page=" + page == "index.html" + "?" + ("page=" + page);
    assert "?" + ("page=" + page) == "?" + "page" + "=" + page;
  }

  /** Following a post link shows that post, and loading the pushed URL
      shows the same post (or the same not-found message). */
  lemma PostLinkMatchesReload(id: string, posts: seq<Post>)
    requires QuerySafe(id) && id != []
    ensures OnLoad(SearchOf(PostUrl(id)), posts) == RenderPost(id, posts)
  {
    PostQuery(id);
    OneParam("post", id);
  }

  lemma PostQuery(id: string)
    ensures SearchOf(PostUrl(id)) == "?" + "post" + "=" + id
  {
    assert PostUrl(id) == "?" + "post" + "=" + id;
  }

  /** A query naming both a post and a page shows the post, in either
      order of the two parameters. */
  lemma PostWins(search: string, id: string, page: string, posts: seq<Post>)
    requires QuerySafe(id) && QuerySafe(page) && id != []
    requires search == "?page=" + page + "&post=" + id || search == "?post=" + id + "&page=" + page
    ensures OnLoad(search, posts) == RenderPost(id, posts)
  {
    if search == "?page=" + page + "&post=" + id {
      PagePostText(search, id, page);
      TwoParams(search, "page", page, "post", id);
      var ps := [Param("page", page), Param("post", id)];
      assert Get(ps, "post") == Some(id) by {
        assert ps[1..] == [Param("post", id)];
      }
      PostParam(search, ps, id, posts);
    } else {
      PostPageText(search, id, page);
      TwoParams(search, "post", id, "page", page);
      PostParam(search, [Param("post", id), Param("page", page)], id, posts);
    }
  }

  lemma PagePostText(search: string, id: string, page: string)
    requires search == "?page=" + page + "&post=" + id
    ensures search == "?" + "page" + "=" + page + "&" + "post" + "=" + id
  {
  }

  lemma PostPageText(search: string, id: string, page: string)
    requires search == "?post=" + id + "&page=" + page
    ensures search == "?" + "post" + "=" + id + "&" + "page" + "=" + page
  {
  }

  lemma PostParam(search: string, ps: seq<Param>, id: string, posts: seq<Post>)
    requires ParseQuery(search) == ps && Get(ps, "post") == Some(id) && id != []
    ensures OnLoad(search, posts) == RenderPost(id, posts)
  {
  }

  /** Loading a query of two parameters. */
  lemma TwoParams(search: string, n1: string, v1: string, n2: string, v2: string)
    requires QuerySafe(n1) && QuerySafe(v1) && QuerySafe(n2) && QuerySafe(v2)
    requires search == "?" + n1 + "=" + v1 + "&" + n2 + "=" + v2
    ensures ParseQuery(search) == [Param(n1, v1), Param(n2, v2)]
  {
    var ps := [Param(n1, v1), Param(n2, v2)];
    var q := n1 + "=" + v1 + "&" + n2 + "=" + v2;
    EncodeTwo(ps[0], ps[1], q);
    ParseEncode(ps);
    LeadingMark(q);
    Regroup(search, n1, v1, n2, v2, q);
  }

  lemma Regroup(search: string, n1: string, v1: string, n2: string, v2: string, q: string)
    requires search == "?" + n1 + "=" + v1 + "&" + n2 + "=" + v2
    requires q == n1 + "=" + v1 + "&" + n2 + "=" + v2
    ensures search == "?" + q
  {
  }

  lemma EncodeTwo(p1: Param, p2: Param, q: string)
    requires q == p1.name + "=" + p1.value + "&" + p2.name + "=" + p2.value
    ensures EncodePairs([p1, p2]) == q
  {
    assert [p1, p2][1..] == [p2];
  }

  /** `URLSearchParams` drops the leading `?`. */
  lemma LeadingMark(q: string)
    ensures ParseQuery("?" + q) == ParsePairs(q)
  {
    assert ("?" + q)[1..] == q;
  }

  /** The back link of the post view (blog.js:133-153): it pushes
      `BackUrl` and shows the list. */
  function BackLinkClick(pathname: string, posts: seq<Post>): (r: (Screen, string))
    ensures r.1 == "index.html"
    ensures r.0.PostsList? && multiset(r.0.posts) == multiset(posts) && NewestFirst(r.0.posts)
  {
    (ListView(posts), BackUrl(pathname))
  }

  /** The back link shows the list, whatever the path, and loading the
      pushed URL shows the list too. */
  lemma BackLinkMatchesReload(pathname: string, posts: seq<Post>)
    ensures BackLinkClick(pathname, posts).1 == "index.html"
    ensures BackLinkClick(pathname, posts).0 == OnLoad(SearchOf(BackLinkClick(pathname, posts).1), posts)
  {
    assert IndexOfFrom("index.html", '?', 0) == 10;
  }

  /** The "Back to all posts" link of the not-found message as written
      (blog.js:105): `showPage('blog')` as written, which reads the
      location again, `depth` being the stack frames available. Without a
      `post` parameter it shows the list; with one naming a missing post,
      the not-found message again; with any `post` parameter, whenever it
      finishes, what loading the location shows. */
  function NotFoundBackAsWritten(depth: nat, search: string, posts: seq<Post>): (r: Run)
    ensures !Truthy(Get(ParseQuery(search), "post")) ==> r == Done(ListView(posts))
    ensures var post := Get(ParseQuery(search), "post");
      Truthy(post) && FindPost(posts, post.value).None? ==> r == Done(NotFound)
    ensures Truthy(Get(ParseQuery(search), "post")) && r.Done? ==> r.screen == OnLoad(search, posts)
  {
    var post := Get(ParseQuery(search), "post");
    assert Truthy(post) ==> OnLoad(search, posts) == RenderPost(post.value, posts);
    ShowPageAsWritten(depth, "blog", post, posts)
  }

  /** The not-found message is reached only through a location naming a
      missing post, and from there its back link shows the same message
      again, at any stack depth, instead of the list `BackLinkClick`
      shows. */
  lemma NotFoundBackStaysPut(depth: nat, id: string, posts: seq<Post>)
    requires QuerySafe(id) && id != [] && FindPost(posts, id).None?
    ensures OnLoad(SearchOf(PostUrl(id)), posts) == NotFound
    ensures NotFoundBackAsWritten(depth, SearchOf(PostUrl(id)), posts) == Done(NotFound)
    ensures BackLinkClick("/index.html", posts).0 != NotFound
  {
    PostLinkMatchesReload(id, posts);
    OneParam("post", id);
    PostQuery(id);
  }

  // ---------------------------------------------------------------------
  // showPage and renderPost as written

  /** The end of a chain of calls: a screen, or a stack overflow. */
  datatype Run = Done(screen: Screen) | Overflow

  /** `showPage` as blog.js:249-284 writes it, `depth` being the stack
      frames still available. */
  function ShowPageAsWritten(depth: nat, page: string, urlPost: Option<string>, posts: seq<Post>): (r: Run)
    ensures page != "blog" || !Truthy(urlPost) ==> r.Done?
    ensures r.Done? ==> r.screen == ShowPage(page, urlPost, posts)
    decreases depth, 1
  {
    if page == "blog" then
      if Truthy(urlPost) then RenderPostAsWritten(depth, urlPost.value, urlPost, posts)
      else Done(ListView(posts))
    else if page == "about" then Done(About)
    else Done(Blank(page))
  }

  /** `renderPost` as blog.js:96-128 writes it: a post that exists is
      shown only after `showPage('blog')` returns (blog.js:112), and that
      call reads the location's `post` parameter again. */
  function RenderPostAsWritten(depth: nat, id: string, urlPost: Option<string>, posts: seq<Post>): (r: Run)
    ensures FindPost(posts, id).None? ==> r == Done(NotFound)
    ensures r.Done? ==> r.screen == RenderPost(id, posts)
    decreases depth, 0
  {
    match FindPost(posts, id)
    case None => Done(NotFound)
    case Some(p) =>
      if depth == 0 then Overflow
      else match ShowPageAsWritten(depth - 1, "blog", urlPost, posts)
        case Overflow => Overflow
        case Done(_) => Done(PostPage(p))
  }

  /** With the location at `?post=<id>` of an existing post, `renderPost`
      and `showPage('blog')` call each other until the stack runs out,
      however deep it is. This is the case on loading such a URL, on going
      back or forward to one, and on clicking the blog nav link while a
      post is shown. */
  lemma {:induction false} PostUrlOverflows(depth: nat, id: string, posts: seq<Post>)
    requires id != [] && FindPost(posts, id).Some?
    ensures RenderPostAsWritten(depth, id, Some(id), posts) == Overflow
    ensures ShowPageAsWritten(depth, "blog", Some(id), posts) == Overflow
  {
    if depth > 0 {
      PostUrlOverflows(depth - 1, id, posts);
    }
  }

  /** With no `post` parameter in the location (a click on a card in the
      list), the code as written shows the post, as `RenderPost` does. */
  lemma ClickFromListShowsPost(depth: nat, id: string, urlPost: Option<string>, posts: seq<Post>)
    requires depth > 0 && !Truthy(urlPost)
    ensures RenderPostAsWritten(depth, id, urlPost, posts) == Done(RenderPost(id, posts))
  {
  }
}
