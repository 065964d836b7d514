/** `tooling/discover_feeds.py`: find the RSS/Atom feeds a web page advertises in
    its `<link rel="alternate" ...>` tags and print them as entries for the sources
    file, falling back to four guessed feed paths per page when no page advertises
    any. The HTML tokenizer, `urljoin`, `html.unescape` and the network are
    parameters: a page is given as the events the tokenizer reports for it. */
module Discover {
  import opened Wrappers
  import opened PyStr
  import Config

  // ---------------- the link-tag parser ----------------

  /** What `HTMLParser` reports: a start tag with its attributes (a value is absent
      for a bare attribute), an end tag, or a run of text. */
  datatype Event =
    | StartTag(tag: string, attrs: seq<(string, Option<string>)>)
    | EndTag(tag: string)
    | Data(text: string)

  /** An advertised feed: its absolute URL and the tag's own title, if any. */
  datatype Link = Link(href: string, title: Option<string>)

  /** The parser's fields: the links found, the page title, and whether the parser
      is inside `<title>`. */
  datatype ParserState = ParserState(links: seq<Link>, pageTitle: Option<string>, inTitle: bool)

  /** The substrings of the `type` attribute that mark a feed. */
  const FeedTypes: seq<string> :=
    ["rss", "atom", "application/rss+xml", "application/atom+xml", "application/xml", "text/xml"]

  /** `{k.lower(): v for (k, v) in attrs}.get(key)`: the value of the last attribute
      with that name; `None` when there is none or it has no value. */
  function Attr(attrs: seq<(string, Option<string>)>, key: string): (r: Option<string>)
    ensures (forall i | 0 <= i < |attrs| :: Lower(attrs[i].0) != key) ==> r == None
    ensures r.Some? ==> exists i | 0 <= i < |attrs| ::
      (Lower(attrs[i].0) == key && attrs[i].1 == r && forall j | i < j < |attrs| :: Lower(attrs[j].0) != key)
  {
    if |attrs| == 0 then None
    else
      var last := attrs[|attrs| - 1];
      if Lower(last.0) == key then last.1
      else
        var r := Attr(attrs[..|attrs| - 1], key);
        assert forall i | 0 <= i < |attrs| - 1 :: attrs[..|attrs| - 1][i] == attrs[i];
        r
  }

  /** `any(t in typ for t in FeedTypes)`. */
  predicate FeedType(typ: string) {
    exists t | t in FeedTypes :: Contains(typ, t)
  }

  /** The href patterns accepted without a feed type. */
  predicate LooksLikeFeed(hrefL: string) {
    EndsWith(hrefL, ".xml") || Contains(hrefL, "rss") || Contains(hrefL, "atom") || Contains(hrefL, "feed")
  }

  /** The attributes of a `<link>` tag that advertise a feed: a non-empty `href`,
      "alternate" in the lowered `rel`, and a feed `type` or a feed-like `href`. */
  predicate Advertises(attrs: seq<(string, Option<string>)>) {
    var href := Attr(attrs, "href");
    && Truthy(href)
    && Contains(Lower(OrEmpty(Attr(attrs, "rel"))), "alternate")
    && (FeedType(Lower(OrEmpty(Attr(attrs, "type")))) || LooksLikeFeed(Lower(href.value)))
  }

  /** What one event adds to the links: the feed of an advertising `<link>` tag,
      made absolute against the page URL. */
  function LinkOf(ev: Event, base: string, join: (string, string) -> string): (r: seq<Link>)
    ensures |r| <= 1
    ensures |r| == 1 <==> ev.StartTag? && Lower(ev.tag) == "link" && Advertises(ev.attrs)
  {
    match ev
    case StartTag(tag, attrs) =>
      if Lower(tag) == "link" && Advertises(attrs) then
        [Link(join(base, Attr(attrs, "href").value), Attr(attrs, "title"))]
      else []
    case _ => []
  }

  /** One callback of `LinkFeedParser`. */
  function Step(st: ParserState, ev: Event, base: string, join: (string, string) -> string): (r: ParserState)
    ensures r.links == st.links + LinkOf(ev, base, join)
    ensures Stripped(st.pageTitle) ==> Stripped(r.pageTitle)
  {
    match ev
    case StartTag(tag, attrs) =>
      if Lower(tag) == "link" then st.(links := st.links + LinkOf(ev, base, join))
      else if Lower(tag) == "title" then st.(inTitle := true)
      else st
    case EndTag(tag) =>
      if Lower(tag) == "title" then st.(inTitle := false) else st
    case Data(text) =>
      if st.inTitle then
        var t := Strip(OrEmpty(st.pageTitle) + text);
        StripIdempotent(OrEmpty(st.pageTitle) + text);
        st.(pageTitle := Some(t))
      else st
  }

  /** A page title that holds no surrounding whitespace. */
  predicate Stripped(t: Option<string>) {
    t.Some? ==> Strip(t.value) == t.value
  }

  /** The parser fed the events of a page, in order. */
  function Parse(evs: seq<Event>, base: string, join: (string, string) -> string): (r: ParserState)
    ensures Stripped(r.pageTitle)
    decreases |evs|
  {
    if |evs| == 0 then ParserState([], None, false)
    else Step(Parse(evs[..|evs| - 1], base, join), evs[|evs| - 1], base, join)
  }

  /** The feeds the page's events advertise, in order, read event by event. */
  function LinksOf(evs: seq<Event>, base: string, join: (string, string) -> string): seq<Link>
    decreases |evs|
  {
    if |evs| == 0 then [] else LinksOf(evs[..|evs| - 1], base, join) + LinkOf(evs[|evs| - 1], base, join)
  }

  /** The links found do not depend on the title tracking: they are exactly the
      advertised feeds, in document order. */
  lemma {:induction false} ParseLinks(evs: seq<Event>, base: string, join: (string, string) -> string)
    ensures Parse(evs, base, join).links == LinksOf(evs, base, join)
    decreases |evs|
  {
    if |evs| > 0 {
      ParseLinks(evs[..|evs| - 1], base, join);
    }
  }

  predicate OpensTitle(ev: Event) {
    ev.StartTag? && Lower(ev.tag) == "title"
  }

  /** A page without a `<title>` tag has no page title. */
  lemma {:induction false} NoTitleTag(evs: seq<Event>, base: string, join: (string, string) -> string)
    requires forall i | 0 <= i < |evs| :: !OpensTitle(evs[i])
    ensures Parse(evs, base, join).pageTitle == None
    ensures !Parse(evs, base, join).inTitle
    decreases |evs|
  {
    if |evs| > 0 {
      NoTitleTag(evs[..|evs| - 1], base, join);
      assert !OpensTitle(evs[|evs| - 1]);
    }
  }

  /** Text after `<title>` becomes the page title, stripped, and text after
      `</title>` is ignored. */
  lemma TitleText(st: ParserState, d: string, e: string, base: string, join: (string, string) -> string)
    requires st.pageTitle == None
    ensures var r := Step(Step(Step(Step(st, StartTag("title", []), base, join), Data(d), base, join),
                                EndTag("title"), base, join), Data(e), base, join);
      r.pageTitle == Some(Strip(d)) && r.links == st.links
  {
    assert Lower("title") == "title";
    assert OrEmpty(None) + d == d;
  }

  /** The longer feed types add nothing: a `type` is a feed type exactly when it
      mentions "rss", "atom", "application/xml" or "text/xml". */
  lemma FeedTypeShort(typ: string)
    ensures FeedType(typ) <==>
      Contains(typ, "rss") || Contains(typ, "atom") || Contains(typ, "application/xml") || Contains(typ, "text/xml")
  {
    if Contains(typ, "application/rss+xml") {
      assert "application/rss+xml" == "application/" + "rss" + "+xml";
      OccursMiddle("application/", "rss", "+xml");
      ContainsInner(typ, "application/rss+xml", "rss", 12);
    }
    if Contains(typ, "application/atom+xml") {
      assert "application/atom+xml" == "application/" + "atom" + "+xml";
      OccursMiddle("application/", "atom", "+xml");
      ContainsInner(typ, "application/atom+xml", "atom", 12);
    }
    if Contains(typ, "rss") {
      assert "rss" in FeedTypes;
    }
    if Contains(typ, "atom") {
      assert "atom" in FeedTypes;
    }
    if Contains(typ, "application/xml") {
      assert "application/xml" in FeedTypes;
    }
    if Contains(typ, "text/xml") {
      assert "text/xml" in FeedTypes;
    }
  }

  /** `q` occurs in `a + q + b` right after `a`. */
  lemma OccursMiddle(a: string, q: string, b: string)
    ensures OccursAt(a + q + b, q, |a|)
  {
    assert (a + q + b)[|a|..|a| + |q|] == q;
  }

  /** A text that contains `p` contains every piece of `p`. */
  lemma ContainsInner(s: string, p: string, q: string, j: int)
    requires Contains(s, p) && OccursAt(p, q, j)
    ensures Contains(s, q)
  {
    var i :| 0 <= i <= |s| - |p| && OccursAt(s, p, i);
    var w := s[i..i + |p|];
    assert forall t | 0 <= t < |p| :: s[i + t] == w[t];
    assert s[i + j..i + j + |q|] == q by {
      assert forall t | 0 <= t < |q| :: q[t] == p[j + t];
    }
    assert OccursAt(s, q, i + j);
  }

  // ---------------- the page list ----------------

  /** `re.match(r"^https?://", tok, flags=re.IGNORECASE)`, on ASCII letters. */
  predicate HttpPrefix(tok: string) {
    var l := Lower(tok);
    StartsWith(l, "http://") || StartsWith(l, "https://")
  }

  /** The whitespace-separated tokens that `parse_urls_from_file` keeps. */
  function KeepUrls(toks: seq<string>): (r: seq<string>)
    ensures |r| <= |toks|
    ensures forall k | 0 <= k < |r| :: HttpPrefix(r[k]) && r[k][0] != '#'
  {
    if |toks| == 0 then []
    else
      var tok := Strip(toks[0]);
      if tok == [] || tok[0] == '#' then KeepUrls(toks[1..])
      else if HttpPrefix(tok) then [tok] + KeepUrls(toks[1..])
      else KeepUrls(toks[1..])
  }

  /** `parse_urls_from_file`: the http(s) URLs of the file, in order; none when the
      file cannot be read. */
  function ParseUrls(text: Option<string>): (r: seq<string>)
    ensures text.None? ==> r == []
    ensures forall k | 0 <= k < |r| :: HttpPrefix(r[k]) && |r[k]| > 0
    ensures forall k, i | 0 <= k < |r| && 0 <= i < |r[k]| :: !IsSpace(r[k][i])
  {
    if text.None? then []
    else
      var toks := SplitRuns(text.value, IsSpace);
      var r := KeepUrls(toks);
      KeepUrlsFrom(toks);
      r
  }

  /** Each kept URL is one of the tokens. */
  lemma {:induction false} KeepUrlsFrom(toks: seq<string>)
    requires forall k, i | 0 <= k < |toks| && 0 <= i < |toks[k]| :: !IsSpace(toks[k][i])
    ensures forall k, i | 0 <= k < |KeepUrls(toks)| && 0 <= i < |KeepUrls(toks)[k]| :: !IsSpace(KeepUrls(toks)[k][i])
  {
    if |toks| > 0 {
      KeepUrlsFrom(toks[1..]);
      TrimByKeeps(toks[0], IsSpace);
    }
  }

  /** A file listing URLs one per line reads back as exactly those URLs. */
  lemma UrlsRoundTrip(urls: seq<string>)
    requires forall k | 0 <= k < |urls| :: HttpPrefix(urls[k])
    requires forall k, i | 0 <= k < |urls| && 0 <= i < |urls[k]| :: !IsSpace(urls[k][i])
    ensures ParseUrls(Some(Join(urls, '\n'))) == urls
  {
    forall k | 0 <= k < |urls|
      ensures |urls[k]| > 0
    {
      assert |Lower(urls[k])| == |urls[k]|;
    }
    SplitJoin(urls, '\n', IsSpace);
    KeepUrlsAll(urls);
  }

  lemma {:induction false} KeepUrlsAll(urls: seq<string>)
    requires forall k | 0 <= k < |urls| :: HttpPrefix(urls[k]) && |urls[k]| > 0
    requires forall k, i | 0 <= k < |urls| && 0 <= i < |urls[k]| :: !IsSpace(urls[k][i])
    ensures KeepUrls(urls) == urls
  {
    if |urls| > 0 {
      var u := urls[0];
      UrlKept(u);
      assert KeepUrls(urls) == [u] + KeepUrls(urls[1..]);
      KeepUrlsAll(urls[1..]);
      assert urls == [u] + urls[1..];
    }
  }

  /** A whitespace-free http(s) URL survives the strip and is not a comment. */
  lemma UrlKept(u: string)
    requires HttpPrefix(u)
    requires forall i | 0 <= i < |u| :: !IsSpace(u[i])
    ensures Strip(u) == u && u != [] && u[0] != '#'
  {
    assert |Lower(u)| == |u| && Lower(u)[0] == 'h';
    TrimByKeeps(u, IsSpace);
  }

  // ---------------- command-line values ----------------

  /** `--tier`: kept only when it is between 1 and 5. */
  function TierVal(t: Option<int>): (r: Option<int>)
    ensures r.Some? <==> t.Some? && 1 <= t.value <= 5
    ensures r.Some? ==> r == t
  {
    if t.Some? && 1 <= t.value <= 5 then t else None
  }

  /** `--groups`: the non-empty pieces between runs of commas and whitespace. */
  function Groups(arg: Option<string>): (r: seq<string>)
    ensures !Truthy(arg) ==> r == []
  {
    if Truthy(arg) then SplitRuns(arg.value, Config.IsGroupSep) else []
  }

  /** The tool reads a group list as rssel's own `_parse_groups_arg` does. */
  lemma GroupsAgree(arg: Option<string>)
    ensures Groups(arg) == Config.ParseGroupsArg(arg)
  {
    if Truthy(arg) {
      var pieces := SplitRuns(arg.value, Config.IsGroupSep);
      Config.KeepStrippedIdentity(pieces);
    }
  }

  /** The command line: a page URL or a file of them, groups and tier. */
  datatype Args = Args(url: Option<string>, file: Option<string>, groups: Option<string>, tier: Option<int>)

  /** The pages to visit: those of the file when one is named (its text is `None`
      when it cannot be read), else the one URL; with neither the tool exits with
      status 2. */
  function Pages(a: Args, fileText: Option<string>): (r: Result<seq<string>, int>)
    ensures r.Err? <==> !Truthy(a.file) && !Truthy(a.url)
    ensures r.Err? ==> r.error == 2
    ensures Truthy(a.file) ==> r == Ok(ParseUrls(fileText))
    ensures !Truthy(a.file) && Truthy(a.url) ==> r == Ok([a.url.value])
  {
    if Truthy(a.file) then Ok(ParseUrls(fileText))
    else if Truthy(a.url) then Ok([a.url.value])
    else Err(2)
  }

  // ---------------- entries ----------------

  /** One printed object: a sources-file entry. */
  datatype Entry = Entry(title: string, url: string, groups: seq<string>, tier: Option<int>)

  /** The outcome of `http_get` for one page: the events the tokenizer reports for
      the fetched page; an `HTTPError` or `URLError`, which the loop reports and
      skips; or any other exception (a `ValueError` from `Request` for a URL without
      a scheme, a timeout while reading), which nothing catches. */
  datatype Fetched = Page(events: seq<Event>) | Caught | Raised

  /** How pages are fetched and links resolved: `http_get`, `urljoin` and
      `html.unescape`. */
  datatype Env = Env(
    fetch: string -> Fetched,
    join: (string, string) -> string,
    unescape: string -> string)

  /** `link.get("title") or parser.page_title or href`. */
  function EntryTitle(l: Link, pageTitle: Option<string>): (t: string)
    ensures Truthy(l.title) ==> t == l.title.value
    ensures !Truthy(l.title) && Truthy(pageTitle) ==> t == pageTitle.value
    ensures !Truthy(l.title) && !Truthy(pageTitle) ==> t == l.href
  {
    Or(Or(l.title, pageTitle), Some(l.href)).value
  }

  /** The entries of one parsed page: each link titled by its own title, else the
      page title, else its URL, the title unescaped. */
  function Entries(st: ParserState, groups: seq<string>, tier: Option<int>, unescape: string -> string): (r: seq<Entry>)
    ensures |r| == |st.links|
    ensures forall k | 0 <= k < |r| :: r[k] == Entry(unescape(EntryTitle(st.links[k], st.pageTitle)), st.links[k].href, groups, tier)
  {
    seq(|st.links|, k requires 0 <= k < |st.links| =>
      Entry(unescape(EntryTitle(st.links[k], st.pageTitle)), st.links[k].href, groups, tier))
  }

  /** The entries found on one page; none when it cannot be fetched. */
  function Found(page: string, env: Env, groups: seq<string>, tier: Option<int>): seq<Entry> {
    match env.fetch(page)
    case Page(evs) => Entries(Parse(evs, page, env.join), groups, tier, env.unescape)
    case _ => []
  }

  /** The entries found on all pages, page by page. */
  function FoundAll(pages: seq<string>, env: Env, groups: seq<string>, tier: Option<int>): (r: seq<Entry>)
    ensures forall k | 0 <= k < |r| :: r[k].groups == groups && r[k].tier == tier
    decreases |pages|
  {
    if |pages| == 0 then []
    else Found(pages[0], env, groups, tier) + FoundAll(pages[1..], env, groups, tier)
  }

  /** The paths guessed when no page advertises a feed. */
  const GuessPaths: seq<string> := ["/feed", "/feed.xml", "/rss.xml", "/atom.xml"]

  /** `href.rsplit("/", 1)[-1]`: what follows the last slash, or all of `href`. */
  function LastSegment(href: string): string
    decreases |href|
  {
    if |href| == 0 || href[|href| - 1] == '/' then []
    else LastSegment(href[..|href| - 1]) + [href[|href| - 1]]
  }

  /** The segment is the longest suffix of `href` without a slash. */
  lemma {:induction false} LastSegmentShape(href: string)
    ensures var r := LastSegment(href);
      && |r| <= |href| && r == href[|href| - |r|..]
      && '/' !in r
      && (|r| < |href| ==> href[|href| - |r| - 1] == '/')
    decreases |href|
  {
    if |href| > 0 && href[|href| - 1] != '/' {
      var init := href[..|href| - 1];
      LastSegmentShape(init);
      var r0 := LastSegment(init);
      assert href == init + [href[|href| - 1]];
      assert init[|init| - |r0|..] + [href[|href| - 1]] == href[|href| - |r0| - 1..];
    }
  }

  /** The segment after a final slash is the one the guess titles show. */
  lemma LastSegmentAfter(p: string, s: string)
    requires '/' !in s
    ensures LastSegment(p + "/" + s) == s
  {
    var h := p + "/" + s;
    var r := LastSegment(h);
    LastSegmentShape(h);
    assert h[|h| - |s|..] == s;
    assert h[|h| - |s| - 1] == '/';
    assert |r| == |s|;
  }

  /** The guessed entries of one page, one per path (the tool uses `GuessPaths`). */
  function Guesses(page: string, paths: seq<string>, join: (string, string) -> string, groups: seq<string>, tier: Option<int>): (r: seq<Entry>)
    ensures |r| == |paths|
    ensures forall k | 0 <= k < |r| :: r[k].url == join(page, paths[k])
    ensures forall k | 0 <= k < |r| :: r[k].groups == groups && r[k].tier == tier
  {
    seq(|paths|, k requires 0 <= k < |paths| => Guess(page, paths[k], join, groups, tier))
  }

  /** One guess: `path` joined to `page`, titled by the last segment of the result. */
  function Guess(page: string, path: string, join: (string, string) -> string, groups: seq<string>, tier: Option<int>): (e: Entry)
    ensures e.url == join(page, path) && e.groups == groups && e.tier == tier
  {
    var href := join(page, path);
    Entry(LastSegment(href), href, groups, tier)
  }

  /** Where `urljoin` puts a guessed path right after the site's address, the
      guess is titled by the path's file name: "feed", "feed.xml", "rss.xml" or
      "atom.xml". */
  lemma GuessTitle(page: string, join: (string, string) -> string, groups: seq<string>, tier: Option<int>, k: nat, base: string)
    requires k < 4 && join(page, GuessPaths[k]) == base + GuessPaths[k]
    ensures Guesses(page, GuessPaths, join, groups, tier)[k].title == GuessPaths[k][1..]
  {
    var path := GuessPaths[k];
    assert path[0] == '/' && '/' !in path[1..];
    GuessTitleOf(page, path, join, groups, tier, base);
  }

  /** A guess whose joined address ends in `/name` is titled `name`. */
  lemma GuessTitleOf(page: string, path: string, join: (string, string) -> string, groups: seq<string>, tier: Option<int>, base: string)
    requires path != [] && path[0] == '/' && '/' !in path[1..]
    requires join(page, path) == base + path
    ensures Guess(page, path, join, groups, tier).title == path[1..]
  {
    LastSegmentAfter(base, path[1..]);
    assert base + path == base + "/" + path[1..];
  }

  /** The guessed entries of all pages, one per path for each page in turn. */
  function GuessAll(pages: seq<string>, paths: seq<string>, env: Env, groups: seq<string>, tier: Option<int>): (r: seq<Entry>)
    requires |paths| == 4
    ensures |r| == 4 * |pages|
    ensures forall k | 0 <= k < |r| :: r[k].groups == groups && r[k].tier == tier
  {
    seq(4 * |pages|, i requires 0 <= i < 4 * |pages| => Guess(pages[i / 4], paths[i % 4], env.join, groups, tier))
  }

  /** The guesses come page by page, the four paths in order for each. */
  lemma GuessAllUrls(pages: seq<string>, paths: seq<string>, env: Env, groups: seq<string>, tier: Option<int>, p: nat, j: nat)
    requires |paths| == 4
    requires p < |pages| && j < 4
    ensures GuessAll(pages, paths, env, groups, tier)[4 * p + j] == Guesses(pages[p], paths, env.join, groups, tier)[j]
    ensures GuessAll(pages, paths, env, groups, tier)[4 * p + j].url == env.join(pages[p], paths[j])
  {
    assert (4 * p + j) / 4 == p && (4 * p + j) % 4 == j;
  }

  /** The guesses of the first page come first, then those of the rest, as the
      loop over pages appends them. */
  lemma {:induction false} GuessAllCons(pages: seq<string>, paths: seq<string>, env: Env, groups: seq<string>, tier: Option<int>)
    requires |paths| == 4 && |pages| > 0
    ensures GuessAll(pages, paths, env, groups, tier)
      == Guesses(pages[0], paths, env.join, groups, tier) + GuessAll(pages[1..], paths, env, groups, tier)
  {
    var all := GuessAll(pages, paths, env, groups, tier);
    var g := Guesses(pages[0], paths, env.join, groups, tier);
    var rest := GuessAll(pages[1..], paths, env, groups, tier);
    forall i | 0 <= i < |all|
      ensures all[i] == (g + rest)[i]
    {
      if i >= 4 {
        var p := i / 4;
        assert (i - 4) / 4 == p - 1 && (i - 4) % 4 == i % 4;
        assert pages[1..][p - 1] == pages[p];
      }
    }
  }

  lemma AppendRight<T>(a: seq<T>, b: seq<T>, i: int)
    requires |a| <= i < |a| + |b|
    ensures (a + b)[i] == b[i - |a|]
  {
  }

  /** Why the tool ends without printing: exit status 2 when given neither a file
      nor a URL, or the traceback of an exception raised while fetching `page`. */
  datatype Failure = Usage(code: int) | Traceback(page: string)

  /** The first page whose fetch raises an exception the loop does not catch. */
  function FirstRaised(pages: seq<string>, env: Env): (r: Option<string>)
    ensures r.None? <==> forall k | 0 <= k < |pages| :: !env.fetch(pages[k]).Raised?
    ensures r.Some? ==> exists k | 0 <= k < |pages| :: pages[k] == r.value && env.fetch(r.value).Raised?
    decreases |pages|
  {
    if |pages| == 0 then None
    else if env.fetch(pages[0]).Raised? then Some(pages[0])
    else
      var r := FirstRaised(pages[1..], env);
      assert r.None? ==> forall k | 1 <= k < |pages| :: !env.fetch(pages[k]).Raised? by {
        if r.None? {
          forall k | 1 <= k < |pages| ensures !env.fetch(pages[k]).Raised? {
            assert pages[k] == pages[1..][k - 1];
          }
        }
      }
      assert r.Some? ==> exists k | 0 <= k < |pages| :: pages[k] == r.value && env.fetch(r.value).Raised? by {
        if r.Some? {
          var k :| 0 <= k < |pages[1..]| && pages[1..][k] == r.value && env.fetch(r.value).Raised?;
          assert pages[k + 1] == r.value;
        }
      }
      r
  }

  /** `main`: the pages to visit, then the feeds they advertise, or the guesses when
      none advertises any. The results are printed only after the loop, so an
      uncaught exception on any page ends the tool with no output. */
  function Discover(a: Args, fileText: Option<string>, env: Env): (r: Result<seq<Entry>, Failure>)
    ensures Pages(a, fileText).Err? <==> r == Err(Usage(2))
    ensures Pages(a, fileText).Ok? ==>
      (r.Err? <==> exists k | 0 <= k < |Pages(a, fileText).value| :: env.fetch(Pages(a, fileText).value[k]).Raised?)
    ensures r.Ok? ==> forall k | 0 <= k < |r.value| ::
      r.value[k].groups == Groups(a.groups) && r.value[k].tier == TierVal(a.tier)
    ensures r.Ok? ==> (|r.value| == 0 <==> |Pages(a, fileText).value| == 0)
  {
    match Pages(a, fileText)
    case Err(code) => Err(Usage(code))
    case Ok(pages) =>
      match FirstRaised(pages, env)
      case Some(page) => Err(Traceback(page))
      case None =>
        var groups := Groups(a.groups);
        var tier := TierVal(a.tier);
        var found := FoundAll(pages, env, groups, tier);
        if |found| > 0 then
          FoundSomePage(pages, env, groups, tier);
          Ok(found)
        else Ok(GuessAll(pages, GuessPaths, env, groups, tier))
  }

  /** Entries found on some page mean there was a page. */
  lemma FoundSomePage(pages: seq<string>, env: Env, groups: seq<string>, tier: Option<int>)
    requires |FoundAll(pages, env, groups, tier)| > 0
    ensures |pages| > 0
  {
  }

  /** The guesses are made only when no page yields an entry, and then for every
      page, including pages that could not be fetched. */
  lemma GuessesOnlyWhenNothingFound(a: Args, fileText: Option<string>, env: Env)
    requires Pages(a, fileText).Ok?
    requires forall k | 0 <= k < |Pages(a, fileText).value| :: !env.fetch(Pages(a, fileText).value[k]).Raised?
    ensures var pages := Pages(a, fileText).value;
      var groups := Groups(a.groups);
      var tier := TierVal(a.tier);
      var found := FoundAll(pages, env, groups, tier);
      && (|found| > 0 ==> Discover(a, fileText, env).value == found)
      && (|found| == 0 ==> Discover(a, fileText, env).value == GuessAll(pages, GuessPaths, env, groups, tier))
  {
  }

  /** A page whose events advertise no feed contributes no entry. */
  lemma {:induction false} NothingAdvertised(pages: seq<string>, env: Env, groups: seq<string>, tier: Option<int>)
    requires forall k | 0 <= k < |pages| :: env.fetch(pages[k]).Page? ==>
      LinksOf(env.fetch(pages[k]).events, pages[k], env.join) == []
    ensures FoundAll(pages, env, groups, tier) == []
    decreases |pages|
  {
    if |pages| > 0 {
      NothingAdvertised(pages[1..], env, groups, tier);
      var p := pages[0];
      if env.fetch(p).Page? {
        ParseLinks(env.fetch(p).events, p, env.join);
      }
    }
  }
}
