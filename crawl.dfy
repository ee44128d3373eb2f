/**
 * The crawler's frontier bookkeeping: `should_visit` and the breadth-first
 * loop of `crawl_website`. The browser is an oracle (`Site`): whether a
 * page loads, its cleaned text and title, and the links on it, each link
 * already resolved against the page and parsed into scheme, network
 * location and path (none for an empty `href`).
 *
 * The loop is specified by `Run`, which repeats `Step` (one round of the
 * `while`) until the queue is empty or `max_pages` pages are visited;
 * `CrawlWebsite` is proved to return the results of `Run`, and the lemmas
 * state what every reachable frontier satisfies.
 */
module Crawl {
  import opened Wrappers
  import opened Text

  /** Substrings that mark a URL as not worth crawling. */
  const Blacklist: seq<string> := ["login", "signup", "cart", "privacy", "terms", "mailto:", "tel:"]

  /** Some word of `words` occurs in `s`. */
  predicate AnyIn(s: string, words: seq<string>) {
    words != [] && (Contains(s, words[0]) || AnyIn(s, words[1..]))
  }

  lemma {:induction false} AnyInExists(s: string, words: seq<string>)
    ensures AnyIn(s, words) <==> exists i :: 0 <= i < |words| && Contains(s, words[i])
  {
    if words != [] {
      AnyInExists(s, words[1..]);
      assert forall i :: 1 <= i < |words| ==> words[1..][i - 1] == words[i];
    }
  }

  /** `should_visit`: the lower-cased URL contains no blacklisted word. */
  function ShouldVisit(url: string): (r: bool)
    ensures r <==> forall i :: 0 <= i < |Blacklist| ==> !Contains(Lower(url), Blacklist[i])
  {
    AnyInExists(Lower(url), Blacklist);
    !AnyIn(Lower(url), Blacklist)
  }

  /** `sub` occurs in `s` at offset `i`. */
  predicate OccursAt(s: string, sub: string, i: int) {
    0 <= i <= |s| - |sub| && s[i..i + |sub|] == sub
  }

  /** The substring test, stated by position: `sub` occurs in `s` at some offset. */
  lemma {:induction false} ContainsAt(s: string, sub: string)
    ensures Contains(s, sub) <==> exists i :: OccursAt(s, sub, i)
  {
    if sub <= s {
      assert OccursAt(s, sub, 0);
    } else if s != [] {
      ContainsAt(s[1..], sub);
      if Contains(s[1..], sub) {
        var i :| OccursAt(s[1..], sub, i);
        assert s[i + 1..i + 1 + |sub|] == s[1..][i..i + |sub|];
        assert OccursAt(s, sub, i + 1);
      }
      if i :| OccursAt(s, sub, i) {
        assert i != 0;
        assert s[1..][i - 1..i - 1 + |sub|] == s[i..i + |sub|];
        assert OccursAt(s[1..], sub, i - 1);
      }
    }
  }

  /** A URL whose lower-cased form holds "cart" is not visited. */
  lemma CartPageSkipped()
    ensures !ShouldVisit("https://shop.example/CART")
  {
    var s := Lower("https://shop.example/CART");
    assert s[21..25] == "cart" by {
      forall k | 21 <= k < 25 ensures s[k] == "cart"[k - 21] { }
    }
    assert OccursAt(s, "cart", 21);
    ContainsAt(s, "cart");
    assert Blacklist[2] == "cart";
  }

  /** A link as `urlparse(urljoin(page, href))` gives it. */
  datatype Url = Url(scheme: string, netloc: string, path: string, query: string, fragment: string)

  /** The URL put on the queue: scheme, `://`, network location and path. */
  function CleanUrl(u: Url): string {
    u.scheme + "://" + u.netloc + u.path
  }

  /** The queued form of a link ignores its query and fragment. */
  lemma CleanUrlDropsQueryAndFragment(u: Url, query: string, fragment: string)
    ensures CleanUrl(u.(query := query, fragment := fragment)) == CleanUrl(u)
    ensures CleanUrl(u)[..|u.scheme|] == u.scheme
    ensures CleanUrl(u)[|u.scheme| + 3 + |u.netloc|..] == u.path
  {
  }

  /** `url` is the clean form of some link on the network location `base`. */
  ghost predicate OnDomain(url: string, base: string) {
    exists u: Url :: u.netloc == base && CleanUrl(u) == url
  }

  /** The browser: page loads, cleaned text, title, and links of each URL. */
  datatype Site = Site(
    loads: string -> bool,
    text: string -> string,
    title: string -> Option<string>,
    links: string -> seq<Option<Url>>)

  /** The fixed inputs of one crawl; `base` is the network location of `start`. */
  datatype Config = Config(site: Site, start: string, base: string, maxPages: int, maxDepth: int)

  /** The defaults of `crawl_website`'s `max_pages` and `max_depth`. */
  const DefaultMaxPages: int := 10
  const DefaultMaxDepth: int := 2

  /** The inputs of a call to `crawl_website`, with its default bounds. */
  function CrawlConfig(site: Site, start: string, base: string,
                       maxPages: int := DefaultMaxPages, maxDepth: int := DefaultMaxDepth): Config
  {
    Config(site, start, base, maxPages, maxDepth)
  }

  datatype Entry = Entry(url: string, depth: int)

  /** One element of the returned list: the `url`, `text` and `title` of a crawled page. */
  datatype PageResult = PageResult(url: string, text: string, title: Option<string>)

  /**
   * The loop's variables: the queue, the visited set and the results; and,
   * for the proofs only, the depth at which each result was crawled.
   */
  datatype Frontier = Frontier(queue: seq<Entry>, visited: set<string>, results: seq<PageResult>, depths: seq<int>)

  function Init(cfg: Config): Frontier {
    Frontier([Entry(cfg.start, 0)], {}, [], [])
  }

  /** The queue entry one link yields, if it passes the three tests. */
  function Admit(link: Option<Url>, base: string, visited: set<string>, depth: int): seq<Entry> {
    match link
    case None => []
    case Some(u) =>
      if u.netloc == base && CleanUrl(u) !in visited && ShouldVisit(CleanUrl(u))
      then [Entry(CleanUrl(u), depth + 1)]
      else []
  }

  /** The entries the link loop appends, in link order. */
  function Enqueued(links: seq<Option<Url>>, base: string, visited: set<string>, depth: int): seq<Entry> {
    if links == [] then []
    else Enqueued(links[..|links| - 1], base, visited, depth) + Admit(links[|links| - 1], base, visited, depth)
  }

  /**
   * Each appended entry is one level deeper, unvisited, passes
   * `should_visit`, and is the clean form of link `i`, which lies on the
   * start's network location.
   */
  lemma {:induction false} EnqueuedSound(links: seq<Option<Url>>, base: string, visited: set<string>, depth: int, e: Entry)
    returns (i: nat)
    requires e in Enqueued(links, base, visited, depth)
    ensures e.depth == depth + 1 && e.url !in visited && ShouldVisit(e.url)
    ensures i < |links| && links[i].Some? && links[i].value.netloc == base && CleanUrl(links[i].value) == e.url
  {
    var n := |links| - 1;
    if e in Enqueued(links[..n], base, visited, depth) {
      i := EnqueuedSound(links[..n], base, visited, depth, e);
      assert links[..n][i] == links[i];
    } else {
      i := n;
    }
  }

  /** Each link on the start's network location that is unvisited and passes `should_visit` is appended. */
  lemma {:induction false} EnqueuedComplete(links: seq<Option<Url>>, base: string, visited: set<string>, depth: int, i: nat)
    requires i < |links| && links[i].Some?
    requires var u := links[i].value;
      u.netloc == base && CleanUrl(u) !in visited && ShouldVisit(CleanUrl(u))
    ensures Entry(CleanUrl(links[i].value), depth + 1) in Enqueued(links, base, visited, depth)
  {
    var n := |links| - 1;
    if i < n {
      assert links[..n][i] == links[i];
      EnqueuedComplete(links[..n], base, visited, depth, i);
    }
  }

  /** One round of the `while` loop; the queue is non-empty. */
  function Step(cfg: Config, st: Frontier): (r: Frontier)
    requires st.queue != []
    ensures (r.visited == st.visited && r.results == st.results && r.queue == st.queue[1..])
         || (st.queue[0].url !in st.visited && r.visited == st.visited + {st.queue[0].url})
  {
    var e := st.queue[0];
    var rest := st.queue[1..];
    if e.url in st.visited || e.depth > cfg.maxDepth then st.(queue := rest)
    else if !cfg.site.loads(e.url) then st.(queue := rest)
    else
      var visited := st.visited + {e.url};
      var page := PageResult(e.url, cfg.site.text(e.url), cfg.site.title(e.url));
      Frontier(rest + Enqueued(cfg.site.links(e.url), cfg.base, visited, e.depth),
               visited, st.results + [page], st.depths + [e.depth])
  }

  /** Rounds until the queue is empty or `max_pages` pages are visited. */
  function Run(cfg: Config, st: Frontier): Frontier
    decreases cfg.maxPages - |st.visited|, |st.queue|
  {
    if st.queue == [] || |st.visited| >= cfg.maxPages then st
    else Run(cfg, Step(cfg, st))
  }

  /** What `crawl_website` returns. */
  function Crawled(cfg: Config): seq<PageResult> {
    Run(cfg, Init(cfg)).results
  }

  function PageCap(maxPages: int): nat {
    if maxPages < 0 then 0 else maxPages
  }

  /**
   * The bookkeeping invariant: the visited set is the set of result URLs,
   * no URL is a result twice, at most `max_pages` pages are visited, and
   * every result is a page that loaded, recorded with the oracle's text
   * and title, crawled within `max_depth`.
   */
  ghost predicate Bookkeeping(cfg: Config, visited: set<string>, results: seq<PageResult>, depths: seq<int>) {
    |visited| == |results| <= PageCap(cfg.maxPages)
    && |depths| == |results|
    && (forall i :: 0 <= i < |results| ==> results[i].url in visited)
    && (forall u :: u in visited ==> exists i :: 0 <= i < |results| && results[i].url == u)
    && (forall i, j :: 0 <= i < j < |results| ==> results[i].url != results[j].url)
    && (forall i :: 0 <= i < |results| ==>
          var p := results[i];
          cfg.site.loads(p.url) && p.text == cfg.site.text(p.url) && p.title == cfg.site.title(p.url)
          && 0 <= depths[i] <= cfg.maxDepth)
  }

  /**
   * Breadth-first order: queue depths never decrease and span at most one
   * level, every result was crawled no deeper than anything still queued,
   * and results come in non-decreasing depth.
   */
  ghost predicate BreadthFirst(st: Frontier) {
    (forall i, j :: 0 <= i < j < |st.queue| ==> st.queue[i].depth <= st.queue[j].depth <= st.queue[i].depth + 1)
    && (forall j :: 0 <= j < |st.queue| ==> 0 <= st.queue[j].depth)
    && (forall i, j :: 0 <= i < |st.depths| && 0 <= j < |st.queue| ==> st.depths[i] <= st.queue[j].depth)
    && (forall i, j :: 0 <= i < j < |st.depths| ==> st.depths[i] <= st.depths[j])
  }

  /** Everything queued, and so everything crawled, is the start URL or an admitted link. */
  ghost predicate Scoped(cfg: Config, st: Frontier) {
    (forall j :: 0 <= j < |st.queue| ==>
       st.queue[j] == Entry(cfg.start, 0)
       || (1 <= st.queue[j].depth && ShouldVisit(st.queue[j].url) && OnDomain(st.queue[j].url, cfg.base)))
    && (forall i :: 0 <= i < |st.results| ==>
          st.results[i].url == cfg.start
          || (ShouldVisit(st.results[i].url) && OnDomain(st.results[i].url, cfg.base)))
  }

  ghost predicate Inv(cfg: Config, st: Frontier) {
    Bookkeeping(cfg, st.visited, st.results, st.depths) && BreadthFirst(st) && Scoped(cfg, st)
  }

  lemma InitInv(cfg: Config)
    ensures Inv(cfg, Init(cfg))
  {
  }

  /** Adding a fresh URL to a set grows it by one. */
  lemma AddFresh(s: set<string>, x: string)
    requires x !in s
    ensures |s + {x}| == |s| + 1
  {
  }

  /** Recording a fresh page that loaded keeps the bookkeeping. */
  lemma RecordKeepsBookkeeping(cfg: Config, visited: set<string>, results: seq<PageResult>, depths: seq<int>, e: Entry)
    requires Bookkeeping(cfg, visited, results, depths)
    requires e.url !in visited && |visited| < cfg.maxPages && cfg.site.loads(e.url) && 0 <= e.depth <= cfg.maxDepth
    ensures Bookkeeping(cfg, visited + {e.url},
                        results + [PageResult(e.url, cfg.site.text(e.url), cfg.site.title(e.url))],
                        depths + [e.depth])
  {
    var v, rs := visited + {e.url}, results + [PageResult(e.url, cfg.site.text(e.url), cfg.site.title(e.url))];
    var ds := depths + [e.depth];
    AddFresh(visited, e.url);
    forall u | u in v ensures exists i :: 0 <= i < |rs| && rs[i].url == u {
      if u == e.url {
        assert rs[|results|].url == u;
      } else {
        var i :| 0 <= i < |results| && results[i].url == u;
        assert rs[i].url == u;
      }
    }
    forall i | 0 <= i < |rs|
      ensures rs[i].url in v
      ensures cfg.site.loads(rs[i].url) && rs[i].text == cfg.site.text(rs[i].url)
              && rs[i].title == cfg.site.title(rs[i].url) && 0 <= ds[i] <= cfg.maxDepth
    {
      if i < |results| {
        assert rs[i] == results[i] && ds[i] == depths[i];
      }
    }
    forall i, j | 0 <= i < j < |rs|
      ensures rs[i].url != rs[j].url
    {
      assert rs[i] == results[i];
      if j == |results| {
        assert results[i].url in visited;
      } else {
        assert rs[j] == results[j];
      }
    }
  }

  lemma StepBookkeeping(cfg: Config, st: Frontier)
    requires st.queue != [] && |st.visited| < cfg.maxPages
    requires Bookkeeping(cfg, st.visited, st.results, st.depths) && BreadthFirst(st)
    ensures var r := Step(cfg, st); Bookkeeping(cfg, r.visited, r.results, r.depths)
  {
    var e := st.queue[0];
    if !(e.url in st.visited || e.depth > cfg.maxDepth) && cfg.site.loads(e.url) {
      RecordKeepsBookkeeping(cfg, st.visited, st.results, st.depths, e);
    }
  }

  lemma StepBreadthFirst(cfg: Config, st: Frontier)
    requires st.queue != [] && BreadthFirst(st)
    ensures BreadthFirst(Step(cfg, st))
  {
    var e := st.queue[0];
    var rest := st.queue[1..];
    var r := Step(cfg, st);
    if !(e.url in st.visited || e.depth > cfg.maxDepth) && cfg.site.loads(e.url) {
      var added := Enqueued(cfg.site.links(e.url), cfg.base, st.visited + {e.url}, e.depth);
      assert forall k :: 0 <= k < |added| ==> added[k].depth == e.depth + 1 by {
        forall k | 0 <= k < |added| ensures added[k].depth == e.depth + 1 {
          var _ := EnqueuedSound(cfg.site.links(e.url), cfg.base, st.visited + {e.url}, e.depth, added[k]);
        }
      }
      assert r.queue == rest + added;
      assert forall k :: 0 <= k < |rest| ==> e.depth <= rest[k].depth <= e.depth + 1 by {
        forall k | 0 <= k < |rest| ensures e.depth <= rest[k].depth <= e.depth + 1 {
          assert rest[k] == st.queue[k + 1];
        }
      }
      assert r.depths == st.depths + [e.depth];
    }
  }

  lemma StepScoped(cfg: Config, st: Frontier)
    requires st.queue != [] && Scoped(cfg, st) && BreadthFirst(st)
    ensures Scoped(cfg, Step(cfg, st))
  {
    var e := st.queue[0];
    var rest := st.queue[1..];
    var r := Step(cfg, st);
    if !(e.url in st.visited || e.depth > cfg.maxDepth) && cfg.site.loads(e.url) {
      var links := cfg.site.links(e.url);
      var added := Enqueued(links, cfg.base, st.visited + {e.url}, e.depth);
      assert r.queue == rest + added;
      forall k | 0 <= k < |added|
        ensures 1 <= added[k].depth && ShouldVisit(added[k].url) && OnDomain(added[k].url, cfg.base)
      {
        var i := EnqueuedSound(links, cfg.base, st.visited + {e.url}, e.depth, added[k]);
        var u := links[i].value;
        assert u.netloc == cfg.base && CleanUrl(u) == added[k].url;
      }
    }
  }

  lemma StepInv(cfg: Config, st: Frontier)
    requires st.queue != [] && |st.visited| < cfg.maxPages && Inv(cfg, st)
    ensures Inv(cfg, Step(cfg, st))
  {
    StepBookkeeping(cfg, st);
    StepBreadthFirst(cfg, st);
    StepScoped(cfg, st);
  }

  lemma {:induction false} RunInv(cfg: Config, st: Frontier)
    requires Inv(cfg, st)
    ensures Inv(cfg, Run(cfg, st))
    decreases cfg.maxPages - |st.visited|, |st.queue|
  {
    if !(st.queue == [] || |st.visited| >= cfg.maxPages) {
      StepInv(cfg, st);
      RunInv(cfg, Step(cfg, st));
    }
  }

  /**
   * What `crawl_website` returns: at most `max_pages` pages, no URL twice,
   * each a page that loaded, with the oracle's text and title, crawled
   * within `max_depth` levels of the start, in non-decreasing depth
   * (breadth-first), and each either the start URL or a link on the
   * start's network location that passes `should_visit`.
   */
  lemma CrawledPages(cfg: Config) returns (depths: seq<int>)
    ensures var rs := Crawled(cfg);
      |rs| <= PageCap(cfg.maxPages) && |depths| == |rs|
      && (forall i, j :: 0 <= i < j < |rs| ==> rs[i].url != rs[j].url)
      && (forall i :: 0 <= i < |rs| ==>
            cfg.site.loads(rs[i].url) && rs[i].text == cfg.site.text(rs[i].url)
            && rs[i].title == cfg.site.title(rs[i].url)
            && 0 <= depths[i] <= cfg.maxDepth
            && (rs[i].url == cfg.start || (ShouldVisit(rs[i].url) && OnDomain(rs[i].url, cfg.base))))
      && (forall i, j :: 0 <= i < j < |rs| ==> depths[i] <= depths[j])
  {
    InitInv(cfg);
    RunInv(cfg, Init(cfg));
    depths := Run(cfg, Init(cfg)).depths;
  }

  /**
   * A popped entry that is already visited or too deep, or whose page does
   * not load, is dropped without a result; a page that loads is visited,
   * recorded, and its admitted links are queued behind the rest.
   */
  lemma StepCases(cfg: Config, st: Frontier)
    requires st.queue != []
    ensures var e, r := st.queue[0], Step(cfg, st);
      (e.url in st.visited || e.depth > cfg.maxDepth || !cfg.site.loads(e.url) ==>
         r.visited == st.visited && r.results == st.results && r.queue == st.queue[1..])
      && (e.url !in st.visited && e.depth <= cfg.maxDepth && cfg.site.loads(e.url) ==>
            r.visited == st.visited + {e.url}
            && r.results == st.results + [PageResult(e.url, cfg.site.text(e.url), cfg.site.title(e.url))]
            && r.queue == st.queue[1..] + Enqueued(cfg.site.links(e.url), cfg.base, st.visited + {e.url}, e.depth))
  {
  }

  /** The link loop: append each admitted link, in order. */
  method EnqueueLinks(queue: seq<Entry>, links: seq<Option<Url>>, base: string, visited: set<string>, depth: int)
    returns (q: seq<Entry>)
    ensures q == queue + Enqueued(links, base, visited, depth)
  {
    q := queue;
    for i := 0 to |links|
      invariant q == queue + Enqueued(links[..i], base, visited, depth)
    {
      assert links[..i + 1][..i] == links[..i];
      var link := links[i];
      if link.None? {
        continue;
      }
      var parsed := link.value;
      var cleanUrl := parsed.scheme + "://" + parsed.netloc + parsed.path;
      if parsed.netloc == base && cleanUrl !in visited && ShouldVisit(cleanUrl) {
        q := q + [Entry(cleanUrl, depth + 1)];
      }
    }
    assert links[..|links|] == links;
  }

  /**
   * A call that leaves both bounds at their defaults returns at most ten
   * pages, each crawled at depth 0, 1 or 2.
   */
  lemma DefaultCrawlBounds(site: Site, start: string, base: string) returns (depths: seq<int>)
    ensures var rs := Crawled(CrawlConfig(site, start, base));
      |rs| <= 10 && |depths| == |rs|
      && forall i :: 0 <= i < |rs| ==> 0 <= depths[i] <= 2
  {
    depths := CrawledPages(CrawlConfig(site, start, base));
  }

  /** `crawl_website`, with the browser as the oracle `cfg.site`. */
  method CrawlWebsite(cfg: Config) returns (results: seq<PageResult>)
    ensures results == Crawled(cfg)
  {
    var visited: set<string> := {};
    var queue := [Entry(cfg.start, 0)];
    results := [];
    ghost var depths: seq<int> := [];
    while queue != [] && |visited| < cfg.maxPages
      invariant Run(cfg, Frontier(queue, visited, results, depths)) == Run(cfg, Init(cfg))
      decreases cfg.maxPages - |visited|, |queue|
    {
      ghost var before := Frontier(queue, visited, results, depths);
      var e := queue[0];
      queue := queue[1..];
      if e.url in visited || e.depth > cfg.maxDepth {
        continue;
      }
      if !cfg.site.loads(e.url) {
        continue;
      }
      visited := visited + {e.url};
      results := results + [PageResult(e.url, cfg.site.text(e.url), cfg.site.title(e.url))];
      depths := depths + [e.depth];
      queue := EnqueueLinks(queue, cfg.site.links(e.url), cfg.base, visited, e.depth);
      assert Frontier(queue, visited, results, depths) == Step(cfg, before);
    }
  }
}
