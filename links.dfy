/**
 * What the two crawlers share: the pages and URL functions they are given, the
 * scope filter of `extract_internal_links`, the frontier entries, the
 * guard-and-mark step every batch starts with, and the set of URLs a crawl can
 * reach, which bounds it.
 */
module Links {
  import opened Wrappers
  import opened Strings

  type Url = string
  type Html = string

  /** The six fields `urllib.parse.urlparse` returns. */
  datatype ParsedUrl = ParsedUrl(scheme: string, netloc: string, path: string, params: string, query: string, fragment: string)

  /**
   * What the crawl is given rather than computing: the network (`fetch_html`,
   * `None` for any exception), the `href` values of the `<a>` elements of a page
   * in document order, `urljoin` and `urlparse` (`None` where they raise
   * ValueError), and `extract_content`.
   */
  datatype Web = Web(
    fetch: Url -> Option<Html>,
    anchors: Html -> seq<string>,
    urljoin: (Url, string) -> Option<Url>,
    urlparse: Url -> Option<ParsedUrl>,
    extractContent: Html -> string)

  /** The test at scraper.py:98: same network location, and a path starting with the base path. */
  predicate InScope(base: ParsedUrl, link: ParsedUrl)
  {
    link.netloc == base.netloc && StartsWith(link.path, base.path)
  }

  /** `link` parses, and passes the scope test against the parsed `base`. */
  predicate LinkInScope(web: Web, base: Url, link: Url)
  {
    web.urlparse(base).Some? && web.urlparse(link).Some? && InScope(web.urlparse(base).value, web.urlparse(link).value)
  }

  /** Resolving `href` against `base`, or parsing the result, raises. */
  predicate Raises(web: Web, base: Url, href: string)
  {
    match web.urljoin(base, href)
    case None => true
    case Some(full) => web.urlparse(full).None?
  }

  /** `href` resolves to a URL that passes the scope test. */
  predicate Keeps(web: Web, baseParsed: ParsedUrl, base: Url, href: string)
  {
    match web.urljoin(base, href)
    case None => false
    case Some(full) =>
      match web.urlparse(full)
      case None => false
      case Some(parsed) => InScope(baseParsed, parsed)
  }

  /**
   * What `extract_internal_links(base, html)` returns, or `None` if it raises:
   * every resolved `href` in scope, as a set (duplicates collapse), fragments
   * kept. A raise anywhere loses the whole result.
   */
  function InternalLinks(web: Web, base: Url, html: Html): (r: Option<set<Url>>)
    ensures r.Some? ==> forall l :: l in r.value ==> LinkInScope(web, base, l)
  {
    match web.urlparse(base)
    case None => None
    case Some(baseParsed) =>
      var hrefs := web.anchors(html);
      if exists i :: 0 <= i < |hrefs| && Raises(web, base, hrefs[i]) then None
      else Some(set i | 0 <= i < |hrefs| && Keeps(web, baseParsed, base, hrefs[i]) :: web.urljoin(base, hrefs[i]).value)
  }

  /** The loop of `extract_internal_links`, building its `links` set. */
  method ExtractInternalLinks(web: Web, base: Url, html: Html) returns (links: Option<set<Url>>)
    ensures links == InternalLinks(web, base, html)
    ensures links.Some? ==> forall l :: l in links.value ==> LinkInScope(web, base, l)
  {
    var baseParsed := web.urlparse(base);
    if baseParsed.None? {
      return None;
    }
    var bp := baseParsed.value;
    var hrefs := web.anchors(html);
    var found: set<Url> := {};
    for i := 0 to |hrefs|
      invariant forall k :: 0 <= k < i ==> !Raises(web, base, hrefs[k])
      invariant found == set k | 0 <= k < i && Keeps(web, bp, base, hrefs[k]) :: web.urljoin(base, hrefs[k]).value
    {
      var full := web.urljoin(base, hrefs[i]);
      if full.None? {
        assert Raises(web, base, hrefs[i]);
        return None;
      }
      var parsed := web.urlparse(full.value);
      if parsed.None? {
        assert Raises(web, base, hrefs[i]);
        return None;
      }
      if parsed.value.netloc == bp.netloc && StartsWith(parsed.value.path, bp.path) {
        found := found + {full.value};
      }
    }
    links := Some(found);
  }

  /** The links the crawl finds on `url`: none if the fetch or the extraction raises. */
  function Discovered(web: Web, start: Url, url: Url): set<Url>
  {
    match web.fetch(url)
    case None => {}
    case Some(html) =>
      match InternalLinks(web, start, html)
      case None => {}
      case Some(links) => links
  }

  /** The links found on the pages of `pages`: one link step from them. */
  ghost function Linked(web: Web, start: Url, pages: set<Url>): set<Url>
  {
    set u, l | u in pages && l in Discovered(web, start, u) :: l
  }

  /** The URLs reachable from `start` in at most `d` link steps. */
  ghost function Reach(web: Web, start: Url, d: nat): set<Url>
  {
    if d == 0 then {start}
    else
      var prev := Reach(web, start, d - 1);
      prev + Linked(web, start, prev)
  }

  /** A URL reachable within `d` link steps is reachable within any `k >= d`. */
  lemma {:induction false} ReachMonotone(web: Web, start: Url, d: nat, k: nat, u: Url)
    requires d <= k && u in Reach(web, start, d)
    ensures u in Reach(web, start, k)
    decreases k - d
  {
    if d < k {
      ReachKeeps(web, start, d + 1, u);
      ReachMonotone(web, start, d + 1, k, u);
    }
  }

  /** One more link step keeps every URL already reached. */
  lemma ReachKeeps(web: Web, start: Url, k: nat, u: Url)
    requires k > 0 && u in Reach(web, start, k - 1)
    ensures u in Reach(web, start, k)
  {
  }

  lemma ReachStep(web: Web, start: Url, d: nat, u: Url, l: Url)
    requires u in Reach(web, start, d) && l in Discovered(web, start, u)
    ensures l in Reach(web, start, d + 1)
  {
  }

  /** Apart from the start URL, everything a crawl can reach passes the scope test. */
  lemma {:induction false} ReachInScope(web: Web, start: Url, d: nat, u: Url)
    requires u in Reach(web, start, d)
    ensures u == start || LinkInScope(web, start, u)
    decreases d
  {
    if d > 0 {
      var prev := Reach(web, start, d - 1);
      if u !in prev {
        var p, l :| p in prev && l in Discovered(web, start, p) && l == u;
      } else {
        ReachInScope(web, start, d - 1, u);
      }
    }
  }

  /** One entry of `to_visit`: a URL and its depth. */
  datatype Entry = Entry(url: Url, depth: nat)

  /** Both crawlers slice `to_visit[:10]`. */
  const BatchSize: nat := 10

  function Entries(es: seq<Entry>): set<Entry>
  {
    set e | e in es
  }

  predicate DistinctUrls(es: seq<Entry>)
  {
    forall i, j :: 0 <= i < j < |es| ==> es[i].url != es[j].url
  }

  /** What is appended after a prefix that is kept, step by step. */
  lemma AppendedEntries(q0: seq<Entry>, q1: seq<Entry>, q2: seq<Entry>)
    requires |q0| <= |q1| <= |q2| && q1[..|q0|] == q0 && q2[..|q1|] == q1
    ensures q2[..|q0|] == q0
    ensures multiset(q2[|q0|..]) == multiset(q1[|q0|..]) + multiset(q2[|q1|..])
  {
    assert q2[|q0|..] == q1[|q0|..] + q2[|q1|..];
  }

  /**
   * `q` is `q0` with the entries of `m` appended in some order, each as many
   * times as `m` counts it.
   */
  ghost predicate Extends(q0: seq<Entry>, q: seq<Entry>, m: multiset<Entry>)
  {
    |q| >= |q0| && q[..|q0|] == q0 && multiset(q[|q0|..]) == m
  }

  lemma ExtendsTrans(q0: seq<Entry>, q1: seq<Entry>, q2: seq<Entry>, m: multiset<Entry>, n: multiset<Entry>)
    requires Extends(q0, q1, m) && Extends(q1, q2, n)
    ensures Extends(q0, q2, m + n)
  {
    AppendedEntries(q0, q1, q2);
  }

  /** Appending nothing leaves the queue as it was. */
  lemma ExtendsNothing(q0: seq<Entry>, q: seq<Entry>)
    requires Extends(q0, q, multiset{})
    ensures q == q0
  {
    assert |q[|q0|..]| == |multiset(q[|q0|..])| == 0;
    assert q == q[..|q0|] + q[|q0|..];
  }

  function UrlsOf(pages: set<Entry>): set<Url>
  {
    set e | e in pages :: e.url
  }

  /** A set of entries with no URLs is empty. */
  lemma NoUrlsNoEntries(pages: set<Entry>)
    ensures UrlsOf(pages) == {} ==> pages == {}
  {
    if pages != {} {
      var p :| p in pages;
      assert p.url in UrlsOf(pages);
    }
  }

  /** No two entries of the set share a URL. */
  ghost predicate KeyedByUrl(pages: set<Entry>)
  {
    forall e, f :: e in pages && f in pages && e.url == f.url ==> e == f
  }

  /** The URLs of a batch whose depth is within the limit. */
  function InRange(batch: seq<Entry>, maxDepth: int): set<Url>
  {
    set e | e in batch && e.depth <= maxDepth :: e.url
  }

  /**
   * The entries of a batch that pass `if url in visited or depth > max_depth: return`
   * in batch order, `visited` having grown by the URLs admitted before.
   */
  function Admitted(batch: seq<Entry>, seen: set<Url>, maxDepth: int): seq<Entry>
    decreases |batch|
  {
    if batch == [] then []
    else
      var prev := Admitted(batch[..|batch| - 1], seen, maxDepth);
      var e := batch[|batch| - 1];
      if e.url in seen + UrlsOf(Entries(prev)) || e.depth > maxDepth then prev else prev + [e]
  }

  /**
   * Each admitted entry comes from the batch, is within the depth limit and was
   * not visited before; no URL is admitted twice; and every in-range URL of the
   * batch not visited before is admitted.
   */
  lemma {:induction false} AdmittedFacts(batch: seq<Entry>, seen: set<Url>, maxDepth: int)
    ensures forall e :: e in Admitted(batch, seen, maxDepth) ==> e in batch && e.url !in seen && e.depth <= maxDepth
    ensures DistinctUrls(Admitted(batch, seen, maxDepth))
    ensures UrlsOf(Entries(Admitted(batch, seen, maxDepth))) == InRange(batch, maxDepth) - seen
    ensures forall e :: e in Admitted(batch, seen, maxDepth) ==> FirstInRange(batch, e, maxDepth)
    decreases |batch|, 1
  {
    if batch != [] {
      var init := batch[..|batch| - 1];
      var e := batch[|batch| - 1];
      var prev := Admitted(init, seen, maxDepth);
      AdmittedFacts(init, seen, maxDepth);
      InRangeSnoc(init, e, maxDepth);
      if !(e.url in seen + UrlsOf(Entries(prev)) || e.depth > maxDepth) {
        AdmitOne(prev, e);
      }
    }
    AdmittedFirst(batch, seen, maxDepth);
  }

  /**
   * `x` is the first entry of `batch` with its URL that is within `maxDepth`:
   * the copy the guard lets through, later copies finding the URL visited.
   */
  predicate FirstInRange(batch: seq<Entry>, x: Entry, maxDepth: int)
  {
    exists i :: 0 <= i < |batch| && batch[i] == x && forall j :: 0 <= j < i ==> batch[j].url != x.url || batch[j].depth > maxDepth
  }

  /** Of several in-range copies of a URL in a batch, the first one is admitted. */
  lemma {:induction false} AdmittedFirst(batch: seq<Entry>, seen: set<Url>, maxDepth: int)
    ensures forall x :: x in Admitted(batch, seen, maxDepth) ==> FirstInRange(batch, x, maxDepth)
    decreases |batch|, 0
  {
    if batch != [] {
      var n := |batch| - 1;
      var init, e := batch[..n], batch[n];
      var prev := Admitted(init, seen, maxDepth);
      AdmittedFirst(init, seen, maxDepth);
      forall x | x in prev
        ensures FirstInRange(batch, x, maxDepth)
      {
        var i :| 0 <= i < |init| && init[i] == x && forall j :: 0 <= j < i ==> init[j].url != x.url || init[j].depth > maxDepth;
        assert forall j :: 0 <= j <= i ==> batch[j] == init[j];
      }
      if !(e.url in seen + UrlsOf(Entries(prev)) || e.depth > maxDepth) {
        AdmittedFacts(init, seen, maxDepth);
        forall j | 0 <= j < n
          ensures batch[j].url != e.url || batch[j].depth > maxDepth
        {
          assert batch[j] == init[j] && init[j] in init;
          if init[j].depth <= maxDepth {
            assert init[j].url in InRange(init, maxDepth);
          }
        }
      }
    }
  }

  /** The in-range URLs of a batch, one entry longer. */
  lemma InRangeSnoc(init: seq<Entry>, e: Entry, maxDepth: int)
    ensures InRange(init + [e], maxDepth) == InRange(init, maxDepth) + (if e.depth <= maxDepth then {e.url} else {})
  {
    assert forall x :: x in init + [e] <==> x in init || x == e;
  }

  /** Admitting an entry with a new URL keeps the URLs distinct and adds exactly that URL. */
  lemma AdmitOne(prev: seq<Entry>, e: Entry)
    requires DistinctUrls(prev) && e.url !in UrlsOf(Entries(prev))
    ensures DistinctUrls(prev + [e])
    ensures UrlsOf(Entries(prev + [e])) == UrlsOf(Entries(prev)) + {e.url}
  {
    assert Entries(prev + [e]) == Entries(prev) + {e};
    var r := prev + [e];
    forall i, j | 0 <= i < j < |r|
      ensures r[i].url != r[j].url
    {
      if j == |prev| {
        assert r[i] in prev;
      } else {
        assert r[i] == prev[i] && r[j] == prev[j];
      }
    }
  }

  lemma AdmittedKeyed(r: seq<Entry>)
    requires DistinctUrls(r)
    ensures KeyedByUrl(Entries(r))
  {
    forall e, f | e in Entries(r) && f in Entries(r) && e.url == f.url
      ensures e == f
    {
      var i :| 0 <= i < |r| && r[i] == e;
      var j :| 0 <= j < |r| && r[j] == f;
      assert i == j;
    }
  }

  /** No URL occurs twice. */
  predicate NoDuplicates(xs: seq<Url>)
  {
    forall i, j :: 0 <= i < j < |xs| ==> xs[i] != xs[j]
  }

  /** Python's iteration over a set: every element once, in some order. */
  method Enumerate(s: set<Url>) returns (xs: seq<Url>)
    ensures Elements(xs) == s && NoDuplicates(xs) && |xs| == |s|
  {
    xs := [];
    var rest := s;
    while rest != {}
      invariant Elements(xs) + rest == s && Elements(xs) !! rest
      invariant NoDuplicates(xs) && |xs| + |rest| == |s|
      decreases |rest|
    {
      var x :| x in rest;
      assert forall i :: 0 <= i < |xs| ==> xs[i] in Elements(xs);
      xs := xs + [x];
      rest := rest - {x};
    }
  }

  /** `[(link, depth) for link in xs if link not in seen]`, the appends of one page. */
  function Offered(xs: seq<Url>, seen: set<Url>, depth: nat): seq<Entry>
  {
    if xs == [] then []
    else
      var last := xs[|xs| - 1];
      Offered(xs[..|xs| - 1], seen, depth) + (if last in seen then [] else [Entry(last, depth)])
  }

  /** The unvisited links of a listing, as entries at `depth`. */
  function NewEntries(xs: seq<Url>, seen: set<Url>, depth: nat): set<Entry>
  {
    set l | l in xs && l !in seen :: Entry(l, depth)
  }

  lemma NewEntriesSnoc(init: seq<Url>, last: Url, seen: set<Url>, depth: nat)
    ensures NewEntries(init + [last], seen, depth)
         == NewEntries(init, seen, depth) + (if last in seen then {} else {Entry(last, depth)})
  {
    assert forall l :: l in init + [last] <==> l in init || l == last;
  }

  lemma MultisetAddNew(a: set<Entry>, x: Entry)
    requires x !in a
    ensures multiset(a + {x}) == multiset(a) + multiset{x}
  {
  }

  /** Distinct links give one entry each: the appends of one page, counted. */
  lemma {:induction false} OfferedMultiset(xs: seq<Url>, seen: set<Url>, depth: nat)
    requires NoDuplicates(xs)
    ensures multiset(Offered(xs, seen, depth)) == multiset(NewEntries(xs, seen, depth))
  {
    if xs != [] {
      var init := xs[..|xs| - 1];
      var last := xs[|xs| - 1];
      assert xs == init + [last];
      assert NoDuplicates(init) by {
        assert forall i :: 0 <= i < |init| ==> init[i] == xs[i];
      }
      assert last !in init by {
        assert forall i :: 0 <= i < |init| ==> init[i] == xs[i];
      }
      OfferedMultiset(init, seen, depth);
      NewEntriesSnoc(init, last, seen, depth);
      if last !in seen {
        MultisetAddNew(NewEntries(init, seen, depth), Entry(last, depth));
      }
    }
  }

  /** A page's loop over its distinct links appends each unvisited one once. */
  lemma ExtendsByOffered(q0: seq<Entry>, q: seq<Entry>, xs: seq<Url>, seen: set<Url>, depth: nat, offers: set<Entry>)
    requires NoDuplicates(xs) && q == q0 + Offered(xs, seen, depth)
    requires offers == NewEntries(xs, seen, depth)
    ensures Extends(q0, q, multiset(offers))
  {
    OfferedMultiset(xs, seen, depth);
    assert q[..|q0|] == q0 && q[|q0|..] == Offered(xs, seen, depth);
  }

  /** The entries processing page `e` offers, `visited` being `seen` meanwhile. */
  function PageOffers(web: Web, start: Url, seen: set<Url>, e: Entry): set<Entry>
  {
    set l | l in Discovered(web, start, e.url) && l !in seen :: Entry(l, e.depth + 1)
  }

  /**
   * Everything a set of pages offers, page by page: an entry two pages both
   * offer is counted twice, as both append it.
   */
  ghost function Offers(web: Web, start: Url, seen: set<Url>, pages: set<Entry>): multiset<Entry>
    decreases |pages|
  {
    if pages == {} then multiset{}
    else
      var p :| p in pages;
      Offers(web, start, seen, pages - {p}) + multiset(PageOffers(web, start, seen, p))
  }

  /** The sum does not depend on the page taken out first. */
  lemma {:induction false} OffersRemove(web: Web, start: Url, seen: set<Url>, pages: set<Entry>, e: Entry)
    requires e in pages
    ensures Offers(web, start, seen, pages) == Offers(web, start, seen, pages - {e}) + multiset(PageOffers(web, start, seen, e))
    decreases |pages|
  {
    assert exists p :: (p in pages && Offers(web, start, seen, pages)
      == Offers(web, start, seen, pages - {p}) + multiset(PageOffers(web, start, seen, p)));
    var p :| p in pages && Offers(web, start, seen, pages)
      == Offers(web, start, seen, pages - {p}) + multiset(PageOffers(web, start, seen, p));
    if p != e {
      OffersRemove(web, start, seen, pages - {p}, e);
      OffersRemove(web, start, seen, pages - {e}, p);
      assert pages - {p} - {e} == pages - {e} - {p};
    }
  }

  lemma OffersInsert(web: Web, start: Url, seen: set<Url>, pages: set<Entry>, e: Entry)
    requires e !in pages
    ensures Offers(web, start, seen, pages + {e}) == Offers(web, start, seen, pages) + multiset(PageOffers(web, start, seen, e))
  {
    OffersRemove(web, start, seen, pages + {e}, e);
    assert (pages + {e}) - {e} == pages;
  }

  /** An entry is offered as many times as there are pages offering it. */
  lemma {:induction false} OffersCount(web: Web, start: Url, seen: set<Url>, pages: set<Entry>, t: Entry)
    ensures Offers(web, start, seen, pages)[t] == |set p | p in pages && t in PageOffers(web, start, seen, p)|
    decreases |pages|
  {
    if pages != {} {
      var p :| p in pages;
      OffersRemove(web, start, seen, pages, p);
      OffersCount(web, start, seen, pages - {p}, t);
      OfferingRemove(web, start, seen, pages, p, t);
      var here := multiset(PageOffers(web, start, seen, p));
      assert here[t] == if t in PageOffers(web, start, seen, p) then 1 else 0;
    }
  }

  /** Taking page `p` out of the batch takes it out of the pages offering `t`. */
  lemma OfferingRemove(web: Web, start: Url, seen: set<Url>, pages: set<Entry>, p: Entry, t: Entry)
    requires p in pages
    ensures var rest := set q | q in pages - {p} && t in PageOffers(web, start, seen, q);
            |set q | q in pages && t in PageOffers(web, start, seen, q)|
              == |rest| + (if t in PageOffers(web, start, seen, p) then 1 else 0)
  {
    var rest := set q | q in pages - {p} && t in PageOffers(web, start, seen, q);
    var all := set q | q in pages && t in PageOffers(web, start, seen, q);
    if t in PageOffers(web, start, seen, p) {
      assert all == rest + {p} && p !in rest;
    } else {
      assert all == rest;
    }
  }

  /** Every offered entry is offered by one of the pages. */
  lemma {:induction false} OfferedBy(web: Web, start: Url, seen: set<Url>, pages: set<Entry>, t: Entry)
    requires t in Offers(web, start, seen, pages)
    ensures exists p :: p in pages && t in PageOffers(web, start, seen, p)
    decreases |pages|
  {
    assert pages != {};
    var p :| p in pages;
    OffersRemove(web, start, seen, pages, p);
    if t !in PageOffers(web, start, seen, p) {
      OfferedBy(web, start, seen, pages - {p}, t);
    }
  }

  /**
   * An offered entry is one level below the page that offered it, was not yet
   * visited, and is reachable at its depth when the page was.
   */
  lemma OfferedFrom(web: Web, start: Url, seen: set<Url>, pages: set<Entry>, t: Entry)
    requires t in Offers(web, start, seen, pages)
    requires forall p :: p in pages ==> p.url in Reach(web, start, p.depth)
    ensures t.url !in seen && t.depth >= 1 && t.url in Reach(web, start, t.depth)
    ensures exists p :: p in pages && t.depth == p.depth + 1
  {
    OfferedBy(web, start, seen, pages, t);
    var p :| p in pages && t in PageOffers(web, start, seen, p);
    ReachStep(web, start, p.depth, p.url, t.url);
  }

  /** The deepest level a URL can be visited at. */
  function Horizon(maxDepth: int): nat
  {
    if maxDepth < 0 then 0 else maxDepth
  }

  /** Newly visited URLs stay within the horizon. */
  lemma VisitedAfter(web: Web, start: Url, maxDepth: int, pages: set<Entry>, v0: set<Url>, v1: set<Url>)
    requires v0 <= Reach(web, start, Horizon(maxDepth))
    requires forall e :: e in pages ==> e.depth <= maxDepth && e.url in Reach(web, start, e.depth)
    requires v1 == v0 + UrlsOf(pages)
    ensures v1 <= Reach(web, start, Horizon(maxDepth))
  {
    forall u | u in v1 - v0
      ensures u in Reach(web, start, Horizon(maxDepth))
    {
      var e :| e in pages && e.url == u;
      ReachMonotone(web, start, e.depth, Horizon(maxDepth), u);
    }
  }

  /** Visiting a new URL within the horizon shrinks the part of the horizon left to visit. */
  lemma Progress(horizon: set<Url>, v0: set<Url>, v1: set<Url>)
    requires v0 <= v1 <= horizon && v1 != v0
    ensures |horizon - v1| < |horizon - v0|
  {
    assert v1 == v0 + (v1 - v0);
    assert |v1 - v0| > 0;
    assert horizon - v0 == (horizon - v1) + (v1 - v0);
    assert (horizon - v1) * (v1 - v0) == {};
  }
}
