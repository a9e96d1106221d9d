/**
 * The content-scraping crawler of scraper.py.
 *
 * The crawl state is the `visited` set and the `to_visit` and `data` lists that
 * `scrape_website` creates and every `process_url` task mutates; here they are
 * the fields of a `ContentCrawl` object. A batch runs as asyncio runs it: the
 * guard-and-mark of every task happens before the first `await`, so all of them
 * happen first, in task order; what follows an `await` happens in whatever order
 * the fetches complete, which the model leaves open (`:|`).
 */
module Scraper {
  import opened Wrappers
  import opened Strings
  import opened Links

  /** One item of the result, the object `{"URL": url, "content": content}`. */
  datatype Record = Record(url: Url, content: string)

  /** `scrape_url`: `None` instead of an exception, otherwise the record of `url`. */
  function ScrapeUrl(web: Web, url: Url): (r: Option<Record>)
    ensures r.None? <==> web.fetch(url).None?
    ensures r.Some? ==> r.value.url == url && r.value.content == web.extractContent(web.fetch(url).value)
  {
    match web.fetch(url)
    case None => None
    case Some(html) => Some(Record(url, web.extractContent(html)))
  }

  function RecordUrls(data: seq<Record>): set<Url>
  {
    set r | r in data :: r.url
  }

  /** At most one record per URL. */
  predicate DistinctRecords(data: seq<Record>)
  {
    forall i, j :: 0 <= i < j < |data| ==> data[i].url != data[j].url
  }

  lemma AppendRecord(data: seq<Record>, r: Record)
    requires DistinctRecords(data) && r.url !in RecordUrls(data)
    ensures DistinctRecords(data + [r]) && RecordUrls(data + [r]) == RecordUrls(data) + {r.url}
  {
    var d := data + [r];
    forall i, j | 0 <= i < j < |d|
      ensures d[i].url != d[j].url
    {
      if j == |data| {
        assert d[i] in data;
      } else {
        assert d[i] == data[i] && d[j] == data[j];
      }
    }
  }

  lemma HeadRecordUrl(data: seq<Record>)
    ensures data != [] ==> data[0].url in RecordUrls(data)
  {
  }

  /** Distinct records have as many URLs as there are records. */
  lemma {:induction false} DistinctCount(data: seq<Record>)
    requires DistinctRecords(data)
    ensures |RecordUrls(data)| == |data|
  {
    if data != [] {
      var init, last := data[..|data| - 1], data[|data| - 1];
      assert DistinctRecords(init) by {
        forall i, j | 0 <= i < j < |init|
          ensures init[i].url != init[j].url
        {
          assert init[i] == data[i] && init[j] == data[j];
        }
      }
      DistinctCount(init);
      forall r | r in init
        ensures r.url != last.url
      {
        var i :| 0 <= i < |init| && init[i] == r;
        assert data[i] == r;
      }
      assert data == init + [last];
      assert RecordUrls(data) == RecordUrls(init) + {last.url};
    }
  }

  /** The URLs of the pages whose fetch succeeds. */
  function FetchedUrls(web: Web, pages: set<Entry>): set<Url>
  {
    set e | e in pages && web.fetch(e.url).Some? :: e.url
  }

  lemma FetchedInsert(web: Web, pages: set<Entry>, e: Entry)
    ensures FetchedUrls(web, pages + {e}) == FetchedUrls(web, pages) + (if web.fetch(e.url).Some? then {e.url} else {})
  {
  }

  /** The non-`None` results of `scrape_url` over `urls`, in order. */
  function Scraped(web: Web, urls: seq<Url>): seq<Record>
  {
    if urls == [] then []
    else
      var last := urls[|urls| - 1];
      Scraped(web, urls[..|urls| - 1]) + (match ScrapeUrl(web, last) case None => [] case Some(r) => [r])
  }

  /** A record is in the result exactly when some URL of the list scraped to it. */
  lemma {:induction false} ScrapedMembers(web: Web, urls: seq<Url>, r: Record)
    ensures r in Scraped(web, urls) <==> exists k :: 0 <= k < |urls| && ScrapeUrl(web, urls[k]) == Some(r)
  {
    if urls != [] {
      var init := urls[..|urls| - 1];
      ScrapedMembers(web, init, r);
      if r in Scraped(web, urls) && r !in Scraped(web, init) {
        assert ScrapeUrl(web, urls[|urls| - 1]) == Some(r);
      }
      if exists k :: 0 <= k < |urls| && ScrapeUrl(web, urls[k]) == Some(r) {
        var k :| 0 <= k < |urls| && ScrapeUrl(web, urls[k]) == Some(r);
        if k < |urls| - 1 {
          assert init[k] == urls[k];
        }
      }
    }
  }

  /** `scrape_from_file`: scrape every line of the links file, keep the successes in order. */
  method ScrapeFromFile(web: Web, linksText: string) returns (data: seq<Record>)
    ensures data == Scraped(web, SplitLines(linksText))
    ensures |data| <= |SplitLines(linksText)|
  {
    var urls := SplitLines(linksText);
    data := [];
    for i := 0 to |urls|
      invariant data == Scraped(web, urls[..i])
      invariant |data| <= i
    {
      var result := ScrapeUrl(web, urls[i]);
      if result.Some? {
        data := data + [result.value];
      }
      assert urls[..i + 1][..i] == urls[..i];
    }
    assert urls[..|urls|] == urls;
  }

  /** What `process_url` appends to `data` for a page: its record, if it has one. */
  function RecordOf(web: Web, e: Entry): (r: seq<Record>)
    ensures |r| <= 1
    ensures r == [] <==> web.fetch(e.url).None?
    ensures forall x :: x in r ==> ScrapeUrl(web, e.url) == Some(x)
  {
    match ScrapeUrl(web, e.url) case None => [] case Some(x) => [x]
  }

  /**
   * `data` is `d0` followed by one record for each page of `done` whose fetch
   * succeeds, at most one per URL.
   */
  ghost predicate Recorded(web: Web, d0: seq<Record>, data: seq<Record>, done: set<Entry>)
  {
    && |data| >= |d0| && data[..|d0|] == d0
    && DistinctRecords(data)
    && (forall r :: r in data ==> r in d0 || ScrapeUrl(web, r.url) == Some(r))
    && RecordUrls(data) == RecordUrls(d0) + FetchedUrls(web, done)
  }

  lemma RecordedNone(web: Web, data: seq<Record>)
    requires DistinctRecords(data)
    ensures Recorded(web, data, data, {})
  {
    assert data[..|data|] == data;
  }

  /** Recording one more page of a batch whose URLs are new keeps `Recorded`. */
  lemma RecordStep(web: Web, pages: set<Entry>, d0: seq<Record>, data: seq<Record>, done: set<Entry>, e: Entry)
    requires KeyedByUrl(pages) && done <= pages && e in pages && e !in done
    requires forall f :: f in pages ==> f.url !in RecordUrls(d0)
    requires Recorded(web, d0, data, done)
    ensures Recorded(web, d0, data + RecordOf(web, e), done + {e})
  {
    FetchedInsert(web, done, e);
    var result := ScrapeUrl(web, e.url);
    if result.Some? {
      assert forall f :: f in done ==> f.url != e.url;
      assert e.url !in FetchedUrls(web, done);
      AppendRecord(data, result.value);
      var d := data + [result.value];
      assert d[..|d0|] == data[..|d0|];
    } else {
      assert data + RecordOf(web, e) == data;
    }
  }

  /** What expanding page `e` appends: its offers below `max_depth`, nothing at it. */
  function Appends(web: Web, start: Url, seen: set<Url>, maxDepth: int, e: Entry): multiset<Entry>
  {
    if e.depth < maxDepth then multiset(PageOffers(web, start, seen, e)) else multiset{}
  }

  /** The pages of a batch that are searched for links (scraper.py:78). */
  ghost function Expandable(pages: set<Entry>, maxDepth: int): set<Entry>
  {
    set e | e in pages && e.depth < maxDepth
  }

  lemma ExpandableInsert(web: Web, start: Url, seen: set<Url>, pages: set<Entry>, maxDepth: int, e: Entry)
    requires e !in pages
    ensures Offers(web, start, seen, Expandable(pages + {e}, maxDepth))
         == Offers(web, start, seen, Expandable(pages, maxDepth)) + Appends(web, start, seen, maxDepth, e)
  {
    if e.depth < maxDepth {
      assert Expandable(pages + {e}, maxDepth) == Expandable(pages, maxDepth) + {e};
      OffersInsert(web, start, seen, Expandable(pages, maxDepth), e);
    } else {
      assert Expandable(pages + {e}, maxDepth) == Expandable(pages, maxDepth);
    }
  }

  /** What a queued entry can be: the start entry, or a reachable link no deeper than `max_depth`. */
  ghost predicate Queued(web: Web, baseUrl: Url, maxDepth: int, e: Entry)
  {
    (e.depth <= maxDepth || e == Entry(baseUrl, 0)) && e.url in Reach(web, baseUrl, e.depth)
  }

  ghost predicate AllQueued(web: Web, baseUrl: Url, maxDepth: int, q: seq<Entry>)
  {
    forall i :: 0 <= i < |q| ==> Queued(web, baseUrl, maxDepth, q[i])
  }

  /**
   * The crawl state between batches: every visited URL is reachable within
   * the horizon, every queued entry is one the crawl can produce, and `data`
   * holds exactly one record, the right one, for each visited URL whose fetch
   * succeeds.
   */
  ghost predicate Consistent(web: Web, baseUrl: Url, maxDepth: int, visited: set<Url>, toVisit: seq<Entry>, data: seq<Record>)
  {
    && visited <= Reach(web, baseUrl, Horizon(maxDepth))
    && AllQueued(web, baseUrl, maxDepth, toVisit)
    && DistinctRecords(data)
    && (forall r :: r in data ==> ScrapeUrl(web, r.url) == Some(r))
    && RecordUrls(data) == set u | u in visited && web.fetch(u).Some?
  }

  /** Both parts of a split queue hold entries the crawl can produce. */
  lemma SplitQueue(web: Web, baseUrl: Url, maxDepth: int, q: seq<Entry>, n: nat)
    requires AllQueued(web, baseUrl, maxDepth, q) && n <= |q|
    ensures AllQueued(web, baseUrl, maxDepth, q[..n]) && AllQueued(web, baseUrl, maxDepth, q[n..])
  {
    assert forall i :: 0 <= i < |q| - n ==> q[n..][i] == q[n + i];
  }

  /** The admitted pages of a batch are new, queued entries no deeper than `max_depth`. */
  lemma AdmittedQueued(web: Web, baseUrl: Url, maxDepth: int, batch: seq<Entry>, v0: set<Url>)
    requires AllQueued(web, baseUrl, maxDepth, batch)
    ensures forall e :: e in Entries(Admitted(batch, v0, maxDepth)) ==>
              e.url !in v0 && e.depth <= maxDepth && e.url in Reach(web, baseUrl, e.depth)
    ensures KeyedByUrl(Entries(Admitted(batch, v0, maxDepth)))
  {
    AdmittedFacts(batch, v0, maxDepth);
    AdmittedKeyed(Admitted(batch, v0, maxDepth));
    forall e | e in Entries(Admitted(batch, v0, maxDepth))
      ensures e.url in Reach(web, baseUrl, e.depth)
    {
      var i :| 0 <= i < |batch| && batch[i] == e;
    }
  }

  /** The entries a batch appends to the queue are ones the crawl can produce. */
  lemma QueueAfter(web: Web, baseUrl: Url, maxDepth: int, pages: set<Entry>, v1: set<Url>, q0: seq<Entry>, q1: seq<Entry>)
    requires forall e :: e in pages ==> e.url in Reach(web, baseUrl, e.depth)
    requires AllQueued(web, baseUrl, maxDepth, q0)
    requires Extends(q0, q1, Offers(web, baseUrl, v1, Expandable(pages, maxDepth)))
    ensures AllQueued(web, baseUrl, maxDepth, q1)
  {
    var ex := Expandable(pages, maxDepth);
    forall i | 0 <= i < |q1|
      ensures Queued(web, baseUrl, maxDepth, q1[i])
    {
      if i < |q0| {
        assert q1[i] == q1[..|q0|][i];
      } else {
        assert q1[i] in q1[|q0|..];
        assert q1[i] in multiset(q1[|q0|..]);
        OfferedFrom(web, baseUrl, v1, ex, q1[i]);
      }
    }
  }

  /** The records after a batch are the records of the visited URLs. */
  lemma RecordsAfter(web: Web, pages: set<Entry>, v0: set<Url>, v1: set<Url>, d0: seq<Record>, d1: seq<Record>)
    requires forall r :: r in d0 ==> ScrapeUrl(web, r.url) == Some(r)
    requires RecordUrls(d0) == set u | u in v0 && web.fetch(u).Some?
    requires forall e :: e in pages ==> e.url !in v0
    requires v1 == v0 + UrlsOf(pages)
    requires Recorded(web, d0, d1, pages)
    ensures forall r :: r in d1 ==> ScrapeUrl(web, r.url) == Some(r)
    ensures RecordUrls(d1) == set u | u in v1 && web.fetch(u).Some?
  {
  }

  /** A batch that admits nothing changes nothing. */
  lemma NothingAdmitted(web: Web, baseUrl: Url, v1: set<Url>, q0: seq<Entry>, q1: seq<Entry>, d0: seq<Record>, d1: seq<Record>)
    requires Extends(q0, q1, Offers(web, baseUrl, v1, {}))
    requires Recorded(web, d0, d1, {})
    ensures q1 == q0 && d1 == d0
  {
    ExtendsNothing(q0, q1);
    assert DistinctRecords(d0) by {
      forall i, j | 0 <= i < j < |d0|
        ensures d0[i].url != d0[j].url
      {
        assert d0[i] == d1[i] && d0[j] == d1[j];
      }
    }
    DistinctCount(d0);
    DistinctCount(d1);
    assert FetchedUrls(web, {}) == {};
    assert |d1| == |d0|;
  }

  /** One batch keeps the crawl state consistent. */
  lemma BatchStep(web: Web, baseUrl: Url, maxDepth: int, batch: seq<Entry>,
                  v0: set<Url>, q0: seq<Entry>, d0: seq<Record>, v1: set<Url>, q1: seq<Entry>, d1: seq<Record>)
    requires Consistent(web, baseUrl, maxDepth, v0, q0, d0)
    requires AllQueued(web, baseUrl, maxDepth, batch)
    requires v1 == v0 + UrlsOf(Entries(Admitted(batch, v0, maxDepth)))
    requires Recorded(web, d0, d1, Entries(Admitted(batch, v0, maxDepth)))
    requires Extends(q0, q1, Offers(web, baseUrl, v1, Expandable(Entries(Admitted(batch, v0, maxDepth)), maxDepth)))
    ensures Consistent(web, baseUrl, maxDepth, v1, q1, d1)
    ensures v1 == v0 ==> q1 == q0 && d1 == d0
  {
    var pages := Entries(Admitted(batch, v0, maxDepth));
    AdmittedQueued(web, baseUrl, maxDepth, batch, v0);
    QueueAfter(web, baseUrl, maxDepth, pages, v1, q0, q1);
    VisitedAfter(web, baseUrl, maxDepth, pages, v0, v1);
    RecordsAfter(web, pages, v0, v1, d0, d1);
    if v1 == v0 {
      NoUrlsNoEntries(pages);
      assert pages == {};
      assert Expandable(pages, maxDepth) == {};
      NothingAdmitted(web, baseUrl, v1, q0, q1, d0, d1);
    }
  }

  /** Expanding one more page of a batch extends the queue by that page's offers. */
  lemma ExpandStep(web: Web, start: Url, seen: set<Url>, maxDepth: int, done: set<Entry>, e: Entry,
                   q0: seq<Entry>, q1: seq<Entry>, q2: seq<Entry>)
    requires e !in done
    requires Extends(q0, q1, Offers(web, start, seen, Expandable(done, maxDepth)))
    requires Extends(q1, q2, Appends(web, start, seen, maxDepth, e))
    ensures Extends(q0, q2, Offers(web, start, seen, Expandable(done + {e}, maxDepth)))
  {
    ExtendsTrans(q0, q1, q2, Offers(web, start, seen, Expandable(done, maxDepth)), Appends(web, start, seen, maxDepth, e));
    ExpandableInsert(web, start, seen, done, maxDepth, e);
  }

  class ContentCrawl {
    const web: Web
    const baseUrl: Url
    const maxDepth: int
    var visited: set<Url>
    var toVisit: seq<Entry>
    var data: seq<Record>

    ghost predicate Valid()
      reads this
    {
      Consistent(web, baseUrl, maxDepth, visited, toVisit, data)
    }

    constructor (web: Web, baseUrl: Url, maxDepth: int)
      ensures this.web == web && this.baseUrl == baseUrl && this.maxDepth == maxDepth
      ensures visited == {} && toVisit == [Entry(baseUrl, 0)] && data == []
      ensures Valid()
    {
      this.web := web;
      this.baseUrl := baseUrl;
      this.maxDepth := maxDepth;
      visited := {};
      toVisit := [Entry(baseUrl, 0)];
      data := [];
    }

    /** `current_batch = to_visit[:10]; to_visit = to_visit[10:]`. */
    method TakeBatch() returns (batch: seq<Entry>)
      requires Valid()
      modifies this`toVisit
      ensures var n := if |old(toVisit)| < BatchSize then |old(toVisit)| else BatchSize;
              batch == old(toVisit)[..n] && toVisit == old(toVisit)[n..]
      ensures Valid()
      ensures AllQueued(web, baseUrl, maxDepth, batch)
    {
      var n := if |toVisit| < BatchSize then |toVisit| else BatchSize;
      SplitQueue(web, baseUrl, maxDepth, toVisit, n);
      batch := toVisit[..n];
      toVisit := toVisit[n..];
    }

    /** The part of `process_url` before its first `await` (scraper.py:68-71). */
    method Admit(e: Entry) returns (admitted: bool)
      modifies this`visited
      ensures admitted == (e.url !in old(visited) && e.depth <= maxDepth)
      ensures visited == if admitted then old(visited) + {e.url} else old(visited)
    {
      if e.url in visited || e.depth > maxDepth {
        return false;
      }
      visited := visited + {e.url};
      return true;
    }

    /** The first step of every task of a batch, in task order. */
    method AdmitBatch(batch: seq<Entry>) returns (admitted: seq<Entry>)
      modifies this`visited
      ensures admitted == Admitted(batch, old(visited), maxDepth)
      ensures visited == old(visited) + UrlsOf(Entries(admitted))
    {
      admitted := [];
      for i := 0 to |batch|
        invariant admitted == Admitted(batch[..i], old(visited), maxDepth)
        invariant visited == old(visited) + UrlsOf(Entries(admitted))
      {
        assert batch[..i + 1][..i] == batch[..i];
        var ok := Admit(batch[i]);
        if ok {
          assert Entries(admitted + [batch[i]]) == Entries(admitted) + {batch[i]};
          assert UrlsOf(Entries(admitted + [batch[i]])) == UrlsOf(Entries(admitted)) + {batch[i].url};
          admitted := admitted + [batch[i]];
        }
      }
      assert batch[..|batch|] == batch;
    }

    /** scraper.py:74-76: scrape the page and keep its record if there is one. */
    method RecordPage(e: Entry)
      modifies this`data
      ensures data == old(data) + RecordOf(web, e)
    {
      var result := ScrapeUrl(web, e.url);
      if result.Some? {
        data := data + [result.value];
      }
    }

    /** The records of the admitted pages of a batch, in the order their fetches complete. */
    method RecordPages(pages: set<Entry>)
      requires KeyedByUrl(pages) && DistinctRecords(data)
      requires forall e :: e in pages ==> e.url !in RecordUrls(data)
      modifies this`data
      ensures Recorded(web, old(data), data, pages)
    {
      ghost var d0 := data;
      var pending := pages;
      RecordedNone(web, data);
      while pending != {}
        invariant pending <= pages
        invariant Recorded(web, d0, data, pages - pending)
        decreases |pending|
      {
        var e :| e in pending;
        RecordStep(web, pages, d0, data, pages - pending, e);
        RecordPage(e);
        assert pages - (pending - {e}) == (pages - pending) + {e};
        pending := pending - {e};
      }
    }

    /** `for link in links: if link not in visited: to_visit.append((link, depth))`. */
    method AppendOffered(order: seq<Url>, depth: nat)
      modifies this`toVisit
      ensures toVisit == old(toVisit) + Offered(order, visited, depth)
    {
      ghost var q0 := toVisit;
      for i := 0 to |order|
        invariant toVisit == q0 + Offered(order[..i], visited, depth)
      {
        if order[i] !in visited {
          toVisit := toVisit + [Entry(order[i], depth)];
        }
        assert order[..i + 1][..i] == order[..i];
      }
      assert order[..|order|] == order;
    }

    /** scraper.py:78-86: below `max_depth`, fetch the page again and queue its unvisited links. */
    method ExpandPage(e: Entry)
      modifies this`toVisit
      ensures Extends(old(toVisit), toVisit, Appends(web, baseUrl, visited, maxDepth, e))
    {
      ghost var q0 := toVisit;
      assert toVisit[..|q0|] == q0 && toVisit[|q0|..] == [];
      if e.depth < maxDepth {
        var html := web.fetch(e.url);
        if html.Some? {
          var links := ExtractInternalLinks(web, baseUrl, html.value);
          if links.Some? {
            var order := Enumerate(links.value);
            AppendOffered(order, e.depth + 1);
            ExtendsByOffered(q0, toVisit, order, visited, e.depth + 1, PageOffers(web, baseUrl, visited, e));
          } else {
            assert PageOffers(web, baseUrl, visited, e) == {};
          }
        } else {
          assert PageOffers(web, baseUrl, visited, e) == {};
        }
        assert Appends(web, baseUrl, visited, maxDepth, e) == multiset(PageOffers(web, baseUrl, visited, e));
      } else {
        assert Appends(web, baseUrl, visited, maxDepth, e) == multiset{};
      }
    }

    /** The link-expanding part of every admitted page, in the order the fetches complete. */
    method ExpandPages(pages: set<Entry>)
      modifies this`toVisit
      ensures Extends(old(toVisit), toVisit, Offers(web, baseUrl, visited, Expandable(pages, maxDepth)))
    {
      ghost var q0 := toVisit;
      var pending := pages;
      assert toVisit[..|toVisit|] == toVisit && toVisit[|toVisit|..] == [];
      assert pages - pending == {};
      while pending != {}
        invariant pending <= pages
        invariant Extends(q0, toVisit, Offers(web, baseUrl, visited, Expandable(pages - pending, maxDepth)))
        decreases |pending|
      {
        var e :| e in pending;
        ghost var before := toVisit;
        ExpandPage(e);
        ExpandStep(web, baseUrl, visited, maxDepth, pages - pending, e, q0, before, toVisit);
        assert pages - (pending - {e}) == (pages - pending) + {e};
        pending := pending - {e};
      }
      assert pages - pending == pages;
    }

    /**
     * One iteration of the `while to_visit` loop after the slicing: the
     * batch's `gather`. The admitted pages are marked visited, recorded, and
     * (below `max_depth`) expanded into new queue entries.
     */
    method ProcessBatch(batch: seq<Entry>)
      requires Valid()
      requires AllQueued(web, baseUrl, maxDepth, batch)
      modifies this
      ensures Valid()
      ensures visited == old(visited) + InRange(batch, maxDepth)
      ensures Recorded(web, old(data), data, Entries(Admitted(batch, old(visited), maxDepth)))
      ensures Extends(old(toVisit), toVisit, Offers(web, baseUrl, visited, Expandable(Entries(Admitted(batch, old(visited), maxDepth)), maxDepth)))
      ensures visited == old(visited) ==> toVisit == old(toVisit) && data == old(data)
    {
      ghost var v0, q0, d0 := visited, toVisit, data;
      var admitted := AdmitBatch(batch);
      AdmittedFacts(batch, v0, maxDepth);
      AdmittedQueued(web, baseUrl, maxDepth, batch, v0);
      var pages := Entries(admitted);
      RecordPages(pages);
      ExpandPages(pages);
      BatchStep(web, baseUrl, maxDepth, batch, v0, q0, d0, visited, toVisit, data);
    }
  }

  /** The first batch is the start entry alone, so it records the start page first. */
  lemma FirstBatch(web: Web, baseUrl: Url, maxDepth: int, d1: seq<Record>)
    requires maxDepth >= 0 && web.fetch(baseUrl).Some?
    requires Recorded(web, [], d1, Entries(Admitted([Entry(baseUrl, 0)], {}, maxDepth)))
    ensures d1 != [] && d1[0].url == baseUrl
  {
    var b := [Entry(baseUrl, 0)];
    assert b[..0] == [];
    assert Admitted(b, {}, maxDepth) == b;
    assert FetchedUrls(web, {Entry(baseUrl, 0)}) == {baseUrl};
    assert RecordUrls([]) == {};
    assert RecordUrls(d1) == {baseUrl};
    var r :| r in d1 && r.url == baseUrl;
    assert d1[0].url in RecordUrls(d1);
  }

  /** What a consistent crawl state says about its records. */
  lemma CrawlResult(web: Web, baseUrl: Url, maxDepth: int, visited: set<Url>, toVisit: seq<Entry>, data: seq<Record>)
    requires Consistent(web, baseUrl, maxDepth, visited, toVisit, data)
    requires maxDepth < 0 ==> visited == {}
    ensures forall r :: r in data ==> r.url in Reach(web, baseUrl, Horizon(maxDepth))
    ensures forall r :: r in data ==> r.url == baseUrl || LinkInScope(web, baseUrl, r.url)
    ensures maxDepth < 0 ==> data == []
  {
    if maxDepth < 0 {
      HeadRecordUrl(data);
      assert data == [];
    }
    forall r | r in data
      ensures r.url in Reach(web, baseUrl, Horizon(maxDepth)) && (r.url == baseUrl || LinkInScope(web, baseUrl, r.url))
    {
      assert r.url in RecordUrls(data);
      ReachInScope(web, baseUrl, Horizon(maxDepth), r.url);
    }
  }

  /**
   * The state of `scrape_website`'s loop: consistent; before the first batch,
   * the initial state; after it, the start page's record (if any) first.
   */
  ghost predicate CrawlInv(web: Web, baseUrl: Url, maxDepth: int, started: bool,
                           visited: set<Url>, toVisit: seq<Entry>, data: seq<Record>)
  {
    && Consistent(web, baseUrl, maxDepth, visited, toVisit, data)
    && (!started ==> toVisit == [Entry(baseUrl, 0)] && visited == {} && data == [])
    && (started && maxDepth >= 0 && web.fetch(baseUrl).Some? ==> data != [] && data[0].url == baseUrl)
    && (maxDepth < 0 ==> visited == {})
  }

  /** One batch keeps the loop state and either visits a new URL or shortens the queue. */
  lemma LoopStep(web: Web, baseUrl: Url, maxDepth: int, started: bool, n: nat, batch: seq<Entry>,
                 v0: set<Url>, q0: seq<Entry>, d0: seq<Record>, v1: set<Url>, q1: seq<Entry>, d1: seq<Record>)
    requires CrawlInv(web, baseUrl, maxDepth, started, v0, q0, d0)
    requires 0 < n <= |q0| && batch == q0[..n]
    requires Consistent(web, baseUrl, maxDepth, v1, q1, d1)
    requires v1 == v0 + InRange(batch, maxDepth)
    requires Recorded(web, d0, d1, Entries(Admitted(batch, v0, maxDepth)))
    requires v1 == v0 ==> q1 == q0[n..] && d1 == d0
    ensures CrawlInv(web, baseUrl, maxDepth, true, v1, q1, d1)
    ensures v0 <= v1
    ensures v1 != v0 ==> |Reach(web, baseUrl, Horizon(maxDepth)) - v1| < |Reach(web, baseUrl, Horizon(maxDepth)) - v0|
    ensures v1 == v0 ==> |q1| < |q0|
  {
    if !started {
      if maxDepth >= 0 && web.fetch(baseUrl).Some? {
        assert batch == [Entry(baseUrl, 0)];
        FirstBatch(web, baseUrl, maxDepth, d1);
      }
    } else if d0 != [] {
      assert d1[0] == d1[..|d0|][0];
    }
    if maxDepth < 0 {
      assert InRange(batch, maxDepth) == {};
    }
    if v1 != v0 {
      Progress(Reach(web, baseUrl, Horizon(maxDepth)), v0, v1);
    }
  }

  /**
   * `scrape_website`: the records of every page the crawl reaches, at most one
   * per URL, each the record `scrape_url` makes of its URL; the crawl always
   * ends, since each page yields finitely many links.
   */
  method ScrapeWebsite(web: Web, baseUrl: Url, maxDepth: int) returns (data: seq<Record>)
    ensures DistinctRecords(data)
    ensures forall r :: r in data ==> ScrapeUrl(web, r.url) == Some(r)
    ensures forall r :: r in data ==> r.url in Reach(web, baseUrl, Horizon(maxDepth))
    ensures forall r :: r in data ==> r.url == baseUrl || LinkInScope(web, baseUrl, r.url)
    ensures maxDepth < 0 ==> data == []
    ensures maxDepth >= 0 && web.fetch(baseUrl).Some? ==> data != [] && data[0].url == baseUrl
  {
    var crawl := new ContentCrawl(web, baseUrl, maxDepth);
    ghost var started := false;
    while crawl.toVisit != []
      invariant fresh(crawl) && crawl.Valid()
      invariant CrawlInv(web, baseUrl, maxDepth, started, crawl.visited, crawl.toVisit, crawl.data)
      decreases |Reach(web, baseUrl, Horizon(maxDepth)) - crawl.visited|, |crawl.toVisit|
    {
      ghost var v0, q0, d0 := crawl.visited, crawl.toVisit, crawl.data;
      var batch := crawl.TakeBatch();
      crawl.ProcessBatch(batch);
      LoopStep(web, baseUrl, maxDepth, started, |batch|, batch, v0, q0, d0, crawl.visited, crawl.toVisit, crawl.data);
      started := true;
    }
    data := crawl.data;
    CrawlResult(web, baseUrl, maxDepth, crawl.visited, crawl.toVisit, data);
  }
}
