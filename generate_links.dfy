/**
 * The link-generating crawler of generate_links.py.
 *
 * The same batch loop as the content crawler, with three differences: every
 * admitted URL also goes into `all_links`, whether or not its fetch succeeds;
 * every admitted page is searched for links, whatever its depth, so entries
 * one level beyond `max_depth` can wait in `to_visit` (and are skipped when
 * dequeued); and after every batch the links file is rewritten with the sorted
 * links, one per line. The model keeps the text of that file.
 */
module GenerateLinks {
  import opened Wrappers
  import opened Strings
  import opened Links
  import Scraper

  /** The text of the links file for `links`: `f"{link}\n"` for each link in `sorted` order. */
  ghost function Artifact(links: set<Url>): string
  {
    Terminated(Sorted(links))
  }

  /** The lines of the links file are the links, each once, in increasing order. */
  lemma ArtifactLines(links: set<Url>)
    requires forall l :: l in links ==> HasNoLineBreak(l)
    ensures SplitLines(Artifact(links)) == Sorted(links)
    ensures StrictlyIncreasing(SplitLines(Artifact(links)))
    ensures Elements(SplitLines(Artifact(links))) == links
    ensures |SplitLines(Artifact(links))| == |links|
  {
    var xs := Sorted(links);
    forall i | 0 <= i < |xs|
      ensures HasNoLineBreak(xs[i])
    {
      assert xs[i] in Elements(xs);
    }
    SplitTerminated(xs);
  }

  /**
   * Replaying the links file with `scrape_from_file` gives one record per link
   * whose fetch succeeds, and no other: the two modes of scraper.py agree on
   * what they collect from the URLs the link crawl found.
   */
  lemma ReplayArtifact(web: Web, links: set<Url>)
    requires forall l :: l in links ==> HasNoLineBreak(l)
    ensures Scraper.DistinctRecords(Scraper.Scraped(web, SplitLines(Artifact(links))))
    ensures forall r :: r in Scraper.Scraped(web, SplitLines(Artifact(links))) <==> r.url in links && Scraper.ScrapeUrl(web, r.url) == Some(r)
  {
    ArtifactLines(links);
    var xs := Sorted(links);
    forall r
      ensures r in Scraper.Scraped(web, xs) <==> r.url in links && Scraper.ScrapeUrl(web, r.url) == Some(r)
    {
      Scraper.ScrapedMembers(web, xs, r);
      if r.url in links && Scraper.ScrapeUrl(web, r.url) == Some(r) {
        assert r.url in Elements(xs);
        var k :| 0 <= k < |xs| && xs[k] == r.url;
        assert Scraper.ScrapeUrl(web, xs[k]) == Some(r);
      }
      if r in Scraper.Scraped(web, xs) {
        var k :| 0 <= k < |xs| && Scraper.ScrapeUrl(web, xs[k]) == Some(r);
        assert xs[k] in Elements(xs);
      }
    }
    ScrapedDistinct(web, xs);
  }

  /** Scraping a strictly increasing list of URLs yields records with distinct URLs. */
  lemma {:induction false} ScrapedDistinct(web: Web, xs: seq<Url>)
    requires StrictlyIncreasing(xs)
    ensures Scraper.DistinctRecords(Scraper.Scraped(web, xs))
    ensures forall r :: r in Scraper.Scraped(web, xs) ==> r.url in Elements(xs)
  {
    if xs != [] {
      var init, last := xs[..|xs| - 1], xs[|xs| - 1];
      assert StrictlyIncreasing(init) by {
        forall i, j | 0 <= i < j < |init|
          ensures Less(init[i], init[j])
        {
          assert init[i] == xs[i] && init[j] == xs[j];
        }
      }
      ScrapedDistinct(web, init);
      forall r | r in Scraper.Scraped(web, init)
        ensures r.url != last
      {
        var k :| 0 <= k < |init| && init[k] == r.url;
        assert Less(xs[k], xs[|xs| - 1]);
        LessIrreflexive(last);
      }
      forall x | x in Elements(init)
        ensures x in Elements(xs)
      {
        var k :| 0 <= k < |init| && init[k] == x;
        assert xs[k] == x;
      }
      var d0 := Scraper.Scraped(web, init);
      match Scraper.ScrapeUrl(web, last)
      case None =>
      case Some(r) =>
        forall i, j | 0 <= i < j < |d0 + [r]|
          ensures (d0 + [r])[i].url != (d0 + [r])[j].url
        {
          if j == |d0| {
            assert (d0 + [r])[i] in d0;
          } else {
            assert (d0 + [r])[i] == d0[i] && (d0 + [r])[j] == d0[j];
          }
        }
    }
  }

  /** What a queued entry can be: reachable at its depth, at most one level beyond `max_depth`. */
  ghost predicate LinkQueued(web: Web, start: Url, maxDepth: int, e: Entry)
  {
    e.depth <= Horizon(maxDepth) + 1 && e.url in Reach(web, start, e.depth)
  }

  ghost predicate AllLinkQueued(web: Web, start: Url, maxDepth: int, q: seq<Entry>)
  {
    forall i :: 0 <= i < |q| ==> LinkQueued(web, start, maxDepth, q[i])
  }

  /**
   * The crawl state between batches: `all_links` is `visited`, every visited
   * URL is reachable within the horizon, every queued entry is one the crawl
   * can produce.
   */
  ghost predicate LinkConsistent(web: Web, start: Url, maxDepth: int, visited: set<Url>, allLinks: set<Url>, toVisit: seq<Entry>)
  {
    && allLinks == visited
    && visited <= Reach(web, start, Horizon(maxDepth))
    && AllLinkQueued(web, start, maxDepth, toVisit)
  }

  /** The admitted pages of a batch are new, reachable, and no deeper than `max_depth`. */
  lemma LinkAdmitted(web: Web, start: Url, maxDepth: int, batch: seq<Entry>, v0: set<Url>)
    requires AllLinkQueued(web, start, maxDepth, batch)
    ensures forall e :: e in Entries(Admitted(batch, v0, maxDepth)) ==>
              e.url !in v0 && e.depth <= maxDepth && e.url in Reach(web, start, e.depth)
  {
    AdmittedFacts(batch, v0, maxDepth);
    forall e | e in Entries(Admitted(batch, v0, maxDepth))
      ensures e.url in Reach(web, start, e.depth)
    {
      var i :| 0 <= i < |batch| && batch[i] == e;
    }
  }

  /** The entries a batch appends are one level below an admitted page. */
  lemma LinkQueueAfter(web: Web, start: Url, maxDepth: int, pages: set<Entry>, v1: set<Url>, q0: seq<Entry>, q1: seq<Entry>)
    requires forall e :: e in pages ==> e.depth <= maxDepth && e.url in Reach(web, start, e.depth)
    requires AllLinkQueued(web, start, maxDepth, q0)
    requires Extends(q0, q1, Offers(web, start, v1, pages))
    ensures AllLinkQueued(web, start, maxDepth, q1)
  {
    forall i | 0 <= i < |q1|
      ensures LinkQueued(web, start, maxDepth, q1[i])
    {
      if i < |q0| {
        assert q1[i] == q1[..|q0|][i];
      } else {
        assert q1[i] in q1[|q0|..];
        assert q1[i] in multiset(q1[|q0|..]);
        OfferedFrom(web, start, v1, pages, q1[i]);
      }
    }
  }

  /** A batch that admits nothing leaves the queue as the slicing left it. */
  lemma LinkNothingAdmitted(web: Web, start: Url, v1: set<Url>, q0: seq<Entry>, q1: seq<Entry>)
    requires Extends(q0, q1, Offers(web, start, v1, {}))
    ensures q1 == q0
  {
    ExtendsNothing(q0, q1);
  }

  /** One batch keeps the crawl state consistent. */
  lemma LinkBatchStep(web: Web, start: Url, maxDepth: int, batch: seq<Entry>,
                      v0: set<Url>, q0: seq<Entry>, v1: set<Url>, a1: set<Url>, q1: seq<Entry>)
    requires LinkConsistent(web, start, maxDepth, v0, v0, q0)
    requires AllLinkQueued(web, start, maxDepth, batch)
    requires v1 == v0 + UrlsOf(Entries(Admitted(batch, v0, maxDepth))) && a1 == v1
    requires Extends(q0, q1, Offers(web, start, v1, Entries(Admitted(batch, v0, maxDepth))))
    ensures LinkConsistent(web, start, maxDepth, v1, a1, q1)
    ensures v1 == v0 ==> q1 == q0
  {
    var pages := Entries(Admitted(batch, v0, maxDepth));
    LinkAdmitted(web, start, maxDepth, batch, v0);
    LinkQueueAfter(web, start, maxDepth, pages, v1, q0, q1);
    VisitedAfter(web, start, maxDepth, pages, v0, v1);
    if v1 == v0 {
      NoUrlsNoEntries(pages);
      assert pages == {};
      LinkNothingAdmitted(web, start, v1, q0, q1);
    }
  }

  /**
   * The state of `generate_links`'s loop: consistent; before the first batch,
   * the initial state with no file written; after it, the file holds the
   * current links and the start URL is among them whenever `max_depth >= 0`.
   */
  ghost predicate LinkCrawlInv(web: Web, start: Url, maxDepth: int, started: bool,
                               visited: set<Url>, allLinks: set<Url>, toVisit: seq<Entry>, artifact: Option<string>)
  {
    && LinkConsistent(web, start, maxDepth, visited, allLinks, toVisit)
    && (!started ==> toVisit == [Entry(start, 0)] && visited == {} && artifact == None)
    && (started ==> artifact == Some(Artifact(allLinks)))
    && (started && maxDepth >= 0 ==> start in visited)
    && (maxDepth < 0 ==> visited == {})
  }

  /** The first batch is the start entry, in range whenever `max_depth >= 0`. */
  lemma StartInFirstBatch(start: Url, maxDepth: int, n: nat, q0: seq<Entry>, batch: seq<Entry>)
    requires q0 == [Entry(start, 0)] && 0 < n <= |q0| && batch == q0[..n] && maxDepth >= 0
    ensures start in InRange(batch, maxDepth)
  {
    assert batch == [Entry(start, 0)];
    assert Entry(start, 0) in batch;
  }

  /** One batch and the rewrite of the file keep the loop state, and the crawl progresses. */
  lemma LinkLoopStep(web: Web, start: Url, maxDepth: int, started: bool, n: nat, batch: seq<Entry>,
                     v0: set<Url>, q0: seq<Entry>, a0: Option<string>,
                     v1: set<Url>, l1: set<Url>, q1: seq<Entry>, a1: Option<string>)
    requires LinkCrawlInv(web, start, maxDepth, started, v0, v0, q0, a0)
    requires 0 < n <= |q0| && batch == q0[..n]
    requires LinkConsistent(web, start, maxDepth, v1, l1, q1)
    requires v1 == v0 + InRange(batch, maxDepth)
    requires v1 == v0 ==> q1 == q0[n..]
    requires a1 == Some(Artifact(l1))
    ensures LinkCrawlInv(web, start, maxDepth, true, v1, l1, q1, a1)
    ensures v0 <= v1
    ensures v1 != v0 ==> |Reach(web, start, Horizon(maxDepth)) - v1| < |Reach(web, start, Horizon(maxDepth)) - v0|
    ensures v1 == v0 ==> |q1| < |q0|
  {
    if !started && maxDepth >= 0 {
      StartInFirstBatch(start, maxDepth, n, q0, batch);
    }
    if maxDepth < 0 {
      assert InRange(batch, maxDepth) == {};
    }
    if v1 != v0 {
      Progress(Reach(web, start, Horizon(maxDepth)), v0, v1);
    }
  }

  /** What the loop state says once the loop has run. */
  lemma LinkResult(web: Web, start: Url, maxDepth: int, visited: set<Url>, allLinks: set<Url>, toVisit: seq<Entry>, artifact: Option<string>)
    requires LinkCrawlInv(web, start, maxDepth, true, visited, allLinks, toVisit, artifact)
    ensures artifact == Some(Artifact(allLinks))
    ensures allLinks <= Reach(web, start, Horizon(maxDepth))
    ensures forall u :: u in allLinks ==> u == start || LinkInScope(web, start, u)
    ensures start in allLinks <==> maxDepth >= 0
    ensures maxDepth < 0 ==> allLinks == {} && artifact == Some("")
  {
    forall u | u in allLinks
      ensures u == start || LinkInScope(web, start, u)
    {
      ReachInScope(web, start, Horizon(maxDepth), u);
    }
    if maxDepth < 0 {
      assert Sorted({}) == [];
    }
  }

  /**
   * The loop at generate_links.py:48-49: the sorted links, each followed by a
   * newline.
   */
  method Serialize(links: set<Url>) returns (text: string)
    ensures text == Artifact(links)
  {
    var order := SortStrings(links);
    text := "";
    for i := 0 to |order|
      invariant text == Terminated(order[..i])
    {
      TerminatedNext(order, i);
      text := text + order[i] + "\n";
    }
    assert order[..|order|] == order;
  }

  class LinkCrawl {
    const web: Web
    const start: Url
    const maxDepth: int
    var visited: set<Url>
    var allLinks: set<Url>
    var toVisit: seq<Entry>
    /** The contents of the links file, `None` until the first batch writes it. */
    var artifact: Option<string>

    ghost predicate Valid()
      reads this
    {
      LinkConsistent(web, start, maxDepth, visited, allLinks, toVisit)
    }

    constructor (web: Web, start: Url, maxDepth: int)
      ensures this.web == web && this.start == start && this.maxDepth == maxDepth
      ensures visited == {} && allLinks == {} && toVisit == [Entry(start, 0)] && artifact == None
      ensures Valid()
    {
      this.web := web;
      this.start := start;
      this.maxDepth := maxDepth;
      visited := {};
      allLinks := {};
      toVisit := [Entry(start, 0)];
      artifact := None;
    }

    /** `current_batch = to_visit[:10]; to_visit = to_visit[10:]`. */
    method TakeBatch() returns (batch: seq<Entry>)
      requires Valid()
      modifies this`toVisit
      ensures var n := if |old(toVisit)| < BatchSize then |old(toVisit)| else BatchSize;
              batch == old(toVisit)[..n] && toVisit == old(toVisit)[n..]
      ensures Valid()
      ensures AllLinkQueued(web, start, maxDepth, batch)
    {
      var n := if |toVisit| < BatchSize then |toVisit| else BatchSize;
      batch := toVisit[..n];
      toVisit := toVisit[n..];
      assert forall i :: 0 <= i < |toVisit| ==> toVisit[i] == old(toVisit)[n + i];
    }

    /** The part of `process_url` before its first `await` (generate_links.py:54-58). */
    method Admit(e: Entry) returns (admitted: bool)
      modifies this`visited, this`allLinks
      ensures admitted == (e.url !in old(visited) && e.depth <= maxDepth)
      ensures visited == if admitted then old(visited) + {e.url} else old(visited)
      ensures allLinks == if admitted then old(allLinks) + {e.url} else old(allLinks)
    {
      if e.url in visited || e.depth > maxDepth {
        return false;
      }
      visited := visited + {e.url};
      allLinks := allLinks + {e.url};
      return true;
    }

    /** The first step of every task of a batch, in task order. */
    method AdmitBatch(batch: seq<Entry>) returns (admitted: seq<Entry>)
      modifies this`visited, this`allLinks
      ensures admitted == Admitted(batch, old(visited), maxDepth)
      ensures visited == old(visited) + UrlsOf(Entries(admitted))
      ensures allLinks == old(allLinks) + UrlsOf(Entries(admitted))
    {
      admitted := [];
      for i := 0 to |batch|
        invariant admitted == Admitted(batch[..i], old(visited), maxDepth)
        invariant visited == old(visited) + UrlsOf(Entries(admitted))
        invariant allLinks == old(allLinks) + UrlsOf(Entries(admitted))
      {
        assert batch[..i + 1][..i] == batch[..i];
        var ok := Admit(batch[i]);
        if ok {
          assert Entries(admitted + [batch[i]]) == Entries(admitted) + {batch[i]};
          assert UrlsOf(Entries(admitted + [batch[i]])) == UrlsOf(Entries(admitted)) + {batch[i].url};
          admitted := admitted + [batch[i]];
        }
      }
      assert batch[..|batch|] == batch;
    }

    /** `for link in links: if link not in visited: to_visit.append((link, depth))`. */
    method AppendOffered(order: seq<Url>, depth: nat)
      modifies this`toVisit
      ensures toVisit == old(toVisit) + Offered(order, visited, depth)
    {
      ghost var q0 := toVisit;
      for i := 0 to |order|
        invariant toVisit == q0 + Offered(order[..i], visited, depth)
      {
        if order[i] !in visited {
          toVisit := toVisit + [Entry(order[i], depth)];
        }
        assert order[..i + 1][..i] == order[..i];
      }
      assert order[..|order|] == order;
    }

    /** generate_links.py:61-67: fetch the page and queue its unvisited links, at any depth. */
    method ExpandPage(e: Entry)
      modifies this`toVisit
      ensures Extends(old(toVisit), toVisit, multiset(PageOffers(web, start, visited, e)))
    {
      ghost var q0 := toVisit;
      assert toVisit[..|q0|] == q0 && toVisit[|q0|..] == [];
      var html := web.fetch(e.url);
      if html.Some? {
        var links := ExtractInternalLinks(web, start, html.value);
        if links.Some? {
          var order := Enumerate(links.value);
          AppendOffered(order, e.depth + 1);
          ExtendsByOffered(q0, toVisit, order, visited, e.depth + 1, PageOffers(web, start, visited, e));
        } else {
          assert PageOffers(web, start, visited, e) == {};
        }
      } else {
        assert PageOffers(web, start, visited, e) == {};
      }
    }

    /** The post-`await` part of every admitted page, in the order the fetches complete. */
    method ExpandPages(pages: set<Entry>)
      modifies this`toVisit
      ensures Extends(old(toVisit), toVisit, Offers(web, start, visited, pages))
    {
      ghost var q0 := toVisit;
      var pending := pages;
      assert toVisit[..|toVisit|] == toVisit && toVisit[|toVisit|..] == [];
      assert pages - pending == {};
      while pending != {}
        invariant pending <= pages
        invariant Extends(q0, toVisit, Offers(web, start, visited, pages - pending))
        decreases |pending|
      {
        var e :| e in pending;
        ghost var before := toVisit;
        ExpandPage(e);
        ExtendsTrans(q0, before, toVisit, Offers(web, start, visited, pages - pending), multiset(PageOffers(web, start, visited, e)));
        OffersInsert(web, start, visited, pages - pending, e);
        assert pages - (pending - {e}) == (pages - pending) + {e};
        pending := pending - {e};
      }
      assert pages - pending == pages;
    }

    /** One `gather` over a batch (generate_links.py:43-44). */
    method ProcessBatch(batch: seq<Entry>)
      requires Valid()
      requires AllLinkQueued(web, start, maxDepth, batch)
      modifies this`visited, this`allLinks, this`toVisit
      ensures Valid()
      ensures visited == old(visited) + InRange(batch, maxDepth)
      ensures Extends(old(toVisit), toVisit, Offers(web, start, visited, Entries(Admitted(batch, old(visited), maxDepth))))
      ensures visited == old(visited) ==> toVisit == old(toVisit)
    {
      ghost var v0, q0 := visited, toVisit;
      var admitted := AdmitBatch(batch);
      AdmittedFacts(batch, v0, maxDepth);
      ExpandPages(Entries(admitted));
      LinkBatchStep(web, start, maxDepth, batch, v0, q0, visited, allLinks, toVisit);
    }

    /** generate_links.py:47-49: rewrite the links file with the current links. */
    method WriteArtifact()
      modifies this`artifact
      ensures artifact == Some(Artifact(allLinks))
    {
      var text := Serialize(allLinks);
      artifact := Some(text);
    }
  }

  /**
   * `generate_links`: the final contents of the links file, and the set of
   * links it lists. Every listed URL is reachable within `max_depth` and in
   * scope; the start URL is listed exactly when `max_depth >= 0` (even if its
   * fetch fails).
   */
  method GenerateLinks(web: Web, start: Url, maxDepth: int) returns (artifact: string, allLinks: set<Url>)
    ensures artifact == Artifact(allLinks)
    ensures (forall l :: l in allLinks ==> HasNoLineBreak(l)) ==> SplitLines(artifact) == Sorted(allLinks)
    ensures allLinks <= Reach(web, start, Horizon(maxDepth))
    ensures forall u :: u in allLinks ==> u == start || LinkInScope(web, start, u)
    ensures start in allLinks <==> maxDepth >= 0
    ensures maxDepth < 0 ==> allLinks == {} && artifact == ""
  {
    var crawl := new LinkCrawl(web, start, maxDepth);
    ghost var started := false;
    while crawl.toVisit != []
      invariant fresh(crawl) && crawl.Valid()
      invariant LinkCrawlInv(web, start, maxDepth, started, crawl.visited, crawl.allLinks, crawl.toVisit, crawl.artifact)
      decreases |Reach(web, start, Horizon(maxDepth)) - crawl.visited|, |crawl.toVisit|
    {
      ghost var v0, q0, a0 := crawl.visited, crawl.toVisit, crawl.artifact;
      var batch := crawl.TakeBatch();
      crawl.ProcessBatch(batch);
      crawl.WriteArtifact();
      LinkLoopStep(web, start, maxDepth, started, |batch|, batch, v0, q0, a0,
                   crawl.visited, crawl.allLinks, crawl.toVisit, crawl.artifact);
      started := true;
    }
    allLinks := crawl.allLinks;
    artifact := crawl.artifact.value;
    LinkResult(web, start, maxDepth, crawl.visited, allLinks, crawl.toVisit, crawl.artifact);
    if forall l :: l in allLinks ==> HasNoLineBreak(l) {
      ArtifactLines(allLinks);
    }
  }
}
