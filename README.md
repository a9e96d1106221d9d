# thirdweb documentation crawler, link generator and summariser — a Dafny model

The repository crawls the thirdweb TypeScript SDK documentation site in
three steps:

- `scraper.py` crawls breadth-first from a start URL. It pulls batches of up
  to ten `(url, depth)` entries off a queue. For each entry it skips URLs
  already visited or deeper than `max_depth`. It records `{URL, content}` for
  every page it can fetch. Below `max_depth`, it queues the page's in-scope
  links one level deeper. It can also replay a file that lists one URL per
  line (`scrape_from_file`).
- `generate_links.py` runs the same batch loop, but collects URLs only.
  After every batch it rewrites a links file holding the sorted URLs, one per
  line.
- `preprocessing.py` turns every scraped record into `{title, content}`.
  The title is the URL with a fixed prefix removed and `/` stripped from both
  ends. The content is an extractive summary: it scores sentences by word
  frequency, keeps the best five, and joins them in their original order.

Modules, one per file:

- `Wrappers` holds `Option`.
- `Strings` holds the parts of Python's `str` that the code relies on:
  - code-point ordering and `sorted`;
  - `startswith`;
  - `splitlines`;
  - newline-terminated writing.
- `Links` holds what both crawlers share:
  - the given `Web`: fetching, anchors, `urljoin`, `urlparse` and content extraction;
  - the scope filter of `extract_internal_links`;
  - frontier entries;
  - the guard-and-mark step;
  - `Reach`, the set of URLs a crawl can discover within `d` link steps.
  - the depth horizon, and the termination measure both crawl loops use.
- `Scraper` holds `scrape_url`, `scrape_from_file` and the content crawl, as
  the class `ContentCrawl`.
- `GenerateLinks` holds the link crawl, as the class `LinkCrawl`, and the
  links-file text.
- `Preprocessing` holds `get_wordnet_pos`, `summarize_text` and
  `process_json_file`.

The `while to_visit` loops are the methods `Scraper.ScrapeWebsite` and
`GenerateLinks.GenerateLinks`. Each crawl keeps its Python variables as the
fields of a class, whose methods do one batch:

- `visited`, `to_visit`, and `data` or `all_links`;
- in the link crawl, also the current content of the links file.

Each crawl loop is proved to terminate. Termination needs no finite-graph
hypothesis: a page's `href` list is finite, so the set of reachable URLs
within the depth horizon is finite.

One batch is modelled in two phases, as asyncio runs it:

1. Every task reaches its first `await` in batch order. Before that await,
   each task checks the visited/depth guard and adds the URL to `visited`
   (and to `all_links`) in one step.
2. The parts after the awaits then finish in an arbitrary order. This order
   is chosen nondeterministically, so every order is proved.

Because `visited` does not change in phase 2, every `link not in visited`
test sees all of the batch's URLs already marked.

Points where the code does something a crawler might be expected to do
differently; the model follows the code:

- fragments are not stripped from discovered links;
- links are resolved against the start URL, not against the page's own URL;
- the scope test compares `netloc`, not the scheme;
- the link generator queues links at `depth + 1` even past `max_depth`;
- a URL can be queued more than once, and the visited guard skips the later copies;
- no run starts from an existing links file.

## Model

| member | source | states |
|---|---|---|
| `Links.InternalLinks` | scraper.py:88-101 | Every link `extract_internal_links` returns parses, has the base URL's `netloc`, and has a path that starts with the base URL's path. |
| `Links.InScope` | scraper.py:98 | definition: the scope test: the link's `netloc` equals the base URL's, and its path starts with the base URL's path. |
| `Links.ExtractInternalLinks` | scraper.py:88-101 | The loop over the anchors builds exactly the set of resolved in-scope `href`s, and is `None` when any `urljoin`/`urlparse` raises. Its result passes the scope test. |
| `Links.Discovered` | scraper.py:80-81 | definition: the links found on a page, none when its fetch or the link extraction raises. |
| `Links.ReachInScope` | generate_links.py:18-31 | Every URL discoverable from the start is the start itself or passes the scope test against the start URL. |
| `Links.ReachMonotone` | scraper.py:78-84 | A URL reachable within `d` link steps is reachable within any `k >= d` steps. |
| `Links.Horizon` | scraper.py:68 | definition: the deepest depth an admitted entry can have, `max_depth`, or 0 when `max_depth` is negative. |
| `Links.VisitedAfter` | scraper.py:68-71 | Marking the admitted pages of a batch visited keeps `visited` within the URLs reachable within `max_depth`. |
| `Links.Progress` | scraper.py:58-63 | Visiting a URL that is new and within the reachable horizon strictly shrinks the part of the horizon left to visit, the crawl's termination measure. |
| `Links.AdmittedFacts` | scraper.py:67-71 | Phase 1 of a batch admits only batch entries that are unvisited and no deeper than `max_depth`. It admits each URL once, and the copy it admits is the URL's first in-range copy in batch order. The admitted URLs are exactly the in-range batch URLs that were not already visited. |
| `Links.AdmittedFirst` | scraper.py:68-71 | Of several copies of a URL within `max_depth` in one batch, the guard admits the first in batch order. Later copies find the URL already in `visited`. |
| `Links.FirstInRange` | scraper.py:68-71 | definition: an entry is the first entry of the batch with its URL that is within `max_depth`. |
| `Links.Admitted` | scraper.py:68-71 | definition: the batch entries that pass the visited/depth guard in batch order, `visited` having grown by the URLs admitted before them. |
| `Links.OfferedMultiset` | scraper.py:82-84 | For distinct links, the appends of one page, counted with multiplicity, are exactly its unvisited links at the given depth, each once. |
| `Links.Offered` | scraper.py:82-84 | definition: `(link, depth)` for each link of the iteration order that is not in `visited`, in that order. |
| `Links.ExtendsByOffered` | scraper.py:82-84 | After one page's loop over its distinct links, the old queue is a prefix of the new one, and the appended entries, as a multiset, are exactly the page's unvisited links at the given depth. |
| `Links.PageOffers` | scraper.py:82-84 | definition: the set of entries one page offers: each discovered link not in `visited`, at the page's depth + 1. |
| `Links.Offers` | scraper.py:62-63 | definition: the appends of a set of pages as a multiset: each page's offers once per page, so an entry two pages both offer counts twice. |
| `Links.OffersRemove` | scraper.py:62-63 | The total does not depend on the order in which pages are taken: removing any page subtracts exactly that page's offers. |
| `Links.OffersCount` | scraper.py:62-84 | An entry occurs in the total exactly as many times as there are pages of the batch that offer it. |
| `Links.OfferedBy` | scraper.py:82-84 | Every entry in the total is offered by one of the pages. |
| `Links.OfferedFrom` | generate_links.py:65-67 | Every offered entry was unvisited when it was discovered, sits one level below a processed page, and is reachable at its depth. |
| `Links.Enumerate` | scraper.py:82 | Iterating a set of links yields a sequence, in some order, holding every element of the set exactly once: no duplicates and length `len(links)`. |
| `Scraper.ScrapeUrl` | scraper.py:27-34 | `scrape_url` returns `None` exactly when the fetch fails. Otherwise it returns a record whose URL is its input and whose content is the extracted text. |
| `Scraper.ScrapedMembers` | scraper.py:45-47 | The records `scrape_from_file` keeps are exactly the non-`None` results of `scrape_url` over the listed URLs. |
| `Scraper.Scraped` | scraper.py:45-47 | definition: the non-`None` results of `scrape_url` over the URLs, in order. |
| `Scraper.ScrapeFromFile` | scraper.py:36-50 | It returns the non-`None` results, one per line of the links file, in line order, and no more records than lines. |
| `Scraper.RecordOf` | scraper.py:74-76 | A processed page adds at most one record. It adds none when the fetch fails, and otherwise adds that page's `scrape_url` result. |
| `Scraper.ContentCrawl.constructor` | scraper.py:53-55 | The crawl starts with nothing visited, no data, and only the base URL queued, at depth 0. |
| `Scraper.ContentCrawl.TakeBatch` | scraper.py:59-60 | A batch is the first `min(10, len(to_visit))` entries, and the rest of the queue stays in order. |
| `Scraper.ContentCrawl.Admit` | scraper.py:68-71 | An entry is admitted exactly when its URL is unvisited and its depth is at most `max_depth`. Only then is the URL added to `visited`. |
| `Scraper.ContentCrawl.AdmitBatch` | scraper.py:62-71 | Phase 1 of a batch: the admitted entries are those given by `Links.Admitted`, and `visited` grows by exactly their URLs. |
| `Scraper.ContentCrawl.RecordPage` | scraper.py:74-76 | `data` grows by the page's record, or by nothing when the fetch fails. |
| `Scraper.ContentCrawl.RecordPages` | scraper.py:74-76 | After the admitted pages record in any order, `data` holds one correct record per fetched page and nothing else new. |
| `Scraper.Appends` | scraper.py:78-84 | definition: what the link part of `process_url` appends for one page, as a multiset: its offers below `max_depth`, nothing at `max_depth` or deeper. |
| `Scraper.ContentCrawl.AppendOffered` | scraper.py:82-84 | The loop `for link in links: if link not in visited: to_visit.append((link, depth))` appends exactly the unvisited links in iteration order, at the given depth. |
| `Scraper.ContentCrawl.ExpandPage` | scraper.py:78-86 | Earlier entries keep their order. Below `max_depth`, the new entries are exactly the page's unvisited links at depth + 1, each once. At `max_depth`, or when fetching or extraction raises, nothing is queued. |
| `Scraper.ContentCrawl.ExpandPages` | scraper.py:62-86 | After the admitted pages expand in any order, the old queue is a prefix of the new one. The new entries, as a multiset, are exactly the offers of the pages below `max_depth`, each page's links counted once for that page. |
| `Scraper.ContentCrawl.ProcessBatch` | scraper.py:62-63 | One batch leaves the crawl consistent and marks exactly its in-range URLs visited. It records the admitted pages. The old queue stays a prefix, and the new entries, as a multiset, are exactly the offers of the admitted pages below `max_depth`. A batch that admits nothing changes nothing. |
| `Scraper.BatchStep` | scraper.py:67-86 | The consistency invariant holds after a batch: visited URLs are reachable within the horizon, and queued entries are reachable at their depth and no deeper than `max_depth`, except the start entry. `data` has one correct record per fetched visited URL. |
| `Scraper.LoopStep` | scraper.py:58-63 | Each batch either visits a new URL from the finite reachable set or shortens the queue, so the loop terminates. |
| `Scraper.FirstBatch` | scraper.py:54-76 | When `max_depth >= 0` and the start page can be fetched, the first record is the start page. |
| `Scraper.CrawlResult` | scraper.py:52-65 | At the end, every record is of a URL reachable within `max_depth` that is in scope, and a negative `max_depth` yields no data. |
| `Scraper.ScrapeWebsite` | scraper.py:52-65 | `scrape_website` terminates. It returns at most one record per URL, each one that URL's `scrape_url` result, for URLs reachable within `max_depth` and in scope. It returns nothing when `max_depth < 0`, and starts with the start page when that page can be fetched. |
| `Strings.LessTotal` | generate_links.py:48 | Python's string ordering is total on distinct strings. |
| `Strings.LessTransitive` | generate_links.py:48 | Python's string ordering is transitive. |
| `Strings.Less` | generate_links.py:48 | definition: Python's `<` on strings, lexicographic on code points, a proper prefix coming first. |
| `Strings.Sorted` | generate_links.py:48 | `sorted` of a set of strings lists every element once, in strictly increasing order. |
| `Strings.SortedUnique` | generate_links.py:48 | A strictly increasing listing of a set is exactly `sorted` of that set. |
| `Strings.LeastOf` | generate_links.py:48 | The scan returns the least element of a non-empty set. |
| `Strings.SortStrings` | generate_links.py:48 | The selection sort computes `sorted(all_links)`. |
| `Strings.StartsWith` | scraper.py:98 | definition: `s.startswith(prefix)`, the prefix being the first characters of `s`. |
| `Strings.SplitLines` | scraper.py:39 | definition: `str.splitlines()`, with `\n`, `\r`, `\r\n` and the other Python line boundaries ending a line, and no empty last line after a final boundary. |
| `Strings.SplitLinesFrom` | scraper.py:39 | definition: `splitlines` continuing a partly read line. |
| `Strings.IsLineBreak` | scraper.py:39 | definition: the characters `str.splitlines` treats as line boundaries: `\n`, `\r`, `\v`, `\f`, `\x1c`-`\x1e`, `\x85`, U+2028 and U+2029. |
| `Strings.Terminated` | generate_links.py:48-49 | definition: the text `f.write(f"{link}\n")` writes for each link in order. |
| `Strings.SplitTerminated` | scraper.py:39 | `splitlines` of lines written each with a trailing `\n` gives back those lines, when none of them holds a line break. |
| `GenerateLinks.Serialize` | generate_links.py:47-49 | The loop writes `link + "\n"` for each link of `sorted(all_links)`, in order. |
| `GenerateLinks.ArtifactLines` | generate_links.py:47-49 | The lines of the links file are `sorted(all_links)`: strictly increasing, one per link, with exactly the links of `all_links`. |
| `GenerateLinks.ReplayArtifact` | generate_links.py:47-49 | Scraping the links file with `scrape_from_file` gives one record per link of `all_links` that can be fetched, and no duplicates. |
| `GenerateLinks.ScrapedDistinct` | scraper.py:45-47 | Scraping a strictly increasing URL list yields records with distinct URLs, all from the list. |
| `GenerateLinks.Artifact` | generate_links.py:47-49 | definition: the links file for a set of links: the newline-terminated lines of `sorted(all_links)`. |
| `GenerateLinks.LinkCrawl.constructor` | generate_links.py:34-36 | The link crawl starts with nothing visited, no links and only the start URL queued, at depth 0. |
| `GenerateLinks.LinkCrawl.TakeBatch` | generate_links.py:40-41 | A batch is the first `min(10, len(to_visit))` entries, and the rest of the queue stays in order. |
| `GenerateLinks.LinkCrawl.Admit` | generate_links.py:54-58 | An entry is admitted exactly when it is unvisited and no deeper than `max_depth`. Then its URL goes into both `visited` and `all_links`, whether or not its fetch later fails. |
| `GenerateLinks.LinkCrawl.AdmitBatch` | generate_links.py:43-58 | Phase 1 of a batch: `visited` and `all_links` both grow by exactly the admitted URLs. |
| `GenerateLinks.LinkCrawl.AppendOffered` | generate_links.py:65-67 | The loop over the page's links appends exactly its unvisited links in iteration order, at the given depth. |
| `GenerateLinks.LinkCrawl.ExpandPage` | generate_links.py:61-69 | Earlier entries keep their order. The new entries are exactly the page's unvisited links at depth + 1, each once, with no depth check. A failed fetch or extraction queues nothing. |
| `GenerateLinks.LinkCrawl.ExpandPages` | generate_links.py:43-69 | After the admitted pages expand in any order, the old queue is a prefix of the new one. The new entries, as a multiset, are exactly the pages' offers, each page's links counted once for that page. |
| `GenerateLinks.LinkCrawl.ProcessBatch` | generate_links.py:43-44 | One batch keeps `all_links == visited` and marks exactly its in-range URLs. The old queue stays a prefix, and the new entries, as a multiset, are exactly the admitted pages' offers. A batch that admits nothing changes nothing. |
| `GenerateLinks.LinkCrawl.WriteArtifact` | generate_links.py:46-49 | After each batch, the links file is the text of `sorted(all_links)`, one link per line. |
| `GenerateLinks.LinkBatchStep` | generate_links.py:53-69 | After a batch, `all_links == visited` and every visited URL is reachable within the horizon. Queued entries may sit one level past `max_depth`. |
| `GenerateLinks.StartInFirstBatch` | generate_links.py:54-58 | When `max_depth >= 0`, the first batch admits the start URL. |
| `GenerateLinks.LinkLoopStep` | generate_links.py:39-49 | Each batch visits a new reachable URL or shortens the queue, and leaves the links file up to date. |
| `GenerateLinks.LinkResult` | generate_links.py:33-51 | At the end, the links file holds `sorted(all_links)`, every link is reachable within `max_depth` and in scope, and the start URL is present exactly when `max_depth >= 0`. |
| `GenerateLinks.GenerateLinks` | generate_links.py:33-51 | `generate_links` terminates and returns the links file and `all_links`. The file is `link + "\n"` over `sorted(all_links)`, and its lines read back as `sorted(all_links)` when no link holds a line break. Every link is reachable within `max_depth` and in scope. The start URL is listed exactly when `max_depth >= 0`, and with `max_depth < 0` the file is empty. |
| `Preprocessing.WordnetPos` | preprocessing.py:23-33 | The part of speech is ADJ, VERB, ADV for tags starting J, V, R respectively, and NOUN exactly for every other tag. |
| `Preprocessing.WordnetPosByFirstLetter` | preprocessing.py:23-33 | Only the first letter matters: N-tags, the empty tag and any other letter give NOUN. |
| `Preprocessing.Tokens` | preprocessing.py:44-45 | The kept words are exactly the lemmas of tokens that are alphanumeric and not stop words, and there are no more of them than tokens. |
| `Preprocessing.TokensCount` | preprocessing.py:44-45 | Each lemma occurs in the list exactly as many times as there are kept tokens that lemmatise to it. |
| `Preprocessing.KeptPositions` | preprocessing.py:44-45 | definition: the positions of the kept tokens whose lemma is a given word. |
| `Preprocessing.IsAlnum` | preprocessing.py:45 | definition: `word.isalnum()`: non-empty, and every character alphanumeric. |
| `Preprocessing.Kept` | preprocessing.py:45 | definition: the comprehension's filter: alphanumeric and not a stop word. |
| `Preprocessing.LemmaOf` | preprocessing.py:44 | definition: `lemmatize(word, get_wordnet_pos(pos))` of a tagged token. |
| `Preprocessing.TaggedOf` | preprocessing.py:38-43 | definition: `pos_tag(word_tokenize(text.lower()))`. |
| `Preprocessing.FreqKeys` | preprocessing.py:44-48 | A word is in the frequency table exactly when it is the lemma of some alphanumeric token of the text that is not a stop word. |
| `Preprocessing.FreqCount` | preprocessing.py:44-48 | `freq[w]` is exactly the number of alphanumeric, non-stop-word tokens of the text whose lemma is `w`. |
| `Preprocessing.Freq` | preprocessing.py:48 | definition: `FreqDist(words)` as a multiset of the kept lemmas. |
| `Preprocessing.Lemmas` | preprocessing.py:53-54 | Each sentence token is replaced by its lemma under its own tag, one for one. |
| `Preprocessing.ScorePositive` | preprocessing.py:55-59 | A sentence's summed frequency is positive exactly when one of its lemmas is in the table. |
| `Preprocessing.Score` | preprocessing.py:55-59 | definition: the sum of `freq[word]` over a sentence's lemmas, the value the `+=` accumulation reaches. |
| `Preprocessing.ScoresMeaning` | preprocessing.py:51-59 | A sentence index has a score exactly when it is a real sentence with a lemma in the table. Its score is then the sum of the table counts of its in-table lemmas, repeats included, and is at least 1. |
| `Preprocessing.ScoreSentences` | preprocessing.py:51-59 | The nested loops with `+=` build exactly that score dictionary. |
| `Preprocessing.Scores` | preprocessing.py:51-59 | definition: the `sentence_scores` dictionary after the first sentences. |
| `Preprocessing.Best` | preprocessing.py:62 | The candidate `nlargest` takes next: it is ahead of every other candidate by higher score, with ties going to the earlier index. |
| `Preprocessing.Ahead` | preprocessing.py:62 | definition: the order `nlargest` ranks keys in: higher score first, and the earlier index among equal scores. |
| `Preprocessing.Drop` | preprocessing.py:62 | Removing the chosen index leaves exactly the other candidates. |
| `Preprocessing.TopK` | preprocessing.py:62 | `nlargest(k, …)` returns at most `k` of the candidates, none when `k <= 0`, and all of them when fewer than `k` are returned. |
| `Preprocessing.TopKOrdered` | preprocessing.py:62 | The returned indices are distinct and in `nlargest` order: score descending, ties by lower index. |
| `Preprocessing.TopKDominates` | preprocessing.py:62 | Every returned index is ahead of every candidate left out. |
| `Preprocessing.SelectedFacts` | preprocessing.py:62 | The selection has at most `sentences_count` distinct indices, each a valid sentence index with a score. Every scored sentence left out scores no higher than any chosen one. Fewer are chosen only when all scored sentences are. |
| `Preprocessing.Selected` | preprocessing.py:62 | definition: the indices `nlargest(sentences_count, sentence_scores, key=sentence_scores.get)` returns. |
| `Preprocessing.Ascending` | preprocessing.py:63 | `sorted` of a set of indices lists exactly its elements below the bound, strictly increasing. |
| `Preprocessing.Pick` | preprocessing.py:63 | `[sentences[i] for i in order]` has one sentence per index, at the same position. |
| `Preprocessing.JoinSpaceAppend` | preprocessing.py:63 | `' '.join` puts exactly one space between consecutive sentences. |
| `Preprocessing.JoinSpace` | preprocessing.py:63 | definition: `' '.join(xs)`. |
| `Preprocessing.SummaryOrder` | preprocessing.py:63 | The sentence indices are strictly increasing, are exactly the selected ones, and are valid sentence indices. The summary is the space join of the sequence whose `k`-th element is the sentence at the `k`-th index. |
| `Preprocessing.SummarizeText` | preprocessing.py:35-65 | `summarize_text` returns the summary defined by frequency, scoring, `nlargest`, `sorted` and the join. |
| `Preprocessing.Summary` | preprocessing.py:35-65 | definition: the value of `summarize_text`: the selected sentences in index order, joined by spaces. |
| `Preprocessing.RemoveAll` | preprocessing.py:76 | `str.replace(prefix, "")` never lengthens the URL. |
| `Preprocessing.RemoveAllAbsent` | preprocessing.py:76 | When the prefix does not occur, `replace` leaves the string unchanged. |
| `Preprocessing.RemoveAllLeading` | preprocessing.py:76 | An occurrence at the front is removed, and scanning continues after it. |
| `Preprocessing.RemoveAllCons` | preprocessing.py:76 | A character that cannot start an occurrence is kept. |
| `Preprocessing.StripLeft` | preprocessing.py:76 | `lstrip('/')` leaves a suffix with no leading `/`, and removes only `/` characters. |
| `Preprocessing.StripRight` | preprocessing.py:76 | `rstrip('/')` leaves a prefix with no trailing `/`, and removes only `/` characters. |
| `Preprocessing.StripSlashes` | preprocessing.py:76 | `strip('/')` leaves no `/` at either end. |
| `Preprocessing.Title` | preprocessing.py:76 | The title has no leading or trailing `/` and is no longer than the URL. |
| `Preprocessing.TitleOfPage` | preprocessing.py:76 | For a documentation URL (the prefix, then a path containing no further occurrence), the title is the path with `/` stripped from both ends. |
| `Preprocessing.RemoveAllJoins` | preprocessing.py:76 | Removing an occurrence can join the characters around it into a new occurrence, which `replace` leaves in place. |
| `Preprocessing.TitleCanContainPrefix` | preprocessing.py:76 | A concrete URL whose title still contains the prefix. |
| `Preprocessing.ProcessItem` | preprocessing.py:73-83 | An item becomes its title and its five-sentence summary. |
| `Preprocessing.MapRecordsMeaning` | preprocessing.py:72-85 | Mapping over the records gives one result per record, position for position. |
| `Preprocessing.ProcessAllMeaning` | preprocessing.py:72-85 | The output has exactly one item per input item, in the same order, each the title and five-sentence summary of its input. |
| `Preprocessing.ProcessRecord` | preprocessing.py:74-83 | definition: one record's title and five-sentence summary. |
| `Preprocessing.ProcessAll` | preprocessing.py:72-85 | definition: `processed_data`, `ProcessRecord` over the records in order. |
| `Preprocessing.ProcessItems` | preprocessing.py:70-85 | The loop appending to `processed_data` builds exactly that list. |

## Left out

- Network access and the `aiohttp` session (`fetch_html`) are not modelled. Fetching is a given function from URL to optional HTML, and an exception is `None`.
- The same URL is assumed to fetch the same page every time. The content crawl fetches each page below `max_depth` twice (scraper.py:74 and scraper.py:80; the second fetch is guarded by scraper.py:78), and the model gives both fetches the same result.
- `extract_content` and the `find_all('a', href=True)` walk are BeautifulSoup/html5lib behaviour. They are given functions: page text, and the `href` list in document order. `extract_content` is assumed not to raise. If it raised, `scrape_url` would return `None` for a page that was fetched (scraper.py:30-34).
- `urljoin` and `urlparse` are given functions. Their RFC 3986 resolution is not modelled. A `ValueError` from either is `None`, and it loses the whole link set, as the exception does.
- The interleaving of `asyncio.gather` is modelled as the two-phase batch described above, with an arbitrary completion order in phase 2. Tasks whose post-await parts overlap at finer grain are not modelled.
- Reading `config.json`, `save_to_json`, the JSON files of `process_json_file`, choosing crawl or replay in `main`, and the module-level run of preprocessing.py are not modelled: they are file I/O. The links file is modelled as the text written to it, and replay reads that text.
- Printing, timing and the nltk downloads are not modelled.
- nltk's `sent_tokenize`, `word_tokenize`, `pos_tag`, `WordNetLemmatizer`, the stop-word list, `str.lower` and `str.isalnum` are inputs (`Preprocessing.Nlp`), since they are foreign library calls.
- `Scraper.ScrapeWebsite`: it does not claim that every reachable page is scraped. Pages of a batch that mixes depths finish in any order, so a URL's deeper copy can be queued, and later marked visited, ahead of its shallower copy. At `max_depth` the deeper copy then expands nothing, so a page reachable only through that URL can be missed. The contract states soundness (reachable and in scope) and the start-page case only.
- `GenerateLinks.GenerateLinks`: for the same reason, it states which URLs can be present, not which ones are guaranteed.
- `GenerateLinks.ArtifactLines` and `GenerateLinks.ReplayArtifact`: the round trip through `splitlines` holds only for URLs without line-break characters, so both lemmas require that.
- `Preprocessing.Title`: it does not state that the title contains no occurrence of the prefix, because that is false. `str.replace` can join an occurrence from the characters around one it removed. `Preprocessing.TitleCanContainPrefix` exhibits such a URL. The title of a real documentation URL is given by `Preprocessing.TitleOfPage`.
- `Preprocessing.TopK`: tie-breaking by lower index relies on the score dictionary iterating its keys in increasing index order. This holds because `sentence_scores` is filled in sentence order, and `nlargest` keeps the first of equal keys.
- The members listed as "definition" in the table carry no contract of their own. The lemmas and methods beside them state their properties.
