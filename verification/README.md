# Indexing orchestrator of the search engine, in Dafny

This project models the bookkeeping core of the search engine's indexing
service (`IndexingServiceImpl`). The service exposes three operations:

- `startIndexing` starts a full (re)index of every configured site.
- `stopIndexing` stops a running index.
- `indexPage` adds or refreshes a single page.

The model is sequential and purely functional. One immutable `Store` value
holds:

- the configured `(name, url)` list;
- the site, page, lemma and index-row tables;
- the crawler's process-wide cancel flag;
- the service's in-memory list of tracked site snapshots.

Each operation is a function from a store to an `Outcome` (`Ok` or
`Err(message)`) and a new store. A lemma is a word's normal form.

The well-formedness invariant `Repository.Valid` states three things:

- every site row sits under its own id, and that id is below the repository's next id, and every tracked snapshot carries an id below it too;
- every page belongs to an existing site, and every index row links an existing page to an existing lemma of the same site;
- every lemma's `frequency` equals the number of index rows that refer to it, and is positive.

`startIndexing` changes only the cancel flag, which `Valid` does not mention. Every other state-changing operation (`deletePage`, `deleteByName`, `parseOneSite`, the run of a task list, `stopIndexing`, `indexPage`) has a lemma proving that it preserves `Valid`.

Files (one module each):

- `store.dfy` (`Repository`): data model, repository queries, invariants.
- `consistency.dfy` (`Consistency`): `deletePage`/`deleteLemmas` and the bulk `deleteByName`.
- `indexing.dfy` (`FullIndex`): `startIndexing`, the submission loop, `parseOneSite`, and sequential running of the submitted tasks.
- `stopping.dfy` (`Stopping`): `stopIndexing` and `saveAll`.
- `single_page.dfy` (`SinglePage`): `indexPage`.
- `scenarios.dfy` (`Scenarios`): properties of start, run and stop performed in sequence.

Modelling assumptions:

- Pages are keyed by `(siteId, path)`, so a path is unique within a site.
- Index rows are keyed by `(page, lemmaId)`, so there is at most one row per pair.
- Deleting a page, or all pages of a site, also deletes their index rows (cascade). The code does not show this.
- `Utils.getProtocolAndDomain(url)` is the parameter `origin`, assumed to be a prefix of `url`.
- Every `Utils.setNow()` reading is a `Time` parameter. So is the clock reading `stopIndexing` takes for each snapshot it marks stopped, one per tracked snapshot.
- The crawler's `savePage` result is the parameter `saved`: `None` for a failure, `Some(page)` for the saved page.
- The crawler's `savePage` persists the page itself. The model assumes it stores exactly one page, under the site row's id and the path `url` minus its origin, and stores nothing when it fails. On the create path of `indexPage` the code computes no path itself; the model uses that same path there too.
- `siteParser.forceStop()` sets the shared cancel flag.
- A site row created by `parseOneSite` has an empty `lastError`. The `Site` constructor is not part of this model.
- Submitted tasks run one after another, in submission order.

The model follows these details of the code:

- `startIndexing` resets the cancel flag before its precondition check, so it is also reset when the call fails.
- `indexPage` resets the cancel flag even when the URL is out of scope.
- When `savePage` fails, `indexPage` reports the same "page outside the configured sites" error as for an out-of-scope URL, because `isIndexPage` returns a single boolean.
- `parseOneSite` reindexes an existing site by changing only its status to INDEXING. It keeps the old `statusTime` and `lastError`.
- `stopIndexing` writes back every tracked snapshot (`saveAll(siteList)`), not only those it turned into FAILED. A snapshot of the same site saved later wins.
- When `savePage` fails, `indexPage` leaves the site row INDEXING and does not add it to the tracked list. Until something else changes that row, `startIndexing` refuses because indexing has started, while `stopIndexing`, when no tracked snapshot is INDEXING, reports that indexing is not running (`Scenarios.FailedPageBlocksStart`).

## Model

| member | source | states |
|---|---|---|
| Repository.CountByNameAndStatus | src/main/java/searchengine/services/indexing/IndexingServiceImpl.java:70-72 | the repository count for a name and status is positive exactly when some row has that name and status |
| Repository.FindByName | src/main/java/searchengine/services/indexing/IndexingServiceImpl.java:113-117 | a found row has the requested name; in a store whose ids are bounded, nothing is found exactly when no row has the name |
| Consistency.DeletePage | src/main/java/searchengine/services/indexing/IndexingServiceImpl.java:306-332 | absent page: nothing changes. Present page: it and only its index rows are removed; each surviving lemma drops by exactly the page's reference to it; only lemmas of that site that reached 0 disappear; lemmas of other sites remain; no lemma of the site is left at 0 |
| Consistency.RowCountAfterDrop | src/main/java/searchengine/services/indexing/IndexingServiceImpl.java:311 | deleting a page lowers the index-row count of each lemma by exactly that page's reference to it |
| Consistency.DeletePagePreservesValid | src/main/java/searchengine/services/indexing/IndexingServiceImpl.java:306-332 | on a well-formed store (site ids bounded, every index row linking a page to a lemma of the same site, every frequency equal to its row count and positive), deletePage leaves a well-formed store |
| Consistency.DeletePageReplacesBookkeeping | src/main/java/searchengine/services/indexing/IndexingServiceImpl.java:320-332 | on a well-formed store, a lemma only the page used is purged; a lemma it shared drops by exactly 1; a lemma it did not use is unchanged |
| Consistency.DeletePageKeepsSharedLemma | src/main/java/searchengine/services/indexing/IndexingServiceImpl.java:321-331 | on a well-formed store, a lemma the deleted page shares with another page is not purged and keeps a frequency of at least 1 |
| Consistency.DeleteByName | src/main/java/searchengine/services/indexing/IndexingServiceImpl.java:139-157 | for the site found by name, every lemma, page and index row of that site is deleted and all other rows are kept; with no such site nothing changes |
| Consistency.DeleteByNamePreservesValid | src/main/java/searchengine/services/indexing/IndexingServiceImpl.java:139-157 | the bulk site reset keeps the frequency invariant and referential integrity |
| FullIndex.IndexingCount | src/main/java/searchengine/services/indexing/IndexingServiceImpl.java:70-72 | the sum of INDEXING counts over the configured names is positive exactly when some configured site has an INDEXING row |
| FullIndex.Submissions | src/main/java/searchengine/services/indexing/IndexingServiceImpl.java:83-90 | with cancel set nothing is submitted; otherwise one task per configured site in configuration order, with isCreate equal to "no row has that name" |
| FullIndex.StartIndexing | src/main/java/searchengine/services/indexing/IndexingServiceImpl.java:49-74 | Err(already started) with no task exactly when a configured site is INDEXING, otherwise Ok with one task per configured site; cancel is false afterwards on both paths and nothing else changes |
| FullIndex.ParseOneSite | src/main/java/searchengine/services/indexing/IndexingServiceImpl.java:103-126 | with cancel set, or a reindex of a missing site, nothing changes. A create adds a fresh INDEXING row and tracks it. A reindex sets the row INDEXING, deletes that site's pages, lemmas and index rows, tracks the row, and leaves other sites untouched |
| FullIndex.RunTasks | src/main/java/searchengine/services/indexing/IndexingServiceImpl.java:83-90 | running the tasks keeps the configuration and cancel flag, changes nothing when cancel is set, and only appends to the tracked list, at most once per task |
| FullIndex.RunTasksPreservesValid | src/main/java/searchengine/services/indexing/IndexingServiceImpl.java:83-126 | running any list of tasks, in order, keeps a well-formed store well-formed |
| FullIndex.ParseOneSitePreservesValid | src/main/java/searchengine/services/indexing/IndexingServiceImpl.java:103-126 | a task keeps the store well-formed |
| FullIndex.ParseOneSiteProgress | src/main/java/searchengine/services/indexing/IndexingServiceImpl.java:109-126 | with cancel clear, a task leaves its site with an INDEXING row and appends exactly one INDEXING snapshot of it; existing rows keep their names, and INDEXING rows stay INDEXING |
| FullIndex.RunTasksProgress | src/main/java/searchengine/services/indexing/IndexingServiceImpl.java:83-126 | running the submitted tasks leaves every task's site INDEXING and appends one INDEXING snapshot per task |
| FullIndex.StartIndexingRunsEverySite | src/main/java/searchengine/services/indexing/IndexingService.java:6-8 | after a successful start and its run, every configured site has an INDEXING row and one tracked snapshot |
| FullIndex.StartIndexingTwice | src/main/java/searchengine/services/indexing/IndexingService.java:9-12 | a second start after a started run reports already started and submits nothing |
| Stopping.SaveAll | src/main/java/searchengine/services/indexing/IndexingServiceImpl.java:200 | saving a list of snapshots adds their ids, leaves other rows alone, and stores the last snapshot of each id |
| Stopping.StopIndexing | src/main/java/searchengine/services/indexing/IndexingServiceImpl.java:164-207 | with no tracked INDEXING snapshot: Err(not running) and nothing changes. Otherwise Ok and cancel set; tracked INDEXING snapshots become FAILED with the stopped-by-user error and their own clock reading; other snapshots are unchanged; untracked rows are unchanged; each tracked id's row is its last snapshot; pages, lemmas and index rows are untouched |
| Stopping.StopIndexingTwice | src/main/java/searchengine/services/indexing/IndexingService.java:14-19 | after a successful stop no tracked site's row is INDEXING, and a second stop reports not running and changes nothing |
| Stopping.StopIndexingPreservesValid | src/main/java/searchengine/services/indexing/IndexingServiceImpl.java:193-200 | a stop keeps the store well-formed |
| SinglePage.FirstMatch | src/main/java/searchengine/services/indexing/IndexingServiceImpl.java:241-251 | the chosen configured site is the first whose URL equals the origin exactly; none is chosen exactly when no URL equals it |
| SinglePage.PathOf | src/main/java/searchengine/services/indexing/IndexingServiceImpl.java:262 | the origin followed by the computed path is the URL |
| SinglePage.IndexPage | src/main/java/searchengine/services/indexing/IndexingServiceImpl.java:216-251 | cancel is cleared on every path; the result is Ok exactly when the origin equals a configured URL and savePage succeeds, and otherwise the single "outside the configured sites" error; out of scope nothing else changes; in scope the first matching configured site's page is refreshed |
| SinglePage.RefreshPage | src/main/java/searchengine/services/indexing/IndexingServiceImpl.java:253-299 | the named site's row (found or newly numbered) has an empty error and is INDEXED with the finishing time on success, INDEXING with the starting time otherwise; other rows are unchanged; only the addressed page changes, becoming the saved page on success; lemmas and index rows go through deletePage exactly when the row already existed, and are untouched otherwise |
| SinglePage.IndexPagePreservesValid | src/main/java/searchengine/services/indexing/IndexingServiceImpl.java:237-299 | indexPage keeps the store well-formed, including the frequency invariant |
| Scenarios.StopLeavesNothingRunning | src/main/java/searchengine/services/indexing/IndexingServiceImpl.java:183-207 | if every INDEXING configured site is tracked, a successful stop leaves no configured site INDEXING |
| Scenarios.StopThenRestart | src/main/java/searchengine/services/indexing/IndexingService.java:6-19 | start, run and stop: the stop succeeds and a following start is accepted |
| Scenarios.FailedPageBlocksStart | src/main/java/searchengine/services/indexing/IndexingServiceImpl.java:253-270 | when savePage fails for an in-scope page and no tracked snapshot is INDEXING, indexPage reports an error but leaves the site row INDEXING and untracked; a following startIndexing then reports already started, while stopIndexing reports not running |

## Left out

- Thread pool: its creation, sizing, thread factory, `shutdown` and `shutdownNow` are not modelled (IndexingServiceImpl.java:77-92). They only concern concurrency. Submitted tasks run one after another, and the cancel flag cannot change while tasks are being submitted.
- Crawler internals are not modelled: `getLinks`, `initSiteParser`, `parseSinglePage` and `clearUniqueLinks`. Their source lies outside the modelled files. The INDEXED or FAILED status the crawl itself would set after `parseOneSite` is not modelled either.
- RefreshPage: the lemmas and index rows that `parseSinglePage` derives for the saved page are not modelled. In the model a freshly saved page has no index rows.
- ParseOneSite: only the part before the crawler is modelled. The site it starts stays INDEXING.
- `Utils.getProtocolAndDomain` and `Utils.setNow` are not modelled, because their source lies outside the modelled files. They become parameters, as listed above.
- Exceptions and transactions are not modelled. Repository operations are total: the `try`/`catch` blocks (IndexingServiceImpl.java:145-155, 184-206), the NullPointerException on a missing lemma, and `@Transactional` semantics are all left out. `deleteLemmas` skips index rows whose lemma is missing.
- FindByName: when several rows share a name, the model picks the smallest id. The repository would raise an error instead.
- Integer overflow of `reduce(0, Integer::sum)` is not modelled. Counts are unbounded.
- Page deletion order: the model does not represent the moment when the lemma purge runs while the page's index rows still exist. The end state is the same.
- Logging, the response DTO classes and the message texts are left out. Errors are tags.
