/** The state the indexing service reads and writes, as one immutable value:
    the configured site list, the four repository tables (sites, pages, lemmas,
    index rows), the crawler's process-wide cancel flag and the service's
    in-memory list of the sites it has started indexing. */
module Repository {

  datatype Option<+T> = None | Some(value: T)

  type SiteId = nat
  type LemmaId = nat

  /** An abstract timestamp; every reading of the clock is supplied by the caller. */
  type Time = nat

  datatype Status = Indexing | Indexed | Failed

  datatype Site = Site(id: SiteId, status: Status, statusTime: Time, lastError: string, url: string, name: string)

  /** One `(name, url)` entry of the site configuration. */
  datatype ConfigSite = ConfigSite(name: string, url: string)

  /** A page is identified by its site and its site-relative path, which is
      unique within a site. */
  datatype PageKey = PageKey(siteId: SiteId, path: string)

  /** The fields the crawler fills in; the orchestrator never looks inside. */
  datatype Page = Page(code: int, content: string)

  datatype Lemma = Lemma(siteId: SiteId, text: string, frequency: int)

  /** An index row is keyed by the (page, lemma) pair it links, so a store
      holds at most one row per pair; the map's value is the row's rank. */
  datatype IndexKey = IndexKey(page: PageKey, lemmaId: LemmaId)

  datatype Store = Store(
    config: seq<ConfigSite>,
    sites: map<SiteId, Site>,
    nextSiteId: SiteId,     // the id the repository gives the next new site row
    pages: map<PageKey, Page>,
    lemmas: map<LemmaId, Lemma>,
    indices: map<IndexKey, real>,
    cancel: bool,
    tracked: seq<Site>)     // snapshots of the site rows the service started indexing

  /** The error tags of the three public operations. */
  datatype Message = IndexingHasAlreadyStarted | IndexingIsNotRunning | PageOutsideConfiguredSites

  /** Every public operation answers with a structured outcome, never an exception. */
  datatype Outcome = Ok | Err(msg: Message)

  /** An outcome together with the store the operation leaves behind. */
  datatype Step = Step(outcome: Outcome, store: Store)

  /** The `lastError` text written by a user-requested stop. */
  const IndexingStoppedByUser: string := "stopped by user"

  // ---------------------------------------------------------------------------
  // Repository queries on the site table

  predicate HasName(sites: map<SiteId, Site>, name: string)
  {
    exists id :: id in sites && sites[id].name == name
  }

  predicate IsRunning(sites: map<SiteId, Site>, name: string)
  {
    exists id :: id in sites && sites[id].name == name && sites[id].status == Indexing
  }

  /** `countByNameAndStatus`: how many site rows carry this name and status. */
  function CountByNameAndStatus(sites: map<SiteId, Site>, name: string, status: Status): (n: nat)
    ensures n > 0 <==> exists id :: id in sites && sites[id].name == name && sites[id].status == status
  {
    var rows := set id | id in sites && sites[id].name == name && sites[id].status == status;
    NonEmptyWhenWitnessed(sites, name, status);
    |rows|
  }

  lemma NonEmptyWhenWitnessed(sites: map<SiteId, Site>, name: string, status: Status)
    ensures (exists id :: id in sites && sites[id].name == name && sites[id].status == status)
        ==> (set id | id in sites && sites[id].name == name && sites[id].status == status) != {}
  {
    var rows := set id | id in sites && sites[id].name == name && sites[id].status == status;
    if w :| w in sites && sites[w].name == name && sites[w].status == status {
      assert w in rows;
    }
  }

  /** The smallest id in `[from, bound)` of a row named `name`. */
  function FindByNameFrom(sites: map<SiteId, Site>, name: string, from: nat, bound: nat): (r: Option<SiteId>)
    decreases bound - from
    ensures r.Some? ==> from <= r.value < bound && r.value in sites && sites[r.value].name == name
    ensures r.Some? ==> forall id :: from <= id < r.value && id in sites ==> sites[id].name != name
    ensures r.None? ==> forall id :: from <= id < bound && id in sites ==> sites[id].name != name
  {
    if from >= bound then None
    else if from in sites && sites[from].name == name then Some(from)
    else FindByNameFrom(sites, name, from + 1, bound)
  }

  /** `findByName`: the row named `name`, if any. Should several rows share the
      name, the one with the smallest id is chosen. */
  function FindByName(st: Store, name: string): (r: Option<SiteId>)
    ensures r.Some? ==> r.value in st.sites && st.sites[r.value].name == name
    ensures SiteIdsBounded(st) ==> (r.None? <==> !HasName(st.sites, name))
  {
    FindByNameFrom(st.sites, name, 0, st.nextSiteId)
  }

  // ---------------------------------------------------------------------------
  // Invariants of a well-formed store

  /** Number of index rows that refer to lemma `l`. */
  function RowCount(indices: map<IndexKey, real>, l: LemmaId): nat
  {
    |set k | k in indices && k.lemmaId == l|
  }

  /** Site ids are below the repository's next id, and a row's key is its id;
      tracked snapshots also carry ids the repository has handed out. */
  ghost predicate SiteIdsBounded(st: Store)
  {
    && (forall id :: id in st.sites ==> id < st.nextSiteId && st.sites[id].id == id)
    && (forall i :: 0 <= i < |st.tracked| ==> st.tracked[i].id < st.nextSiteId)
  }

  /** Every page belongs to an existing site; every index row links an
      existing page to an existing lemma of the same site. */
  ghost predicate Referential(st: Store)
  {
    && (forall pk :: pk in st.pages ==> pk.siteId in st.sites)
    && (forall k :: k in st.indices ==>
          k.page in st.pages && k.lemmaId in st.lemmas && st.lemmas[k.lemmaId].siteId == k.page.siteId)
  }

  /** A lemma's frequency is the number of index rows that refer to it, and no
      lemma with frequency 0 is kept. */
  ghost predicate FrequencyInvariant(st: Store)
  {
    forall l :: l in st.lemmas ==> st.lemmas[l].frequency == RowCount(st.indices, l) > 0
  }

  ghost predicate Valid(st: Store)
  {
    SiteIdsBounded(st) && Referential(st) && FrequencyInvariant(st)
  }

  /** Two distinct index rows of one lemma make its row count at least two. */
  lemma RowCountAtLeastTwo(indices: map<IndexKey, real>, a: IndexKey, b: IndexKey)
    requires a in indices && b in indices && a != b && a.lemmaId == b.lemmaId
    ensures RowCount(indices, a.lemmaId) >= 2
  {
    var rows := set k | k in indices && k.lemmaId == a.lemmaId;
    assert {a, b} <= rows;
    assert |{a, b}| == 2;
    SubsetCardinality({a, b}, rows);
  }

  lemma SubsetCardinality<T>(small: set<T>, big: set<T>)
    requires small <= big
    ensures |small| <= |big|
  {
    var rest := big - small;
    assert big == small + rest;
    assert small !! rest;
  }
}
