/** `indexPage`: add or refresh one page synchronously. The page's origin
    must equal a configured site URL exactly; the first such site owns the
    page. An existing copy of the page is deleted through the frequency
    bookkeeping before the crawler saves the new one. */
module SinglePage {
  import opened Repository
  import opened Consistency

  /** The position of the first configured site whose URL is `origin`. */
  function FirstMatch(config: seq<ConfigSite>, origin: string): (r: Option<nat>)
    ensures r.Some? ==> r.value < |config| && config[r.value].url == origin
    ensures r.Some? ==> forall j :: 0 <= j < r.value ==> config[j].url != origin
    ensures r.None? <==> forall j :: 0 <= j < |config| ==> config[j].url != origin
  {
    if config == [] then None
    else if config[0].url == origin then Some(0)
    else
      match FirstMatch(config[1..], origin)
      case None =>
        assert forall j :: 1 <= j < |config| ==> config[j] == config[1..][j - 1];
        None
      case Some(i) => Some(i + 1)
  }

  /** `url.substring(origin.length())`: the site-relative path. */
  function PathOf(url: string, origin: string): (path: string)
    requires origin <= url
    ensures origin + path == url
  {
    url[|origin|..]
  }

  /** The id the page's site row has once `indexPage` saved it: the existing
      row found by name, or the id the repository hands out next. */
  function TargetId(st: Store, name: string): SiteId
  {
    match FindByName(st, name)
    case None => st.nextSiteId
    case Some(id) => id
  }

  /** `indexPage(url)`. `origin` is what `Utils.getProtocolAndDomain(url)`
      returns, a prefix of `url`; `started` and `finished` are the two clock
      readings; `saved` is the crawler's `savePage` result (`None` when it
      failed). Both failures report the same error, as `isIndexPage` answers
      with a single boolean. */
  function IndexPage(st: Store, url: string, origin: string, started: Time, finished: Time, saved: Option<Page>)
    : (r: Step)
    requires origin <= url
    ensures !r.store.cancel
    ensures r.outcome.Ok? || r.outcome == Err(PageOutsideConfiguredSites)
    ensures r.outcome == Ok <==> saved.Some? && exists j :: 0 <= j < |st.config| && st.config[j].url == origin
    ensures (forall j :: 0 <= j < |st.config| ==> st.config[j].url != origin) ==> r.store == st.(cancel := false)
    ensures FirstMatch(st.config, origin).Some? ==>
      r.store == RefreshPage(st.(cancel := false), st.config[FirstMatch(st.config, origin).value].name,
                             url, origin, started, finished, saved)
  {
    var st1 := st.(cancel := false);
    match FirstMatch(st1.config, origin)
    case None => Step(Err(PageOutsideConfiguredSites), st1)
    case Some(i) =>
      var outcome := if saved.Some? then Ok else Err(PageOutsideConfiguredSites);
      Step(outcome, RefreshPage(st1, st1.config[i].name, url, origin, started, finished, saved))
  }

  /** The part of `indexPage` after the owning configured site `name` is
      known: mark its row INDEXING (creating it if needed), delete the old copy
      of the page through `deletePage` when the row already existed, save the
      row with a cleared error, let the crawler save the page, and mark the
      row INDEXED if it did. */
  function RefreshPage(st: Store, name: string, url: string, origin: string, started: Time, finished: Time, saved: Option<Page>)
    : (r: Store)
    requires origin <= url
    ensures r.config == st.config && r.tracked == st.tracked && r.cancel == st.cancel
    ensures r.nextSiteId == if FindByName(st, name).Some? then st.nextSiteId else st.nextSiteId + 1
    ensures
      var id := TargetId(st, name);
      var pk := PageKey(id, PathOf(url, origin));
      // the site row: INDEXING with a cleared error, INDEXED once the page is saved
      && r.sites.Keys == st.sites.Keys + {id}
      && r.sites[id].name == name
      && r.sites[id].lastError == ""
      && r.sites[id].status == (if saved.Some? then Indexed else Indexing)
      && r.sites[id].statusTime == (if saved.Some? then finished else started)
      && (forall other :: other in st.sites && other != id ==> r.sites[other] == st.sites[other])
      // the addressed page, and no other, is replaced
      && (forall p :: p != pk ==> (p in r.pages <==> p in st.pages))
      && (forall p :: p != pk && p in r.pages ==> r.pages[p] == st.pages[p])
      && (saved.Some? ==> pk in r.pages && r.pages[pk] == saved.value)
      && (saved.None? && FindByName(st, name).Some? ==> pk !in r.pages)
      && (saved.None? && FindByName(st, name).None? ==> r.pages == st.pages)
      // the old copy is deleted only when the site row already existed
      && (FindByName(st, name).None? ==> r.lemmas == st.lemmas && r.indices == st.indices)
      && (FindByName(st, name).Some? ==>
            r.lemmas == DeletePage(st, id, PathOf(url, origin)).lemmas
            && r.indices == DeletePage(st, id, PathOf(url, origin)).indices)
  {
    var path := PathOf(url, origin);
    var id := TargetId(st, name);
    var existed := FindByName(st, name).Some?;
    var site := if existed then st.sites[id].(status := Indexing, statusTime := started)
                else Site(id, Indexing, started, "", origin, name);
    var st2 := if existed then DeletePage(st, id, path) else st.(nextSiteId := id + 1);
    Finish(st2, id, path, site.(lastError := ""), finished, saved)
  }

  /** `indexPage` keeps a well-formed store well-formed: the new page starts
      with no index rows, and the old one left through `deletePage`. */
  lemma IndexPagePreservesValid(st: Store, url: string, origin: string, started: Time, finished: Time, saved: Option<Page>)
    requires Valid(st) && origin <= url
    ensures Valid(IndexPage(st, url, origin, started, finished, saved).store)
  {
    var st1 := st.(cancel := false);
    assert Valid(st1);
    match FirstMatch(st1.config, origin)
    case None =>
    case Some(i) =>
      RefreshPageKeepsValid(st1, st1.config[i].name, url, origin, started, finished, saved);
  }

  lemma RefreshPageKeepsValid(st: Store, name: string, url: string, origin: string, started: Time, finished: Time, saved: Option<Page>)
    requires Valid(st) && origin <= url
    ensures Valid(RefreshPage(st, name, url, origin, started, finished, saved))
  {
    var path := PathOf(url, origin);
    var id := TargetId(st, name);
    var existed := FindByName(st, name).Some?;
    var site := if existed then st.sites[id].(status := Indexing, statusTime := started)
                else Site(id, Indexing, started, "", origin, name);
    var st2 := if existed then DeletePage(st, id, path) else st.(nextSiteId := id + 1);
    PreparedValid(st, id, path, name);
    assert site.id == id;
    FinishKeepsValid(st2, id, path, site.(lastError := ""), finished, saved);
  }

  /** The store `indexPage` leaves once the site row is saved and the crawler
      has (or has not) saved the page. */
  function Finish(st2: Store, id: SiteId, path: string, site: Site, finished: Time, saved: Option<Page>): Store
  {
    var st3 := st2.(sites := st2.sites[id := site]);
    match saved
    case None => st3
    case Some(page) =>
      st3.(pages := st3.pages[PageKey(id, path) := page], sites := st3.sites[id := site.(status := Indexed, statusTime := finished)])
  }

  /** Before the site row is saved, the store is well-formed, the row's id
      is one the repository handed out, and the addressed page has no index rows. */
  lemma PreparedValid(st: Store, id: SiteId, path: string, name: string)
    requires Valid(st) && id == TargetId(st, name)
    ensures var st2 := if FindByName(st, name).Some? then DeletePage(st, id, path) else st.(nextSiteId := id + 1);
      Valid(st2) && id < st2.nextSiteId &&
      forall k :: k in st2.indices ==> k.page != PageKey(id, path)
  {
    if FindByName(st, name).Some? {
      DeletePagePreservesValid(st, id, path);
    }
  }

  /** Saving the row and a page with no index rows keeps the store well-formed. */
  lemma FinishKeepsValid(st2: Store, id: SiteId, path: string, site: Site, finished: Time, saved: Option<Page>)
    requires Valid(st2) && id < st2.nextSiteId && site.id == id
    requires forall k :: k in st2.indices ==> k.page != PageKey(id, path)
    ensures Valid(Finish(st2, id, path, site, finished, saved))
  {
  }
}
