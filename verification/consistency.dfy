/** The bookkeeping that keeps lemma frequencies in step with index rows when
    pages go away: one page at a time (`deletePage` with `deleteLemmas`), or a
    whole site at once before it is indexed again (`deleteByName`). */
module Consistency {
  import opened Repository

  /** 1 when page `pk` has an index row for lemma `l`, 0 otherwise. */
  function Refs(indices: map<IndexKey, real>, pk: PageKey, l: LemmaId): nat
  {
    if IndexKey(pk, l) in indices then 1 else 0
  }

  /** `deleteLemmas`: every lemma one of the page's index rows refers to loses
      one unit of frequency, the lowered rows are saved, and then every lemma of
      site `siteId` whose frequency is 0 is deleted. */
  function DeleteLemmas(lemmas: map<LemmaId, Lemma>, indices: map<IndexKey, real>, pk: PageKey, siteId: SiteId)
    : map<LemmaId, Lemma>
  {
    var lowered := map l | l in lemmas :: lemmas[l].(frequency := lemmas[l].frequency - Refs(indices, pk, l));
    map l | l in lowered && !(lowered[l].siteId == siteId && lowered[l].frequency == 0) :: lowered[l]
  }

  /** The index rows that survive deleting page `pk`: the repository removes a
      page's index rows together with the page. */
  function DropPageRows(indices: map<IndexKey, real>, pk: PageKey): map<IndexKey, real>
  {
    map k | k in indices && k.page != pk :: indices[k]
  }

  /** `deletePage`: look the page up by site and path; if it exists, lower and
      purge its lemmas, then delete it. */
  function DeletePage(st: Store, siteId: SiteId, path: string): (r: Store)
    ensures PageKey(siteId, path) !in st.pages ==> r == st
    ensures r == st.(pages := r.pages, lemmas := r.lemmas, indices := r.indices)
    ensures PageKey(siteId, path) in st.pages ==> r.pages == st.pages - {PageKey(siteId, path)}
    ensures forall k :: k in r.indices <==> k in st.indices && (k.page != PageKey(siteId, path) || PageKey(siteId, path) !in st.pages)
    ensures forall k :: k in r.indices ==> r.indices[k] == st.indices[k]
    ensures PageKey(siteId, path) in st.pages ==> forall l :: l in r.lemmas ==>
      l in st.lemmas && r.lemmas[l] == st.lemmas[l].(frequency := st.lemmas[l].frequency - Refs(st.indices, PageKey(siteId, path), l))
    ensures forall l :: l in st.lemmas && l !in r.lemmas ==>
      st.lemmas[l].siteId == siteId && st.lemmas[l].frequency == Refs(st.indices, PageKey(siteId, path), l)
    ensures forall l :: l in st.lemmas && st.lemmas[l].siteId != siteId ==> l in r.lemmas
    ensures PageKey(siteId, path) in st.pages ==> forall l :: l in r.lemmas && r.lemmas[l].siteId == siteId ==> r.lemmas[l].frequency != 0
  {
    var pk := PageKey(siteId, path);
    if pk !in st.pages then st
    else
      st.(lemmas := DeleteLemmas(st.lemmas, st.indices, pk, siteId),
          pages := st.pages - {pk},
          indices := DropPageRows(st.indices, pk))
  }

  /** Deleting a page lowers the row count of each of its lemmas by exactly one. */
  lemma RowCountAfterDrop(indices: map<IndexKey, real>, pk: PageKey, l: LemmaId)
    ensures RowCount(DropPageRows(indices, pk), l) == RowCount(indices, l) - Refs(indices, pk, l)
  {
    var before := set k | k in indices && k.lemmaId == l;
    var after := set k | k in DropPageRows(indices, pk) && k.lemmaId == l;
    assert after == before - {IndexKey(pk, l)};
    if IndexKey(pk, l) in indices {
      assert before == after + {IndexKey(pk, l)};
    } else {
      assert before == after;
    }
  }

  /** `deletePage` keeps a well-formed store well-formed: frequencies still
      count index rows, and no zero-frequency lemma is left behind. */
  lemma DeletePagePreservesValid(st: Store, siteId: SiteId, path: string)
    requires Valid(st)
    ensures Valid(DeletePage(st, siteId, path))
  {
    var r := DeletePage(st, siteId, path);
    if PageKey(siteId, path) in st.pages {
      forall l | l in r.lemmas
        ensures r.lemmas[l].frequency == RowCount(r.indices, l) > 0
      {
        SurvivingLemmaCounted(st, siteId, path, l);
      }
      forall k | k in r.indices
        ensures k.page in r.pages && k.lemmaId in r.lemmas && r.lemmas[k.lemmaId].siteId == k.page.siteId
      {
        SurvivingRowLinked(st, siteId, path, k);
      }
    }
  }

  lemma SurvivingLemmaCounted(st: Store, siteId: SiteId, path: string, l: LemmaId)
    requires Valid(st) && PageKey(siteId, path) in st.pages
    requires l in DeletePage(st, siteId, path).lemmas
    ensures var r := DeletePage(st, siteId, path); r.lemmas[l].frequency == RowCount(r.indices, l) > 0
  {
    var pk := PageKey(siteId, path);
    RowCountAfterDrop(st.indices, pk, l);
    if IndexKey(pk, l) in st.indices {
      assert st.lemmas[l].siteId == siteId;
    }
  }

  lemma SurvivingRowLinked(st: Store, siteId: SiteId, path: string, k: IndexKey)
    requires Valid(st) && PageKey(siteId, path) in st.pages
    requires k in DeletePage(st, siteId, path).indices
    ensures var r := DeletePage(st, siteId, path);
      k.page in r.pages && k.lemmaId in r.lemmas && r.lemmas[k.lemmaId].siteId == k.page.siteId
  {
    var pk := PageKey(siteId, path);
    if IndexKey(pk, k.lemmaId) in st.indices {
      RowCountAtLeastTwo(st.indices, k, IndexKey(pk, k.lemmaId));
    }
  }

  /** Replacing a page: a lemma only that page used (frequency 1) disappears,
      a lemma it shared with other pages drops by exactly one, a lemma it did
      not use is untouched, and none of the page's index rows remain. */
  lemma DeletePageReplacesBookkeeping(st: Store, siteId: SiteId, path: string, l: LemmaId)
    requires Valid(st)
    requires PageKey(siteId, path) in st.pages
    requires l in st.lemmas
    ensures var r := DeletePage(st, siteId, path);
      && (IndexKey(PageKey(siteId, path), l) in st.indices && st.lemmas[l].frequency == 1 ==> l !in r.lemmas)
      && (IndexKey(PageKey(siteId, path), l) in st.indices && st.lemmas[l].frequency > 1 ==>
            l in r.lemmas && r.lemmas[l].frequency == st.lemmas[l].frequency - 1)
      && (IndexKey(PageKey(siteId, path), l) !in st.indices ==> l in r.lemmas && r.lemmas[l] == st.lemmas[l])
      && RowCount(r.indices, l) == RowCount(st.indices, l) - Refs(st.indices, PageKey(siteId, path), l)
  {
    var pk := PageKey(siteId, path);
    RowCountAfterDrop(st.indices, pk, l);
    if IndexKey(pk, l) in st.indices {
      assert st.lemmas[l].siteId == siteId;
    }
  }

  /** A lemma the deleted page shares with another page is not purged: it
      survives with a positive frequency. */
  lemma DeletePageKeepsSharedLemma(st: Store, siteId: SiteId, path: string, other: IndexKey)
    requires Valid(st)
    requires PageKey(siteId, path) in st.pages
    requires IndexKey(PageKey(siteId, path), other.lemmaId) in st.indices
    requires other in st.indices && other.page != PageKey(siteId, path)
    ensures var r := DeletePage(st, siteId, path);
      other.lemmaId in r.lemmas && r.lemmas[other.lemmaId].frequency >= 1
  {
    var pk := PageKey(siteId, path);
    RowCountAtLeastTwo(st.indices, other, IndexKey(pk, other.lemmaId));
    DeletePageReplacesBookkeeping(st, siteId, path, other.lemmaId);
  }

  /** `deleteByName`: if a site row has this name, delete all of that site's
      lemmas and all of its pages (with their index rows). */
  function DeleteByName(st: Store, name: string): (r: Store)
    ensures FindByName(st, name).None? ==> r == st
    ensures r == st.(pages := r.pages, lemmas := r.lemmas, indices := r.indices)
    ensures FindByName(st, name).Some? ==>
      var id := FindByName(st, name).value;
      && (forall pk :: pk in r.pages <==> pk in st.pages && pk.siteId != id)
      && (forall l :: l in r.lemmas <==> l in st.lemmas && st.lemmas[l].siteId != id)
      && (forall k :: k in r.indices <==> k in st.indices && k.page.siteId != id)
    ensures forall pk :: pk in r.pages ==> r.pages[pk] == st.pages[pk]
    ensures forall l :: l in r.lemmas ==> r.lemmas[l] == st.lemmas[l]
    ensures forall k :: k in r.indices ==> r.indices[k] == st.indices[k]
  {
    match FindByName(st, name)
    case None => st
    case Some(id) =>
      st.(lemmas := map l | l in st.lemmas && st.lemmas[l].siteId != id :: st.lemmas[l],
          pages := map pk | pk in st.pages && pk.siteId != id :: st.pages[pk],
          indices := map k | k in st.indices && k.page.siteId != id :: st.indices[k])
  }

  /** The bulk reset keeps a well-formed store well-formed: the lemmas that
      remain belong to other sites, and so do all of their index rows. */
  lemma DeleteByNamePreservesValid(st: Store, name: string)
    requires Valid(st)
    ensures Valid(DeleteByName(st, name))
  {
    var r := DeleteByName(st, name);
    if FindByName(st, name).Some? {
      var id := FindByName(st, name).value;
      assert SiteIdsBounded(r);
      assert Referential(r);
      forall l | l in r.lemmas
        ensures r.lemmas[l].frequency == RowCount(r.indices, l) > 0
      {
        RowCountOtherSite(st, id, l);
      }
    }
  }

  /** Dropping the index rows of site `id` keeps the row count of a lemma of
      another site. */
  lemma RowCountOtherSite(st: Store, id: SiteId, l: LemmaId)
    requires Referential(st) && l in st.lemmas && st.lemmas[l].siteId != id
    ensures RowCount(map k | k in st.indices && k.page.siteId != id :: st.indices[k], l) == RowCount(st.indices, l)
  {
    var kept := map k | k in st.indices && k.page.siteId != id :: st.indices[k];
    var before := set k | k in st.indices && k.lemmaId == l;
    var after := set k | k in kept && k.lemmaId == l;
    assert before == after;
  }
}
