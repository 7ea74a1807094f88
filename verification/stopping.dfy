/** `stopIndexing`: decided on the service's in-memory tracked list rather
    than on the repository. Every tracked snapshot still INDEXING becomes
    FAILED with the stopped-by-user message, and the whole list is written
    back to the site table. */
module Stopping {
  import opened Repository

  /** The ids of a list of site snapshots. */
  function Ids(rows: seq<Site>): set<SiteId>
  {
    set i | 0 <= i < |rows| :: rows[i].id
  }

  /** No later snapshot in `rows` carries the id of `rows[i]`. */
  ghost predicate LastWithId(rows: seq<Site>, i: nat)
    requires i < |rows|
  {
    forall j :: i < j < |rows| ==> rows[j].id != rows[i].id
  }

  /** `saveAll`: the snapshots are saved in list order, so for an id that
      occurs several times the last snapshot wins. */
  function SaveAll(sites: map<SiteId, Site>, rows: seq<Site>): (r: map<SiteId, Site>)
    decreases |rows|
    ensures r.Keys == sites.Keys + Ids(rows)
    ensures forall id :: id in sites && id !in Ids(rows) ==> r[id] == sites[id]
    ensures forall i :: 0 <= i < |rows| && LastWithId(rows, i) ==> r[rows[i].id] == rows[i]
  {
    if rows == [] then sites
    else
      var r := SaveAll(sites[rows[0].id := rows[0]], rows[1..]);
      IdsCons(rows);
      r
  }

  /** How the ids and last positions of a list relate to those of its tail. */
  lemma IdsCons(rows: seq<Site>)
    requires rows != []
    ensures Ids(rows) == {rows[0].id} + Ids(rows[1..])
    ensures forall i :: 0 < i < |rows| && LastWithId(rows, i) ==> LastWithId(rows[1..], i - 1)
    ensures LastWithId(rows, 0) ==> rows[0].id !in Ids(rows[1..])
  {
    forall x | x in Ids(rows) ensures x in {rows[0].id} + Ids(rows[1..]) {
      var i :| 0 <= i < |rows| && rows[i].id == x;
      if i > 0 { assert rows[1..][i - 1] == rows[i]; }
    }
    if LastWithId(rows, 0) {
      forall j | 0 <= j < |rows[1..]| ensures rows[1..][j].id != rows[0].id {
        assert rows[1..][j] == rows[j + 1];
      }
    }
  }

  /** The snapshot a user-requested stop leaves: INDEXING becomes FAILED with
      a fresh status time and the stopped-by-user message. */
  function MarkStopped(s: Site, now: Time): Site
  {
    if s.status == Indexing then s.(status := Failed, statusTime := now, lastError := IndexingStoppedByUser)
    else s
  }

  /** Every snapshot marked stopped with its own clock reading. */
  function MarkAll(rows: seq<Site>, times: seq<Time>): (r: seq<Site>)
    requires |times| == |rows|
    ensures |r| == |rows| && forall i :: 0 <= i < |rows| ==> r[i] == MarkStopped(rows[i], times[i])
  {
    seq(|rows|, i requires 0 <= i < |rows| => MarkStopped(rows[i], times[i]))
  }

  predicate AnyTrackedRunning(tracked: seq<Site>)
  {
    exists i :: 0 <= i < |tracked| && tracked[i].status == Indexing
  }

  /** `stopIndexing`: the stop signal is raised through the crawler, which
      sets the shared cancel flag. `times[i]` is the clock reading taken when
      the `i`-th tracked snapshot is marked stopped. */
  function StopIndexing(st: Store, times: seq<Time>): (r: Step)
    requires |times| == |st.tracked|
    ensures !AnyTrackedRunning(st.tracked) ==> r == Step(Err(IndexingIsNotRunning), st)
    ensures AnyTrackedRunning(st.tracked) ==> r.outcome == Ok && r.store.cancel
    ensures r.store == st.(sites := r.store.sites, tracked := r.store.tracked, cancel := r.store.cancel)
    ensures |r.store.tracked| == |st.tracked|
    ensures forall i :: 0 <= i < |st.tracked| && st.tracked[i].status == Indexing ==>
      r.store.tracked[i] == st.tracked[i].(status := Failed, statusTime := times[i], lastError := IndexingStoppedByUser)
    ensures forall i :: 0 <= i < |st.tracked| && st.tracked[i].status != Indexing ==>
      r.store.tracked[i] == st.tracked[i]
    ensures r.outcome == Ok ==> r.store.sites.Keys == st.sites.Keys + Ids(st.tracked)
    ensures forall id :: id in st.sites && id !in Ids(st.tracked) ==> r.store.sites[id] == st.sites[id]
    ensures r.outcome == Ok ==> forall i :: 0 <= i < |st.tracked| && LastWithId(st.tracked, i) ==>
      r.store.sites[st.tracked[i].id] == r.store.tracked[i]
  {
    if !AnyTrackedRunning(st.tracked) then Step(Err(IndexingIsNotRunning), st)
    else
      var tracked := MarkAll(st.tracked, times);
      SameIds(st.tracked, tracked);
      Step(Ok, st.(cancel := true, tracked := tracked, sites := SaveAll(st.sites, tracked)))
  }

  /** Two snapshot lists with the same ids position by position have the
      same id set and the same last positions. */
  lemma SameIds(a: seq<Site>, b: seq<Site>)
    requires |a| == |b| && forall i :: 0 <= i < |a| ==> a[i].id == b[i].id
    ensures Ids(a) == Ids(b)
    ensures forall i :: 0 <= i < |a| && LastWithId(a, i) ==> LastWithId(b, i)
  {
    forall x | x in Ids(a) ensures x in Ids(b) {
      var i :| 0 <= i < |a| && a[i].id == x;
      assert b[i].id == x;
    }
  }

  /** After a successful stop no tracked snapshot is INDEXING and no site row
      that some tracked snapshot names is INDEXING, so a second stop reports
      that indexing is not running and changes nothing. */
  lemma StopIndexingTwice(st: Store, times: seq<Time>, later: seq<Time>)
    requires AnyTrackedRunning(st.tracked)
    requires |times| == |st.tracked| && |later| == |st.tracked|
    ensures var s := StopIndexing(st, times).store;
      && (forall id :: id in Ids(st.tracked) ==> s.sites[id].status != Indexing)
      && StopIndexing(s, later) == Step(Err(IndexingIsNotRunning), s)
  {
    var s := StopIndexing(st, times).store;
    forall id | id in Ids(st.tracked)
      ensures s.sites[id].status != Indexing
    {
      var i := LastIndexWithId(st.tracked, id);
      assert s.sites[id] == s.tracked[i];
    }
  }

  /** The position of the last snapshot carrying `id`. */
  lemma LastIndexWithId(rows: seq<Site>, id: SiteId) returns (i: nat)
    requires id in Ids(rows)
    ensures i < |rows| && rows[i].id == id && LastWithId(rows, i)
  {
    var k :| 0 <= k < |rows| && rows[k].id == id;
    i := k;
    while exists j :: i < j < |rows| && rows[j].id == id
      invariant i < |rows| && rows[i].id == id
      decreases |rows| - i
    {
      var j :| i < j < |rows| && rows[j].id == id;
      i := j;
    }
  }

  /** A stop keeps a well-formed store well-formed: it only rewrites site rows
      with snapshots of ids the repository handed out. */
  lemma StopIndexingPreservesValid(st: Store, times: seq<Time>)
    requires Valid(st) && |times| == |st.tracked|
    ensures Valid(StopIndexing(st, times).store)
  {
    var r := StopIndexing(st, times).store;
    forall id | id in r.sites
      ensures id < r.nextSiteId && r.sites[id].id == id
    {
      if id in Ids(st.tracked) && StopIndexing(st, times).outcome == Ok {
        var i := LastIndexWithId(st.tracked, id);
        assert r.sites[id] == r.tracked[i];
      }
    }
  }
}
