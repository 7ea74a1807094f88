/** Full (re)indexing: `startIndexing` checks that no configured site is being
    indexed, resets the cancel flag and submits one task per configured site;
    each task runs the per-site prologue `parseOneSite`. Submitted tasks are
    run one after another, in submission order. */
module FullIndex {
  import opened Repository
  import opened Consistency

  /** A submitted `parseOneSite(url, name, isCreate)` call. */
  datatype Task = Task(url: string, name: string, isCreate: bool)

  datatype Started = Started(outcome: Outcome, store: Store, tasks: seq<Task>)

  /** Some configured name has a site row in status INDEXING. */
  ghost predicate AnyConfiguredRunning(sites: map<SiteId, Site>, config: seq<ConfigSite>)
  {
    exists i :: 0 <= i < |config| && IsRunning(sites, config[i].name)
  }

  /** The repository count of INDEXING rows, summed over the configured names. */
  function IndexingCount(sites: map<SiteId, Site>, config: seq<ConfigSite>): (n: nat)
    ensures n > 0 <==> AnyConfiguredRunning(sites, config)
  {
    if config == [] then 0
    else
      var rest := IndexingCount(sites, config[1..]);
      assert AnyConfiguredRunning(sites, config[1..]) ==> AnyConfiguredRunning(sites, config) by {
        if AnyConfiguredRunning(sites, config[1..]) {
          var i :| 0 <= i < |config[1..]| && IsRunning(sites, config[1..][i].name);
          assert IsRunning(sites, config[i + 1].name);
        }
      }
      assert AnyConfiguredRunning(sites, config) ==>
        IsRunning(sites, config[0].name) || AnyConfiguredRunning(sites, config[1..]) by {
        if AnyConfiguredRunning(sites, config) && !IsRunning(sites, config[0].name) {
          var i :| 0 <= i < |config| && IsRunning(sites, config[i].name);
          assert config[1..][i - 1] == config[i];
        }
      }
      CountByNameAndStatus(sites, config[0].name, Indexing) + rest
  }

  /** The submission loop: for each configured site in order, decide whether
      its row must be created and, unless the cancel flag is set, submit it. */
  function Submissions(st: Store, config: seq<ConfigSite>): (tasks: seq<Task>)
    ensures st.cancel ==> tasks == []
    ensures !st.cancel ==> |tasks| == |config|
    ensures !st.cancel ==> forall i :: 0 <= i < |config| ==>
      tasks[i] == Task(config[i].url, config[i].name, !HasName(st.sites, config[i].name))
  {
    if config == [] || st.cancel then []
    else [Task(config[0].url, config[0].name, !HasName(st.sites, config[0].name))] + Submissions(st, config[1..])
  }

  /** `startIndexing`. */
  function StartIndexing(st: Store): (r: Started)
    ensures r.store == st.(cancel := false)
    ensures r.outcome == Err(IndexingHasAlreadyStarted) <==> AnyConfiguredRunning(st.sites, st.config)
    ensures r.outcome.Ok? || r.outcome == Err(IndexingHasAlreadyStarted)
    ensures r.outcome.Err? ==> r.tasks == []
    ensures r.outcome.Ok? ==> |r.tasks| == |st.config|
    ensures r.outcome.Ok? ==> forall i :: 0 <= i < |st.config| ==>
      r.tasks[i] == Task(st.config[i].url, st.config[i].name, !HasName(st.sites, st.config[i].name))
  {
    var st1 := st.(cancel := false);
    if IndexingCount(st1.sites, st1.config) > 0 then Started(Err(IndexingHasAlreadyStarted), st1, [])
    else Started(Ok, st1, Submissions(st1, st1.config))
  }

  /** Every row of `a` is still in `b` under the same name, and a row that was
      INDEXING in `a` is still INDEXING in `b`. */
  ghost predicate SitesGrow(a: map<SiteId, Site>, b: map<SiteId, Site>)
  {
    forall id :: id in a ==> id in b && b[id].name == a[id].name && (a[id].status == Indexing ==> b[id].status == Indexing)
  }

  /** `parseOneSite` up to the hand-over to the crawler: a new site row is
      created, or the existing row is set INDEXING and its site's lemmas and
      pages are deleted; either way the saved row joins the tracked list. */
  function ParseOneSite(st: Store, task: Task, now: Time): (r: Store)
    ensures st.cancel ==> r == st
    ensures !task.isCreate && FindByName(st, task.name).None? ==> r == st
    ensures r.config == st.config && r.cancel == st.cancel
    ensures st.tracked <= r.tracked && |r.tracked| <= |st.tracked| + 1
    ensures !st.cancel && task.isCreate ==>
      && r.nextSiteId == st.nextSiteId + 1
      && r.sites.Keys == st.sites.Keys + {st.nextSiteId}
      && r.sites[st.nextSiteId] == Site(st.nextSiteId, Indexing, now, "", task.url, task.name)
      && (forall id :: id in st.sites && id != st.nextSiteId ==> r.sites[id] == st.sites[id])
      && r.tracked == st.tracked + [r.sites[st.nextSiteId]]
      && r.pages == st.pages && r.lemmas == st.lemmas && r.indices == st.indices
    ensures !st.cancel && !task.isCreate && FindByName(st, task.name).Some? ==>
      var id := FindByName(st, task.name).value;
      && r.nextSiteId == st.nextSiteId
      && r.sites == st.sites[id := st.sites[id].(status := Indexing)]
      && r.tracked == st.tracked + [r.sites[id]]
      && (forall pk :: pk in r.pages <==> pk in st.pages && pk.siteId != id)
      && (forall l :: l in r.lemmas <==> l in st.lemmas && st.lemmas[l].siteId != id)
      && (forall k :: k in r.indices <==> k in st.indices && k.page.siteId != id)
      && (forall pk :: pk in r.pages ==> r.pages[pk] == st.pages[pk])
      && (forall l :: l in r.lemmas ==> r.lemmas[l] == st.lemmas[l])
      && (forall k :: k in r.indices ==> r.indices[k] == st.indices[k])
  {
    if st.cancel then st
    else if task.isCreate then
      var site := Site(st.nextSiteId, Indexing, now, "", task.url, task.name);
      st.(sites := st.sites[site.id := site], nextSiteId := st.nextSiteId + 1, tracked := st.tracked + [site])
    else
      match FindByName(st, task.name)
      case None => st
      case Some(id) =>
        var site := st.sites[id].(status := Indexing);
        var st1 := DeleteByName(st, task.name);
        st1.(sites := st1.sites[id := site], tracked := st1.tracked + [site])
  }

  /** Runs the submitted tasks one after another; `times[i]` is the clock
      reading task `i` takes. */
  function RunTasks(st: Store, tasks: seq<Task>, times: seq<Time>): (r: Store)
    requires |times| == |tasks|
    decreases |tasks|
    ensures r.config == st.config && r.cancel == st.cancel
    ensures st.cancel ==> r == st
    ensures st.tracked <= r.tracked && |r.tracked| <= |st.tracked| + |tasks|
  {
    if tasks == [] then st
    else RunTasks(ParseOneSite(st, tasks[0], times[0]), tasks[1..], times[1..])
  }

  /** Running any list of tasks keeps a well-formed store well-formed. */
  lemma {:induction false} RunTasksPreservesValid(st: Store, tasks: seq<Task>, times: seq<Time>)
    requires Valid(st) && |times| == |tasks|
    decreases |tasks|
    ensures Valid(RunTasks(st, tasks, times))
  {
    if tasks != [] {
      ParseOneSitePreservesValid(st, tasks[0], times[0]);
      RunTasksPreservesValid(ParseOneSite(st, tasks[0], times[0]), tasks[1..], times[1..]);
    }
  }

  /** Every task keeps a well-formed store well-formed. */
  lemma ParseOneSitePreservesValid(st: Store, task: Task, now: Time)
    requires Valid(st)
    ensures Valid(ParseOneSite(st, task, now))
  {
    if !st.cancel && !task.isCreate && FindByName(st, task.name).Some? {
      DeleteByNamePreservesValid(st, task.name);
    }
  }

  /** One task keeps the store well-formed, keeps every existing row with its
      name and INDEXING status, and leaves its own site INDEXING and tracked. */
  lemma ParseOneSiteProgress(st: Store, task: Task, now: Time)
    requires Valid(st) && !st.cancel
    requires task.isCreate || HasName(st.sites, task.name)
    ensures var r := ParseOneSite(st, task, now);
      && Valid(r)
      && SitesGrow(st.sites, r.sites)
      && IsRunning(r.sites, task.name)
      && |r.tracked| == |st.tracked| + 1
      && r.tracked[|st.tracked|].status == Indexing && r.tracked[|st.tracked|].name == task.name
  {
    var r := ParseOneSite(st, task, now);
    ParseOneSitePreservesValid(st, task, now);
    if task.isCreate {
      assert r.sites[st.nextSiteId].name == task.name;
    } else {
      var id := FindByName(st, task.name).value;
      assert r.sites[id].name == task.name;
    }
  }

  /** Running the submitted tasks with the cancel flag clear leaves the site of
      every task INDEXING in the repository and appends one INDEXING snapshot
      per task to the tracked list. */
  lemma {:induction false} RunTasksProgress(st: Store, tasks: seq<Task>, times: seq<Time>)
    requires Valid(st) && !st.cancel && |times| == |tasks|
    decreases |tasks|
    requires forall i :: 0 <= i < |tasks| ==> tasks[i].isCreate || HasName(st.sites, tasks[i].name)
    ensures var r := RunTasks(st, tasks, times);
      && Valid(r)
      && SitesGrow(st.sites, r.sites)
      && (forall i :: 0 <= i < |tasks| ==> IsRunning(r.sites, tasks[i].name))
      && |r.tracked| == |st.tracked| + |tasks|
      && (forall i :: |st.tracked| <= i < |r.tracked| ==> r.tracked[i].status == Indexing)
  {
    if tasks != [] {
      var s1 := ParseOneSite(st, tasks[0], times[0]);
      var rest := tasks[1..];
      ParseOneSiteProgress(st, tasks[0], times[0]);
      forall i | 0 <= i < |rest|
        ensures rest[i].isCreate || HasName(s1.sites, rest[i].name)
      {
        assert rest[i] == tasks[i + 1];
        if !rest[i].isCreate {
          NamesSurvive(st.sites, s1.sites, rest[i].name);
        }
      }
      RunTasksProgress(s1, rest, times[1..]);
      var r := RunTasks(s1, rest, times[1..]);
      assert r == RunTasks(st, tasks, times);
      SitesGrowTransitive(st.sites, s1.sites, r.sites);
      RunningSurvives(s1.sites, r.sites, tasks[0].name);
      RunningForAll(r.sites, tasks);
      RunningTail(st.tracked, s1.tracked, r.tracked);
    }
  }

  /** The first task's site and those of the rest are all INDEXING. */
  lemma RunningForAll(sites: map<SiteId, Site>, tasks: seq<Task>)
    requires tasks != [] && IsRunning(sites, tasks[0].name)
    requires forall i :: 0 <= i < |tasks[1..]| ==> IsRunning(sites, tasks[1..][i].name)
    ensures forall i :: 0 <= i < |tasks| ==> IsRunning(sites, tasks[i].name)
  {
    forall i | 1 <= i < |tasks|
      ensures IsRunning(sites, tasks[i].name)
    {
      assert tasks[1..][i - 1] == tasks[i];
    }
  }

  /** One INDEXING snapshot appended, then only INDEXING snapshots: every
      snapshot after the original list is INDEXING. */
  lemma RunningTail(a: seq<Site>, b: seq<Site>, c: seq<Site>)
    requires a <= b && |b| == |a| + 1 && b[|a|].status == Indexing
    requires b <= c && forall i :: |b| <= i < |c| ==> c[i].status == Indexing
    ensures forall i :: |a| <= i < |c| ==> c[i].status == Indexing
  {
    assert c[|a|] == b[|a|];
  }

  lemma NamesSurvive(a: map<SiteId, Site>, b: map<SiteId, Site>, name: string)
    requires SitesGrow(a, b) && HasName(a, name)
    ensures HasName(b, name)
  {
    var id :| id in a && a[id].name == name;
    assert id in b && b[id].name == name;
  }

  lemma RunningSurvives(a: map<SiteId, Site>, b: map<SiteId, Site>, name: string)
    requires SitesGrow(a, b) && IsRunning(a, name)
    ensures IsRunning(b, name)
  {
    var id :| id in a && a[id].name == name && a[id].status == Indexing;
    assert id in b && b[id].name == name && b[id].status == Indexing;
  }

  lemma SitesGrowTransitive(a: map<SiteId, Site>, b: map<SiteId, Site>, c: map<SiteId, Site>)
    requires SitesGrow(a, b) && SitesGrow(b, c)
    ensures SitesGrow(a, c)
  {
  }

  /** A full run reindexes every configured site: after a successful
      `startIndexing` and the run of the tasks it submitted, every configured
      site has an INDEXING row and one tracked snapshot. */
  lemma StartIndexingRunsEverySite(st: Store, times: seq<Time>)
    requires Valid(st)
    requires StartIndexing(st).outcome == Ok
    requires |times| == |st.config|
    ensures var s := StartIndexing(st); var r := RunTasks(s.store, s.tasks, times);
      && Valid(r)
      && (forall i :: 0 <= i < |st.config| ==> IsRunning(r.sites, st.config[i].name))
      && |r.tracked| == |st.tracked| + |st.config|
      && (forall i :: |st.tracked| <= i < |r.tracked| ==> r.tracked[i].status == Indexing)
  {
    var s := StartIndexing(st);
    assert Valid(s.store);
    forall i | 0 <= i < |s.tasks|
      ensures s.tasks[i].isCreate || HasName(s.store.sites, s.tasks[i].name)
    {
    }
    RunTasksProgress(s.store, s.tasks, times);
    var r := RunTasks(s.store, s.tasks, times);
    forall i | 0 <= i < |st.config|
      ensures IsRunning(r.sites, st.config[i].name)
    {
      assert s.tasks[i].name == st.config[i].name;
    }
  }

  /** No double submission: once a run has started and its tasks have run,
      a second `startIndexing` reports that indexing has already started and
      submits nothing. */
  lemma StartIndexingTwice(st: Store, times: seq<Time>)
    requires Valid(st) && |st.config| > 0
    requires StartIndexing(st).outcome == Ok
    requires |times| == |st.config|
    ensures var s := StartIndexing(st); var r := RunTasks(s.store, s.tasks, times);
      StartIndexing(r) == Started(Err(IndexingHasAlreadyStarted), r, [])
  {
    var s := StartIndexing(st);
    var r := RunTasks(s.store, s.tasks, times);
    StartIndexingRunsEverySite(st, times);
    assert IsRunning(r.sites, r.config[0].name);
  }
}
