/** Properties of sequences of public operations: a full run followed by a
    user stop leaves nothing running, so indexing can be started again. */
module Scenarios {
  import opened Repository
  import opened FullIndex
  import opened Stopping
  import opened SinglePage

  ghost predicate Configured(config: seq<ConfigSite>, name: string)
  {
    exists i :: 0 <= i < |config| && config[i].name == name
  }

  /** Every INDEXING row of a configured site has a tracked snapshot, so a
      stop reaches it. */
  ghost predicate RunningIsTracked(st: Store)
  {
    forall id :: id in st.sites && st.sites[id].status == Indexing && Configured(st.config, st.sites[id].name) ==>
      id in Ids(st.tracked)
  }

  lemma TrackedIdsGrow(a: seq<Site>, b: seq<Site>)
    requires a <= b
    ensures Ids(a) <= Ids(b)
  {
  }

  lemma ParseOneSiteTracksRunning(st: Store, task: Task, now: Time)
    requires Valid(st) && RunningIsTracked(st)
    ensures RunningIsTracked(ParseOneSite(st, task, now))
  {
    var r := ParseOneSite(st, task, now);
    TrackedIdsGrow(st.tracked, r.tracked);
    if !st.cancel && |r.tracked| == |st.tracked| + 1 {
      var last := r.tracked[|st.tracked|];
      assert last.id in Ids(r.tracked);
      forall id | id in r.sites && r.sites[id].status == Indexing && Configured(r.config, r.sites[id].name)
        ensures id in Ids(r.tracked)
      {
        if id != last.id {
          assert id in st.sites && r.sites[id] == st.sites[id];
        }
      }
    }
  }

  lemma {:induction false} RunTasksTracksRunning(st: Store, tasks: seq<Task>, times: seq<Time>)
    requires Valid(st) && RunningIsTracked(st) && |times| == |tasks|
    decreases |tasks|
    ensures Valid(RunTasks(st, tasks, times)) && RunningIsTracked(RunTasks(st, tasks, times))
  {
    if tasks != [] {
      var s1 := ParseOneSite(st, tasks[0], times[0]);
      ParseOneSitePreservesValid(st, tasks[0], times[0]);
      ParseOneSiteTracksRunning(st, tasks[0], times[0]);
      RunTasksTracksRunning(s1, tasks[1..], times[1..]);
    }
  }

  /** Start, run the submitted tasks, stop: the stop succeeds, and afterwards
      no configured site is INDEXING, so a new `startIndexing` is accepted. */
  lemma StopThenRestart(st: Store, times: seq<Time>, stopTimes: seq<Time>)
    requires Valid(st) && |st.config| > 0
    requires StartIndexing(st).outcome == Ok
    requires |times| == |st.config|
    requires |stopTimes| == |st.tracked| + |st.config|
    ensures var s := StartIndexing(st);
      var r := RunTasks(s.store, s.tasks, times);
      && |r.tracked| == |stopTimes|
      && var stop := StopIndexing(r, stopTimes);
      && stop.outcome == Ok
      && StartIndexing(stop.store).outcome == Ok
  {
    var s := StartIndexing(st);
    var r := RunTasks(s.store, s.tasks, times);
    StartIndexingRunsEverySite(st, times);
    assert r.tracked[|st.tracked|].status == Indexing;
    assert AnyTrackedRunning(r.tracked);
    RunTasksTracksRunning(s.store, s.tasks, times);
    StopLeavesNothingRunning(r, stopTimes);
  }

  /** When every running configured site is tracked, a successful stop leaves
      no configured site INDEXING. */
  lemma StopLeavesNothingRunning(st: Store, times: seq<Time>)
    requires RunningIsTracked(st) && AnyTrackedRunning(st.tracked) && |times| == |st.tracked|
    ensures !AnyConfiguredRunning(StopIndexing(st, times).store.sites, StopIndexing(st, times).store.config)
  {
    var stop := StopIndexing(st, times).store;
    StopIndexingTwice(st, times, times);
    forall i | 0 <= i < |stop.config|
      ensures !IsRunning(stop.sites, stop.config[i].name)
    {
      forall id | id in stop.sites && stop.sites[id].name == stop.config[i].name
        ensures stop.sites[id].status != Indexing
      {
        if id !in Ids(st.tracked) {
          assert stop.sites[id] == st.sites[id];
          assert Configured(st.config, st.sites[id].name);
        }
      }
    }
  }

  /** A failed `savePage` leaves the page's site row INDEXING but untracked:
      afterwards `startIndexing` refuses because indexing has started, while
      `stopIndexing` reports that indexing is not running. */
  lemma FailedPageBlocksStart(st: Store, url: string, origin: string, started: Time, finished: Time, times: seq<Time>)
    requires origin <= url && !AnyTrackedRunning(st.tracked) && |times| == |st.tracked|
    requires exists j :: 0 <= j < |st.config| && st.config[j].url == origin
    ensures var s := IndexPage(st, url, origin, started, finished, None).store;
      && IndexPage(st, url, origin, started, finished, None).outcome == Err(PageOutsideConfiguredSites)
      && StartIndexing(s).outcome == Err(IndexingHasAlreadyStarted)
      && StopIndexing(s, times).outcome == Err(IndexingIsNotRunning)
  {
    var st1 := st.(cancel := false);
    var i := FirstMatch(st.config, origin).value;
    var name := st.config[i].name;
    var s := RefreshPage(st1, name, url, origin, started, finished, None);
    var id := TargetId(st1, name);
    assert s.sites[id].name == name && s.sites[id].status == Indexing;
    assert IsRunning(s.sites, s.config[i].name);
  }
}
