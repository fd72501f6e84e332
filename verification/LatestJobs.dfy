/**
 api-server/api/applications/get_applications_handler.go: the latest job of each application. A goroutine per
 application looks through its jobs and stores the latest in a shared map.
 */
module LatestJobs {
  import opened FanIn
  import opened ApplicationQueries
  import opened Sorting
  import opened Options

  datatype Job = Job(started: Option<int>, details: string)

  /** Job k started last; of several that started together it is the first listed. Jobs not started do not matter. */
  ghost predicate IsLatest(jobs: seq<Job>, k: nat) {
    && k < |jobs| && jobs[k].started.Some?
    && (forall j :: 0 <= j < |jobs| && jobs[j].started.Some? ==> jobs[j].started.value <= jobs[k].started.value)
    && (forall j :: 0 <= j < k && jobs[j].started.Some? ==> jobs[j].started.value < jobs[k].started.value)
  }

  method LatestJob(jobs: seq<Job>) returns (latest: Option<Job>)
    ensures latest.None? <==> forall k :: 0 <= k < |jobs| ==> jobs[k].started.None?
    ensures latest.Some? ==> exists k: nat :: IsLatest(jobs, k) && latest == Some(jobs[k])
    ensures latest.Some? ==> latest.value.started.Some? && latest.value in jobs
    ensures latest.Some? ==> forall job :: job in jobs && job.started.Some? ==> job.started.value <= latest.value.started.value
  {
    latest := None;
    ghost var at := 0;
    for i := 0 to |jobs|
      invariant latest.None? <==> forall k :: 0 <= k < i ==> jobs[k].started.None?
      invariant latest.Some? ==> at < i && IsLatest(jobs[..i], at) && latest == Some(jobs[at])
    {
      if jobs[i].started.None? {
        continue;
      }
      if latest.None? || jobs[i].started.value > latest.value.started.value {
        latest, at := Some(jobs[i]), i;
      }
    }
    assert jobs[..|jobs|] == jobs;
  }

  /** An application and the answer to the query for its jobs. */
  datatype Application = Application(name: string, jobs: Option<seq<Job>>)

  predicate HasStarted(jobs: seq<Job>) {
    exists k :: 0 <= k < |jobs| && jobs[k].started.Some?
  }

  /** What the goroutine of an application may store and return. */
  ghost predicate Stores(app: Application, task: Task<(string, Job)>) {
    && (task.fails <==> app.jobs.None?)
    && (task.sends.Some? <==> app.jobs.Some? && HasStarted(app.jobs.value))
    && (task.sends.Some? ==> task.sends.value.0 == app.name && IsLatestOf(app, task.sends.value.1))
  }

  ghost predicate IsLatestOf(app: Application, job: Job) {
    app.jobs.Some? && exists k: nat :: IsLatest(app.jobs.value, k) && app.jobs.value[k] == job
  }

  lemma {:induction false} ValuesAreSent<V>(tasks: seq<Task<V>>, x: V)
    ensures x in Values(tasks) <==> exists i :: 0 <= i < |tasks| && tasks[i].sends == Some(x)
  {
    if tasks != [] {
      var n := |tasks| - 1;
      ValuesAreSent(tasks[..n], x);
      if i :| 0 <= i < |tasks| && tasks[i].sends == Some(x) && i < n { assert tasks[..n][i].sends == Some(x); }
      if i :| 0 <= i < n && tasks[..n][i].sends == Some(x) { assert tasks[i].sends == Some(x); }
    }
  }

  /** An application named in what was stored has the stored job as its latest. */
  lemma StoredIsLatest(apps: seq<Application>, tasks: seq<Task<(string, Job)>>, stored: seq<(string, Job)>, i: nat, job: Job)
    requires forall j, k :: 0 <= j < k < |apps| ==> apps[j].name != apps[k].name
    requires |tasks| == |apps| && forall j :: 0 <= j < |apps| ==> Stores(apps[j], tasks[j])
    requires multiset(stored) == multiset(Values(tasks)) && i < |apps| && (apps[i].name, job) in stored
    ensures IsLatestOf(apps[i], job)
  {
    SameMembers(stored, Values(tasks), (apps[i].name, job));
    ValuesAreSent(tasks, (apps[i].name, job));
    var j :| 0 <= j < |tasks| && tasks[j].sends == Some((apps[i].name, job));
    assert Stores(apps[j], tasks[j]) && apps[j].name == apps[i].name;
    assert j == i;
  }

  /** An application with a started job is named in what was stored. */
  lemma LatestIsStored(apps: seq<Application>, tasks: seq<Task<(string, Job)>>, stored: seq<(string, Job)>, i: nat)
    requires |tasks| == |apps| && forall j :: 0 <= j < |apps| ==> Stores(apps[j], tasks[j])
    requires multiset(stored) == multiset(Values(tasks)) && i < |apps| && apps[i].jobs.Some? && HasStarted(apps[i].jobs.value)
    ensures exists k :: 0 <= k < |stored| && stored[k].0 == apps[i].name
  {
    assert Stores(apps[i], tasks[i]);
    var x := tasks[i].sends.value;
    ValuesAreSent(tasks, x);
    SameMembers(stored, Values(tasks), x);
  }

  /**
   getLatestJobPerApplication: whatever the order in which the goroutines store, each application that has a started
   job gets its own latest one, and no other application is in the map.
   */
  method LatestJobPerApplication(apps: seq<Application>) returns (latest: map<string, Job>, failed: bool)
    requires forall i, j :: 0 <= i < j < |apps| ==> apps[i].name != apps[j].name
    ensures failed <==> exists i :: 0 <= i < |apps| && apps[i].jobs.None?
    ensures failed ==> latest == map[]
    ensures !failed ==> forall i :: 0 <= i < |apps| ==> (apps[i].name in latest <==> HasStarted(apps[i].jobs.value))
    ensures !failed ==> forall i :: 0 <= i < |apps| && apps[i].name in latest ==> IsLatestOf(apps[i], latest[apps[i].name])
    ensures forall n :: n in latest ==> exists i :: 0 <= i < |apps| && apps[i].name == n
  {
    hide IsLatestOf, HasStarted, Values;
    var tasks: seq<Task<(string, Job)>> := [];
    for i := 0 to |apps|
      invariant |tasks| == i && forall j :: 0 <= j < i ==> Stores(apps[j], tasks[j])
    {
      var task := LookForLatest(apps[i]);
      tasks := tasks + [task];
    }
    var stored;
    stored, failed := Run(tasks, 25);
    latest := map[];
    assert forall i :: 0 <= i < |apps| ==> Stores(apps[i], tasks[i]);
    if failed {
      return;
    }
    var summaries := CollectByName(stored);
    for n := 0 to |apps|
      invariant forall x :: x in latest <==> x in summaries && exists i :: 0 <= i < n && apps[i].name == x
      invariant forall x :: x in latest ==> latest[x] == summaries[x]
    {
      if apps[n].name in summaries {
        latest := latest[apps[n].name := summaries[apps[n].name]];
      }
    }
    forall i | 0 <= i < |apps|
      ensures apps[i].name in latest <==> HasStarted(apps[i].jobs.value)
      ensures apps[i].name in latest ==> IsLatestOf(apps[i], latest[apps[i].name])
    {
      if apps[i].name in summaries {
        StoredIsLatest(apps, tasks, stored, i, summaries[apps[i].name]);
        LatestHasStarted(apps[i], summaries[apps[i].name]);
      }
      if HasStarted(apps[i].jobs.value) { LatestIsStored(apps, tasks, stored, i); }
    }
  }

  lemma LatestHasStarted(app: Application, job: Job)
    requires IsLatestOf(app, job)
    ensures HasStarted(app.jobs.value)
  {
    var k: nat :| IsLatest(app.jobs.value, k);
    assert app.jobs.value[k].started.Some?;
  }

  /** The body of a goroutine. */
  method LookForLatest(app: Application) returns (task: Task<(string, Job)>)
    ensures Stores(app, task)
  {
    if app.jobs.None? {
      return Task(None, true);
    }
    var latest := LatestJob(app.jobs.value);
    task := Task(if latest.None? then None else Some((app.name, latest.value)), false);
  }
}
