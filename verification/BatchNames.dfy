/**
 The names of batches and their jobs: how the job-scheduler generates them, how the api-server prints a job as
 <batch>-<job>, and how both parse that again.
 */
module BatchNames {
  import opened Options
  import opened Search

  /** strings.Split(s, "-") */
  function Split(s: string): (parts: seq<string>)
    ensures parts != [] && forall p :: p in parts ==> '-' !in p
    decreases |s|
  {
    var n := FirstIndex(s, Is('-'));
    if n == |s| then assert s[..n] == s; [s] else [s[..n]] + Split(s[n+1..])
  }

  /** strings.Join(parts, "-") */
  function Join(parts: seq<string>): string {
    if parts == [] then ""
    else if |parts| == 1 then parts[0]
    else parts[0] + ['-'] + Join(parts[1..])
  }

  /** Both parsers: everything before the last dash is the batch, what follows it the job. */
  function ParseScheduledJobName(name: string): Option<(string, string)> {
    var parts := Split(name);
    if |parts| < 2 then None
    else Some((Join(parts[..|parts|-1]), parts[|parts|-1]))
  }

  function ScheduledJobName(batch: string, job: string): string {
    batch + ['-'] + job
  }

  lemma SplitAtDash(a: string, rest: string)
    requires '-' !in a
    ensures Split(a + ['-'] + rest) == [a] + Split(rest) && Split(a) == [a]
  {
    var s := a + ['-'] + rest;
    FirstIndexOf(a, '-', rest, Is('-'));
    FirstIndexOfNone(a, Is('-'));
    hide FirstIndex;
    assert s[..|a|] == a && s[|a|+1..] == rest;
  }

  lemma {:induction false} SplitOfPrinted(batch: string, job: string)
    requires '-' !in job
    ensures Split(ScheduledJobName(batch, job)) == Split(batch) + [job]
    decreases |batch|
  {
    hide Split;
    SplitAtDash(job, "");
    var n := FirstIndex(batch, Is('-'));
    var first := batch[..n];
    if n == |batch| {
      assert first == batch;
      SplitAtDash(batch, job);
    } else {
      hide FirstIndex;
      var rest := batch[n+1..];
      assert batch == first + ['-'] + rest;
      assert ScheduledJobName(batch, job) == first + ['-'] + ScheduledJobName(rest, job);
      SplitAtDash(first, ScheduledJobName(rest, job));
      SplitAtDash(first, rest);
      SplitOfPrinted(rest, job);
    }
  }

  lemma {:induction false} JoinOfSplit(s: string)
    ensures Join(Split(s)) == s
    decreases |s|
  {
    hide FirstIndex;
    var n := FirstIndex(s, Is('-'));
    if n < |s| {
      var rest := s[n+1..];
      JoinOfSplit(rest);
      assert Split(s) == [s[..n]] + Split(rest);
      JoinOfCons(s[..n], Split(rest));
      assert s == s[..n] + ['-'] + rest;
    }
  }

  lemma JoinOfCons(first: string, parts: seq<string>)
    requires parts != []
    ensures Join([first] + parts) == first + ['-'] + Join(parts)
  {
    assert ([first] + parts)[1..] == parts;
  }

  lemma {:induction false} JoinLast(parts: seq<string>)
    requires |parts| >= 2
    ensures Join(parts) == ScheduledJobName(Join(parts[..|parts|-1]), parts[|parts|-1])
  {
    var init := parts[..|parts|-1];
    if |parts| == 2 {
      assert parts[1..] == [parts[1]] && init == [parts[0]];
    } else {
      JoinLast(parts[1..]);
      assert parts[1..][..|parts|-2] == init[1..];
    }
  }

  /** Every accepted name prints to itself again, its job part has no dash, and the names accepted are those with a dash. */
  lemma ParsedNameReprints(name: string)
    ensures var r := ParseScheduledJobName(name);
            && (r.Some? <==> '-' in name)
            && (r.Some? ==> ScheduledJobName(r.value.0, r.value.1) == name && '-' !in r.value.1)
  {
    var parts := Split(name);
    JoinOfSplit(name);
    if |parts| >= 2 {
      JoinLast(parts);
      assert parts[|parts|-1] in parts;
    } else {
      assert parts == [name];
      assert name in parts;
    }
  }

  /** Round trip: for any batch name, a printed name parses to its parts exactly if the job name has no dash. */
  lemma PrintedNameParsesIff(batch: string, job: string)
    ensures ParseScheduledJobName(ScheduledJobName(batch, job)) == Some((batch, job)) <==> '-' !in job
    ensures ScheduledJobName(batch, job) == batch + "-" + job
  {
    if '-' !in job {
      SplitOfPrinted(batch, job);
      JoinOfSplit(batch);
      var parts := Split(batch) + [job];
      assert parts[..|parts|-1] == Split(batch);
    } else {
      ParsedNameReprints(ScheduledJobName(batch, job));
    }
  }

  // ---- Finding a job by its printed name ----

  /** findJobInRadixBatch: the first job with the name. */
  function FindJob(jobs: seq<string>, name: string): (r: Option<nat>)
    ensures r.Some? ==> r.value < |jobs| && jobs[r.value] == name && forall j :: 0 <= j < r.value ==> jobs[j] != name
    ensures r.None? ==> forall j :: 0 <= j < |jobs| ==> jobs[j] != name
  {
    var n := FirstIndex(jobs, Is(name));
    if n < |jobs| then Some(n) else None
  }

  /** getBatchJob: the batch and the position of the job that a scheduled job name refers to. */
  function GetBatchJob(batches: map<string, seq<string>>, name: string): Option<(string, nat)> {
    var parsed := ParseScheduledJobName(name);
    if parsed.None? || parsed.value.0 !in batches then None
    else
      var found := FindJob(batches[parsed.value.0], parsed.value.1);
      if found.None? then None else Some((parsed.value.0, found.value))
  }

  /** What is found for a name carries that name. */
  lemma FoundJobPrintsItsName(batches: map<string, seq<string>>, name: string)
    requires GetBatchJob(batches, name).Some?
    ensures var (batch, i) := GetBatchJob(batches, name).value;
            batch in batches && i < |batches[batch]| && ScheduledJobName(batch, batches[batch][i]) == name
  {
    ParsedNameReprints(name);
  }

  /** A job of a batch with distinct job names is found by the name printed for it exactly if its own name has no dash. */
  lemma PrintedJobIsFoundIff(batches: map<string, seq<string>>, batch: string, i: nat)
    requires batch in batches && i < |batches[batch]|
    requires forall j, k :: 0 <= j < k < |batches[batch]| ==> batches[batch][j] != batches[batch][k]
    ensures GetBatchJob(batches, ScheduledJobName(batch, batches[batch][i])) == Some((batch, i)) <==> '-' !in batches[batch][i]
  {
    hide ParseScheduledJobName;
    var job := batches[batch][i];
    PrintedNameParsesIff(batch, job);
    var parsed := ParseScheduledJobName(ScheduledJobName(batch, job));
    ParsedNameReprints(ScheduledJobName(batch, job));
    assert '-' in ScheduledJobName(batch, job);
  }

  // ---- Generated names ----

  /** A source of random strings of a given length, in lower case. */
  ghost predicate IsRandomSource(random: nat -> string) {
    forall n :: |random(n)| == n && '-' !in random(n)
  }

  /** getJobComponentNamePart: at most 12 characters of the name, filled up with random ones. */
  function JobComponentNamePart(component: string, random: nat -> string): string {
    var part := if |component| > 12 then component[..12] else component;
    part + random(16 - |part|)
  }

  /** GenerateBatchName; a timestamp has 14 digits. */
  function GenerateBatchName(component: string, timestamp: string, random: nat -> string): string {
    "batch-" + JobComponentNamePart(component, random) + ['-'] + timestamp + ['-'] + random(8)
  }

  /**
   Names of generated batches and jobs have fixed lengths whatever the component is called (16, 46 and 55 characters,
   within the 63 that Kubernetes allows), and the printed name of a generated job parses to its parts.
   */
  lemma GeneratedNames(component: string, timestamp: string, random: nat -> string, jobRandom: nat -> string)
    requires IsRandomSource(random) && IsRandomSource(jobRandom) && |timestamp| == 14
    ensures var batch, job := GenerateBatchName(component, timestamp, random), jobRandom(8);
            && |JobComponentNamePart(component, random)| == 16
            && |batch| == 46 && |ScheduledJobName(batch, job)| == 55
            && batch[..6] == "batch-" && batch[22] == '-' && batch[23..37] == timestamp && batch[37] == '-'
            && (forall n: nat :: n <= |component| && n <= 12 ==> batch[6..6 + n] == component[..n])
            && ParseScheduledJobName(ScheduledJobName(batch, job)) == Some((batch, job))
  {
    hide ParseScheduledJobName;
    assert |random(8)| == 8 && '-' !in jobRandom(8) && |jobRandom(8)| == 8;
    PrintedNameParsesIff(GenerateBatchName(component, timestamp, random), jobRandom(8));
  }
}
