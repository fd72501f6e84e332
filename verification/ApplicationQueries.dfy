/**
 The api-server queries built on FanIn: registrations filtered by access, environments of applications, and
 deployments of environments. The goroutines may finish in any order; the sorted results do not depend on it.
 */
module ApplicationQueries {
  import opened FanIn
  import opened Options
  import opened Sorting

  datatype Named<T> = Named(name: string, spec: T)

  // ---- Sorting by name ----

  /** strings.Compare(a, b) == -1 */
  predicate Less(a: string, b: string) {
    b != [] && (a == [] || a[0] < b[0] || (a[0] == b[0] && Less(a[1..], b[1..])))
  }

  lemma {:induction false} LessIsTotal(a: string, b: string)
    ensures a == b || Less(a, b) || Less(b, a)
    ensures !(Less(a, b) && Less(b, a))
  {
    if a != [] && b != [] && a[0] == b[0] {
      LessIsTotal(a[1..], b[1..]);
      assert a == [a[0]] + a[1..] && b == [b[0]] + b[1..];
    }
  }

  lemma {:induction false} LessIsTransitive(a: string, b: string, c: string)
    requires !Less(b, a) && !Less(c, b)
    ensures !Less(c, a)
  {
    if a != [] && c != [] && b != [] && a[0] == c[0] == b[0] { LessIsTransitive(a[1..], b[1..], c[1..]); }
  }

  /** The order of the characters, a string before those it begins. */
  ghost predicate Precedes(a: string, b: string) {
    exists n: nat :: n <= |a| && n < |b| && a[..n] == b[..n] && (n == |a| || a[n] < b[n])
  }

  lemma {:induction false} LessIsPrecedes(a: string, b: string)
    ensures Less(a, b) <==> Precedes(a, b)
  {
    if a == [] || b == [] || a[0] != b[0] {
      if Less(a, b) { assert a[..0] == b[..0]; }
      if Precedes(a, b) {
        var n: nat :| n <= |a| && n < |b| && a[..n] == b[..n] && (n == |a| || a[n] < b[n]);
        assert n == 0;
      }
    } else {
      LessIsPrecedes(a[1..], b[1..]);
      if Precedes(a[1..], b[1..]) { LongerPrecedes(a, b); }
      if Precedes(a, b) { ShorterPrecedes(a, b); }
    }
  }

  lemma LongerPrecedes(a: string, b: string)
    requires a != [] && b != [] && a[0] == b[0] && Precedes(a[1..], b[1..])
    ensures Precedes(a, b)
  {
    var x, y := a[1..], b[1..];
    var n: nat :| n <= |x| && n < |y| && x[..n] == y[..n] && (n == |x| || x[n] < y[n]);
    assert a[..n+1] == [a[0]] + x[..n] && b[..n+1] == [b[0]] + y[..n];
  }

  lemma ShorterPrecedes(a: string, b: string)
    requires a != [] && b != [] && a[0] == b[0] && Precedes(a, b)
    ensures Precedes(a[1..], b[1..])
  {
    var n: nat :| n <= |a| && n < |b| && a[..n] == b[..n] && (n == |a| || a[n] < b[n]);
    assert n > 0;
    assert a[1..][..n-1] == a[..n][1..] && b[1..][..n-1] == b[..n][1..];
  }

  /** Ascending names. */
  ghost predicate Ascending<T>(s: seq<Named<T>>) {
    forall i, j :: 0 <= i < j < |s| ==> s[i].name == s[j].name || Precedes(s[i].name, s[j].name)
  }

  lemma SortedAscends<T>(s: seq<Named<T>>)
    requires SortedByName(s)
    ensures Ascending(s)
  {
    hide Less, Precedes;
    forall i, j | 0 <= i < j < |s| ensures s[i].name == s[j].name || Precedes(s[i].name, s[j].name) {
      assert ByName(s[i], s[j]);
      LessIsTotal(s[i].name, s[j].name);
      LessIsPrecedes(s[i].name, s[j].name);
    }
  }

  /** Names in order, as the comparisons passed to sort.Slice and slices.SortFunc have it. */
  predicate ByName<T>(a: Named<T>, b: Named<T>) {
    !Less(b.name, a.name)
  }

  predicate SortedByName<T>(s: seq<Named<T>>) {
    Sorted(s, ByName)
  }

  lemma ByNameOrders<T>(s: seq<Named<T>>)
    ensures Orders(ByName, s)
  {
    hide Less;
    forall a, b | a in s && b in s ensures ByName(a, b) || ByName(b, a) {
      LessIsTotal(a.name, b.name);
    }
    forall a, b, c | a in s && b in s && c in s && ByName(a, b) && ByName(b, c) ensures ByName(a, c) {
      LessIsTransitive(a.name, b.name, c.name);
    }
  }

  predicate UniqueNames<T>(s: seq<Named<T>>) {
    forall i, j :: 0 <= i < |s| && 0 <= j < |s| && s[i].name == s[j].name ==> i == j
  }

  /** The registrations or environments in the order of their names. */
  function SortByName<T>(s: seq<Named<T>>): (r: seq<Named<T>>)
    ensures SortedByName(r) && multiset(r) == multiset(s)
  {
    ByNameOrders(s);
    SortSorts(s, ByName);
    Sort(s, ByName)
  }

  lemma FirstAgrees<T>(a: seq<Named<T>>, b: seq<Named<T>>)
    requires SortedByName(a) && SortedByName(b) && multiset(a) == multiset(b) && a != []
    requires forall x, y :: x in a && y in a && x.name == y.name ==> x == y
    ensures b != [] && a[0] == b[0]
  {
    assert a[0] in multiset(b);
    assert b[0] in multiset(a);
    SmallestFirst(a, b[0]);
    SmallestFirst(b, a[0]);
    LessIsTotal(a[0].name, b[0].name);
  }

  lemma TailMultiset<T>(s: seq<T>)
    requires s != []
    ensures multiset(s[1..]) == multiset(s) - multiset{s[0]}
    ensures forall x :: x in s[1..] ==> x in s
  {
    assert s == [s[0]] + s[1..];
  }

  lemma {:induction false} SortedIsUnique<T>(a: seq<Named<T>>, b: seq<Named<T>>)
    requires SortedByName(a) && SortedByName(b) && multiset(a) == multiset(b)
    requires forall x, y :: x in a && y in a && x.name == y.name ==> x == y
    ensures a == b
  {
    if a == [] {
      assert |b| == |multiset(b)|;
    } else {
      FirstAgrees(a, b);
      TailMultiset(a);
      TailMultiset(b);
      SortedIsUnique(a[1..], b[1..]);
      assert a == [a[0]] + a[1..] && b == [b[0]] + b[1..];
    }
  }

  lemma SmallestFirst<T>(s: seq<Named<T>>, x: Named<T>)
    requires SortedByName(s) && x in s
    ensures !Less(x.name, s[0].name)
  {
    LessIsTotal(x.name, x.name);
  }

  method SortNamed<T(==)>(s: seq<Named<T>>) returns (r: seq<Named<T>>)
    ensures SortedByName(r) && Ascending(r) && multiset(r) == multiset(s)
  {
    ByNameOrders(s);
    r := LibrarySort(s, ByName);
    SortedAscends(r);
  }

  lemma SortOfUnique<T>(s: seq<Named<T>>, r: seq<Named<T>>)
    requires UniqueNames(s) && SortedByName(r) && multiset(r) == multiset(s)
    ensures r == SortByName(s)
  {
    forall x, y | x in r && y in r && x.name == y.name ensures x == y {
      assert x in multiset(s) && y in multiset(s);
    }
    SortedIsUnique(r, SortByName(s));
  }

  // ---- filterRadixRegByAccess ----

  datatype Registration = Registration(reconciled: bool, details: string)

  /** What happens to one access check: the context is done, or the authorization answers. */
  datatype Check = Check(cancelled: bool, allowed: bool, failed: bool)

  function CheckAccess(rr: Named<Registration>, check: Check): Task<Named<Registration>> {
    if check.cancelled then Task(None, true)
    else if !rr.spec.reconciled then Task(None, false)
    else Task(if check.allowed then Some(rr) else None, check.failed)
  }

  /** The reconciled registrations the user may access, in the given order. */
  function Accessible(rrs: seq<Named<Registration>>, checks: seq<Check>): (r: seq<Named<Registration>>)
    requires |rrs| == |checks|
  {
    if rrs == [] then []
    else
      var n := |rrs| - 1;
      var rest := Accessible(rrs[..n], checks[..n]);
      if rrs[n].spec.reconciled && checks[n].allowed then rest + [rrs[n]] else rest
  }

  lemma {:induction false} AccessibleAreSent(rrs: seq<Named<Registration>>, checks: seq<Check>, tasks: seq<Task<Named<Registration>>>)
    requires |rrs| == |checks| == |tasks|
    requires forall i :: 0 <= i < |rrs| ==> tasks[i] == CheckAccess(rrs[i], checks[i]) && !checks[i].cancelled
    ensures Values(tasks) == Accessible(rrs, checks)
  {
    if rrs != [] {
      var n := |rrs| - 1;
      AccessibleAreSent(rrs[..n], checks[..n], tasks[..n]);
    }
  }

  /** Filtering keeps names unique, and every registration kept is one that is reconciled and allowed. */
  lemma {:induction false} AccessibleUnique(rrs: seq<Named<Registration>>, checks: seq<Check>)
    requires |rrs| == |checks|
    ensures UniqueNames(rrs) ==> UniqueNames(Accessible(rrs, checks))
    ensures forall x :: x in Accessible(rrs, checks) <==>
              exists i :: 0 <= i < |rrs| && rrs[i] == x && x.spec.reconciled && checks[i].allowed
  {
    if rrs != [] {
      var n := |rrs| - 1;
      AccessibleUnique(rrs[..n], checks[..n]);
      var rest, all := Accessible(rrs[..n], checks[..n]), Accessible(rrs, checks);
      forall x ensures x in all <==> exists i :: 0 <= i < |rrs| && rrs[i] == x && x.spec.reconciled && checks[i].allowed {
        if x in all && x !in rest { assert rrs[n] == x; }
        if i :| 0 <= i < n && rrs[i] == x && x.spec.reconciled && checks[i].allowed {
          assert rrs[..n][i] == x && checks[..n][i].allowed;
          assert x in rest;
        }
        if i :| 0 <= i < n && rrs[..n][i] == x && x.spec.reconciled && checks[..n][i].allowed {
          assert rrs[i] == x && checks[i].allowed;
        }
      }
      forall j | 0 <= j < |rest| && UniqueNames(rrs) ensures rest[j].name != rrs[n].name {
        assert rest[j] in rest;
      }
    }
  }

  /**
   Schedule independence: an error if and only if some check failed or was cancelled, and otherwise the sorted list of
   accessible registrations, whatever the order in which the checks finished.
   */
  method FilterRadixRegByAccess(rrs: seq<Named<Registration>>, checks: seq<Check>)
    returns (result: seq<Named<Registration>>, failed: bool)
    requires |rrs| == |checks|
    ensures failed <==> exists i :: 0 <= i < |rrs| && (checks[i].cancelled || (rrs[i].spec.reconciled && checks[i].failed))
    ensures !failed ==> Ascending(result) && SortedByName(result) && multiset(result) == multiset(Accessible(rrs, checks))
    ensures !failed ==> forall x :: x in result <==>
              exists i :: 0 <= i < |rrs| && rrs[i] == x && x.spec.reconciled && checks[i].allowed
    ensures !failed && UniqueNames(rrs) ==> result == SortByName(Accessible(rrs, checks))
    ensures failed ==> result == []
  {
    hide Less, Ascending, SortedByName, Accessible, UniqueNames;
    var tasks := seq(|rrs|, i requires 0 <= i < |rrs| => CheckAccess(rrs[i], checks[i]));
    result, failed := Run(tasks, 25);
    if failed {
      return;
    }
    assert forall i :: 0 <= i < |tasks| ==> !tasks[i].fails;
    AccessibleAreSent(rrs, checks, tasks);
    result := SortNamed(result);
    AccessibleUnique(rrs, checks);
    forall x ensures x in result <==> x in Accessible(rrs, checks) {
      SameMembers(result, Accessible(rrs, checks), x);
    }
    if UniqueNames(rrs) {
      SortOfUnique(Accessible(rrs, checks), result);
    }
  }

  // ---- getEnvironmentsForApplication and getEnvironmentsForApplications ----

  /** A query answers with a value or an error. */
  function Answer<V>(reply: Option<V>): Task<V> {
    Task(reply, reply.None?)
  }

  /** The answers of queries that all succeed. */
  function Answers<V>(replies: seq<Option<V>>): (r: seq<V>)
    requires forall i :: 0 <= i < |replies| ==> replies[i].Some?
    ensures |r| == |replies| && forall i :: 0 <= i < |r| ==> r[i] == replies[i].value
  {
    if replies == [] then [] else Answers(replies[..|replies|-1]) + [replies[|replies|-1].value]
  }

  lemma {:induction false} AnswersAreSent<V>(replies: seq<Option<V>>, tasks: seq<Task<V>>)
    requires |replies| == |tasks|
    requires forall i :: 0 <= i < |replies| ==> tasks[i] == Answer(replies[i]) && replies[i].Some?
    ensures Values(tasks) == Answers(replies)
  {
    if replies != [] { AnswersAreSent(replies[..|replies|-1], tasks[..|tasks|-1]); }
  }

  /** Queries in parallel: an error if and only if one fails, otherwise a permutation of all answers. */
  method QueryAll<V>(replies: seq<Option<V>>, limit: int) returns (answers: seq<V>, failed: bool)
    requires limit != 0
    ensures failed <==> exists i :: 0 <= i < |replies| && replies[i].None?
    ensures !failed ==> multiset(answers) == multiset(Answers(replies))
    ensures failed ==> answers == []
  {
    var tasks := seq(|replies|, i requires 0 <= i < |replies| => Answer(replies[i]));
    answers, failed := Run(tasks, limit);
    if !failed {
      assert forall i :: 0 <= i < |tasks| ==> !tasks[i].fails;
      AnswersAreSent(replies, tasks);
    }
  }

  method EnvironmentsForApplication<T(==)>(replies: seq<Option<Named<T>>>) returns (environments: seq<Named<T>>, failed: bool)
    ensures failed <==> exists i :: 0 <= i < |replies| && replies[i].None?
    ensures !failed ==> Ascending(environments) && SortedByName(environments) && multiset(environments) == multiset(Answers(replies))
    ensures !failed && UniqueNames(Answers(replies)) ==> environments == SortByName(Answers(replies))
  {
    environments, failed := QueryAll(replies, 5);
    if !failed {
      environments := SortNamed(environments);
      if UniqueNames(Answers(replies)) {
        SortOfUnique(Answers(replies), environments);
      }
    }
  }

  /** An application: its name, and the replies to its environment queries unless listing its environments failed. */
  datatype Application<T> = Application(name: string, environments: Option<seq<Option<Named<T>>>>)

  predicate AllAnswered<T>(app: Application<T>) {
    app.environments.Some? && forall i :: 0 <= i < |app.environments.value| ==> app.environments.value[i].Some?
  }

  /** What one goroutine of getEnvironmentsForApplications sends: the name with the sorted environments. */
  ghost predicate SummaryOf<T>(app: Application<T>, summary: (string, seq<Named<T>>)) {
    && AllAnswered(app) && summary.0 == app.name
    && Ascending(summary.1) && SortedByName(summary.1) && multiset(summary.1) == multiset(Answers(app.environments.value))
  }

  /** The drain loop that collects what was sent into a map. */
  method CollectByName<V>(sent: seq<(string, V)>) returns (m: map<string, V>)
    ensures forall n :: n in m ==> (n, m[n]) in sent
    ensures forall k :: 0 <= k < |sent| ==> sent[k].0 in m
  {
    m := map[];
    for k := 0 to |sent|
      invariant forall n :: n in m ==> (n, m[n]) in sent
      invariant forall j :: 0 <= j < k ==> sent[j].0 in m
    {
      assert sent[k] == (sent[k].0, sent[k].1);
      m := m[sent[k].0 := sent[k].1];
    }
  }

  /** The body of a goroutine: None if an environment of the application, or their list, cannot be read. */
  method SummarizeApplication<T(==)>(app: Application<T>) returns (reply: Option<(string, seq<Named<T>>)>)
    ensures if AllAnswered(app) then reply.Some? && SummaryOf(app, reply.value) else reply.None?
  {
    if app.environments.None? {
      return None;
    }
    var sorted, failed := EnvironmentsForApplication(app.environments.value);
    reply := if failed then None else Some((app.name, sorted));
  }

  /** With unique names every application gets its own environments, sorted, and nothing else is in the map. */
  method EnvironmentsForApplications<T(==)>(apps: seq<Application<T>>)
    returns (environments: map<string, seq<Named<T>>>, failed: bool)
    requires forall i, j :: 0 <= i < j < |apps| ==> apps[i].name != apps[j].name
    ensures failed <==> exists i :: 0 <= i < |apps| && !AllAnswered(apps[i])
    ensures !failed ==> forall n :: n in environments ==> exists i :: 0 <= i < |apps| && apps[i].name == n
    ensures !failed ==> forall i :: 0 <= i < |apps| ==>
              apps[i].name in environments && SummaryOf(apps[i], (apps[i].name, environments[apps[i].name]))
    ensures failed ==> environments == map[]
  {
    var replies: seq<Option<(string, seq<Named<T>>)>> := [];
    for i := 0 to |apps|
      invariant |replies| == i
      invariant forall j :: 0 <= j < i ==>
                  if AllAnswered(apps[j]) then replies[j].Some? && SummaryOf(apps[j], replies[j].value) else replies[j].None?
    {
      var reply := SummarizeApplication(apps[i]);
      replies := replies + [reply];
    }
    var summaries;
    summaries, failed := QueryAll(replies, 10);
    environments := map[];
    if !failed {
      environments := CollectByName(summaries);
      ByNameIsRight(apps, Answers(replies), summaries, environments);
    }
  }

  lemma ByNameIsRight<T>(apps: seq<Application<T>>, answers: seq<(string, seq<Named<T>>)>, summaries: seq<(string, seq<Named<T>>)>,
      environments: map<string, seq<Named<T>>>)
    requires forall i, j :: 0 <= i < j < |apps| ==> apps[i].name != apps[j].name
    requires |answers| == |apps| && forall i :: 0 <= i < |apps| ==> SummaryOf(apps[i], answers[i])
    requires multiset(summaries) == multiset(answers)
    requires forall n :: n in environments ==> (n, environments[n]) in summaries
    requires forall k :: 0 <= k < |summaries| ==> summaries[k].0 in environments
    ensures forall n :: n in environments ==> exists i :: 0 <= i < |apps| && apps[i].name == n
    ensures forall i :: 0 <= i < |apps| ==>
              apps[i].name in environments && SummaryOf(apps[i], (apps[i].name, environments[apps[i].name]))
  {
    forall n | n in environments ensures exists i :: 0 <= i < |apps| && apps[i].name == n && SummaryOf(apps[i], (n, environments[n])) {
      SameMembers(summaries, answers, (n, environments[n]));
      var i :| 0 <= i < |answers| && answers[i] == (n, environments[n]);
      assert apps[i].name == n;
    }
    forall i | 0 <= i < |apps| ensures apps[i].name in environments {
      SameMembers(summaries, answers, answers[i]);
      var k :| 0 <= k < |summaries| && summaries[k] == answers[i];
    }
  }

  // ---- GetRadixDeploymentsForEnvironments ----

  function Concat<T>(s: seq<seq<T>>): seq<T> {
    if s == [] then [] else Concat(s[..|s|-1]) + s[|s|-1]
  }

  lemma {:induction false} ConcatWithout<T>(s: seq<seq<T>>, j: nat)
    requires j < |s|
    ensures multiset(Concat(s)) == multiset(Concat(Without(s, j))) + multiset(s[j])
  {
    var n := |s| - 1;
    if j == n {
      assert Without(s, j) == s[..n];
    } else {
      ConcatWithout(s[..n], j);
      var r := Without(s, j);
      assert r[..|r|-1] == Without(s[..n], j) && r[|r|-1] == s[n];
    }
  }

  lemma WithoutSame<T>(a: seq<T>, b: seq<T>, i: nat, j: nat)
    requires multiset(a) == multiset(b) && i < |a| && j < |b| && a[i] == b[j]
    ensures multiset(Without(a, i)) == multiset(Without(b, j))
  {
    MultisetWithout(a, i);
    MultisetWithout(b, j);
    assert multiset(Without(a, i)) == multiset(a) - multiset{a[i]};
    assert multiset(Without(b, j)) == multiset(b) - multiset{b[j]};
  }

  lemma {:induction false} ConcatOfPermutation<T>(a: seq<seq<T>>, b: seq<seq<T>>)
    requires multiset(a) == multiset(b)
    ensures multiset(Concat(a)) == multiset(Concat(b))
  {
    if a == [] {
      assert |b| == |multiset(b)|;
    } else {
      var n := |a| - 1;
      assert a[n] in multiset(b);
      var j :| 0 <= j < |b| && b[j] == a[n];
      WithoutSame(a, b, n, j);
      assert Without(a, n) == a[..n];
      ConcatOfPermutation(a[..n], Without(b, j));
      ConcatWithout(b, j);
    }
  }

  /** Nothing dropped or duplicated: the deployments of all environments, in some order of the environments. */
  method RadixDeploymentsForEnvironments<T>(replies: seq<Option<seq<T>>>, parallelism: int) returns (rdList: seq<T>, failed: bool)
    requires replies == [] || parallelism != 0
    ensures failed <==> exists i :: 0 <= i < |replies| && replies[i].None?
    ensures !failed ==> multiset(rdList) == multiset(Concat(Answers(replies)))
    ensures failed ==> rdList == []
  {
    if |replies| == 0 {
      return [], false;
    }
    var channel;
    channel, failed := QueryAll(replies, parallelism);
    rdList := [];
    if failed {
      return;
    }
    for i := 0 to |channel|
      invariant rdList == Concat(channel[..i])
    {
      assert channel[..i+1][..i] == channel[..i];
      rdList := rdList + channel[i];
    }
    assert channel[..|channel|] == channel;
    ConcatOfPermutation(channel, Answers(replies));
  }
}
