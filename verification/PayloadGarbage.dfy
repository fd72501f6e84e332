/**
 job-scheduler/internal/payload.go: the collector of orphaned payload secrets. It lists the references of the
 batches, then the secrets, then reads the clock, then deletes, while batches and secrets come and go.
 */
module PayloadGarbage {
  import opened Options

  /** Time in seconds. The collector keeps a secret for 24 hours. */
  const GRACE: nat := 24 * 60 * 60

  /** A batch: for each of its jobs the payload secret it refers to, if any. */
  datatype Batch = Batch(jobs: seq<Option<string>>)

  predicate RefersTo(b: Batch, secret: string) {
    Some(secret) in b.jobs
  }

  ghost predicate Referenced(batches: map<string, Batch>, secret: string) {
    exists b :: b in batches && RefersTo(batches[b], secret)
  }

  /** creation timestamp After(now - 24h) keeps the secret, so one exactly 24 hours old goes. */
  predicate OldEnough(created: nat, clock: nat) {
    !(created > clock - GRACE)
  }

  // ---- One pass without concurrent change, in the source's form ----

  /** The objects of a namespace: payload secrets with their creation timestamps, and batches. */
  class Namespace {
    var secrets: map<string, nat>
    var batches: seq<Batch>

    constructor (secrets: map<string, nat>, batches: seq<Batch>)
      ensures this.secrets == secrets && this.batches == batches
    {
      this.secrets, this.batches := secrets, batches;
    }

    /** getJobComponentPayloadSecretRefNames */
    method PayloadSecretRefNames() returns (names: map<string, bool>)
      ensures forall n :: n in names <==> exists i :: 0 <= i < |batches| && Some(n) in batches[i].jobs
    {
      names := map[];
      for i := 0 to |batches|
        invariant forall n :: n in names <==> exists k :: 0 <= k < i && RefersTo(batches[k], n)
      {
        for j := 0 to |batches[i].jobs|
          invariant forall n :: n in names <==>
                      (exists k :: 0 <= k < i && RefersTo(batches[k], n)) || Some(n) in batches[i].jobs[..j]
        {
          var job := batches[i].jobs[j];
          if job.Some? {
            names := names[job.value := true];
          }
        }
        assert batches[i].jobs[..|batches[i].jobs|] == batches[i].jobs;
      }
    }

    /**
     GarbageCollectPayloadSecrets with the clock at `clock`; `failing` are the secrets whose deletion fails, which
     is only logged. If one of the two listings fails nothing changes, otherwise exactly the unreferenced secrets at
     least 24 hours old go.
     */
    method GarbageCollect(refsOk: bool, secretsOk: bool, clock: nat, failing: set<string>) returns (ok: bool)
      modifies this`secrets
      ensures ok <==> refsOk && secretsOk
      ensures !ok ==> secrets == old(secrets)
      ensures ok ==> forall n :: n in secrets <==>
                n in old(secrets) &&
                ((exists i :: 0 <= i < |batches| && Some(n) in batches[i].jobs) || old(secrets)[n] > clock - 86400 || n in failing)
      ensures forall n :: n in secrets ==> secrets[n] == old(secrets)[n]
    {
      if !refsOk {
        return false;
      }
      var refNames := PayloadSecretRefNames();
      if !secretsOk {
        return false;
      }
      var payloadSecrets := secrets;
      var todo := payloadSecrets.Keys;
      while todo != {}
        invariant todo <= payloadSecrets.Keys
        invariant forall n :: n in secrets <==>
                    n in payloadSecrets && (n in todo || n in refNames || !OldEnough(payloadSecrets[n], clock) || n in failing)
        invariant forall n :: n in secrets ==> secrets[n] == payloadSecrets[n]
        decreases |todo|
      {
        var name :| name in todo;
        todo := todo - {name};
        if name !in refNames {
          if payloadSecrets[name] > clock - GRACE {
            continue;
          }
          if name !in failing {
            secrets := secrets - {name};
          }
        }
      }
      return true;
    }
  }

  // ---- Passes interleaved with everybody else ----

  /**
   A pass of the collector: what it has listed so far. `start` is the time of the reference listing.
   A secret in `doomed` was listed, found unreferenced and old enough, and is not deleted yet.
   */
  datatype Pass =
    | HasRefs(start: nat, refs: set<string>)
    | HasSecrets(start: nat, refs: set<string>, listed: map<string, nat>)
    | Deleting(start: nat, clock: nat, doomed: set<string>)

  /** `born` keeps the creation timestamp of every secret there ever was; `collected` what the collector deleted. */
  datatype State = State(
    now: nat,
    secrets: set<string>,
    batches: map<string, Batch>,
    passes: seq<Pass>,
    born: map<string, nat>,
    collected: set<string>)

  datatype Action =
    | Tick
    | CreateSecret(name: string, timestamp: nat)
    | RemoveSecret(name: string)             // by anybody but the collector
    | CreateBatch(name: string, batch: Batch)
    | DeleteBatch(name: string)
    | ListRefs
    | ListSecrets(pass: nat)
    | ReadClock(pass: nat)
    | Delete(pass: nat, name: string, ok: bool)

  /** How old a secret may be, by its timestamp, when a batch that nobody copied starts to refer to it. */
  datatype Config = Config(maxAge: nat)

  predicate Young(c: Config, s: State, secret: string) {
    secret in s.secrets && secret in s.born && s.now - s.born[secret] <= c.maxAge
  }

  /** A new batch refers to young secrets only, or to ones an existing batch refers to (a copy). */
  ghost predicate MayRefer(c: Config, s: State, b: Batch) {
    forall n :: RefersTo(b, n) ==> Young(c, s, n) || Referenced(s.batches, n)
  }

  ghost predicate Enabled(c: Config, s: State, a: Action) {
    match a
    case Tick => true
    case CreateSecret(n, t) => n !in s.born && t <= s.now
    case RemoveSecret(n) => true
    case CreateBatch(n, b) => n !in s.batches && MayRefer(c, s, b)
    case DeleteBatch(n) => true
    case ListRefs => true
    case ListSecrets(i) => i < |s.passes| && s.passes[i].HasRefs?
    case ReadClock(i) => i < |s.passes| && s.passes[i].HasSecrets?
    case Delete(i, n, _) => i < |s.passes| && s.passes[i].Deleting? && n in s.passes[i].doomed
  }

  function AllRefs(batches: map<string, Batch>): set<string> {
    set b, r | b in batches && r in batches[b].jobs && r.Some? :: r.value
  }

  ghost function Step(c: Config, s: State, a: Action): State
    requires Enabled(c, s, a)
  {
    match a
    case Tick => s.(now := s.now + 1)
    case CreateSecret(n, t) => s.(secrets := s.secrets + {n}, born := s.born[n := t])
    case RemoveSecret(n) => s.(secrets := s.secrets - {n})
    case CreateBatch(n, b) => s.(batches := s.batches[n := b])
    case DeleteBatch(n) => s.(batches := s.batches - {n})
    case ListRefs => s.(passes := s.passes + [HasRefs(s.now, AllRefs(s.batches))])
    case ListSecrets(i) =>
      var p := s.passes[i];
      s.(passes := s.passes[i := HasSecrets(p.start, p.refs, map n | n in s.secrets && n in s.born :: s.born[n])])
    case ReadClock(i) =>
      var p := s.passes[i];
      s.(passes := s.passes[i := Deleting(p.start, s.now,
          set n | n in p.listed && n !in p.refs && OldEnough(p.listed[n], s.now))])
    case Delete(i, n, ok) =>
      var p := s.passes[i];
      var t := s.(passes := s.passes[i := p.(doomed := p.doomed - {n})]);
      if ok then t.(secrets := s.secrets - {n}, collected := s.collected + {n}) else t
  }

  const INIT := State(0, {}, map[], [], map[], {})

  /** The state after a run; an action that is not enabled when its turn comes does nothing. */
  ghost function Execute(c: Config, run: seq<Action>): State {
    if run == [] then INIT
    else
      var s := Execute(c, run[..|run|-1]);
      if Enabled(c, s, run[|run|-1]) then Step(c, s, run[|run|-1]) else s
  }

  // ---- Safety ----

  /** The clock is read soon enough after the references were listed. */
  predicate InTime(c: Config, p: Pass) {
    p.Deleting? ==> c.maxAge + (p.clock - p.start) < GRACE
  }

  /** What a pass relies on: a secret referenced now was referenced at its listing, or was young then or later. */
  ghost predicate Sees(c: Config, s: State, p: Pass) {
    && p.start <= s.now
    && match p
       case HasRefs(start, refs) =>
         forall n :: Referenced(s.batches, n) ==> n in refs || (n in s.born && s.born[n] + c.maxAge >= start)
       case HasSecrets(start, refs, listed) =>
         && (forall n :: Referenced(s.batches, n) ==> n in refs || (n in s.born && s.born[n] + c.maxAge >= start))
         && (forall n :: n in listed ==> n in s.born && listed[n] == s.born[n])
       case Deleting(start, clock, doomed) =>
         && start <= clock <= s.now
         && (InTime(c, p) ==> forall n :: n in doomed ==> !Referenced(s.batches, n) && n in s.born && s.born[n] + c.maxAge < start)
  }

  ghost predicate Inv(c: Config, s: State) {
    && s.secrets <= s.born.Keys
    && (forall n :: Referenced(s.batches, n) ==> n in s.born)
    && (forall i :: 0 <= i < |s.passes| ==> Sees(c, s, s.passes[i]))
    && (AllInTime(c, s) ==> forall n :: n in s.collected ==> Gone(s, n))
  }

  ghost predicate AllInTime(c: Config, s: State) {
    forall i :: 0 <= i < |s.passes| ==> InTime(c, s.passes[i])
  }

  /** The secret is deleted for good and nothing refers to it. */
  ghost predicate Gone(s: State, n: string) {
    n in s.born && n !in s.secrets && !Referenced(s.batches, n)
  }

  /** A batch is added: what it refers to is young or was referenced before. */
  lemma NewReferences(c: Config, s: State, name: string, b: Batch, n: string)
    requires name !in s.batches && MayRefer(c, s, b)
    requires Referenced(s.batches[name := b], n)
    ensures Referenced(s.batches, n) || Young(c, s, n)
  {
    var x :| x in s.batches[name := b] && RefersTo(s.batches[name := b][x], n);
    if x != name { assert x in s.batches && RefersTo(s.batches[x], n); }
  }

  lemma FewerReferences(s: State, name: string, n: string)
    requires Referenced(s.batches - {name}, n)
    ensures Referenced(s.batches, n)
  {
    var x :| x in s.batches - {name} && RefersTo((s.batches - {name})[x], n);
    assert RefersTo(s.batches[x], n);
  }

  lemma AllRefsAreReferenced(batches: map<string, Batch>, n: string)
    ensures n in AllRefs(batches) <==> Referenced(batches, n)
  {
    if b :| b in batches && RefersTo(batches[b], n) {
      assert Some(n) in batches[b].jobs;
    }
    if n in AllRefs(batches) {
      var b, r :| b in batches && r in batches[b].jobs && r.Some? && r.value == n;
      assert RefersTo(batches[b], n);
    }
  }

  /** Batches come and go, time passes: what a pass has seen stays good enough. */
  lemma PassKept(c: Config, s: State, a: Action, p: Pass)
    requires Inv(c, s) && Enabled(c, s, a) && Sees(c, s, p)
    ensures Sees(c, Step(c, s, a), p)
  {
    var t := Step(c, s, a);
    forall n | Referenced(t.batches, n) ensures Referenced(s.batches, n) || (a.CreateBatch? && Young(c, s, n)) {
      if a.CreateBatch? { NewReferences(c, s, a.name, a.batch, n); }
      if a.DeleteBatch? { FewerReferences(s, a.name, n); }
    }
  }

  /** A pass takes its next step. */
  lemma PassMoves(c: Config, s: State, a: Action)
    requires Inv(c, s) && Enabled(c, s, a)
    ensures a.ListRefs? ==> Sees(c, Step(c, s, a), Step(c, s, a).passes[|s.passes|])
    ensures a.ListSecrets? || a.ReadClock? || a.Delete? ==> Sees(c, Step(c, s, a), Step(c, s, a).passes[a.pass])
  {
    if a.ListRefs? {
      forall n | Referenced(s.batches, n) ensures n in AllRefs(s.batches) { AllRefsAreReferenced(s.batches, n); }
    } else if a.ListSecrets? || a.ReadClock? || a.Delete? {
      assert Sees(c, s, s.passes[a.pass]);
    }
  }

  /** A step in time leaves what was collected deleted and unreferenced. */
  lemma GoneKept(c: Config, s: State, a: Action, n: string)
    requires Inv(c, s) && Enabled(c, s, a) && AllInTime(c, s) && n in Step(c, s, a).collected
    ensures Gone(Step(c, s, a), n)
  {
    var t := Step(c, s, a);
    if a.CreateBatch? && Referenced(t.batches, n) { NewReferences(c, s, a.name, a.batch, n); }
    if a.DeleteBatch? && Referenced(t.batches, n) { FewerReferences(s, a.name, n); }
    if a.Delete? && n == a.name { assert Sees(c, s, s.passes[a.pass]); }
  }

  lemma StepKeepsInv(c: Config, s: State, a: Action)
    requires Inv(c, s) && Enabled(c, s, a)
    ensures Inv(c, Step(c, s, a))
  {
    hide Sees, Gone, Referenced;
    var t := Step(c, s, a);
    PassMoves(c, s, a);
    forall i | 0 <= i < |t.passes| ensures Sees(c, t, t.passes[i]) {
      if i < |s.passes| && t.passes[i] == s.passes[i] { PassKept(c, s, a, s.passes[i]); }
    }
    forall n | Referenced(t.batches, n) ensures n in t.born {
      if a.CreateBatch? { NewReferences(c, s, a.name, a.batch, n); }
      if a.DeleteBatch? { FewerReferences(s, a.name, n); }
    }
    if AllInTime(c, t) {
      forall i | 0 <= i < |s.passes| ensures InTime(c, s.passes[i]) { assert InTime(c, t.passes[i]); }
      forall n | n in t.collected ensures Gone(t, n) { GoneKept(c, s, a, n); }
    }
  }

  lemma {:induction false} RunKeepsInv(c: Config, run: seq<Action>)
    ensures Inv(c, Execute(c, run))
  {
    if run != [] {
      RunKeepsInv(c, run[..|run|-1]);
      var s := Execute(c, run[..|run|-1]);
      if Enabled(c, s, run[|run|-1]) { StepKeepsInv(c, s, run[|run|-1]); }
    }
  }

  /**
   The collector never breaks a live reference: in every interleaving in which each pass reads its clock soon enough,
   no batch refers to a secret the collector deleted.
   */
  lemma CollectedIsUnreferenced(c: Config, run: seq<Action>, n: string)
    requires AllInTime(c, Execute(c, run)) && n in Execute(c, run).collected
    ensures !Referenced(Execute(c, run).batches, n)
  {
    RunKeepsInv(c, run);
  }

  /** A pass that nobody disturbs finds exactly the unreferenced secrets at least 24 hours old, and deletes what it finds. */
  lemma UndisturbedPass(c: Config, run: seq<Action>, n: string)
    ensures var s, i := Execute(c, run), |Execute(c, run).passes|;
            var t := Execute(c, run + [ListRefs] + [ListSecrets(i)] + [ReadClock(i)]);
            var u := Execute(c, run + [ListRefs] + [ListSecrets(i)] + [ReadClock(i)] + [Delete(i, n, true)]);
            && s.secrets <= s.born.Keys
            && |t.passes| == i + 1 && t.passes[i].Deleting?
            && (n in t.passes[i].doomed <==>
                 n in s.secrets && (forall b :: b in s.batches ==> Some(n) !in s.batches[b].jobs) && s.born[n] <= s.now - 86400)
            && u.secrets == (if n in t.passes[i].doomed then s.secrets - {n} else s.secrets)
  {
    var s, i := Execute(c, run), |Execute(c, run).passes|;
    RunKeepsInv(c, run);
    hide Inv, Execute;
    var r1 := run + [ListRefs];
    ExecuteOne(c, run, ListRefs);
    var r2 := r1 + [ListSecrets(i)];
    ExecuteOne(c, r1, ListSecrets(i));
    ExecuteOne(c, r2, ReadClock(i));
    var r3 := r2 + [ReadClock(i)];
    AllRefsAreReferenced(s.batches, n);
    forall b | b in s.batches && Some(n) in s.batches[b].jobs ensures Referenced(s.batches, n) {
      assert RefersTo(s.batches[b], n);
    }
    DeleteOne(c, r3, i, n);
  }

  lemma DeleteOne(c: Config, run: seq<Action>, i: nat, n: string)
    requires i < |Execute(c, run).passes| && Execute(c, run).passes[i].Deleting?
    ensures var s := Execute(c, run);
            Execute(c, run + [Delete(i, n, true)]).secrets == if n in s.passes[i].doomed then s.secrets - {n} else s.secrets
  {
    assert (run + [Delete(i, n, true)])[..|run|] == run;
  }

  // ---- The bound is exact ----

  function Ticks(n: nat): seq<Action> {
    seq(n, _ => Tick)
  }

  lemma {:induction false} ExecuteTicks(c: Config, run: seq<Action>, n: nat)
    ensures Execute(c, run + Ticks(n)) == Execute(c, run).(now := Execute(c, run).now + n)
  {
    if n == 0 {
      assert run + Ticks(0) == run;
    } else {
      assert (run + Ticks(n))[..|run| + n - 1] == run + Ticks(n - 1);
      ExecuteTicks(c, run, n - 1);
    }
  }

  lemma ExecuteOne(c: Config, run: seq<Action>, a: Action)
    requires Enabled(c, Execute(c, run), a)
    ensures Execute(c, run + [a]) == Step(c, Execute(c, run), a)
  {
    assert (run + [a])[..|run|] == run;
  }

  /** The only batch of the run below. */
  const BATCH := Batch([Some("payload")])

  /** A secret of the greatest age that may be referred to anew is, just after the references were listed. */
  function ListingRun(c: Config): seq<Action> {
    [CreateSecret("payload", 0)] + Ticks(c.maxAge) + [ListRefs] + [CreateBatch("batch", BATCH)] + [ListSecrets(0)]
  }

  function LateRun(c: Config, gap: nat): seq<Action> {
    ListingRun(c) + Ticks(gap) + [ReadClock(0)] + [Delete(0, "payload", true)]
  }

  lemma AgingState(c: Config)
    ensures Execute(c, [CreateSecret("payload", 0)] + Ticks(c.maxAge)) ==
              State(c.maxAge, {"payload"}, map[], [], map["payload" := 0], {})
  {
    var create: seq<Action> := [CreateSecret("payload", 0)];
    assert [] + create == create;
    ExecuteOne(c, [], create[0]);
    ExecuteTicks(c, create, c.maxAge);
  }

  lemma ListingRunState(c: Config)
    ensures Execute(c, ListingRun(c)) == State(c.maxAge, {"payload"}, map["batch" := BATCH],
              [HasSecrets(c.maxAge, {}, map["payload" := 0])], map["payload" := 0], {})
  {
    var r := [CreateSecret("payload", 0)] + Ticks(c.maxAge);
    AgingState(c);
    assert AllRefs(map[]) == {};
    ExecuteOne(c, r, ListRefs);
    var r' := r + [ListRefs];
    ExecuteOne(c, r', CreateBatch("batch", BATCH));
    var r'' := r' + [CreateBatch("batch", BATCH)];
    ExecuteOne(c, r'', ListSecrets(0));
    var s := Execute(c, r'');
    assert (map n | n in s.secrets && n in s.born :: s.born[n]) == map["payload" := 0];
  }

  lemma LateRunBreaks(c: Config, gap: nat)
    requires c.maxAge + gap >= GRACE
    ensures var s := Execute(c, LateRun(c, gap));
            && "payload" in s.collected && Referenced(s.batches, "payload")
            && |s.passes| == 1 && s.passes[0].Deleting? && s.passes[0].clock - s.passes[0].start == gap
  {
    ListingRunState(c);
    ExecuteTicks(c, ListingRun(c), gap);
    var r6 := ListingRun(c) + Ticks(gap);
    ExecuteOne(c, r6, ReadClock(0));
    var r7 := r6 + [ReadClock(0)];
    assert "payload" in Execute(c, r7).passes[0].doomed;
    ExecuteOne(c, r7, Delete(0, "payload", true));
    var batches := map["batch" := BATCH];
    assert "batch" in batches && RefersTo(batches["batch"], "payload");
  }

  /** Every pass that has read its clock did so at most `gap` after listing the references. */
  ghost predicate WithinGap(s: State, gap: nat) {
    forall i :: 0 <= i < |s.passes| && s.passes[i].Deleting? ==> s.passes[i].clock - s.passes[i].start <= gap
  }

  /**
   Exactly when collecting is safe: the greatest age of a secret referred to anew, plus the time from the reference
   listing to the clock reading, stays strictly below 24 hours. At exactly 24 hours it is not: the deletion includes
   secrets that are exactly 24 hours old.
   */
  lemma CollectingIsSafeIff(c: Config, gap: nat)
    ensures c.maxAge + gap < 86400 <==>
            forall run, n :: WithinGap(Execute(c, run), gap) && n in Execute(c, run).collected ==> !Referenced(Execute(c, run).batches, n)
  {
    if c.maxAge + gap < GRACE {
      forall run, n | WithinGap(Execute(c, run), gap) && n in Execute(c, run).collected
        ensures !Referenced(Execute(c, run).batches, n)
      {
        CollectedIsUnreferenced(c, run, n);
      }
    } else {
      LateRunBreaks(c, gap);
      assert WithinGap(Execute(c, LateRun(c, gap)), gap);
    }
  }
}
