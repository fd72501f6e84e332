/**
 api-server/api/environments: users scale, stop and reset components by way of the replicas override in the latest
 RadixDeployment of an environment. Requests are handled one at a time; every API call may fail.
 */
module Overrides {
  import opened CaseFolding
  import opened Options
  import opened Search

  datatype Component = Component(name: string, replicasOverride: Option<int>)

  /** The part of a RadixDeployment that matters here: its components, and the names of its job components. */
  datatype Deployment = Deployment(components: seq<Component>, jobs: seq<string>)

  const MAX_SCALE_REPLICAS := 20

  datatype Error =
    | NegativeReplicas
    | MoreThanMaxReplicas
    | ApiFailure
    | NoDeployment
    | NonExistingComponent
    | JobComponentCanOnlyBeRestarted
    | CannotReset
    | CannotStop

  /** How the API answers while one component is handled: the reads, the status reported, and the patch. */
  datatype Reply = Reply(readOk: bool, stopped: bool, patchOk: bool)

  // ---- Finding a component ----

  ghost predicate IsFirst(fold: Folding, names: seq<string>, name: string, i: nat) {
    i < |names| && EqualFold(fold, names[i], name) && forall j :: 0 <= j < i ==> !EqualFold(fold, names[j], name)
  }

  function SameName(fold: Folding, name: string): string -> bool {
    x => EqualFold(fold, x, name)
  }

  /** The position of the first name equal up to case, or the length. */
  function First(fold: Folding, names: seq<string>, name: string): (i: nat)
    ensures i <= |names|
    ensures i < |names| ==> IsFirst(fold, names, name, i)
    ensures i == |names| ==> forall j :: 0 <= j < |names| ==> !EqualFold(fold, names[j], name)
  {
    FirstIndex(names, SameName(fold, name))
  }

  function Names(d: Deployment): seq<string> {
    seq(|d.components|, i requires 0 <= i < |d.components| => d.components[i].name)
  }

  /** The component that a request naming component `i` reaches: the first with its name, up to case. */
  function Reached(fold: Folding, d: Deployment, i: nat): (j: nat)
    requires i < |d.components|
    ensures j <= i
  {
    EqualFoldIsEquivalence(fold, d.components[i].name, d.components[i].name, d.components[i].name);
    assert Names(d)[i] == d.components[i].name;
    First(fold, Names(d), d.components[i].name)
  }

  /** No two components have the same name up to case, as the validation of radixconfig demands. */
  ghost predicate DistinctNames(fold: Folding, d: Deployment) {
    forall i, j :: 0 <= i < j < |d.components| ==> !EqualFold(fold, d.components[i].name, d.components[j].name)
  }

  lemma DistinctReachThemselves(fold: Folding, d: Deployment, i: nat)
    requires DistinctNames(fold, d) && i < |d.components|
    ensures Reached(fold, d, i) == i
  {
    var j := Reached(fold, d, i);
    assert IsFirst(fold, Names(d), d.components[i].name, j);
  }

  /** Where a request for a component goes. */
  datatype Target = ToComponent(index: nat) | ToJob | Nowhere(error: Error)

  /** getRadixCommonComponentUpdater */
  function Lookup(fold: Folding, deployments: map<string, Deployment>, env: string, name: string, readOk: bool): (t: Target)
    ensures t.ToComponent? ==> env in deployments && t.index < |deployments[env].components|
  {
    if !readOk then Nowhere(ApiFailure)
    else if env !in deployments then Nowhere(NoDeployment)
    else
      var d := deployments[env];
      var i := First(fold, Names(d), name);
      if i < |d.components| then ToComponent(i)
      else if First(fold, d.jobs, name) < |d.jobs| then ToJob
      else Nowhere(NonExistingComponent)
  }

  /** Component i is the first of the environment's whose name is `name` up to case. */
  ghost predicate FirstNamed(fold: Folding, deployments: map<string, Deployment>, env: string, name: string, i: nat) {
    && env in deployments && i < |deployments[env].components|
    && EqualFold(fold, deployments[env].components[i].name, name)
    && forall j :: 0 <= j < i ==> !EqualFold(fold, deployments[env].components[j].name, name)
  }

  ghost predicate HasComponent(fold: Folding, deployments: map<string, Deployment>, env: string, name: string) {
    env in deployments && exists i :: 0 <= i < |deployments[env].components| && EqualFold(fold, deployments[env].components[i].name, name)
  }

  ghost predicate HasJob(fold: Folding, deployments: map<string, Deployment>, env: string, name: string) {
    env in deployments && exists i :: 0 <= i < |deployments[env].jobs| && EqualFold(fold, deployments[env].jobs[i], name)
  }

  /** The answer to a request that names something which is no component, and to no other request. */
  ghost predicate RefusedAsFound(fold: Folding, deployments: map<string, Deployment>, env: string, name: string, readOk: bool, err: Option<Error>) {
    && (!readOk ==> err == Some(ApiFailure))
    && (err == Some(NoDeployment) <==> readOk && env !in deployments)
    && (err == Some(NonExistingComponent) <==>
         readOk && env in deployments && !HasComponent(fold, deployments, env, name) && !HasJob(fold, deployments, env, name))
    && (err == Some(JobComponentCanOnlyBeRestarted) <==>
         readOk && !HasComponent(fold, deployments, env, name) && HasJob(fold, deployments, env, name))
  }

  /** A lookup in plain terms. */
  lemma LookupMeans(fold: Folding, deployments: map<string, Deployment>, env: string, name: string, readOk: bool)
    ensures var t := Lookup(fold, deployments, env, name, readOk);
            && (t.ToComponent? <==> readOk && HasComponent(fold, deployments, env, name))
            && (forall i: nat :: readOk ==> (FirstNamed(fold, deployments, env, name, i) <==> t == ToComponent(i)))
            && (t.ToComponent? ==> FirstNamed(fold, deployments, env, name, t.index))
            && (t.ToJob? <==> readOk && !HasComponent(fold, deployments, env, name) && HasJob(fold, deployments, env, name))
            && (t.Nowhere? ==> RefusedAsFound(fold, deployments, env, name, readOk, Some(t.error)))
            && (t.Nowhere? ==> t.error == ApiFailure || t.error == NoDeployment || t.error == NonExistingComponent)
            && (t.ToJob? ==> RefusedAsFound(fold, deployments, env, name, readOk, Some(JobComponentCanOnlyBeRestarted)))
            && (t.ToComponent? ==> forall err :: err in {None, Some(ApiFailure), Some(CannotReset), Some(CannotStop)} ==>
                 RefusedAsFound(fold, deployments, env, name, readOk, err))
  {
    hide EqualFold;
    if env in deployments {
      var d := deployments[env];
      var n, m := First(fold, Names(d), name), First(fold, d.jobs, name);
      assert |Names(d)| == |d.components| && forall j :: 0 <= j < |d.components| ==> Names(d)[j] == d.components[j].name;
      if n < |d.components| { assert IsFirst(fold, Names(d), name, n); }
      if m < |d.jobs| { assert IsFirst(fold, d.jobs, name, m); }
    }
  }

  // ---- Legality ----

  predicate LegalOverride(o: Option<int>) {
    o.Some? ==> 0 <= o.value <= MAX_SCALE_REPLICAS
  }

  ghost predicate Legal(deployments: map<string, Deployment>) {
    forall e, i :: e in deployments && 0 <= i < |deployments[e].components| ==> LegalOverride(deployments[e].components[i].replicasOverride)
  }

  /** Only overrides changed: the environments, the components and their names, and the jobs are the same. */
  ghost predicate SameShape(a: map<string, Deployment>, b: map<string, Deployment>) {
    && a.Keys == b.Keys
    && forall e :: e in a ==> a[e].jobs == b[e].jobs && Names(a[e]) == Names(b[e])
  }

  function WithOverride(d: Deployment, i: nat, o: Option<int>): Deployment
    requires i < |d.components|
  {
    d.(components := d.components[i := d.components[i].(replicasOverride := o)])
  }

  /**
   One component's override has the value; every other override is as it was, in this environment and the others, and
   so are all names, the jobs and the order of the components.
   */
  ghost predicate OnlyOverrideChanged(a: map<string, Deployment>, b: map<string, Deployment>, env: string, i: nat, o: Option<int>) {
    && SameShape(a, b)
    && env in b && i < |b[env].components| && b[env].components[i].replicasOverride == o
    && forall e, j :: e in a && 0 <= j < |a[e].components| && (e != env || j != i) && j < |b[e].components| ==>
         b[e].components[j].replicasOverride == a[e].components[j].replicasOverride
  }

  /** This says all there is to say about the state after a patch. */
  lemma OnlyOverrideIff(a: map<string, Deployment>, b: map<string, Deployment>, env: string, i: nat, o: Option<int>)
    requires env in a && i < |a[env].components|
    ensures OnlyOverrideChanged(a, b, env, i, o) <==> b == a[env := WithOverride(a[env], i, o)]
  {
    var c := a[env := WithOverride(a[env], i, o)];
    if OnlyOverrideChanged(a, b, env, i, o) {
      forall e | e in a ensures b[e] == c[e] {
        NamesDetermine(a[e], b[e]);
        assert |b[e].components| == |c[e].components|;
        forall j | 0 <= j < |b[e].components| ensures b[e].components[j] == c[e].components[j] {
          assert b[e].components[j].name == a[e].components[j].name;
        }
        assert b[e].components == c[e].components;
      }
    }
    if b == c {
      assert Names(a[env]) == Names(b[env]);
    }
  }

  lemma NamesDetermine(d: Deployment, e: Deployment)
    requires Names(d) == Names(e)
    ensures |d.components| == |e.components| && forall j :: 0 <= j < |d.components| ==> d.components[j].name == e.components[j].name
  {
    assert |Names(d)| == |Names(e)|;
    forall j | 0 <= j < |d.components| ensures d.components[j].name == e.components[j].name {
      assert Names(d)[j] == Names(e)[j];
    }
  }

  lemma OverrideKeepsShape(a: map<string, Deployment>, env: string, i: nat, o: Option<int>)
    requires env in a && i < |a[env].components| && LegalOverride(o)
    ensures SameShape(a, a[env := WithOverride(a[env], i, o)])
    ensures Legal(a) ==> Legal(a[env := WithOverride(a[env], i, o)])
  {
    assert Names(a[env]) == Names(WithOverride(a[env], i, o));
  }

  // ---- Stopping and starting a whole environment ----

  /** Some component before the k-th led a stop request to component j. */
  ghost predicate StopRequested(fold: Folding, d: Deployment, replies: nat -> Reply, k: nat, j: nat)
    requires k <= |d.components|
  {
    exists i: nat :: i < k && Reached(fold, d, i) == j && !replies(i).stopped
  }

  /** StopEnvironment after its first k components. */
  ghost predicate StoppedUpTo(fold: Folding, d: Deployment, replies: nat -> Reply, k: nat, e: Deployment) {
    && k <= |d.components| && e.jobs == d.jobs && Names(e) == Names(d)
    && |e.components| == |d.components|
    && forall j: nat :: j < |d.components| ==>
         e.components[j].replicasOverride == if StopRequested(fold, d, replies, k, j) then Some(0) else d.components[j].replicasOverride
  }

  /** Some component before the k-th, at zero when the request came, led a reset to component j. */
  ghost predicate ResetRequested(fold: Folding, d: Deployment, k: nat, j: nat)
    requires k <= |d.components|
  {
    exists i: nat :: i < k && Reached(fold, d, i) == j && d.components[i].replicasOverride == Some(0)
  }

  /** ResetManuallyStoppedComponentsInEnvironment after its first k components. */
  ghost predicate StartedUpTo(fold: Folding, d: Deployment, k: nat, e: Deployment) {
    && k <= |d.components| && e.jobs == d.jobs && Names(e) == Names(d)
    && |e.components| == |d.components|
    && forall j: nat :: j < |d.components| ==>
         e.components[j].replicasOverride == if ResetRequested(fold, d, k, j) then None else d.components[j].replicasOverride
  }

  lemma SameNamesReach(fold: Folding, d: Deployment, e: Deployment, i: nat)
    requires Names(d) == Names(e) && i < |d.components|
    ensures |e.components| == |d.components| && e.components[i].name == d.components[i].name
    ensures Reached(fold, d, i) == Reached(fold, e, i) == First(fold, Names(e), d.components[i].name)
  {
    assert |Names(d)| == |Names(e)| && Names(d)[i] == Names(e)[i];
  }

  /** A request that names a component of `d` gets to the component its name reaches, as long as the names are those of `d`. */
  lemma LookupReaches(fold: Folding, deployments: map<string, Deployment>, env: string, d: Deployment, i: nat, readOk: bool)
    requires env in deployments && Names(d) == Names(deployments[env]) && i < |d.components|
    ensures Lookup(fold, deployments, env, d.components[i].name, readOk) ==
            if readOk then ToComponent(Reached(fold, d, i)) else Nowhere(ApiFailure)
    ensures |deployments[env].components| == |d.components|
  {
    SameNamesReach(fold, d, deployments[env], i);
  }

  lemma StopsNext(fold: Folding, d: Deployment, replies: nat -> Reply, k: nat, e: Deployment)
    requires StoppedUpTo(fold, d, replies, k, e) && k < |d.components|
    ensures replies(k).stopped ==> StoppedUpTo(fold, d, replies, k + 1, e)
    ensures !replies(k).stopped ==> StoppedUpTo(fold, d, replies, k + 1, WithOverride(e, Reached(fold, d, k), Some(0)))
  {
    hide Reached, Names;
    forall j: nat ensures StopRequested(fold, d, replies, k + 1, j) <==>
        StopRequested(fold, d, replies, k, j) || (Reached(fold, d, k) == j && !replies(k).stopped) {}
    if !replies(k).stopped { OverrideKeepsNames(e, Reached(fold, d, k), Some(0)); }
  }

  lemma ResetsNext(fold: Folding, d: Deployment, k: nat, e: Deployment)
    requires StartedUpTo(fold, d, k, e) && k < |d.components|
    ensures d.components[k].replicasOverride != Some(0) ==> StartedUpTo(fold, d, k + 1, e)
    ensures d.components[k].replicasOverride == Some(0) ==> StartedUpTo(fold, d, k + 1, WithOverride(e, Reached(fold, d, k), None))
  {
    hide Reached, Names;
    forall j: nat ensures ResetRequested(fold, d, k + 1, j) <==>
        ResetRequested(fold, d, k, j) || (Reached(fold, d, k) == j && d.components[k].replicasOverride == Some(0)) {}
    if d.components[k].replicasOverride == Some(0) { OverrideKeepsNames(e, Reached(fold, d, k), None); }
  }

  lemma OverrideKeepsNames(d: Deployment, i: nat, o: Option<int>)
    requires i < |d.components|
    ensures Names(WithOverride(d, i, o)) == Names(d)
  {
  }

  /** The API server's state: the latest RadixDeployment of each environment. */
  class EnvironmentHandler {
    const fold: Folding
    var deployments: map<string, Deployment>

    constructor (fold: Folding, deployments: map<string, Deployment>)
      ensures this.fold == fold && this.deployments == deployments
    {
      this.fold, this.deployments := fold, deployments;
    }

    /** GetDeploymentComponent: the first component with the name, up to case. */
    method FindComponent(d: Deployment, name: string) returns (i: nat)
      ensures i == First(fold, Names(d), name)
    {
      i := 0;
      while i < |d.components| && !EqualFold(fold, d.components[i].name, name)
        invariant i <= |d.components|
        invariant forall j :: 0 <= j < i ==> !EqualFold(fold, Names(d)[j], name)
      {
        assert Names(d)[i] == d.components[i].name;
        i := i + 1;
      }
      if i < |d.components| { assert Names(d)[i] == d.components[i].name; }
      assert |Names(d)| == |d.components|;
      var f := First(fold, Names(d), name);
      assert f < |Names(d)| ==> IsFirst(fold, Names(d), name, f);
    }

    method FindJob(jobs: seq<string>, name: string) returns (i: nat)
      ensures i == First(fold, jobs, name)
    {
      i := 0;
      while i < |jobs| && !EqualFold(fold, jobs[i], name)
        invariant i <= |jobs|
        invariant forall j :: 0 <= j < i ==> !EqualFold(fold, jobs[j], name)
      {
        i := i + 1;
      }
      var f := First(fold, jobs, name);
      assert f < |jobs| ==> IsFirst(fold, jobs, name, f);
    }

    method GetUpdater(env: string, name: string, reply: Reply) returns (t: Target)
      ensures t == Lookup(fold, deployments, env, name, reply.readOk)
    {
      if !reply.readOk {
        return Nowhere(ApiFailure);
      }
      if env !in deployments {
        return Nowhere(NoDeployment);
      }
      var i := FindComponent(deployments[env], name);
      if i < |deployments[env].components| {
        return ToComponent(i);
      }
      var j := FindJob(deployments[env].jobs, name);
      return if j < |deployments[env].jobs| then ToJob else Nowhere(NonExistingComponent);
    }

    /** patchRadixDeploymentWithReplicas */
    method Patch(env: string, i: nat, replicas: Option<int>, reply: Reply) returns (err: Option<Error>)
      requires env in deployments && i < |deployments[env].components|
      modifies this
      ensures err == if reply.patchOk then None else Some(ApiFailure)
      ensures err.None? ==> OnlyOverrideChanged(old(deployments), deployments, env, i, replicas)
      ensures err.Some? ==> deployments == old(deployments)
    {
      if reply.patchOk { OnlyOverrideIff(deployments, deployments[env := WithOverride(deployments[env], i, replicas)], env, i, replicas); }
      if !reply.patchOk {
        return Some(ApiFailure);
      }
      deployments := deployments[env := WithOverride(deployments[env], i, replicas)];
      return None;
    }

    /** ScaleComponent: only a component, only to 0..20, and nothing else changes. */
    method ScaleComponent(env: string, name: string, replicas: int, reply: Reply) returns (err: Option<Error>)
      modifies this
      ensures var t := Lookup(fold, old(deployments), env, name, reply.readOk);
              && (err.None? <==> 0 <= replicas <= MAX_SCALE_REPLICAS && t.ToComponent? && reply.patchOk)
              && (err.None? ==> deployments == old(deployments)[env := WithOverride(old(deployments)[env], t.index, Some(replicas))])
              && (err.Some? ==> deployments == old(deployments))
              && (replicas < 0 ==> err == Some(NegativeReplicas))
              && (replicas > MAX_SCALE_REPLICAS ==> err == Some(MoreThanMaxReplicas))
              && (0 <= replicas <= MAX_SCALE_REPLICAS && t.ToJob? ==> err == Some(JobComponentCanOnlyBeRestarted))
              && (0 <= replicas <= MAX_SCALE_REPLICAS && t.Nowhere? ==> err == Some(t.error))
      // In plain terms: who is reached, what changes, and why nothing does.
      ensures err.None? <==> 0 <= replicas <= 20 && reply.readOk && HasComponent(fold, old(deployments), env, name) && reply.patchOk
      ensures err.None? ==> forall i: nat :: FirstNamed(fold, old(deployments), env, name, i) ==>
                OnlyOverrideChanged(old(deployments), deployments, env, i, Some(replicas))
      ensures err.Some? ==> deployments == old(deployments)
      ensures err == Some(NegativeReplicas) <==> replicas < 0
      ensures err == Some(MoreThanMaxReplicas) <==> replicas > 20
      ensures 0 <= replicas <= 20 ==> RefusedAsFound(fold, old(deployments), env, name, reply.readOk, err)
    {
      hide Lookup, EqualFold, HasComponent, HasJob, FirstNamed, RefusedAsFound;
      LookupMeans(fold, deployments, env, name, reply.readOk);
      if replicas < 0 {
        return Some(NegativeReplicas);
      }
      if replicas > MAX_SCALE_REPLICAS {
        return Some(MoreThanMaxReplicas);
      }
      var t := GetUpdater(env, name, reply);
      match t
      case Nowhere(e) => return Some(e);
      case ToJob => return Some(JobComponentCanOnlyBeRestarted);
      case ToComponent(i) =>
        err := Patch(env, i, Some(replicas), reply);
        OnlyOverrideIff(old(deployments), deployments, env, i, Some(replicas));
    }

    /** ResetScaledComponent: removes an override; having none is an error unless it is to be ignored. */
    method ResetScaledComponent(env: string, name: string, ignoreStatus: bool, reply: Reply) returns (err: Option<Error>)
      modifies this
      ensures var t := Lookup(fold, old(deployments), env, name, reply.readOk);
              var scaled := t.ToComponent? && old(deployments)[env].components[t.index].replicasOverride.Some?;
              && (err.None? <==> t.ToComponent? && if scaled then reply.patchOk else ignoreStatus)
              && (deployments == if scaled && reply.patchOk
                                 then old(deployments)[env := WithOverride(old(deployments)[env], t.index, None)]
                                 else old(deployments))
              && (t.ToJob? ==> err == Some(JobComponentCanOnlyBeRestarted))
              && (t.Nowhere? ==> err == Some(t.error))
              && (t.ToComponent? && !scaled && !ignoreStatus ==> err == Some(CannotReset))
      // In plain terms.
      ensures forall i: nat :: reply.readOk && FirstNamed(fold, old(deployments), env, name, i) ==>
                if old(deployments)[env].components[i].replicasOverride == None
                then deployments == old(deployments) && err == (if ignoreStatus then None else Some(CannotReset))
                else if reply.patchOk then OnlyOverrideChanged(old(deployments), deployments, env, i, None) && err == None
                else deployments == old(deployments) && err == Some(ApiFailure)
      ensures !reply.readOk || !HasComponent(fold, old(deployments), env, name) ==> deployments == old(deployments) && err.Some?
      ensures RefusedAsFound(fold, old(deployments), env, name, reply.readOk, err)
    {
      hide Lookup, EqualFold, HasComponent, HasJob, FirstNamed, RefusedAsFound;
      LookupMeans(fold, deployments, env, name, reply.readOk);
      var t := GetUpdater(env, name, reply);
      match t
      case Nowhere(e) => return Some(e);
      case ToJob => return Some(JobComponentCanOnlyBeRestarted);
      case ToComponent(i) =>
        if deployments[env].components[i].replicasOverride.None? {
          return if ignoreStatus then None else Some(CannotReset);
        }
        err := Patch(env, i, None, reply);
        OnlyOverrideIff(old(deployments), deployments, env, i, None);
    }

    /** StopComponent: sets the override to zero unless the component is reported stopped. */
    method StopComponent(env: string, name: string, ignoreStatus: bool, reply: Reply) returns (err: Option<Error>)
      modifies this
      ensures var t := Lookup(fold, old(deployments), env, name, reply.readOk);
              && (err.None? <==> t.ToComponent? && if reply.stopped then ignoreStatus else reply.patchOk)
              && (deployments == if t.ToComponent? && !reply.stopped && reply.patchOk
                                 then old(deployments)[env := WithOverride(old(deployments)[env], t.index, Some(0))]
                                 else old(deployments))
              && (t.ToJob? ==> err == Some(JobComponentCanOnlyBeRestarted))
              && (t.Nowhere? ==> err == Some(t.error))
              && (t.ToComponent? && reply.stopped && !ignoreStatus ==> err == Some(CannotStop))
      // In plain terms.
      ensures forall i: nat :: reply.readOk && FirstNamed(fold, old(deployments), env, name, i) ==>
                if reply.stopped then deployments == old(deployments) && err == (if ignoreStatus then None else Some(CannotStop))
                else if reply.patchOk then OnlyOverrideChanged(old(deployments), deployments, env, i, Some(0)) && err == None
                else deployments == old(deployments) && err == Some(ApiFailure)
      ensures !reply.readOk || !HasComponent(fold, old(deployments), env, name) ==> deployments == old(deployments) && err.Some?
      ensures RefusedAsFound(fold, old(deployments), env, name, reply.readOk, err)
    {
      hide Lookup, EqualFold, HasComponent, HasJob, FirstNamed, RefusedAsFound;
      LookupMeans(fold, deployments, env, name, reply.readOk);
      var t := GetUpdater(env, name, reply);
      match t
      case Nowhere(e) => return Some(e);
      case ToJob => return Some(JobComponentCanOnlyBeRestarted);
      case ToComponent(i) =>
        if reply.stopped {
          return if ignoreStatus then None else Some(CannotStop);
        }
        err := Patch(env, i, Some(0), reply);
        OnlyOverrideIff(old(deployments), deployments, env, i, Some(0));
    }

    /**
     StopEnvironment: stops the components in order and gives up at the first failure; `done` tells how many were
     handled. The effect is exactly that of the requests made so far.
     */
    method StopEnvironment(env: string, readOk: bool, replies: nat -> Reply) returns (err: Option<Error>, ghost done: nat)
      modifies this
      ensures !readOk || env !in old(deployments) ==> err.Some? && deployments == old(deployments)
      ensures readOk && env in old(deployments) ==>
                && env in deployments && deployments == old(deployments)[env := deployments[env]]
                && StoppedUpTo(fold, old(deployments)[env], replies, done, deployments[env])
                && (err.None? <==> done == |old(deployments)[env].components|)
                && (err.Some? ==> !replies(done).readOk || !replies(done).patchOk)
    {
      done := 0;
      if !readOk {
        return Some(ApiFailure), 0;
      }
      if env !in deployments {
        return Some(NoDeployment), 0;
      }
      var rd := deployments[env];
      for k := 0 to |rd.components|
        invariant env in deployments && deployments == old(deployments)[env := deployments[env]]
        invariant StoppedUpTo(fold, rd, replies, k, deployments[env])
        invariant done == k
      {
        hide StoppedUpTo, Lookup, Reached, Names, FirstNamed, HasComponent, RefusedAsFound, OnlyOverrideChanged;
        StopsNext(fold, rd, replies, k, deployments[env]);
        NamesUpTo(fold, rd, replies, k, deployments[env]);
        LookupReaches(fold, deployments, env, rd, k, replies(k).readOk);
        err := StopComponent(env, rd.components[k].name, true, replies(k));
        if err.Some? {
          return;
        }
        done := done + 1;
      }
      return None, |rd.components|;
    }

    /** The body of the loop below: resets the component that the name of the k-th reaches. */
    method ResetNext(env: string, rd: Deployment, k: nat, reply: Reply) returns (err: Option<Error>)
      requires env in deployments && StartedUpTo(fold, rd, k, deployments[env])
      requires k < |rd.components| && rd.components[k].replicasOverride == Some(0)
      modifies this
      ensures env in deployments && deployments == old(deployments)[env := deployments[env]]
      ensures err.None? ==> StartedUpTo(fold, rd, k + 1, deployments[env])
      ensures err.Some? ==> deployments == old(deployments) && (!reply.readOk || !reply.patchOk)
    {
      hide StartedUpTo, Lookup, Reached, Names, FirstNamed, HasComponent, RefusedAsFound, OnlyOverrideChanged;
      ResetsNext(fold, rd, k, deployments[env]);
      StartNamesUpTo(fold, rd, k, deployments[env]);
      LookupReaches(fold, deployments, env, rd, k, reply.readOk);
      AlreadyReset(fold, rd, k, deployments[env]);
      err := ResetScaledComponent(env, rd.components[k].name, true, reply);
    }

    /** ResetManuallyStoppedComponentsInEnvironment: resets the components that were at zero when it began. */
    method StartEnvironment(env: string, readOk: bool, replies: nat -> Reply) returns (err: Option<Error>, ghost done: nat)
      modifies this
      ensures !readOk || env !in old(deployments) ==> err.Some? && deployments == old(deployments)
      ensures readOk && env in old(deployments) ==>
                && env in deployments && deployments == old(deployments)[env := deployments[env]]
                && StartedUpTo(fold, old(deployments)[env], done, deployments[env])
                && (err.None? <==> done == |old(deployments)[env].components|)
                && (err.Some? ==> !replies(done).readOk || !replies(done).patchOk)
    {
      done := 0;
      if !readOk {
        return Some(ApiFailure), 0;
      }
      if env !in deployments {
        return Some(NoDeployment), 0;
      }
      var rd := deployments[env];
      for k := 0 to |rd.components|
        invariant env in deployments && deployments == old(deployments)[env := deployments[env]]
        invariant StartedUpTo(fold, rd, k, deployments[env])
        invariant done == k
      {
        hide StartedUpTo;
        if rd.components[k].replicasOverride != Some(0) {
          ResetsNext(fold, rd, k, deployments[env]);
        } else {
          err := ResetNext(env, rd, k, replies(k));
          if err.Some? {
            return;
          }
        }
        done := done + 1;
      }
      return None, |rd.components|;
    }

    /**
     StopApplication: stops the environments in order and gives up at the first failure. If it succeeds each
     environment is as a stop of it alone leaves it; each of its components was reported stopped or has override zero
     exactly under the condition of StopLeavesEachStoppedIff.
     */
    method StopApplication(envs: seq<string>, listOk: bool, readOk: nat -> bool, replies: nat -> (nat -> Reply)) returns (err: Option<Error>)
      modifies this
      ensures SameShape(old(deployments), deployments)
      ensures Legal(old(deployments)) ==> Legal(deployments)
      ensures err.None? ==> forall p: nat :: p < |envs| ==>
                envs[p] in deployments && AllStopped(fold, deployments[envs[p]], replies(p))
      ensures err.None? && DistinctEnvs(envs) ==> forall p: nat :: p < |envs| ==>
                && WhollyStopped(fold, old(deployments), deployments, envs[p], replies(p))
                && (EachStopped(deployments[envs[p]], replies(p)) <==> StopReachesAll(fold, old(deployments)[envs[p]], replies(p)))
      ensures OthersUntouched(envs, old(deployments), deployments)
      ensures err.Some? ==> !listOk || exists p: nat :: p < |envs| && StepFails(old(deployments), envs[p], readOk(p), replies(p))
    {
      hide AllStopped, EachStopped, StopReachesAll, SameShape, Legal, Lookup, StoppedUpTo;
      SameShapeReflexive(deployments);
      if !listOk {
        return Some(ApiFailure);
      }
      for p := 0 to |envs|
        invariant SameShape(old(deployments), deployments) && OthersUntouched(envs[..p], old(deployments), deployments)
        invariant DistinctEnvs(envs) ==> forall q: nat :: q < p ==> WhollyStopped(fold, old(deployments), deployments, envs[q], replies(q))
        invariant Legal(old(deployments)) ==> Legal(deployments)
        invariant forall q: nat :: q < p ==> envs[q] in deployments && AllStopped(fold, deployments[envs[q]], replies(q))
      {
        ghost var before := deployments;
        ghost var done;
        err, done := StopEnvironment(envs[p], readOk(p), replies(p));
        if envs[p] in before && readOk(p) {
          StopKeeps(fold, before, envs[p], replies(p), done, deployments[envs[p]]);
          SameShapeTransitive(old(deployments), before, deployments);
          forall q: nat | q < p && envs[q] == envs[p] ensures AllStopped(fold, deployments[envs[q]], replies(q)) {
            StaysStopped(fold, before[envs[p]], replies(p), done, deployments[envs[p]], replies(q));
          }
        }
        if err.Some? {
          assert StepFails(before, envs[p], readOk(p), replies(p));
          SameEnvironments(old(deployments), before);
          return;
        }
        StopLeavesStopped(fold, before[envs[p]], replies(p), deployments[envs[p]]);
      }
      forall p: nat | p < |envs| && DistinctEnvs(envs)
        ensures EachStopped(deployments[envs[p]], replies(p)) <==> StopReachesAll(fold, old(deployments)[envs[p]], replies(p))
      {
        StopLeavesEachStoppedIff(fold, old(deployments)[envs[p]], replies(p), deployments[envs[p]]);
      }
      return None;
    }

    /** StartApplication: each environment ends as a start of it alone leaves it. */
    method StartApplication(envs: seq<string>, listOk: bool, readOk: nat -> bool, replies: nat -> (nat -> Reply)) returns (err: Option<Error>)
      modifies this
      ensures SameShape(old(deployments), deployments)
      ensures Legal(old(deployments)) ==> Legal(deployments)
      ensures err.None? ==> forall p: nat :: p < |envs| ==> envs[p] in deployments && NoneAtZero(fold, deployments[envs[p]])
      ensures err.None? && DistinctEnvs(envs) ==>
                forall p: nat :: p < |envs| ==> WhollyStarted(fold, old(deployments), deployments, envs[p])
      ensures OthersUntouched(envs, old(deployments), deployments)
      ensures err.Some? ==> !listOk || exists p: nat :: p < |envs| && StepFails(old(deployments), envs[p], readOk(p), replies(p))
    {
      hide NoneAtZero, SameShape, Legal, Lookup, StartedUpTo;
      SameShapeReflexive(deployments);
      if !listOk {
        return Some(ApiFailure);
      }
      for p := 0 to |envs|
        invariant SameShape(old(deployments), deployments) && OthersUntouched(envs[..p], old(deployments), deployments)
        invariant DistinctEnvs(envs) ==> forall q: nat :: q < p ==> WhollyStarted(fold, old(deployments), deployments, envs[q])
        invariant Legal(old(deployments)) ==> Legal(deployments)
        invariant forall q: nat :: q < p ==> envs[q] in deployments && NoneAtZero(fold, deployments[envs[q]])
      {
        ghost var before := deployments;
        ghost var done;
        err, done := StartEnvironment(envs[p], readOk(p), replies(p));
        if envs[p] in before && readOk(p) {
          StartKeeps(fold, before, envs[p], done, deployments[envs[p]]);
          SameShapeTransitive(old(deployments), before, deployments);
        }
        if err.Some? {
          assert StepFails(before, envs[p], readOk(p), replies(p));
          SameEnvironments(old(deployments), before);
          return;
        }
        StartLeavesNoZero(fold, before[envs[p]], deployments[envs[p]]);
      }
      return None;
    }

    /** Any sequence of requests: overrides stay legal, and nothing but overrides changes; jobs never gain one. */
    method Serve(requests: seq<Request>)
      modifies this
      ensures SameShape(old(deployments), deployments)
      ensures Legal(old(deployments)) ==> Legal(deployments)
    {
      hide SameShape, Legal, StoppedUpTo, StartedUpTo;
      SameShapeReflexive(deployments);
      for n := 0 to |requests|
        invariant SameShape(old(deployments), deployments)
        invariant Legal(old(deployments)) ==> Legal(deployments)
      {
        ghost var before := deployments;
        SameShapeReflexive(before);
        match requests[n] {
          case Scale(env, name, replicas, reply) =>
            ghost var t := Lookup(fold, before, env, name, reply.readOk);
            var err := ScaleComponent(env, name, replicas, reply);
            if err.None? { OverrideKeepsShape(before, env, t.index, Some(replicas)); }
          case Reset(env, name, ignoreStatus, reply) =>
            ghost var t := Lookup(fold, before, env, name, reply.readOk);
            if t.ToComponent? { OverrideKeepsShape(before, env, t.index, None); }
            var _ := ResetScaledComponent(env, name, ignoreStatus, reply);
          case Stop(env, name, ignoreStatus, reply) =>
            ghost var t := Lookup(fold, before, env, name, reply.readOk);
            if t.ToComponent? { OverrideKeepsShape(before, env, t.index, Some(0)); }
            var _ := StopComponent(env, name, ignoreStatus, reply);
          case StopAll(env, readOk, replies) =>
            ghost var done;
            var err;
            err, done := StopEnvironment(env, readOk, replies);
            if readOk && env in before { StopKeeps(fold, before, env, replies, done, deployments[env]); }
          case StartAll(env, readOk, replies) =>
            ghost var done;
            var err;
            err, done := StartEnvironment(env, readOk, replies);
            if readOk && env in before { StartKeeps(fold, before, env, done, deployments[env]); }
        }
        SameShapeTransitive(old(deployments), before, deployments);
      }
    }
  }

  /** Only the environments named were changed. */
  ghost predicate OthersUntouched(envs: seq<string>, a: map<string, Deployment>, b: map<string, Deployment>) {
    forall e :: e in a && e !in envs ==> e in b && a[e] == b[e]
  }

  ghost predicate DistinctEnvs(envs: seq<string>) {
    forall i, j :: 0 <= i < j < |envs| ==> envs[i] != envs[j]
  }

  /** A successful StopEnvironment leads from the one to the other. */
  ghost predicate WhollyStopped(fold: Folding, a: map<string, Deployment>, b: map<string, Deployment>, env: string, replies: nat -> Reply) {
    env in a && env in b && StoppedUpTo(fold, a[env], replies, |a[env].components|, b[env])
  }

  /** A successful ResetManuallyStoppedComponentsInEnvironment leads from the one to the other. */
  ghost predicate WhollyStarted(fold: Folding, a: map<string, Deployment>, b: map<string, Deployment>, env: string) {
    env in a && env in b && StartedUpTo(fold, a[env], |a[env].components|, b[env])
  }

  /** A reason for an environment's request to fail. */
  ghost predicate StepFails(a: map<string, Deployment>, env: string, readOk: bool, replies: nat -> Reply) {
    !readOk || env !in a || exists i: nat :: !replies(i).readOk || !replies(i).patchOk
  }

  datatype Request =
    | Scale(env: string, name: string, replicas: int, reply: Reply)
    | Reset(env: string, name: string, ignoreStatus: bool, reply: Reply)
    | Stop(env: string, name: string, ignoreStatus: bool, reply: Reply)
    | StopAll(env: string, readOk: bool, replies: nat -> Reply)
    | StartAll(env: string, readOk: bool, replies: nat -> Reply)

  lemma SameShapeReflexive(a: map<string, Deployment>)
    ensures SameShape(a, a)
  {
  }

  lemma SameEnvironments(a: map<string, Deployment>, b: map<string, Deployment>)
    requires SameShape(a, b)
    ensures a.Keys == b.Keys
  {
  }

  lemma SameShapeTransitive(a: map<string, Deployment>, b: map<string, Deployment>, c: map<string, Deployment>)
    requires SameShape(a, b) && SameShape(b, c)
    ensures SameShape(a, c)
  {
  }

  // ---- What a successful stop or start achieves ----

  /** Every component was reported stopped, or the one its name reaches has override zero. */
  ghost predicate AllStopped(fold: Folding, e: Deployment, replies: nat -> Reply) {
    forall i: nat :: i < |e.components| ==> replies(i).stopped || e.components[Reached(fold, e, i)].replicasOverride == Some(0)
  }

  lemma StopLeavesStopped(fold: Folding, d: Deployment, replies: nat -> Reply, e: Deployment)
    requires StoppedUpTo(fold, d, replies, |d.components|, e)
    ensures AllStopped(fold, e, replies)
  {
    forall i: nat | i < |e.components| ensures replies(i).stopped || e.components[Reached(fold, e, i)].replicasOverride == Some(0) {
      SameNamesReach(fold, d, e, i);
      if !replies(i).stopped { assert StopRequested(fold, d, replies, |d.components|, Reached(fold, d, i)); }
    }
  }

  /** Every component itself was reported stopped or has override zero. */
  ghost predicate EachStopped(e: Deployment, replies: nat -> Reply) {
    forall i: nat :: i < |e.components| ==> replies(i).stopped || e.components[i].replicasOverride == Some(0)
  }

  /** Every component to stop is at zero already, or is the one that its own name reaches. */
  ghost predicate StopReachesAll(fold: Folding, d: Deployment, replies: nat -> Reply) {
    forall i: nat :: i < |d.components| && !replies(i).stopped ==>
      Reached(fold, d, i) == i || d.components[i].replicasOverride == Some(0)
  }

  /**
   A successful stop leaves every component itself reported stopped or at zero, exactly if each one to stop is reached
   by its own name or was at zero before: with distinct names always.
   */
  lemma StopLeavesEachStoppedIff(fold: Folding, d: Deployment, replies: nat -> Reply, e: Deployment)
    requires StoppedUpTo(fold, d, replies, |d.components|, e)
    ensures EachStopped(e, replies) <==> StopReachesAll(fold, d, replies)
    ensures DistinctNames(fold, d) ==> StopReachesAll(fold, d, replies)
  {
    hide Reached, DistinctNames, Names;
    var n := |d.components|;
    forall i: nat | i < n && !replies(i).stopped
      ensures e.components[i].replicasOverride == Some(0) <==> Reached(fold, d, i) == i || d.components[i].replicasOverride == Some(0)
    {
      if Reached(fold, d, i) == i {
        assert StopRequested(fold, d, replies, n, i);
      } else {
        NotReached(fold, d, i);
        assert !StopRequested(fold, d, replies, n, i);
      }
    }
    if DistinctNames(fold, d) {
      forall i: nat | i < n ensures Reached(fold, d, i) == i { DistinctReachThemselves(fold, d, i); }
    }
  }

  /** Stopping again, even in part, undoes no stop. */
  lemma StaysStopped(fold: Folding, d: Deployment, replies: nat -> Reply, k: nat, e: Deployment, earlier: nat -> Reply)
    requires StoppedUpTo(fold, d, replies, k, e) && AllStopped(fold, d, earlier)
    ensures AllStopped(fold, e, earlier)
  {
    forall i: nat | i < |e.components| ensures earlier(i).stopped || e.components[Reached(fold, e, i)].replicasOverride == Some(0) {
      SameNamesReach(fold, d, e, i);
    }
  }

  lemma StopKeeps(fold: Folding, a: map<string, Deployment>, env: string, replies: nat -> Reply, k: nat, e: Deployment)
    requires env in a && StoppedUpTo(fold, a[env], replies, k, e)
    ensures SameShape(a, a[env := e]) && (Legal(a) ==> Legal(a[env := e]))
  {
  }

  lemma StartKeeps(fold: Folding, a: map<string, Deployment>, env: string, k: nat, e: Deployment)
    requires env in a && StartedUpTo(fold, a[env], k, e)
    ensures SameShape(a, a[env := e]) && (Legal(a) ==> Legal(a[env := e]))
  {
  }

  /** With distinct names: each component reported stopped or at zero, and all others as they were. */
  lemma StopIsExact(fold: Folding, d: Deployment, replies: nat -> Reply, e: Deployment, i: nat)
    requires StoppedUpTo(fold, d, replies, |d.components|, e) && DistinctNames(fold, d) && i < |d.components|
    ensures e.components[i].replicasOverride == if replies(i).stopped then d.components[i].replicasOverride else Some(0)
  {
    DistinctReachThemselves(fold, d, i);
    forall m: nat | m < |d.components| ensures Reached(fold, d, m) == m { DistinctReachThemselves(fold, d, m); }
    if !replies(i).stopped { assert StopRequested(fold, d, replies, |d.components|, i); }
  }

  /** No component that a name can reach is at zero. */
  ghost predicate NoneAtZero(fold: Folding, e: Deployment) {
    forall i: nat :: i < |e.components| && Reached(fold, e, i) == i ==> e.components[i].replicasOverride != Some(0)
  }

  lemma StartLeavesNoZero(fold: Folding, d: Deployment, e: Deployment)
    requires StartedUpTo(fold, d, |d.components|, e)
    ensures NoneAtZero(fold, e)
  {
    forall i: nat | i < |e.components| && Reached(fold, e, i) == i ensures e.components[i].replicasOverride != Some(0) {
      SameNamesReach(fold, d, e, i);
      if d.components[i].replicasOverride == Some(0) { assert ResetRequested(fold, d, |d.components|, i); }
    }
  }

  /**
   A successful start leaves no override at zero and every other as it was, exactly if each component that was at zero
   is the one its own name reaches: with names distinct up to case always, otherwise the wrong component is reset.
   */
  lemma StartIsExactIff(fold: Folding, d: Deployment, e: Deployment)
    requires StartedUpTo(fold, d, |d.components|, e)
    ensures (forall i: nat :: i < |d.components| && d.components[i].replicasOverride == Some(0) ==> Reached(fold, d, i) == i) <==>
            (forall i: nat :: i < |d.components| ==>
               e.components[i].replicasOverride ==
                 if d.components[i].replicasOverride == Some(0) then None else d.components[i].replicasOverride)
    ensures DistinctNames(fold, d) ==>
              forall i: nat :: i < |d.components| && d.components[i].replicasOverride == Some(0) ==> Reached(fold, d, i) == i
  {
    var n := |d.components|;
    if forall i: nat :: i < n && d.components[i].replicasOverride == Some(0) ==> Reached(fold, d, i) == i {
      forall i: nat | i < n
        ensures e.components[i].replicasOverride ==
                if d.components[i].replicasOverride == Some(0) then None else d.components[i].replicasOverride
      {
        if d.components[i].replicasOverride == Some(0) { assert ResetRequested(fold, d, n, i); }
      }
    } else {
      var i: nat :| i < n && d.components[i].replicasOverride == Some(0) && Reached(fold, d, i) != i;
      NotReached(fold, d, i);
      assert !ResetRequested(fold, d, n, i);
    }
    if DistinctNames(fold, d) {
      forall i: nat | i < n ensures Reached(fold, d, i) == i { DistinctReachThemselves(fold, d, i); }
    }
  }

  /** A component that its own name does not reach, no name reaches. */
  lemma NotReached(fold: Folding, d: Deployment, i: nat)
    requires i < |d.components| && Reached(fold, d, i) != i
    ensures forall m: nat :: m < |d.components| ==> Reached(fold, d, m) != i
  {
    forall m: nat | m < |d.components| ensures Reached(fold, d, m) != i {
      var j := Reached(fold, d, i);
      var x, y := d.components[i].name, d.components[m].name;
      assert IsFirst(fold, Names(d), x, j);
      if Reached(fold, d, m) == i {
        assert IsFirst(fold, Names(d), y, i);
        EqualFoldIsEquivalence(fold, x, y, Names(d)[j]);
        EqualFoldIsEquivalence(fold, x, Names(d)[j], x);
        EqualFoldIsEquivalence(fold, y, Names(d)[j], y);
      }
    }
  }

  // ---- Two components of one name ----

  function Twins(first: Option<int>, second: Option<int>): Deployment {
    Deployment([Component("a", first), Component("a", second)], [])
  }

  lemma TwinsReachTheFirst(fold: Folding, first: Option<int>, second: Option<int>)
    ensures Reached(fold, Twins(first, second), 0) == 0 && Reached(fold, Twins(first, second), 1) == 0
  {
    var d := Twins(first, second);
    assert IsFirst(fold, Names(d), "a", 0);
  }

  /** A start leaves the second of two components of one name at zero, although it succeeds. */
  lemma SecondTwinIsNotStarted(fold: Folding)
    ensures var d := Twins(None, Some(0)); StartedUpTo(fold, d, 2, d) && !DistinctNames(fold, d)
  {
    var d := Twins(None, Some(0));
    TwinsReachTheFirst(fold, None, Some(0));
    forall j: nat | j < 2 ensures ResetRequested(fold, d, 2, j) <==> j == 0 {
      if j == 0 { assert Reached(fold, d, 1) == 0 && d.components[1].replicasOverride == Some(0); }
      if i: nat :| i < 2 && Reached(fold, d, i) == j { assert j == 0; }
    }
  }

  /** A stop leaves it running, although it succeeds and neither was reported stopped. */
  lemma SecondTwinIsNotStopped(fold: Folding, replies: nat -> Reply)
    requires !replies(0).stopped && !replies(1).stopped
    ensures var d, e := Twins(None, None), Twins(Some(0), None); StoppedUpTo(fold, d, replies, 2, e) && !EachStopped(e, replies)
  {
    var d, e := Twins(None, None), Twins(Some(0), None);
    TwinsReachTheFirst(fold, None, None);
    assert e.components[1].replicasOverride == None;
    assert Names(e) == Names(d);
    forall j: nat | j < 2 ensures StopRequested(fold, d, replies, 2, j) <==> j == 0 {
      if j == 0 { assert Reached(fold, d, 0) == 0 && !replies(0).stopped; }
      if i: nat :| i < 2 && Reached(fold, d, i) == j { assert j == 0; }
    }
  }

  lemma NamesUpTo(fold: Folding, d: Deployment, replies: nat -> Reply, k: nat, e: Deployment)
    requires StoppedUpTo(fold, d, replies, k, e)
    ensures Names(e) == Names(d) && |e.components| == |d.components|
  {
  }

  lemma StartNamesUpTo(fold: Folding, d: Deployment, k: nat, e: Deployment)
    requires StartedUpTo(fold, d, k, e)
    ensures Names(e) == Names(d) && |e.components| == |d.components|
  {
  }

  /** If the component reached has no override any more, resetting it changes nothing. */
  lemma AlreadyReset(fold: Folding, d: Deployment, k: nat, e: Deployment)
    requires StartedUpTo(fold, d, k, e) && k < |d.components| && Reached(fold, d, k) < |e.components|
    ensures e.components[Reached(fold, d, k)].replicasOverride.None? ==> WithOverride(e, Reached(fold, d, k), None) == e
  {
  }
}
