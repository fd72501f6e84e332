/**
 job-scheduler/internal/cronserver/cronserver.go: the callbacks of all schedules of a cron job take one mutex, list
 the cron batches, and create a new one as the concurrency policy allows. Meanwhile batches start, finish, are
 stopped by users or deleted.
 */
module CronServer {

  /** The condition of a batch; a batch just created shows Waiting (or nothing) until the operator has synced it. */
  datatype Condition = Waiting | Active | Completed

  /** A cron batch, and whether a stop request for all its jobs was accepted. */
  datatype Batch = Batch(condition: Condition, stopRequested: bool)

  const ALLOW := "Allow"
  const FORBID := "Forbid"
  const REPLACE := "Replace"

  type Batches = map<string, Batch>

  /** The batch runs or will run, and nobody asked it to stop. */
  predicate Live(b: Batch) {
    !b.condition.Completed? && !b.stopRequested
  }

  /** What can happen to a batch without the cron server: it starts, it finishes, a user stops it. */
  predicate Advances(a: Batch, b: Batch) {
    && (a.stopRequested ==> b.stopRequested)
    && (a.condition.Active? ==> !b.condition.Waiting?)
    && (a.condition.Completed? ==> b.condition.Completed?)
  }

  /** Batches advance or disappear; nobody else creates cron batches. */
  predicate Evolved(a: Batches, b: Batches) {
    forall x :: x in b ==> x in a && Advances(a[x], b[x])
  }

  ghost predicate AtMostOneLive(a: Batches) {
    forall x, y :: x in a && y in a && Live(a[x]) && Live(a[y]) ==> x == y
  }

  /** Every live batch shows that it has started; one that was asked to stop may still be Waiting. */
  predicate Settled(a: Batches) {
    forall x :: x in a && Live(a[x]) ==> !a[x].condition.Waiting?
  }

  lemma EvolvedTransitive(a: Batches, b: Batches, c: Batches)
    requires Evolved(a, b) && Evolved(b, c)
    ensures Evolved(a, c)
  {
  }

  lemma EvolvedLive(a: Batches, b: Batches)
    requires Evolved(a, b)
    ensures forall x :: x in b && Live(b[x]) ==> Live(a[x])
    ensures AtMostOneLive(a) ==> AtMostOneLive(b)
  {
  }

  /**
   When a batch may be created: `listed` are the batches as the callback listed them, `now` as they are at the creation.
   Under Forbid none was Active; under Replace each that was Active has been asked to stop since. A value that is none
   of the three is treated as Forbid.
   */
  ghost predicate MayCreate(concurrency: string, listed: Batches, now: Batches) {
    || concurrency == ALLOW
    || (forall x :: !ShowsActive(listed, x))
    || (concurrency == REPLACE && forall x :: ShowsActive(listed, x) && x in now ==> now[x].stopRequested)
  }

  /** Under any policy but Allow, the batches still live when one is created were all still Waiting when listed. */
  lemma LiveAtCreationWasWaiting(concurrency: string, listed: Batches, now: Batches, x: string)
    requires Evolved(listed, now) && MayCreate(concurrency, listed, now) && concurrency != ALLOW
    requires x in now && Live(now[x])
    ensures listed[x].condition == Waiting
  {
  }

  /** Creating keeps at most one batch live exactly if none is live at that moment. */
  lemma CreatingIsSafeIff(now: Batches, name: string)
    requires name !in now
    ensures AtMostOneLive(now[name := Batch(Waiting, false)]) <==> forall x :: x in now ==> !Live(now[x])
  {
    var next := now[name := Batch(Waiting, false)];
    if AtMostOneLive(next) {
      forall x | x in now ensures !Live(now[x]) {
        assert next[x] == now[x] && x != name && Live(next[name]);
      }
    }
  }

  predicate ShowsActive(listed: Batches, x: string) {
    x in listed && listed[x].condition.Active?
  }

  /** Why a request to stop a batch fails: it is gone or has finished, or the API refused or failed. */
  predicate CannotStop(now: Batches, stops: string -> StopReply, x: string) {
    x !in now || now[x].condition.Completed? || !stops(x).accepted || !stops(x).ok
  }

  /** The stop requests sent meanwhile: none unless the policy is Replace, and then only to batches listed as Active. */
  ghost predicate SendsOnly(concurrency: string, listed: Batches, before: seq<string>, after: seq<string>) {
    && before <= after
    && forall i :: |before| <= i < |after| ==> concurrency == REPLACE && ShowsActive(listed, after[i])
  }

  lemma SentToActive(concurrency: string, listed: Batches, before: seq<string>, after: seq<string>)
    requires SendsOnly(concurrency, listed, before, after)
    ensures forall x :: x in after[|before|..] ==> concurrency == "Replace" && x in listed && listed[x].condition == Active
  {
  }

  /** How the API answers a callback; a stop request may be accepted although the reply is an error. */
  datatype StopReply = StopReply(accepted: bool, ok: bool)
  datatype Firing = Firing(cancelled: bool, listOk: bool, stops: string -> StopReply, name: string, creates: bool)

  /**
   What a callback may come to, given the batches as it listed them and as they are at its end: it creates a batch only
   if it may, and it leaves that only for a reason.
   */
  ghost predicate Outcome(concurrency: string, f: Firing, listed: Batches, now: Batches, created: bool) {
    && Evolved(listed, now)
    && (created ==> !f.cancelled && f.listOk && f.creates && f.name !in now && MayCreate(concurrency, listed, now))
    && (!created && !f.cancelled ==>
         || !f.listOk || !f.creates || f.name in now
         || (concurrency == REPLACE && exists x :: ShowsActive(listed, x) && CannotStop(now, f.stops, x))
         || (concurrency != ALLOW && concurrency != REPLACE && exists x :: ShowsActive(listed, x)))
  }

  /** The batches after a callback. */
  function After(f: Firing, now: Batches, created: bool): Batches {
    if created then now[f.name := Batch(Waiting, false)] else now
  }

  /** Whatever a callback meets that starts with these batches, at most one batch is live at its end. */
  ghost predicate SafeToFire(concurrency: string, before: Batches) {
    forall f, listed, now, created :: Evolved(before, listed) && Outcome(concurrency, f, listed, now, created) ==> AtMostOneLive(After(f, now, created))
  }

  lemma SettledIsSafe(concurrency: string, before: Batches, f: Firing, listed: Batches, now: Batches, created: bool)
    requires concurrency != ALLOW && AtMostOneLive(before) && Settled(before)
    requires Evolved(before, listed) && Outcome(concurrency, f, listed, now, created)
    ensures AtMostOneLive(After(f, now, created))
  {
    hide Advances;
    EvolvedTransitive(before, listed, now);
    EvolvedLive(before, now);
    EvolvedLive(listed, now);
    EvolvedLive(before, listed);
    if created {
      forall x | x in now ensures !Live(now[x]) {
        if Live(now[x]) {
          LiveAtCreationWasWaiting(concurrency, listed, now, x);
          WaitingWasWaiting(before, listed, x);
        }
      }
      CreatingIsSafeIff(now, f.name);
    }
  }

  lemma WaitingWasWaiting(a: Batches, b: Batches, x: string)
    requires Evolved(a, b) && x in b && b[x].condition.Waiting?
    ensures a[x].condition.Waiting?
  {
  }

  /** A firing that nothing gets in the way of. */
  function SmoothFiring(name: string): Firing {
    Firing(false, true, _ => StopReply(true, true), name, true)
  }

  /**
   A live batch that shows Waiting is overlooked: a callback that lists it when no batch is Active, and that nothing
   else gets in the way of, does create a second live batch beside it, under any policy.
   */
  lemma WaitingIsOverlooked(concurrency: string, listed: Batches, now: Batches, x: string, f: Firing, created: bool)
    requires Outcome(concurrency, f, listed, now, created)
    requires !f.cancelled && f.listOk && f.creates && f.name !in now
    requires forall y :: y in listed ==> listed[y].condition != Active
    requires x in now && now[x].condition != Completed && !now[x].stopRequested
    ensures created && After(f, now, created) == now[f.name := Batch(Waiting, false)] && !AtMostOneLive(After(f, now, created))
  {
    CreatingIsSafeIff(now, f.name);
  }

  /**
   Exactly when a callback is safe, in terms of what is there before it takes the mutex: unless the policy is Allow, and
   with at most one batch live, if and only if that one does not show Waiting.
   */
  lemma FiringIsSafeIff(concurrency: string, before: Batches)
    requires concurrency != ALLOW && AtMostOneLive(before)
    ensures SafeToFire(concurrency, before) <==> Settled(before)
    ensures SafeToFire(concurrency, before) <==> forall x :: x in before && before[x].condition == Waiting ==> before[x].stopRequested
  {
    if Settled(before) {
      forall f, listed, now, created | Evolved(before, listed) && Outcome(concurrency, f, listed, now, created)
        ensures AtMostOneLive(After(f, now, created))
      {
        SettledIsSafe(concurrency, before, f, listed, now, created);
      }
    } else {
      var x :| x in before && Live(before[x]) && before[x].condition.Waiting?;
      var only: Batches := map[x := before[x]];
      var f := SmoothFiring(x + "x");
      assert f.name !in only by { assert |f.name| > |x|; }
      assert forall y :: !ShowsActive(only, y);
      assert Evolved(before, only) && Outcome(concurrency, f, only, only, true);
      WaitingIsOverlooked(concurrency, only, only, x, f, true);
    }
  }

  /** Under Allow a callback is safe exactly if no batch is live before it. */
  lemma AllowIsSafeIff(before: Batches)
    ensures SafeToFire("Allow", before) <==> forall x :: x in before ==> before[x].condition == Completed || before[x].stopRequested
  {
    if x :| x in before && Live(before[x]) {
      var only: Batches := map[x := before[x]];
      var f := SmoothFiring(x + "x");
      assert f.name !in only by { assert |f.name| > |x|; }
      assert Evolved(before, only) && Outcome(ALLOW, f, only, only, true);
      CreatingIsSafeIff(only, f.name);
    } else {
      forall f, listed, now, created | Evolved(before, listed) && Outcome(ALLOW, f, listed, now, created)
        ensures AtMostOneLive(After(f, now, created))
      {
        EvolvedTransitive(before, listed, now);
        EvolvedLive(before, now);
        if created { CreatingIsSafeIff(now, f.name); }
      }
    }
  }

  class Server {
    const concurrency: string
    var batches: Batches
    /** Every state of the batches so far. */
    ghost var history: seq<Batches>
    /** The stop requests that callbacks have sent so far. */
    ghost var sent: seq<string>

    constructor (concurrency: string, batches: Batches)
      ensures this.concurrency == concurrency && this.batches == batches && history == [batches] && sent == []
    {
      this.concurrency, this.batches, history, sent := concurrency, batches, [batches], [];
    }

    ghost predicate Valid()
      reads this
    {
      history != [] && history[|history|-1] == batches
    }

    /** Other parties change the batches in any way they can. */
    method Drift()
      requires Valid()
      modifies this`batches, this`history
      ensures Valid() && Evolved(old(batches), batches)
      ensures history == old(history) + [batches]
    {
      var next :| Evolved(batches, next);
      batches := next;
      history := history + [batches];
    }

    /** findActiveCronBatches: the names of the batches that show Active when they are listed. */
    method FindActiveCronBatches() returns (active: seq<string>)
      ensures forall x :: x in active <==> x in batches && batches[x].condition == Active
    {
      active := [];
      var todo := batches.Keys;
      while todo != {}
        invariant todo <= batches.Keys
        invariant forall x :: x in active <==> x !in todo && ShowsActive(batches, x)
        decreases |todo|
      {
        var x :| x in todo;
        todo := todo - {x};
        if batches[x].condition.Active? {
          active := active + [x];
        }
      }
    }

    /** StopRadixBatchJob for a whole batch: refused unless the batch exists and can still be stopped. */
    method StopRadixBatch(name: string, reply: StopReply) returns (ok: bool)
      requires Valid()
      modifies this
      ensures Valid() && Evolved(old(batches), batches) && history == old(history) + [batches]
      ensures sent == old(sent) + [name]
      ensures ok <==> name in batches && !batches[name].condition.Completed? && reply.accepted && reply.ok
      ensures ok ==> batches[name].stopRequested
      ensures forall x :: x in batches && x != name ==> batches[x] == old(batches)[x]
    {
      sent := sent + [name];
      ok := name in batches && !batches[name].condition.Completed? && reply.accepted && reply.ok;
      if name in batches && !batches[name].condition.Completed? && reply.accepted {
        batches := batches[name := batches[name].(stopRequested := true)];
      }
      history := history + [batches];
    }

    /** stopBatchJobs: requests a stop of each batch, giving up at the first error. */
    method StopBatchJobs(names: seq<string>, stops: string -> StopReply) returns (ok: bool)
      requires Valid()
      modifies this
      ensures Valid() && Evolved(old(batches), batches)
      ensures old(history) <= history && forall i :: |old(history)| <= i < |history| ==> Evolved(old(batches), history[i])
      ensures ok ==> forall x :: x in names && x in batches ==> batches[x].stopRequested
      ensures !ok ==> exists x :: x in names && CannotStop(batches, stops, x)
      ensures ok ==> sent == old(sent) + names
      ensures !ok ==> exists k :: 0 <= k < |names| && sent == old(sent) + names[..k+1] && CannotStop(batches, stops, names[k])
      ensures old(sent) <= sent <= old(sent) + names
    {
      for i := 0 to |names|
        invariant sent == old(sent) + names[..i]
        invariant Valid() && Evolved(old(batches), batches)
        invariant old(history) <= history && forall k :: |old(history)| <= k < |history| ==> Evolved(old(batches), history[k])
        invariant forall k :: 0 <= k < i && names[k] in batches ==> batches[names[k]].stopRequested
      {
        ghost var before := batches;
        Drift();
        EvolvedTransitive(old(batches), before, batches);
        ghost var drifted := batches;
        ok := StopRadixBatch(names[i], stops(names[i]));
        EvolvedTransitive(old(batches), drifted, batches);
        assert names[..i+1] == names[..i] + [names[i]];
        if !ok {
          assert names[i] in names && CannotStop(batches, stops, names[i]);
          assert names == names[..i+1] + names[i+1..];
          return;
        }
      }
      assert names[..|names|] == names;
      ok := true;
    }

    /**
     shouldRun; `listed` are the batches as they were listed. It declines only for the reasons it should, and sends a
     stop request only under Replace, and only to a batch listed as Active.
     */
    method ShouldRun(listOk: bool, stops: string -> StopReply) returns (run: bool, ghost listed: Batches)
      requires Valid()
      modifies this
      ensures Valid() && Evolved(old(batches), listed) && Evolved(listed, batches)
      ensures old(history) <= history && forall i :: |old(history)| <= i < |history| ==> Evolved(old(batches), history[i])
      ensures run ==> listOk && MayCreate(concurrency, listed, batches)
      ensures !run && listOk ==> (exists x :: ShowsActive(listed, x)) && concurrency != "Allow"
      ensures run && concurrency != "Allow" && concurrency != "Replace" ==> forall x :: x in listed ==> listed[x].condition != Active
      ensures |old(sent)| <= |sent|
      ensures run && concurrency == "Replace" ==> forall x :: x in listed && listed[x].condition == Active ==> x in sent[|old(sent)|..]
      ensures !run && listOk && concurrency == REPLACE ==> exists x :: ShowsActive(listed, x) && CannotStop(batches, stops, x)
      ensures SendsOnly(concurrency, listed, old(sent), sent)
    {
      Drift();
      listed := batches;
      if !listOk {
        return false, listed;
      }
      var active := FindActiveCronBatches();
      if |active| == 0 {
        assert forall x :: ShowsActive(listed, x) ==> x in active;
        return true, listed;
      }
      assert ShowsActive(listed, active[0]);
      if concurrency == FORBID {
        return false, listed;
      } else if concurrency == REPLACE {
        var ok := StopBatchJobs(active, stops);
        forall i | |old(history)| <= i < |history| ensures Evolved(old(batches), history[i]) {
          if i > |old(history)| { EvolvedTransitive(old(batches), listed, history[i]); }
        }
        return ok, listed;
      } else if concurrency == ALLOW {
        return true, listed;
      } else {
        return false, listed;
      }
    }

    /** What a schedule runs when it fires: everything between Lock and Unlock. Other callbacks wait. */
    method Callback(f: Firing) returns (ghost listed: Batches, ghost now: Batches, ghost created: bool)
      requires Valid()
      modifies this
      ensures Valid() && old(history) <= history
      ensures Evolved(old(batches), listed) && Outcome(concurrency, f, listed, now, created)
      ensures batches == After(f, now, created)
      ensures f.cancelled ==> batches == old(batches) && sent == old(sent)
      // In plain terms: what stands in the way of a creation, and what does not.
      ensures created ==> !f.cancelled && f.listOk && f.creates && f.name !in now && batches == now[f.name := Batch(Waiting, false)]
      ensures !f.cancelled && f.listOk && f.creates && f.name !in now && (forall x :: x in listed ==> listed[x].condition != Active) ==> created
      ensures !f.cancelled && f.listOk && f.creates && f.name !in now && concurrency == "Allow" ==> created
      ensures concurrency != "Allow" && concurrency != "Replace" && (exists x :: x in listed && listed[x].condition == Active) ==> !created
      ensures |old(sent)| <= |sent|
      ensures concurrency == "Replace" && created ==>
                forall x :: x in listed && listed[x].condition == Active ==> x in sent[|old(sent)|..] && (x in now ==> now[x].stopRequested)
      ensures concurrency == "Replace" && !f.cancelled && f.listOk && f.creates && f.name !in now && !created ==>
                exists x :: x in listed && listed[x].condition == Active &&
                  (x !in now || now[x].condition == Completed || !f.stops(x).accepted || !f.stops(x).ok)
      ensures old(sent) <= sent
      ensures forall x :: x in sent[|old(sent)|..] ==> concurrency == "Replace" && x in listed && listed[x].condition == Active
      ensures SendsOnly(concurrency, listed, old(sent), sent)
      ensures AtMostOneLive(old(batches)) && Settled(old(batches)) && concurrency != ALLOW ==>
                AtMostOneLive(batches) && forall i :: |old(history)| <= i < |history| ==> AtMostOneLive(history[i])
    {
      listed, now, created := batches, batches, false;
      if f.cancelled {
        return;
      }
      var run;
      run, listed := ShouldRun(f.listOk, f.stops);
      now := batches;
      SentToActive(concurrency, listed, old(sent), sent);
      forall i | |old(history)| <= i < |history| && AtMostOneLive(old(batches)) ensures AtMostOneLive(history[i]) {
        EvolvedLive(old(batches), history[i]);
      }
      if !run || !f.creates || f.name in batches {
        return;
      }
      created := true;
      batches := batches[f.name := Batch(Waiting, false)];
      history := history + [batches];
      if concurrency != ALLOW && AtMostOneLive(old(batches)) && Settled(old(batches)) {
        SettledIsSafe(concurrency, old(batches), f, listed, now, created);
      }
    }

    /** The live batches get to show Active, or finish, before the next callback takes the mutex. */
    method Settle()
      requires Valid()
      modifies this
      ensures Valid() && Evolved(old(batches), batches) && Settled(batches)
      ensures history == old(history) + [batches]
    {
      assert Evolved(batches, map x | x in batches :: if batches[x].condition.Waiting? then batches[x].(condition := Active) else batches[x]);
      var next :| Evolved(batches, next) && Settled(next);
      batches := next;
      history := history + [batches];
    }

    /**
     All schedules, in whatever order their callbacks get the mutex: unless the policy is Allow, at no time is more
     than one cron batch live, if every batch created settles before the next callback.
     */
    method Run(firings: seq<Firing>)
      requires Valid() && AtMostOneLive(batches) && |history| == 1
      requires concurrency != ALLOW
      modifies this
      ensures Valid() && forall i :: 0 <= i < |history| ==> AtMostOneLive(history[i])
      ensures forall i, x, y :: 0 <= i < |history| && x in history[i] && y in history[i] && x != y ==>
                || history[i][x].condition == Completed || history[i][x].stopRequested
                || history[i][y].condition == Completed || history[i][y].stopRequested
    {
      for n := 0 to |firings|
        invariant Valid() && forall i :: 0 <= i < |history| ==> AtMostOneLive(history[i])
      {
        ghost var before := batches;
        assert AtMostOneLive(history[|history|-1]);
        Settle();
        EvolvedLive(before, batches);
        var _, _, _ := Callback(firings[n]);
      }
    }
  }
}
