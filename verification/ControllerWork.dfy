/** The operator's work loop does no more than it should: no sync without a reason, and no worker slot left idle. */
module ControllerWork {
  import opened WorkQueue
  import opened ControllerProtocol
  import opened ControllerSafety

  // ---- Every sync is earned ----

  function Serving(ws: seq<Worker>, k: ObjectName): nat {
    if ws == [] then 0
    else Serving(ws[..|ws|-1], k) + if ws[|ws|-1].key == k && WillServe(ws[|ws|-1]) then 1 else 0
  }

  function Waiting(q: Queue, k: ObjectName): nat {
    (if k in q.dirty then 1 else 0) + (if k in q.delayed then 1 else 0)
  }

  /** The syncs of a key that are on their way. */
  function Pending(s: State, k: ObjectName): nat {
    Waiting(s.queue, k)
    + (if s.dispatcher == Fetched(k) || s.dispatcher == Holding(k) then 1 else 0)
    + Serving(s.workers, k)
  }

  function Syncs(log: seq<Event>, k: ObjectName): nat {
    multiset(log)[Started(k)]
  }

  function Failures(log: seq<Event>, k: ObjectName): nat {
    multiset(log)[Ended(k, false)]
  }

  lemma {:induction false} ServingMoves(ws: seq<Worker>, i: nat, w: Worker, k: ObjectName)
    requires i < |ws|
    ensures Serving(ws[i := w], k) + (if ws[i].key == k && WillServe(ws[i]) then 1 else 0)
         == Serving(ws, k) + (if w.key == k && WillServe(w) then 1 else 0)
  {
    var vs := ws[i := w];
    if i == |ws| - 1 {
      assert vs[..|vs|-1] == ws[..|ws|-1];
    } else {
      assert vs[..|vs|-1] == ws[..|ws|-1][i := w];
      ServingMoves(ws[..|ws|-1], i, w, k);
    }
  }

  lemma ServingSpawns(ws: seq<Worker>, w: Worker, k: ObjectName)
    ensures Serving(ws + [w], k) == Serving(ws, k) + if w.key == k && WillServe(w) then 1 else 0
  {
    assert (ws + [w])[..|ws|] == ws;
  }

  lemma QueueKeepsWaiting(q: Queue, x: ObjectName, k: ObjectName)
    ensures Waiting(Done(q, x), k) == Waiting(q, k)
    ensures Waiting(AddLater(q, x), k) <= Waiting(q, k) + if x == k then 1 else 0
    ensures Waiting(Add(q, x), k) <= Waiting(q, k) + if x == k then 1 else 0
    ensures Waiting(Fire(q, x), k) <= Waiting(q, k)
  {
  }

  lemma GetTakesWaiting(q: Queue, k: ObjectName)
    requires Consistent(q) && q.fifo != []
    ensures Waiting(Get(q), k) == Waiting(q, k) - if q.fifo[0] == k then 1 else 0
  {
    GetKeepsConsistent(q);
  }

  lemma LogCounts(log: seq<Event>, e: Event, k: ObjectName)
    ensures Syncs(log + [e], k) == Syncs(log, k) + if e == Started(k) then 1 else 0
    ensures Failures(log + [e], k) == Failures(log, k) + if e == Ended(k, false) then 1 else 0
  {
  }

  /** The syncs of a key made or on their way are at most `earned` and its failures. */
  ghost predicate Earned(s: State, k: ObjectName, earned: nat) {
    Syncs(s.log, k) + Pending(s, k) <= earned + Failures(s.log, k)
  }

  lemma WorkEarns(c: Config, s: State, i: nat, syncOk: bool, k: ObjectName, earned: nat)
    requires i < |s.workers| && Earned(s, k, earned)
    ensures Earned(WorkStep(c, s, i, syncOk), k, earned)
  {
    hide Serving, Waiting, Syncs, Failures, Add, AddLater, Done;
    var t := WorkStep(c, s, i, syncOk);
    ServingMoves(s.workers, i, t.workers[i], k);
    QueueKeepsWaiting(s.queue, s.workers[i].key, k);
    if t.log != s.log { LogCounts(s.log, t.log[|s.log|], k); }
  }

  lemma DispatchEarns(c: Config, s: State, k: ObjectName, earned: nat)
    requires Consistent(s.queue) && DispatchEnabled(c, s) && Earned(s, k, earned)
    ensures Earned(DispatchStep(c, s), k, earned)
  {
    hide Serving, Waiting, Syncs, Failures, Get, SlotsTaken, Consistent;
    match s.dispatcher
    case Fetching => if s.queue.fifo != [] { GetTakesWaiting(s.queue, k); }
    case Holding(x) => ServingSpawns(s.workers, Worker(x, Spawned), k);
    case _ =>
  }

  /** A step adds to the syncs made and on their way only what an Enqueue or a failure accounts for. */
  lemma StepEarns(c: Config, s: State, a: Action, k: ObjectName, earned: nat)
    requires Consistent(s.queue) && Enabled(c, s, a) && Earned(s, k, earned)
    ensures Earned(Step(c, s, a), k, earned + if a == Enqueue(k) then 1 else 0)
  {
    match a
    case Dispatch => DispatchEarns(c, s, k, earned);
    case Work(i, syncOk) => WorkEarns(c, s, i, syncOk, k, earned);
    case Enqueue(x) => QueueKeepsWaiting(s.queue, x, k);
    case DelayOver(x) => QueueKeepsWaiting(s.queue, x, k);
    case StopQueue =>
  }

  lemma {:induction false} SyncsAndPendingAreEarned(c: Config, run: seq<Action>, k: ObjectName)
    ensures Earned(Execute(c, run), k, multiset(run)[Enqueue(k)])
  {
    if run != [] {
      var before, a := run[..|run|-1], run[|run|-1];
      assert run == before + [a];
      SyncsAndPendingAreEarned(c, before, k);
      RunKeepsInv(c, before);
      var s := Execute(c, before);
      hide Execute, Inv;
      if Enabled(c, s, a) { StepEarns(c, s, a, k, multiset(before)[Enqueue(k)]); }
    }
  }

  /**
   No spurious work: over any run a key's syncs that were started are at most the times it was enqueued and the times
   its sync failed. A sync that succeeds earns no other one, nor does a busy lock.
   */
  lemma SyncsAreEarned(c: Config, run: seq<Action>, k: ObjectName)
    ensures multiset(Execute(c, run).log)[Started(k)] <= multiset(run)[Enqueue(k)] + multiset(Execute(c, run).log)[Ended(k, false)]
  {
    SyncsAndPendingAreEarned(c, run, k);
  }

  // ---- What is put back, and when ----

  /** Event `e` is the last one of key k. */
  ghost predicate LastOf(log: seq<Event>, k: ObjectName, e: Event) {
    exists m :: 0 <= m < |log| && log[m] == e && forall n :: m < n < |log| ==> log[n].key != k
  }

  /** A worker that is about to put its key back has just found the lock busy, or failed. */
  ghost predicate ReasonShown(log: seq<Event>, w: Worker) {
    && (w.pc.Busy? ==> LastOf(log, w.key, FoundBusy(w.key)))
    && (w.pc.Failed? ==> LastOf(log, w.key, Ended(w.key, false)))
  }

  ghost predicate ReasonsShown(s: State) {
    forall i :: 0 <= i < |s.workers| ==> ReasonShown(s.log, s.workers[i])
  }

  lemma LastStays(log: seq<Event>, k: ObjectName, e: Event, other: Event)
    requires LastOf(log, k, e) && other.key != k
    ensures LastOf(log + [other], k, e)
  {
    var m :| 0 <= m < |log| && log[m] == e && forall n :: m < n < |log| ==> log[n].key != k;
    assert (log + [other])[m] == e;
  }

  lemma LastIsNew(log: seq<Event>, e: Event)
    ensures LastOf(log + [e], e.key, e)
  {
    assert (log + [e])[|log|] == e;
  }

  lemma StepShowsReasons(c: Config, s: State, a: Action)
    requires ItemsAccounted(s) && ReasonsShown(s) && Enabled(c, s, a)
    ensures ReasonsShown(Step(c, s, a))
  {
    hide Consistent, LastOf, SlotsTaken, Add, AddLater, Done, Get, Fire;
    var t := Step(c, s, a);
    forall i | 0 <= i < |t.workers| ensures ReasonShown(t.log, t.workers[i]) {
      if i < |s.workers| {
        var w := s.workers[i];
        assert ReasonShown(s.log, w);
        if t.log != s.log {
          var e := t.log[|s.log|];
          assert t.log == s.log + [e] && e.key == s.workers[a.worker].key;
          LastIsNew(s.log, e);
          if i != a.worker && (w.pc.Busy? || w.pc.Failed?) {
            assert HoldsItem(w) && HoldsItem(s.workers[a.worker]);
            if w.pc.Busy? { LastStays(s.log, w.key, FoundBusy(w.key), e); }
            if w.pc.Failed? { LastStays(s.log, w.key, Ended(w.key, false), e); }
          }
        }
      }
    }
  }

  lemma {:induction false} RunShowsReasons(c: Config, run: seq<Action>)
    ensures ReasonsShown(Execute(c, run))
  {
    if run != [] {
      var before, a := run[..|run|-1], run[|run|-1];
      RunShowsReasons(c, before);
      RunKeepsInv(c, before);
      if Enabled(c, Execute(c, before), a) { StepShowsReasons(c, Execute(c, before), a); }
    }
  }

  /**
   A key is held back for later only if the last that happened to it is that its lock was busy or that its sync failed;
   it gets dirty only by being enqueued or when its delay is over.
   */
  lemma RequeuedForAReason(c: Config, run: seq<Action>, a: Action, k: ObjectName)
    requires Enabled(c, Execute(c, run), a)
    ensures var s := Execute(c, run); var t := Step(c, s, a);
            && (k in t.queue.delayed && k !in s.queue.delayed ==>
                 exists m :: 0 <= m < |s.log| && (s.log[m] == FoundBusy(k) || s.log[m] == Ended(k, false))
                   && forall n :: m < n < |s.log| ==> s.log[n].key != k)
            && (k in t.queue.dirty && k !in s.queue.dirty ==> a == Enqueue(k) || a == DelayOver(k))
  {
    hide SlotsTaken, Execute;
    var s := Execute(c, run);
    RunShowsReasons(c, run);
    if a.Work? { assert ReasonShown(s.log, s.workers[a.worker]); }
  }

  // ---- No idle slot ----

  /** The workers that have not left. */
  function Running(ws: seq<Worker>): set<int> {
    set i | 0 <= i < |ws| && ws[i].pc != Exited
  }

  lemma {:induction false} SlotsAreRunning(ws: seq<Worker>)
    ensures SlotsTaken(ws) == |Running(ws)|
  {
    if ws == [] {
      assert Running(ws) == {};
    } else {
      var n := |ws| - 1;
      SlotsAreRunning(ws[..n]);
      assert Running(ws) == Running(ws[..n]) + if ws[n].pc != Exited then {n} else {};
    }
  }

  /** The dispatcher waits with an item exactly while the number of workers allowed is running; a negative number is no limit. */
  lemma WaitsOnlyWhenFull(c: Config, run: seq<Action>)
    requires Execute(c, run).dispatcher.Holding?
    ensures var s := Execute(c, run);
            !Enabled(c, s, Dispatch) <==> 0 <= c.threadiness && |set i | 0 <= i < |s.workers| && s.workers[i].pc != Exited| == c.threadiness
  {
    var s := Execute(c, run);
    RunKeepsInv(c, run);
    SlotsAreRunning(s.workers);
    assert Running(s.workers) == set i | 0 <= i < |s.workers| && s.workers[i].pc != Exited;
  }
}
