/** What the invariant of ControllerSafety means for every run of the operator's work loop. */
module ControllerTheorems {
  import opened WorkQueue
  import opened ControllerProtocol
  import opened ControllerSafety
  import opened ResourceLocker
  import opened Options

  // ---- Mutual exclusion and lock accounting ----

  /** At any time the lock map is exactly the lock keys of the workers that hold one, and no two share a key. */
  lemma LocksAreExact(c: Config, run: seq<Action>)
    ensures var s := Execute(c, run);
            && (forall l :: l in s.locks <==>
                 exists i :: 0 <= i < |s.workers| && HoldsLock(s.workers[i]) && c.lockKey(s.workers[i].key) == l)
            && (forall i, j :: 0 <= i < j < |s.workers| && s.workers[i].pc.Syncing? && s.workers[j].pc.Syncing? ==>
                 c.lockKey(s.workers[i].key) != c.lockKey(s.workers[j].key))
  {
    RunKeepsInv(c, run);
  }

  /** No step but its holder's own ReleaseLock takes a lock away, in particular none of a worker that found it busy. */
  lemma OnlyHolderReleases(c: Config, run: seq<Action>, a: Action, j: nat)
    requires var s := Execute(c, run); Enabled(c, s, a) && j < |s.workers| && HoldsLock(s.workers[j])
    ensures var s := Execute(c, run);
            c.lockKey(s.workers[j].key) in Step(c, s, a).locks || (a.Work? && a.worker == j && s.workers[j].pc == Finished)
  {
    hide ItemsAccounted, NoLostWork, ShutDownInOrder, SerialPerKey, Execute, SlotsTaken, Add, AddLater, Done, Get, Fire;
    var s := Execute(c, run);
    RunKeepsInv(c, run);
    StepKeepsInv(c, s, a);
    var t := Step(c, s, a);
    assert t.workers[j].key == s.workers[j].key;
    if HoldsLock(t.workers[j]) { assert c.lockKey(t.workers[j].key) in LockKeys(c, t.workers); }
  }

  // ---- No lost work ----

  /** The log only grows. */
  lemma {:induction false} LogExtends(c: Config, run: seq<Action>, more: seq<Action>)
    ensures Execute(c, run).log <= Execute(c, run + more).log
  {
    if more == [] {
      assert run + more == run;
    } else {
      assert (run + more)[..|run + more|-1] == run + more[..|more|-1];
      LogExtends(c, run, more[..|more|-1]);
    }
  }

  /** The events of `more`, executed after `run`. */
  function EventsOf(c: Config, run: seq<Action>, more: seq<Action>): seq<Event> {
    LogExtends(c, run, more);
    Execute(c, run + more).log[|Execute(c, run).log|..]
  }

  lemma {:induction false} OwedUntilStarted(c: Config, run: seq<Action>, more: seq<Action>, k: ObjectName)
    requires k in Execute(c, run).owed
    ensures k in Execute(c, run + more).owed || Started(k) in EventsOf(c, run, more)
  {
    if more == [] {
      assert run + more == run;
    } else {
      var less := more[..|more|-1];
      assert (run + more)[..|run + more|-1] == run + less;
      OwedUntilStarted(c, run, less, k);
      LogExtends(c, run, less);
      var s, t := Execute(c, run + less), Execute(c, run + more);
      assert s.log <= t.log;
      assert EventsOf(c, run, less) <= EventsOf(c, run, more);
      if k in s.owed && k !in t.owed {
        assert t.log[|s.log|] == Started(k);
        assert EventsOf(c, run, more)[|s.log| - |Execute(c, run).log|] == Started(k);
      }
    }
  }

  /**
   No lost work: before shutdown, a key that was enqueued, or whose sync failed, and whose sync has not started
   since, is dirty, delayed, or with the dispatcher or a worker that will sync it or add it again.
   */
  lemma NoWorkIsLost(c: Config, before: seq<Action>, a: Action, after: seq<Action>, k: ObjectName)
    requires Enabled(c, Execute(c, before), a)
    requires a == Enqueue(k) || Step(c, Execute(c, before), a).log == Execute(c, before).log + [Ended(k, false)]
    requires Started(k) !in EventsOf(c, before + [a], after)
    requires !Execute(c, before + [a] + after).queue.shuttingDown
    ensures Served(Execute(c, before + [a] + after), k)
  {
    assert (before + [a])[..|before|] == before;
    var s := Execute(c, before);
    assert Execute(c, before + [a]) == Step(c, s, a);
    if a != Enqueue(k) { assert Step(c, s, a).log[|s.log|] == Ended(k, false); }
    assert k in Step(c, s, a).owed;
    OwedUntilStarted(c, before + [a], after, k);
    RunKeepsInv(c, before + [a] + after);
  }

  /** The loop is never stuck with work to do: some worker, the dispatcher or a delay can move. */
  lemma NeverStuck(c: Config, run: seq<Action>, k: ObjectName)
    requires c.threadiness != 0
    requires k in Execute(c, run).owed && !Execute(c, run).queue.shuttingDown
    ensures exists a: Action :: (a.DelayOver? || a.Dispatch? || a.Work?) && Enabled(c, Execute(c, run), a)
  {
    var s := Execute(c, run);
    RunKeepsInv(c, run);
    if i :| 0 <= i < |s.workers| && s.workers[i].pc != Exited {
      assert Enabled(c, s, Work(i, true));
    } else {
      NobodyWorks(s.workers);
      if !Enabled(c, s, Dispatch) {
        assert s.dispatcher.Fetching? && s.queue.fifo == [];
        assert Served(s, k) && k !in s.queue.processing && k !in s.queue.fifo;
        assert Enabled(c, s, DelayOver(k));
      }
    }
  }

  lemma {:induction false} NobodyWorks(ws: seq<Worker>)
    requires forall i :: 0 <= i < |ws| ==> ws[i].pc == Exited
    ensures SlotsTaken(ws) == 0
  {
    if ws != [] { NobodyWorks(ws[..|ws|-1]); }
  }

  // ---- Serial order within a partition ----

  lemma {:induction false} SerialPrefix(c: Config, log: seq<Event>, n: nat, l: string)
    requires n <= |log| && Serial(c, log, l).Some?
    ensures Serial(c, log[..n], l).Some?
  {
    if n == |log| {
      assert log[..n] == log;
    } else {
      SerialPrefix(c, log[..|log|-1], n, l);
      assert log[..|log|-1][..n] == log[..n];
    }
  }

  /** While no Ended follows, a started sync stays the open session of its key. */
  lemma {:induction false} StaysInSync(c: Config, log: seq<Event>, i: nat, n: nat, k: ObjectName)
    requires i < n <= |log| && log[i] == Started(k) && Serial(c, log, c.lockKey(k)).Some?
    requires forall m :: i < m < n ==> log[m] != Ended(k, true) && log[m] != Ended(k, false)
    ensures Serial(c, log[..n], c.lockKey(k)) == Some(Open(k, InSync))
  {
    var l := c.lockKey(k);
    SerialPrefix(c, log, n, l);
    SerialPrefix(c, log, n - 1, l);
    assert log[..n][..n-1] == log[..n-1];
    if i < n - 1 {
      StaysInSync(c, log, i, n - 1, k);
      assert log[n-1].Ended? ==> log[n-1] == Ended(log[n-1].key, log[n-1].ok);
    }
  }

  /** Refinement: on each lock key, what the concurrent controller does is a run of the serial one. */
  lemma RefinesSerial(c: Config, run: seq<Action>, l: string)
    ensures Serial(c, Execute(c, run).log, l).Some?
  {
    RunKeepsInv(c, run);
    assert SessionShown(c, Execute(c, run), l);
  }

  /**
   So of two syncs in one partition the first has ended before the second starts, whatever the number of workers.
   */
  lemma SyncsDoNotOverlap(c: Config, run: seq<Action>, i: nat, j: nat)
    requires i < j < |Execute(c, run).log|
    requires Execute(c, run).log[i].Started? && Execute(c, run).log[j].Started?
    requires c.lockKey(Execute(c, run).log[i].key) == c.lockKey(Execute(c, run).log[j].key)
    ensures exists m :: i < m < j && Execute(c, run).log[m].Ended? && Execute(c, run).log[m].key == Execute(c, run).log[i].key
  {
    hide Execute, Inv;
    var log := Execute(c, run).log;
    var k := log[i].key;
    var l := c.lockKey(k);
    RefinesSerial(c, run, l);
    SerialPrefix(c, log, j + 1, l);
    assert log[..j+1][..j] == log[..j];
    if forall m :: i < m < j ==> log[m] != Ended(k, true) && log[m] != Ended(k, false) {
      StaysInSync(c, log, i, j, k);
      assert false;
    }
  }

  /** An open session began with its Acquired, and nothing was unlocked on the key since. */
  lemma {:induction false} OpenSince(c: Config, log: seq<Event>, l: string) returns (i: nat)
    requires Serial(c, log, l).Some? && Serial(c, log, l).value.Open?
    ensures i < |log| && log[i] == Acquired(Serial(c, log, l).value.key) && c.lockKey(log[i].key) == l
    ensures forall m :: i < m < |log| && c.lockKey(log[m].key) == l ==> !log[m].Unlocked?
  {
    var n := |log| - 1;
    if c.lockKey(log[n].key) == l && log[n].Acquired? {
      i := n;
    } else {
      i := OpenSince(c, log[..n], l);
    }
  }

  /** Each busy requeue is witnessed: another item of the partition holds the lock at that moment. */
  lemma BusyIsJustified(c: Config, run: seq<Action>, j: nat)
    requires j < |Execute(c, run).log| && Execute(c, run).log[j].FoundBusy?
    ensures var log := Execute(c, run).log;
            exists i :: 0 <= i < j && log[i].Acquired? && log[i].key != log[j].key
              && c.lockKey(log[i].key) == c.lockKey(log[j].key)
              && forall m :: i < m < j && c.lockKey(log[m].key) == c.lockKey(log[j].key) ==> !log[m].Unlocked?
  {
    var log := Execute(c, run).log;
    var l := c.lockKey(log[j].key);
    RefinesSerial(c, run, l);
    SerialPrefix(c, log, j + 1, l);
    assert log[..j+1][..j] == log[..j];
    var i := OpenSince(c, log[..j], l);
    assert forall m :: 0 <= m < j ==> log[..j][m] == log[m];
    assert log[i].Acquired?;
  }

  /** Two objects of one namespace, under the controllers that lock by namespace. */
  const FIRST := ObjectName("ns", "first")
  const SECOND := ObjectName("ns", "second")

  function BusyRun(): seq<Action> {
    [Enqueue(FIRST), Enqueue(SECOND), Dispatch, Dispatch, Dispatch, Dispatch, Dispatch, Dispatch, Work(0, true), Work(1, true)]
  }

  lemma ExecuteNext(c: Config, run: seq<Action>, n: nat)
    requires n < |run| && Enabled(c, Execute(c, run[..n]), run[n])
    ensures Execute(c, run[..n+1]) == Step(c, Execute(c, run[..n]), run[n])
  {
    assert run[..n+1][..n] == run[..n];
  }

  /** Two objects arrive. */
  lemma BothQueued()
    ensures Execute(Config(NamespacePartitionKey, 2), BusyRun()[..2]) ==
              State(Queue([FIRST, SECOND], {FIRST, SECOND}, {}, {}, false), {}, Fetching, [], {FIRST, SECOND}, [])
  {
    var c, run := Config(NamespacePartitionKey, 2), BusyRun();
    assert run[..0] == [] && Execute(c, []) == INIT;
    hide Execute;
    ExecuteNext(c, run, 0);
    ExecuteNext(c, run, 1);
  }

  /** A worker for the first has started. */
  lemma FirstSpawned()
    ensures Execute(Config(NamespacePartitionKey, 2), BusyRun()[..5]) ==
              State(Queue([SECOND], {SECOND}, {FIRST}, {}, false), {}, Fetching, [Worker(FIRST, Spawned)], {FIRST, SECOND}, [])
  {
    var c, run := Config(NamespacePartitionKey, 2), BusyRun();
    hide Execute;
    BothQueued();
    ExecuteNext(c, run, 2);
    ExecuteNext(c, run, 3);
    assert SlotsTaken([]) == 0;
    ExecuteNext(c, run, 4);
  }

  /** The dispatcher holds the second. */
  lemma SecondHeld()
    ensures Execute(Config(NamespacePartitionKey, 2), BusyRun()[..7]) ==
              State(Queue([], {}, {FIRST, SECOND}, {}, false), {}, Holding(SECOND), [Worker(FIRST, Spawned)], {FIRST, SECOND}, [])
  {
    var c, run := Config(NamespacePartitionKey, 2), BusyRun();
    hide Execute;
    FirstSpawned();
    ExecuteNext(c, run, 5);
    ExecuteNext(c, run, 6);
  }

  /** Both workers are about to ask for the lock. */
  lemma BothSpawned()
    ensures Execute(Config(NamespacePartitionKey, 2), BusyRun()[..8]) ==
              State(Queue([], {}, {FIRST, SECOND}, {}, false), {}, Fetching,
                    [Worker(FIRST, Spawned), Worker(SECOND, Spawned)], {FIRST, SECOND}, [])
  {
    hide Execute;
    SecondHeld();
    OneSlotTaken(Worker(FIRST, Spawned));
    ExecuteNext(Config(NamespacePartitionKey, 2), BusyRun(), 7);
  }

  lemma OneSlotTaken(w: Worker)
    requires TakesSlot(w)
    ensures SlotsTaken([w]) == 1
  {
    assert [w][..0] == [] && SlotsTaken([]) == 0;
  }

  /** The item that holds the lock need not be inside its Sync: in this run none has started when a lock is found busy. */
  lemma BusyWithoutSync()
    ensures Execute(Config(NamespacePartitionKey, 2), BusyRun()).log == [Acquired(FIRST), FoundBusy(SECOND)]
  {
    var c, run := Config(NamespacePartitionKey, 2), BusyRun();
    hide Execute;
    BothSpawned();
    ExecuteNext(c, run, 8);
    ExecuteNext(c, run, 9);
    assert run[..10] == run;
  }

  /** Syncs of objects that share a namespace (or, with the other key, a name) never overlap. */
  lemma PartitionsAreSerial(byNamespace: bool, threadiness: int, run: seq<Action>, i: nat, j: nat)
    requires var c := Config(if byNamespace then NamespacePartitionKey else NamePartitionKey, threadiness);
             var log := Execute(c, run).log;
             && i < j < |log| && log[i].Started? && log[j].Started?
             && if byNamespace then log[i].key.namespace == log[j].key.namespace else log[i].key.name == log[j].key.name
    ensures var c := Config(if byNamespace then NamespacePartitionKey else NamePartitionKey, threadiness);
            var log := Execute(c, run).log;
            exists m :: i < m < j && log[m].Ended? && log[m].key == log[i].key
  {
    hide Execute;
    SyncsDoNotOverlap(Config(if byNamespace then NamespacePartitionKey else NamePartitionKey, threadiness), run, i, j);
  }

  // ---- Bounds ----

  lemma {:induction false} ItemsBounded(ws: seq<Worker>)
    ensures |Items(ws)| <= SlotsTaken(ws)
  {
    if ws == [] {
      assert Items(ws) == {};
    } else {
      var init, last := ws[..|ws|-1], ws[|ws|-1];
      ItemsBounded(init);
      assert Items(ws) <= Items(init) + (if HoldsItem(last) then {last.key} else {});
      Subset(Items(ws), Items(init) + (if HoldsItem(last) then {last.key} else {}));
    }
  }

  lemma {:induction false} Subset<T>(a: set<T>, b: set<T>)
    requires a <= b
    ensures |a| <= |b|
  {
    if a != {} {
      var x :| x in a;
      Subset(a - {x}, b - {x});
    }
  }

  /** At most `threadiness` workers run, and at most one item more than that is out of the queue. */
  lemma WorkersAreBounded(c: Config, run: seq<Action>)
    requires 0 <= c.threadiness
    ensures var s := Execute(c, run); SlotsTaken(s.workers) <= c.threadiness && |s.queue.processing| <= c.threadiness + 1
  {
    var s := Execute(c, run);
    RunKeepsInv(c, run);
    ItemsBounded(s.workers);
    OneDispatcherItem(s.dispatcher);
  }

  lemma OneDispatcherItem(d: Dispatcher)
    requires |DroppedOf(d)| <= 1
    ensures |DispatcherItems(d)| <= 1
  {
    var dropped := DroppedOf(d);
    if |dropped| == 1 { assert (set k | k in dropped) == {dropped[0]}; }
  }

  // ---- Shutdown ----

  lemma {:induction false} NoSlotNobody(ws: seq<Worker>, i: nat)
    requires SlotsTaken(ws) == 0 && i < |ws|
    ensures ws[i].pc == Exited
  {
    if i < |ws| - 1 { NoSlotNobody(ws[..|ws|-1], i); }
  }

  /** When run has returned, every worker is gone, every started sync has ended and no lock is left. */
  lemma ReturnsClean(c: Config, run: seq<Action>, l: string)
    requires Execute(c, run).dispatcher.Returned?
    ensures var s := Execute(c, run);
            s.locks == {} && Serial(c, s.log, l) == Some(Idle) && forall i :: 0 <= i < |s.workers| ==> s.workers[i].pc == Exited
  {
    var s := Execute(c, run);
    RunKeepsInv(c, run);
    forall i | 0 <= i < |s.workers| ensures s.workers[i].pc == Exited { NoSlotNobody(s.workers, i); }
    ShownIdle(c, s, l);
  }

  function StepsLeft(pc: Pc): nat {
    match pc
    case Spawned => 8
    case Busy => 3
    case Requeued => 2
    case Locked => 7
    case Syncing => 6
    case Failed => 5
    case Finished => 4
    case Released => 2
    case Leaving => 1
    case Exited => 0
  }

  function WorkLeft(ws: seq<Worker>): nat {
    if ws == [] then 0 else WorkLeft(ws[..|ws|-1]) + StepsLeft(ws[|ws|-1].pc)
  }

  /** An upper bound on the steps the loop takes once the queue is shutting down. */
  function Remaining(s: State): nat {
    WorkLeft(s.workers) + match s.dispatcher
      case Fetching => 3
      case Fetched(_) => 2
      case Holding(_) => 12
      case Draining(_) => 1
      case Returned(_) => 0
  }

  lemma {:induction false} WorkLeftMoves(ws: seq<Worker>, i: nat, w: Worker)
    requires i < |ws|
    ensures WorkLeft(ws[i := w]) + StepsLeft(ws[i].pc) == WorkLeft(ws) + StepsLeft(w.pc)
  {
    var vs := ws[i := w];
    if i == |ws| - 1 {
      assert vs[..|vs|-1] == ws[..|ws|-1];
    } else {
      assert vs[..|vs|-1] == ws[..|ws|-1][i := w];
      WorkLeftMoves(ws[..|ws|-1], i, w);
    }
  }

  lemma {:induction false} NoWorkLeft(ws: seq<Worker>)
    requires forall i :: 0 <= i < |ws| ==> ws[i].pc == Exited
    ensures WorkLeft(ws) == 0 && SlotsTaken(ws) == 0
  {
    if ws != [] { NoWorkLeft(ws[..|ws|-1]); }
  }

  lemma StaysShutDown(c: Config, s: State, a: Action)
    requires s.queue.shuttingDown && Enabled(c, s, a)
    ensures Step(c, s, a).queue.shuttingDown
  {
  }

  lemma StepDrains(c: Config, s: State, a: Action)
    requires s.queue.shuttingDown && Enabled(c, s, a)
    ensures Remaining(Step(c, s, a)) <= Remaining(s) - (if a.Dispatch? || a.Work? then 1 else 0)
  {
    hide SlotsTaken, Add, AddLater, Done, Get, Fire, WorkLeft;
    var t := Step(c, s, a);
    if a.Work? {
      WorkLeftMoves(s.workers, a.worker, t.workers[a.worker]);
    } else if a.Dispatch? && s.dispatcher.Holding? {
      WorkLeftSpawns(s.workers, s.dispatcher.item);
    }
  }

  lemma WorkLeftSpawns(ws: seq<Worker>, k: ObjectName)
    ensures WorkLeft(ws + [Worker(k, Spawned)]) == WorkLeft(ws) + StepsLeft(Spawned)
  {
    assert (ws + [Worker(k, Spawned)])[..|ws|] == ws;
  }

  lemma SomethingDrains(c: Config, s: State)
    requires s.queue.shuttingDown && c.threadiness != 0
    ensures Remaining(s) == 0 || exists b: Action :: (b.Dispatch? || b.Work?) && Enabled(c, s, b)
  {
    if i :| 0 <= i < |s.workers| && s.workers[i].pc != Exited {
      assert Enabled(c, s, Work(i, true));
    } else {
      NoWorkLeft(s.workers);
      if !s.dispatcher.Returned? { assert Enabled(c, s, Dispatch); }
    }
  }

  /**
   After shutdown run returns: every step of the dispatcher or a worker brings the end nearer, no other step
   moves it away, and until the end is reached such a step is enabled.
   */
  lemma ShutdownDrains(c: Config, s: State, a: Action)
    requires s.queue.shuttingDown && c.threadiness != 0
    ensures Enabled(c, s, a) ==>
              && Step(c, s, a).queue.shuttingDown
              && Remaining(Step(c, s, a)) <= Remaining(s) - (if a.Dispatch? || a.Work? then 1 else 0)
    ensures Remaining(s) > 0 ==> exists b: Action :: (b.Dispatch? || b.Work?) && Enabled(c, s, b)
    ensures Remaining(s) == 0 ==> s.dispatcher.Returned?
  {
    if Enabled(c, s, a) {
      StaysShutDown(c, s, a);
      StepDrains(c, s, a);
    }
    SomethingDrains(c, s);
  }
}
