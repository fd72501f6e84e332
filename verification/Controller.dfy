/**
 operator/common/controller.go in its own form: an object whose dispatcher and workers update the work
 queue and the lock map. Every method is one step of ControllerProtocol; Run is run under a schedule.
 */
module Controller {
  import opened WorkQueue
  import opened ResourceLocker
  import opened ControllerProtocol
  import opened ControllerSafety
  import opened ControllerWork

  class Controller {
    const lockKey: ObjectName -> string
    const threadiness: int
    const locker: DefaultResourceLocker
    var workQueue: Queue
    var dispatcher: Dispatcher
    var workers: seq<Worker>
    ghost var owed: set<ObjectName>
    ghost var log: seq<Event>

    ghost function Conf(): Config {
      Config(lockKey, threadiness)
    }

    ghost function View(): State
      reads this, locker
    {
      State(workQueue, locker.l.Keys, dispatcher, workers, owed, log)
    }

    constructor (lockKey: ObjectName -> string, threadiness: int)
      ensures View() == INIT && fresh(locker)
      ensures this.lockKey == lockKey && this.threadiness == threadiness
    {
      this.lockKey, this.threadiness := lockKey, threadiness;
      locker := new DefaultResourceLocker();
      workQueue, dispatcher, workers := EMPTY, Fetching, [];
      owed, log := {}, [];
    }

    /** An informer event: the key is put onto the work queue. */
    method Enqueue(k: ObjectName)
      modifies this
      ensures View() == Step(Conf(), old(View()), ControllerProtocol.Enqueue(k))
    {
      workQueue := Add(workQueue, k);
      owed := owed + {k};
    }

    /** The number of errgroup slots in use. */
    method CountSlots() returns (n: nat)
      ensures n == SlotsTaken(workers)
    {
      n := 0;
      for i := 0 to |workers|
        invariant n == SlotsTaken(workers[..i])
      {
        assert workers[..i+1][..i] == workers[..i];
        if workers[i].pc != Exited { n := n + 1; }
      }
      assert workers[..|workers|] == workers;
    }

    /** The next effect of run's loop; false when it has to wait: for an item, a slot or the workers. */
    method ProcessNext() returns (progress: bool)
      modifies this
      ensures progress == DispatchEnabled(Conf(), old(View()))
      ensures View() == if progress then DispatchStep(Conf(), old(View())) else old(View())
    {
      progress := true;
      match dispatcher {
        case Fetching =>
          if workQueue.fifo != [] {
            var item := workQueue.fifo[0];
            workQueue := Get(workQueue);
            dispatcher := Fetched(item);
          } else if workQueue.shuttingDown {
            dispatcher := Draining([]);
          } else {
            progress := false;
          }
        case Fetched(item) =>
          dispatcher := if workQueue.shuttingDown then Draining([item]) else Holding(item);
        case Holding(item) =>
          var taken := CountSlots();
          if threadiness < 0 || taken < threadiness {
            workers := workers + [Worker(item, Spawned)];
            dispatcher := Fetching;
          } else {
            progress := false;
          }
        case Draining(dropped) =>
          var taken := CountSlots();
          if taken == 0 {
            dispatcher := Returned(dropped);
          } else {
            progress := false;
          }
        case Returned(_) =>
          progress := false;
      }
    }

    /** The next effect of a worker goroutine; `syncOk` is what its handler's Sync returns, if that is the effect. */
    method Work(i: nat, syncOk: bool)
      requires i < |workers|
      modifies this, locker
      ensures View() == WorkStep(Conf(), old(View()), i, syncOk)
      // In plain terms: what puts the item back.
      ensures workers[i].pc == Failed <==> old(workers)[i].pc == Syncing && !syncOk
      ensures workers[i].pc == Busy <==> old(workers)[i].pc == Spawned && lockKey(workers[i].key) in old(locker.l)
      ensures workQueue.delayed != old(workQueue).delayed ==>
                (old(workers)[i].pc == Busy || old(workers)[i].pc == Failed) && workQueue.delayed == old(workQueue).delayed + {workers[i].key}
      ensures workQueue.dirty == old(workQueue).dirty
    {
      var item := workers[i].key;
      var next := workers[i].pc;
      match workers[i].pc {
        case Spawned =>
          var ok := locker.TryGetLock(lockKey(item));
          log := log + [if ok then Acquired(item) else FoundBusy(item)];
          next := if ok then Locked else Busy;
          assert !ok ==> locker.l.Keys == old(locker.l.Keys);
        case Busy =>
          workQueue := AddLater(workQueue, item);
          next := Requeued;
        case Locked =>
          owed, log := owed - {item}, log + [Started(item)];
          next := Syncing;
        case Syncing =>
          log := log + [Ended(item, syncOk)];
          if !syncOk { owed := owed + {item}; }
          next := if syncOk then Finished else Failed;
        case Failed =>
          workQueue := AddLater(workQueue, item);
          next := Finished;
        case Finished =>
          locker.ReleaseLock(lockKey(item));
          log := log + [Unlocked(item)];
          next := Released;
        case Released =>
          workQueue := Done(workQueue, item);
          next := Leaving;
        case Requeued =>
          workQueue := Done(workQueue, item);
          next := Leaving;
        case Leaving =>
          next := Exited;
        case Exited =>
      }
      workers := workers[i := workers[i].(pc := next)];
    }

    /** The loop under any schedule: what the object holds afterwards is what the step system says. */
    method Run(schedule: seq<Action>)
      requires View() == INIT
      modifies this, locker
      ensures View() == Execute(Conf(), schedule)
      ensures Inv(Conf(), View())
      ensures forall k :: multiset(log)[Started(k)] <= multiset(schedule)[ControllerProtocol.Enqueue(k)] + multiset(log)[Ended(k, false)]
    {
      for n := 0 to |schedule|
        invariant View() == Execute(Conf(), schedule[..n])
      {
        assert schedule[..n+1][..n] == schedule[..n];
        match schedule[n] {
          case Enqueue(k) => Enqueue(k);
          case DelayOver(k) => workQueue := Fire(workQueue, k);
          case StopQueue => workQueue := ShutDown(workQueue);
          case Dispatch => var _ := ProcessNext();
          case Work(i, syncOk) =>
            if i < |workers| { Work(i, syncOk); }
        }
      }
      assert schedule[..|schedule|] == schedule;
      RunKeepsInv(Conf(), schedule);
      forall k ensures multiset(log)[Started(k)] <= multiset(schedule)[ControllerProtocol.Enqueue(k)] + multiset(log)[Ended(k, false)] {
        SyncsAreEarned(Conf(), schedule, k);
      }
    }
  }
}
