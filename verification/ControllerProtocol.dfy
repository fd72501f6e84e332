/**
 operator/common/controller.go as a step system: one dispatcher (run and processNext), any number
 of worker goroutines (the closure given to errorGroup.Go), and the informers that enqueue keys.
 Each step is one effect on the work queue, the lock map, the errgroup's slots or the handler, in the
 order the source performs them (deferred calls last in, first out).
 */
module ControllerProtocol {
  import opened WorkQueue
  import opened Options

  datatype Config = Config(lockKey: ObjectName -> string, threadiness: int)

  datatype Dispatcher =
    | Fetching                           // about to call WorkQueue.Get
    | Fetched(item: ObjectName)          // Get returned, ShuttingDown not asked yet
    | Holding(item: ObjectName)          // in errorGroup.Go, waiting for a slot
    | Draining(dropped: seq<ObjectName>) // in errorGroup.Wait; the item dropped at shutdown, if any
    | Returned(dropped: seq<ObjectName>)

  datatype Pc =
    | Spawned   // before TryGetLock
    | Busy      // TryGetLock failed, before AddAfter
    | Requeued  // after AddAfter, before Done
    | Locked    // TryGetLock succeeded, before the handler's Sync
    | Syncing
    | Failed    // Sync failed, before AddRateLimited
    | Finished  // before ReleaseLock
    | Released  // before Done
    | Leaving   // after Done, the errgroup slot still taken
    | Exited

  datatype Worker = Worker(key: ObjectName, pc: Pc)

  /** What happens on a lock key, in order. */
  datatype Event =
    | Acquired(key: ObjectName)
    | Started(key: ObjectName)
    | Ended(key: ObjectName, ok: bool)
    | Unlocked(key: ObjectName)
    | FoundBusy(key: ObjectName)

  /** `owed` and `log` are history: the keys that must still be synced, and the events so far. */
  datatype State = State(
    queue: Queue,
    locks: set<string>,
    dispatcher: Dispatcher,
    workers: seq<Worker>,
    owed: set<ObjectName>,
    log: seq<Event>)

  datatype Action =
    | Enqueue(key: ObjectName)
    | DelayOver(key: ObjectName)
    | StopQueue
    | Dispatch
    | Work(worker: nat, syncOk: bool)

  const INIT := State(EMPTY, {}, Fetching, [], {}, [])

  // ---- Steps ----

  predicate TakesSlot(w: Worker) { w.pc != Exited }

  function SlotsTaken(ws: seq<Worker>): nat {
    if ws == [] then 0 else SlotsTaken(ws[..|ws|-1]) + if TakesSlot(ws[|ws|-1]) then 1 else 0
  }

  /** errgroup.SetLimit: a negative limit is no limit. */
  predicate SlotFree(c: Config, s: State) {
    c.threadiness < 0 || SlotsTaken(s.workers) < c.threadiness
  }

  predicate DispatchEnabled(c: Config, s: State) {
    match s.dispatcher
    case Fetching => s.queue.fifo != [] || s.queue.shuttingDown
    case Fetched(_) => true
    case Holding(_) => SlotFree(c, s)
    case Draining(_) => SlotsTaken(s.workers) == 0
    case Returned(_) => false
  }

  predicate Enabled(c: Config, s: State, a: Action) {
    match a
    case Enqueue(_) => true
    case DelayOver(k) => k in s.queue.delayed
    case StopQueue => true
    case Dispatch => DispatchEnabled(c, s)
    case Work(i, _) => i < |s.workers| && s.workers[i].pc != Exited
  }

  function DispatchStep(c: Config, s: State): State
    requires DispatchEnabled(c, s)
  {
    match s.dispatcher
    case Fetching =>
      if s.queue.fifo != [] then
        s.(queue := Get(s.queue), dispatcher := Fetched(s.queue.fifo[0]))
      else
        s.(dispatcher := Draining([]))
    case Fetched(k) =>
      if s.queue.shuttingDown then s.(dispatcher := Draining([k])) else s.(dispatcher := Holding(k))
    case Holding(k) =>
      s.(workers := s.workers + [Worker(k, Spawned)], dispatcher := Fetching)
    case Draining(d) => s.(dispatcher := Returned(d))
    case Returned(_) => s
  }

  function MoveTo(s: State, i: nat, pc: Pc): State
    requires i < |s.workers|
  {
    s.(workers := s.workers[i := s.workers[i].(pc := pc)])
  }

  function WorkStep(c: Config, s: State, i: nat, syncOk: bool): State
    requires i < |s.workers|
  {
    var k := s.workers[i].key;
    match s.workers[i].pc
    case Spawned =>
      if c.lockKey(k) in s.locks then
        MoveTo(s, i, Busy).(log := s.log + [FoundBusy(k)])
      else
        MoveTo(s, i, Locked).(locks := s.locks + {c.lockKey(k)}, log := s.log + [Acquired(k)])
    case Busy => MoveTo(s, i, Requeued).(queue := AddLater(s.queue, k))
    case Requeued => MoveTo(s, i, Leaving).(queue := Done(s.queue, k))
    case Locked => MoveTo(s, i, Syncing).(owed := s.owed - {k}, log := s.log + [Started(k)])
    case Syncing =>
      if syncOk then
        MoveTo(s, i, Finished).(log := s.log + [Ended(k, true)])
      else
        MoveTo(s, i, Failed).(owed := s.owed + {k}, log := s.log + [Ended(k, false)])
    case Failed => MoveTo(s, i, Finished).(queue := AddLater(s.queue, k))
    case Finished => MoveTo(s, i, Released).(locks := s.locks - {c.lockKey(k)}, log := s.log + [Unlocked(k)])
    case Released => MoveTo(s, i, Leaving).(queue := Done(s.queue, k))
    case Leaving => MoveTo(s, i, Exited)
    case Exited => s
  }

  function Step(c: Config, s: State, a: Action): State
    requires Enabled(c, s, a)
  {
    match a
    case Enqueue(k) => s.(queue := Add(s.queue, k), owed := s.owed + {k})
    case DelayOver(k) => s.(queue := Fire(s.queue, k))
    case StopQueue => s.(queue := ShutDown(s.queue))
    case Dispatch => DispatchStep(c, s)
    case Work(i, syncOk) => WorkStep(c, s, i, syncOk)
  }

  /** The state after a run; an action that is not enabled when its turn comes does nothing. */
  function Execute(c: Config, run: seq<Action>): State {
    if run == [] then INIT
    else
      var s := Execute(c, run[..|run|-1]);
      var a := run[|run|-1];
      if Enabled(c, s, a) then Step(c, s, a) else s
  }

  // ---- The serial controller of one lock key ----

  datatype Stage = BeforeSync | InSync | AfterSync

  datatype Session = Idle | Open(key: ObjectName, stage: Stage)

  /**
   A controller that handles one item of a partition at a time: take the lock, sync, release.
   A busy lock is only ever found while another item's session is open, and changes nothing.
   */
  function SerialStep(st: Session, e: Event): Option<Session> {
    match e
    case Acquired(k) => if st.Idle? then Some(Open(k, BeforeSync)) else None
    case Started(k) => if st == Open(k, BeforeSync) then Some(Open(k, InSync)) else None
    case Ended(k, _) => if st == Open(k, InSync) then Some(Open(k, AfterSync)) else None
    case Unlocked(k) => if st == Open(k, AfterSync) then Some(Idle) else None
    case FoundBusy(k) => if st.Open? && st.key != k then Some(st) else None
  }

  /** Runs the serial controller of lock key `l` over the events on that key; None if it rejects one. */
  function Serial(c: Config, log: seq<Event>, l: string): Option<Session> {
    if log == [] then Some(Idle)
    else
      var before := Serial(c, log[..|log|-1], l);
      var e := log[|log|-1];
      if c.lockKey(e.key) != l || before.None? then before else SerialStep(before.value, e)
  }
}
