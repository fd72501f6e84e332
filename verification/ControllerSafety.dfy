/**
 The joint invariant of the controller's steps, and what follows from it for every run:
 mutual exclusion with exact lock accounting, no lost work, per-partition serial order, bounds.
 */
module ControllerSafety {
  import opened WorkQueue
  import opened ControllerProtocol
  import opened Options

  // ---- Who holds what ----

  predicate HoldsItem(w: Worker) { !w.pc.Leaving? && !w.pc.Exited? }

  predicate HoldsLock(w: Worker) { w.pc.Locked? || w.pc.Syncing? || w.pc.Failed? || w.pc.Finished? }

  /** The worker has yet to start its sync, or is about to add its key again. */
  predicate WillServe(w: Worker) { w.pc.Spawned? || w.pc.Busy? || w.pc.Locked? || w.pc.Failed? }

  function Items(ws: seq<Worker>): set<ObjectName> {
    set i | 0 <= i < |ws| && HoldsItem(ws[i]) :: ws[i].key
  }

  function LockKeys(c: Config, ws: seq<Worker>): set<string> {
    set i | 0 <= i < |ws| && HoldsLock(ws[i]) :: c.lockKey(ws[i].key)
  }

  function DispatcherItems(d: Dispatcher): set<ObjectName> {
    match d
    case Fetching => {}
    case Fetched(k) => {k}
    case Holding(k) => {k}
    case Draining(dropped) => set k | k in dropped
    case Returned(dropped) => set k | k in dropped
  }

  ghost predicate DistinctItems(ws: seq<Worker>) {
    forall i, j :: 0 <= i < j < |ws| && HoldsItem(ws[i]) && HoldsItem(ws[j]) ==> ws[i].key != ws[j].key
  }

  ghost predicate DistinctLocks(c: Config, ws: seq<Worker>) {
    forall i, j :: 0 <= i < j < |ws| && HoldsLock(ws[i]) && HoldsLock(ws[j]) ==> c.lockKey(ws[i].key) != c.lockKey(ws[j].key)
  }

  // ---- The invariant ----

  /** Every item in processing has exactly one holder: a worker or the dispatcher. */
  ghost predicate ItemsAccounted(s: State) {
    && Consistent(s.queue)
    && DistinctItems(s.workers)
    && s.queue.processing == Items(s.workers) + DispatcherItems(s.dispatcher)
    && Items(s.workers) !! DispatcherItems(s.dispatcher)
  }

  /** The lock map holds exactly the keys of the workers between TryGetLock and ReleaseLock. */
  ghost predicate LocksAccounted(c: Config, s: State) {
    && DistinctLocks(c, s.workers)
    && s.locks == LockKeys(c, s.workers)
  }

  ghost predicate Served(s: State, k: ObjectName) {
    || k in s.queue.dirty
    || k in s.queue.delayed
    || s.dispatcher == Fetched(k)
    || s.dispatcher == Holding(k)
    || exists i :: 0 <= i < |s.workers| && s.workers[i].key == k && WillServe(s.workers[i])
  }

  /** Until shutdown, a key that is owed a sync is somewhere it will be picked up from. */
  ghost predicate NoLostWork(s: State) {
    !s.queue.shuttingDown ==> forall k :: k in s.owed ==> Served(s, k)
  }

  function StageOf(pc: Pc): Stage {
    if pc.Locked? then BeforeSync else if pc.Syncing? then InSync else AfterSync
  }

  /** The session the workers show on a lock key. */
  ghost predicate Shows(c: Config, ws: seq<Worker>, l: string, st: Session) {
    match st
    case Idle => forall i :: 0 <= i < |ws| && HoldsLock(ws[i]) ==> c.lockKey(ws[i].key) != l
    case Open(k, stage) =>
      c.lockKey(k) == l && exists i :: 0 <= i < |ws| && HoldsLock(ws[i]) && ws[i].key == k && StageOf(ws[i].pc) == stage
  }

  /** On every lock key, the events so far are a run of the serial controller, in the state the workers show. */
  ghost predicate SerialPerKey(c: Config, s: State) {
    forall l :: SessionShown(c, s, l)
  }

  ghost predicate SessionShown(c: Config, s: State, l: string) {
    Serial(c, s.log, l).Some? && Shows(c, s.workers, l, Serial(c, s.log, l).value)
  }

  ghost predicate ShutDownInOrder(s: State) {
    && (s.dispatcher.Draining? || s.dispatcher.Returned? ==> s.queue.shuttingDown && |DroppedOf(s.dispatcher)| <= 1)
    && (s.dispatcher.Returned? ==> SlotsTaken(s.workers) == 0)
  }

  function DroppedOf(d: Dispatcher): seq<ObjectName> {
    if d.Draining? || d.Returned? then d.dropped else []
  }

  ghost predicate Inv(c: Config, s: State) {
    && ItemsAccounted(s)
    && LocksAccounted(c, s)
    && NoLostWork(s)
    && SerialPerKey(c, s)
    && ShutDownInOrder(s)
    && (0 <= c.threadiness ==> SlotsTaken(s.workers) <= c.threadiness)
  }

  // ---- One worker changes its program counter ----

  lemma MoveItems(ws: seq<Worker>, i: nat, pc: Pc)
    requires i < |ws| && DistinctItems(ws) && HoldsItem(ws[i])
    ensures DistinctItems(ws[i := ws[i].(pc := pc)])
    ensures Items(ws[i := ws[i].(pc := pc)]) ==
            if HoldsItem(ws[i].(pc := pc)) then Items(ws) else Items(ws) - {ws[i].key}
  {
    var vs := ws[i := ws[i].(pc := pc)];
    forall k | k in Items(ws) && (k != ws[i].key || HoldsItem(vs[i])) ensures k in Items(vs) {
      var j :| 0 <= j < |ws| && HoldsItem(ws[j]) && ws[j].key == k;
      assert HoldsItem(vs[j]) && vs[j].key == k;
    }
    forall k | k in Items(vs) ensures k in Items(ws) && (k != ws[i].key || HoldsItem(vs[i])) {
      var j :| 0 <= j < |vs| && HoldsItem(vs[j]) && vs[j].key == k;
      assert HoldsItem(ws[j]) && ws[j].key == k;
    }
  }

  lemma MoveLocks(c: Config, ws: seq<Worker>, i: nat, pc: Pc)
    requires i < |ws| && DistinctLocks(c, ws)
    requires HoldsLock(ws[i]) || (HoldsLock(ws[i].(pc := pc)) ==> c.lockKey(ws[i].key) !in LockKeys(c, ws))
    ensures DistinctLocks(c, ws[i := ws[i].(pc := pc)])
    ensures LockKeys(c, ws[i := ws[i].(pc := pc)]) ==
            if HoldsLock(ws[i].(pc := pc)) then LockKeys(c, ws) + {c.lockKey(ws[i].key)}
            else if HoldsLock(ws[i]) then LockKeys(c, ws) - {c.lockKey(ws[i].key)}
            else LockKeys(c, ws)
  {
    var vs, l := ws[i := ws[i].(pc := pc)], c.lockKey(ws[i].key);
    forall j | 0 <= j < |ws| && HoldsLock(ws[j]) ensures c.lockKey(ws[j].key) in LockKeys(c, ws) {}
    forall k | k in LockKeys(c, ws) && (k != l || !HoldsLock(ws[i])) ensures k in LockKeys(c, vs) {
      var j :| 0 <= j < |ws| && HoldsLock(ws[j]) && c.lockKey(ws[j].key) == k;
      assert HoldsLock(vs[j]) && c.lockKey(vs[j].key) == k;
    }
    forall k | k in LockKeys(c, vs)
      ensures (k == l && HoldsLock(vs[i])) || (k in LockKeys(c, ws) && (k != l || !HoldsLock(ws[i])))
    {
      var j :| 0 <= j < |vs| && HoldsLock(vs[j]) && c.lockKey(vs[j].key) == k;
      assert j != i ==> HoldsLock(ws[j]);
    }
    if HoldsLock(vs[i]) { assert c.lockKey(vs[i].key) in LockKeys(c, vs); }
  }

  lemma {:induction false} MoveSlots(ws: seq<Worker>, i: nat, w: Worker)
    requires i < |ws|
    ensures SlotsTaken(ws[i := w]) + (if TakesSlot(ws[i]) then 1 else 0) == SlotsTaken(ws) + if TakesSlot(w) then 1 else 0
  {
    var vs := ws[i := w];
    if i == |ws| - 1 {
      assert vs[..|vs|-1] == ws[..|ws|-1];
    } else {
      assert vs[..|vs|-1] == ws[..|ws|-1][i := w];
      MoveSlots(ws[..|ws|-1], i, w);
    }
  }

  // ---- Preservation, part by part ----

  lemma DispatchKeepsItems(c: Config, s: State)
    requires ItemsAccounted(s) && ShutDownInOrder(s) && DispatchEnabled(c, s)
    ensures ItemsAccounted(DispatchStep(c, s))
  {
    match s.dispatcher
    case Fetching => if s.queue.fifo != [] { GetKeepsConsistent(s.queue); }
    case Holding(k) => SpawnItems(s.workers, k);
    case _ =>
  }

  lemma WorkKeepsItems(c: Config, s: State, i: nat, syncOk: bool)
    requires ItemsAccounted(s) && i < |s.workers|
    ensures ItemsAccounted(WorkStep(c, s, i, syncOk))
  {
    var t := WorkStep(c, s, i, syncOk);
    var k := s.workers[i].key;
    if HoldsItem(s.workers[i]) {
      hide Consistent, Add, Done, DistinctItems;
      MoveItems(s.workers, i, t.workers[i].pc);
      AddKeepsConsistent(s.queue, k);
      assert k in Items(s.workers);
      DoneKeepsConsistent(s.queue, k);
      DoneProcessing(s.queue, k);
    } else {
      SameItems(s.workers, t.workers);
    }
  }

  lemma DoneProcessing(q: Queue, k: ObjectName)
    ensures Done(q, k).processing == q.processing - {k}
  {
  }

  lemma ItemsKept(c: Config, s: State, a: Action)
    requires Inv(c, s) && Enabled(c, s, a)
    ensures ItemsAccounted(Step(c, s, a))
  {
    match a
    case Enqueue(k) => AddKeepsConsistent(s.queue, k);
    case DelayOver(k) => AddKeepsConsistent(s.queue, k);
    case StopQueue =>
    case Dispatch => DispatchKeepsItems(c, s);
    case Work(i, syncOk) => WorkKeepsItems(c, s, i, syncOk);
  }

  lemma SpawnItems(ws: seq<Worker>, k: ObjectName)
    ensures Items(ws + [Worker(k, Spawned)]) == Items(ws) + {k}
  {
    var vs := ws + [Worker(k, Spawned)];
    assert HoldsItem(vs[|ws|]) && vs[|ws|].key == k;
    forall x | x in Items(ws) ensures x in Items(vs) {
      var j :| 0 <= j < |ws| && HoldsItem(ws[j]) && ws[j].key == x;
      assert vs[j] == ws[j];
    }
  }

  lemma SameItems(ws: seq<Worker>, vs: seq<Worker>)
    requires |ws| == |vs|
    requires forall j :: 0 <= j < |ws| ==> HoldsItem(ws[j]) == HoldsItem(vs[j]) && ws[j].key == vs[j].key
    ensures Items(ws) == Items(vs)
  {
  }

  lemma LocksKept(c: Config, s: State, a: Action)
    requires Inv(c, s) && Enabled(c, s, a)
    ensures LocksAccounted(c, Step(c, s, a))
  {
    hide ItemsAccounted, NoLostWork, ShutDownInOrder, SerialPerKey, Add, AddLater, Done, Get, Fire, SlotsTaken;
    var t := Step(c, s, a);
    if a.Work? {
      MoveLocks(c, s.workers, a.worker, t.workers[a.worker].pc);
      if HoldsLock(s.workers[a.worker]) { assert c.lockKey(s.workers[a.worker].key) in s.locks; }
    } else if a.Dispatch? && s.dispatcher.Holding? {
      forall l | l in LockKeys(c, s.workers) ensures l in LockKeys(c, t.workers) {
        var j :| 0 <= j < |s.workers| && HoldsLock(s.workers[j]) && c.lockKey(s.workers[j].key) == l;
        assert t.workers[j] == s.workers[j];
      }
    }
  }

  /** Only the start of a worker takes a slot. */
  lemma SlotsGrow(c: Config, s: State, a: Action)
    requires Enabled(c, s, a)
    ensures SlotsTaken(Step(c, s, a).workers) <= SlotsTaken(s.workers) + if a.Dispatch? && s.dispatcher.Holding? then 1 else 0
  {
    hide Add, AddLater, Done, Get, Fire;
    var t := Step(c, s, a);
    if a.Work? {
      MoveSlots(s.workers, a.worker, t.workers[a.worker]);
    } else if a.Dispatch? && s.dispatcher.Holding? {
      assert t.workers[..|t.workers|-1] == s.workers;
    }
  }

  lemma SlotsKept(c: Config, s: State, a: Action)
    requires Inv(c, s) && Enabled(c, s, a)
    ensures ShutDownInOrder(Step(c, s, a))
    ensures 0 <= c.threadiness ==> SlotsTaken(Step(c, s, a).workers) <= c.threadiness
  {
    hide ItemsAccounted, NoLostWork, LocksAccounted, SerialPerKey, SlotsTaken;
    SlotsGrow(c, s, a);
  }

  lemma WorkKept(c: Config, s: State, a: Action)
    requires Inv(c, s) && Enabled(c, s, a)
    ensures NoLostWork(Step(c, s, a))
  {
    var t := Step(c, s, a);
    if !t.queue.shuttingDown {
      forall k | k in t.owed ensures Served(t, k) {
        if k in s.owed {
          OwedStaysServed(c, s, a, k);
        } else if a.Work? {
          assert t.workers[a.worker].key == k && WillServe(t.workers[a.worker]);
        }
      }
    }
  }

  lemma OwedStaysServed(c: Config, s: State, a: Action, k: ObjectName)
    requires Inv(c, s) && Enabled(c, s, a) && !Step(c, s, a).queue.shuttingDown
    requires k in s.owed && k in Step(c, s, a).owed
    ensures Served(Step(c, s, a), k)
  {
    hide LocksAccounted, ShutDownInOrder, SerialPerKey, SlotsTaken, DistinctItems;
    var t := Step(c, s, a);
    if i :| 0 <= i < |s.workers| && s.workers[i].key == k && WillServe(s.workers[i]) {
      assert t.workers[i].key == k;
      assert (a.Work? && a.worker == i) || t.workers[i] == s.workers[i];
    } else if a == Dispatch && s.dispatcher == Holding(k) {
      assert WillServe(t.workers[|s.workers|]);
    }
  }

  // ---- The log is serial per key ----

  lemma LogGrows(c: Config, log: seq<Event>, e: Event, l: string)
    ensures Serial(c, log + [e], l) ==
            (var before := Serial(c, log, l); if c.lockKey(e.key) != l || before.None? then before else SerialStep(before.value, e))
  {
    assert (log + [e])[..|log|] == log;
  }

  /** With the locks accounted for, the session shown on a key is the one of the worker that holds it. */
  lemma ShownBy(c: Config, s: State, l: string, i: nat)
    requires LocksAccounted(c, s) && SerialPerKey(c, s)
    requires i < |s.workers| && HoldsLock(s.workers[i]) && c.lockKey(s.workers[i].key) == l
    ensures Serial(c, s.log, l) == Some(Open(s.workers[i].key, StageOf(s.workers[i].pc)))
  {
    assert SessionShown(c, s, l);
  }

  lemma ShownIdle(c: Config, s: State, l: string)
    requires LocksAccounted(c, s) && SerialPerKey(c, s)
    requires l !in s.locks
    ensures Serial(c, s.log, l) == Some(Idle)
  {
    assert SessionShown(c, s, l);
  }

  lemma LogKept(c: Config, s: State, a: Action)
    requires Inv(c, s) && Enabled(c, s, a)
    ensures SerialPerKey(c, Step(c, s, a))
  {
    var t := Step(c, s, a);
    forall l ensures SessionShown(c, t, l) {
      assert SessionShown(c, s, l);
      if a.Work? {
        WorkKeepsSession(c, s, a.worker, a.syncOk, l);
      } else if a.Dispatch? {
        DispatchKeepsSession(c, s, l);
      }
    }
  }

  lemma DispatchKeepsSession(c: Config, s: State, l: string)
    requires Inv(c, s) && DispatchEnabled(c, s)
    ensures SessionShown(c, DispatchStep(c, s), l)
  {
    var t := DispatchStep(c, s);
    assert SessionShown(c, s, l);
    var st := Serial(c, s.log, l).value;
    if st.Open? {
      var i :| 0 <= i < |s.workers| && HoldsLock(s.workers[i]) && s.workers[i].key == st.key && StageOf(s.workers[i].pc) == st.stage;
      assert t.workers[i] == s.workers[i];
    }
  }

  lemma WorkKeepsSession(c: Config, s: State, i: nat, syncOk: bool, l: string)
    requires Inv(c, s) && i < |s.workers|
    ensures SessionShown(c, WorkStep(c, s, i, syncOk), l)
  {
    if c.lockKey(s.workers[i].key) != l {
      BystanderKeepsSession(c, s, i, syncOk, l);
    } else if HoldsLock(s.workers[i]) {
      HolderAdvancesSession(c, s, i, syncOk);
    } else {
      OutsiderKeepsSession(c, s, i, syncOk);
    }
  }

  lemma BystanderKeepsSession(c: Config, s: State, i: nat, syncOk: bool, l: string)
    requires LocksAccounted(c, s) && SerialPerKey(c, s) && i < |s.workers| && c.lockKey(s.workers[i].key) != l
    ensures SessionShown(c, WorkStep(c, s, i, syncOk), l)
  {
    hide Shows, LocksAccounted, AddLater, Done, Serial;
    var t := WorkStep(c, s, i, syncOk);
    assert SessionShown(c, s, l);
    if t.log != s.log { LogGrows(c, s.log, t.log[|s.log|], l); }
    OthersShow(c, s.workers, i, t.workers[i], l, Serial(c, s.log, l).value);
  }

  lemma HolderAdvancesSession(c: Config, s: State, i: nat, syncOk: bool)
    requires LocksAccounted(c, s) && SerialPerKey(c, s) && i < |s.workers| && HoldsLock(s.workers[i])
    ensures SessionShown(c, WorkStep(c, s, i, syncOk), c.lockKey(s.workers[i].key))
  {
    hide SerialPerKey, AddLater, Done, Serial;
    var t, l := WorkStep(c, s, i, syncOk), c.lockKey(s.workers[i].key);
    ShownBy(c, s, l, i);
    if t.log != s.log { LogGrows(c, s.log, t.log[|s.log|], l); }
    assert HoldsLock(t.workers[i]) ==> t.workers[i].key == s.workers[i].key;
  }

  lemma OutsiderKeepsSession(c: Config, s: State, i: nat, syncOk: bool)
    requires Inv(c, s) && i < |s.workers| && !HoldsLock(s.workers[i])
    ensures SessionShown(c, WorkStep(c, s, i, syncOk), c.lockKey(s.workers[i].key))
  {
    hide AddLater, Done, Serial;
    var t, l := WorkStep(c, s, i, syncOk), c.lockKey(s.workers[i].key);
    if t.log != s.log { LogGrows(c, s.log, t.log[|s.log|], l); }
    if HoldsLock(t.workers[i]) {
      ShownIdle(c, s, l);
      assert t.workers[i].key == s.workers[i].key && StageOf(t.workers[i].pc) == BeforeSync;
    } else {
      assert SessionShown(c, s, l);
      OthersShow(c, s.workers, i, t.workers[i], l, Serial(c, s.log, l).value);
      if s.workers[i].pc.Spawned? { BusyIsWitnessed(c, s, i); }
    }
  }

  /** A worker that does not hold the lock of `l` before or after does not change what is shown there. */
  lemma OthersShow(c: Config, ws: seq<Worker>, i: nat, w: Worker, l: string, st: Session)
    requires i < |ws| && w.key == ws[i].key && Shows(c, ws, l, st)
    requires c.lockKey(w.key) != l || (!HoldsLock(ws[i]) && !HoldsLock(w))
    ensures Shows(c, ws[i := w], l, st)
  {
    if st.Open? {
      var j :| 0 <= j < |ws| && HoldsLock(ws[j]) && ws[j].key == st.key && StageOf(ws[j].pc) == st.stage;
      assert ws[i := w][j] == ws[j];
    }
  }

  /** A busy lock is another item's open session. */
  lemma BusyIsWitnessed(c: Config, s: State, i: nat)
    requires ItemsAccounted(s) && LocksAccounted(c, s) && SerialPerKey(c, s)
    requires i < |s.workers| && s.workers[i].pc.Spawned?
    requires c.lockKey(s.workers[i].key) in s.locks
    ensures var st := Serial(c, s.log, c.lockKey(s.workers[i].key));
            st.Some? && st.value.Open? && st.value.key != s.workers[i].key
  {
    var l := c.lockKey(s.workers[i].key);
    var j :| 0 <= j < |s.workers| && HoldsLock(s.workers[j]) && c.lockKey(s.workers[j].key) == l;
    ShownBy(c, s, l, j);
    assert HoldsItem(s.workers[i]) && HoldsItem(s.workers[j]);
  }

  // ---- Every run ----

  lemma StepKeepsInv(c: Config, s: State, a: Action)
    requires Inv(c, s) && Enabled(c, s, a)
    ensures Inv(c, Step(c, s, a))
  {
    ItemsKept(c, s, a);
    LocksKept(c, s, a);
    WorkKept(c, s, a);
    LogKept(c, s, a);
    SlotsKept(c, s, a);
  }

  lemma {:induction false} RunKeepsInv(c: Config, run: seq<Action>)
    ensures Inv(c, Execute(c, run))
  {
    if run != [] {
      RunKeepsInv(c, run[..|run|-1]);
      var s := Execute(c, run[..|run|-1]);
      if Enabled(c, s, run[|run|-1]) { StepKeepsInv(c, s, run[|run|-1]); }
    }
  }
}
