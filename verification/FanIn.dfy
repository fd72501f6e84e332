/**
 The fan-out / fan-in that the api-server uses to query many objects at once: an errgroup with a limit starts one
 goroutine per item, each sends at most one value into a channel with room for all of them, and the channel is
 drained only after Wait and close.
 */
module FanIn {
  import opened Options

  /** What a goroutine will do: the value it sends, if any, and whether it returns an error. */
  datatype Task<V> = Task(sends: Option<V>, fails: bool)

  datatype Phase = NotStarted | Running | Delivered | Finished

  ghost predicate Distinct(order: seq<nat>) {
    forall i, j :: 0 <= i < j < |order| ==> order[i] != order[j]
  }

  /** The values received are those the tasks send, once each, in some order. */
  ghost predicate Delivers<V>(tasks: seq<Task<V>>, order: seq<nat>, received: seq<V>) {
    && Distinct(order)
    && (forall i: nat :: i in order <==> i < |tasks| && tasks[i].sends.Some?)
    && |received| == |order|
    && forall j :: 0 <= j < |order| ==> order[j] in order && received[j] == tasks[order[j]].sends.value
  }

  /** What the tasks send, in the order of the tasks. */
  function Values<V>(tasks: seq<Task<V>>): seq<V> {
    if tasks == [] then []
    else
      var last := tasks[|tasks|-1].sends;
      Values(tasks[..|tasks|-1]) + if last.Some? then [last.value] else []
  }

  function Without<T>(s: seq<T>, j: nat): seq<T>
    requires j < |s|
  {
    s[..j] + s[j+1..]
  }

  lemma WithoutIsDistinct(order: seq<nat>, j: nat)
    requires Distinct(order) && j < |order|
    ensures Distinct(Without(order, j))
    ensures forall x :: x in Without(order, j) <==> x in order && x != order[j]
  {
    var r := Without(order, j);
    assert forall k :: 0 <= k < |r| ==> r[k] == order[if k < j then k else k + 1];
    forall x | x in order && x != order[j] ensures x in r {
      var k :| 0 <= k < |order| && order[k] == x;
      assert r[if k < j then k else k - 1] == x;
    }
  }

  lemma MultisetWithout<T>(s: seq<T>, j: nat)
    requires j < |s|
    ensures multiset(s) == multiset(Without(s, j)) + multiset{s[j]}
  {
    assert s == s[..j] + [s[j]] + s[j+1..];
  }

  lemma DeliversWithoutLast<V>(tasks: seq<Task<V>>, order: seq<nat>, received: seq<V>, j: nat)
    requires Delivers(tasks, order, received) && tasks != [] && j < |order| && order[j] == |tasks| - 1
    ensures Delivers(tasks[..|tasks|-1], Without(order, j), Without(received, j))
  {
    WithoutIsDistinct(order, j);
    var r, v := Without(order, j), Without(received, j);
    forall k | 0 <= k < |r| ensures r[k] in r && r[k] in order && r[k] != order[j] && v[k] == tasks[r[k]].sends.value {
      assert r[k] == order[if k < j then k else k + 1];
      assert r[k] in r;
    }
  }

  /** The channel's contents are a permutation of what the tasks send. */
  lemma {:induction false} DeliveredAll<V>(tasks: seq<Task<V>>, order: seq<nat>, received: seq<V>)
    requires Delivers(tasks, order, received)
    ensures multiset(received) == multiset(Values(tasks))
  {
    if tasks == [] {
      DistinctFit(order, 0);
    } else {
      var n := |tasks| - 1;
      LastDelivers(tasks, order, received);
      hide Delivers, Distinct, Without;
      if tasks[n].sends.Some? {
        var j :| 0 <= j < |order| && order[j] == n && received[j] == tasks[n].sends.value;
        DeliversWithoutLast(tasks, order, received, j);
        DeliveredAll(tasks[..n], Without(order, j), Without(received, j));
        MultisetWithout(received, j);
      } else {
        DeliveredAll(tasks[..n], order, received);
      }
    }
  }

  /** What the last task sends was received; if it sends nothing, the others sent everything. */
  lemma LastDelivers<V>(tasks: seq<Task<V>>, order: seq<nat>, received: seq<V>)
    requires Delivers(tasks, order, received) && tasks != []
    ensures |order| == |received|
    ensures var n := |tasks| - 1;
            if tasks[n].sends.Some? then exists j :: 0 <= j < |order| && order[j] == n && received[j] == tasks[n].sends.value
            else Delivers(tasks[..n], order, received)
  {
    var n := |tasks| - 1;
    assert tasks[n].sends.Some? ==> n in order;
  }

  lemma {:induction false} DistinctFit(order: seq<nat>, n: nat)
    requires Distinct(order) && forall j :: 0 <= j < |order| ==> order[j] < n
    ensures |order| <= n
  {
    if n == 0 {
    } else if n - 1 in order {
      var j :| 0 <= j < |order| && order[j] == n - 1;
      WithoutIsDistinct(order, j);
      assert forall x :: x in Without(order, j) ==> x in order;
      DistinctFit(Without(order, j), n - 1);
    } else {
      DistinctFit(order, n - 1);
    }
  }

  function SlotsTaken(pc: seq<Phase>): nat {
    if pc == [] then 0
    else SlotsTaken(pc[..|pc|-1]) + if pc[|pc|-1].Running? || pc[|pc|-1].Delivered? then 1 else 0
  }

  function Steps(phase: Phase): nat {
    match phase case NotStarted => 3 case Running => 2 case Delivered => 1 case Finished => 0
  }

  function StepsLeft(pc: seq<Phase>): nat {
    if pc == [] then 0 else StepsLeft(pc[..|pc|-1]) + Steps(pc[|pc|-1])
  }

  lemma {:induction false} StepsChange(pc: seq<Phase>, i: nat, phase: Phase)
    requires i < |pc|
    ensures StepsLeft(pc[i := phase]) + Steps(pc[i]) == StepsLeft(pc) + Steps(phase)
  {
    var qc, n := pc[i := phase], |pc| - 1;
    if i < n {
      assert qc[..n] == pc[..n][i := phase];
      StepsChange(pc[..n], i, phase);
    } else {
      assert qc[..n] == pc[..n];
    }
  }

  /** While a task has not delivered, the channel has room for its value. */
  lemma RoomLeft(order: seq<nat>, i: nat, n: nat)
    requires Distinct(order) && (forall k :: k in order ==> k < n) && i < n && i !in order
    ensures |order| < n
  {
    assert forall j :: 0 <= j < |order| ==> order[j] in order;
    DistinctFit(order + [i], n);
  }

  lemma {:induction false} SomeoneWorks(pc: seq<Phase>)
    requires SlotsTaken(pc) > 0
    ensures exists i :: 0 <= i < |pc| && (pc[i].Running? || pc[i].Delivered?)
  {
    var n := |pc| - 1;
    if !pc[n].Running? && !pc[n].Delivered? {
      SomeoneWorks(pc[..n]);
      var i :| 0 <= i < n && (pc[..n][i].Running? || pc[..n][i].Delivered?);
      assert pc[i] == pc[..n][i];
    }
  }

  datatype Move = Start | Advance(task: nat)

  /** errgroup.Go waits for a slot; a negative limit is none. Started tasks proceed in any order. */
  predicate CanMove(pc: seq<Phase>, next: nat, limit: int, m: Move) {
    match m
    case Start => next < |pc| && (limit < 0 || SlotsTaken(pc) < limit)
    case Advance(i) => i < |pc| && (pc[i].Running? || pc[i].Delivered?)
  }

  /** Nothing is ever stuck: while a task is unfinished, some move is possible. */
  lemma MoveExists(pc: seq<Phase>, next: nat, limit: int)
    requires limit != 0 && next <= |pc|
    requires forall i :: 0 <= i < |pc| ==> (pc[i].NotStarted? <==> next <= i)
    requires exists i :: 0 <= i < |pc| && !pc[i].Finished?
    ensures exists m :: CanMove(pc, next, limit, m)
  {
    if next == |pc| {
      var i :| 0 <= i < |pc| && !pc[i].Finished?;
      assert CanMove(pc, next, limit, Advance(i));
    } else if SlotsTaken(pc) > 0 {
      SomeoneWorks(pc);
      var i :| 0 <= i < |pc| && (pc[i].Running? || pc[i].Delivered?);
      assert CanMove(pc, next, limit, Advance(i));
    } else {
      assert CanMove(pc, next, limit, Start);
    }
  }

  predicate HasDelivered<V>(task: Task<V>, phase: Phase) {
    (phase.Delivered? || phase.Finished?) && task.sends.Some?
  }

  /** The channel holds the values of the tasks that have delivered, in the order of their sends. */
  ghost predicate Holds<V>(tasks: seq<Task<V>>, pc: seq<Phase>, order: seq<nat>, channel: seq<V>)
    requires |pc| == |tasks|
  {
    && Distinct(order) && |channel| == |order|
    && (forall i: nat :: i in order <==> i < |tasks| && HasDelivered(tasks[i], pc[i]))
    && forall j :: 0 <= j < |order| ==> order[j] in order && channel[j] == tasks[order[j]].sends.value
  }

  lemma SendHolds<V>(tasks: seq<Task<V>>, pc: seq<Phase>, order: seq<nat>, channel: seq<V>, i: nat)
    requires |pc| == |tasks| && i < |pc| && pc[i].Running? && Holds(tasks, pc, order, channel)
    ensures tasks[i].sends.Some? ==>
              Holds(tasks, pc[i := Delivered], order + [i], channel + [tasks[i].sends.value]) && |channel| < |tasks|
    ensures tasks[i].sends.None? ==> Holds(tasks, pc[i := Delivered], order, channel)
  {
    if tasks[i].sends.Some? {
      RoomLeft(order, i, |tasks|);
      var r := order + [i];
      forall k: nat ensures k in r <==> k in order || k == i {}
      assert forall j :: 0 <= j < |r| ==> r[j] in r;
    }
  }

  ghost predicate SomeFailed<V>(tasks: seq<Task<V>>, pc: seq<Phase>)
    requires |pc| == |tasks|
  {
    exists i :: 0 <= i < |tasks| && pc[i].Finished? && tasks[i].fails
  }

  lemma FinishFails<V>(tasks: seq<Task<V>>, pc: seq<Phase>, i: nat, phase: Phase)
    requires |pc| == |tasks| && i < |pc| && !pc[i].Finished?
    ensures SomeFailed(tasks, pc[i := phase]) <==> SomeFailed(tasks, pc) || (phase.Finished? && tasks[i].fails)
  {
    var qc := pc[i := phase];
    if j :| 0 <= j < |tasks| && pc[j].Finished? && tasks[j].fails { assert qc[j].Finished?; }
    if phase.Finished? && tasks[i].fails { assert qc[i].Finished?; }
  }

  /** The drain loop: receives until the closed channel is empty. */
  method Drain<V>(channel: seq<V>) returns (received: seq<V>)
    ensures received == channel
  {
    received := [];
    var rest := channel;
    while rest != []
      invariant received + rest == channel
    {
      received, rest := received + [rest[0]], rest[1..];
    }
  }

  /**
   The pattern under every schedule: each iteration makes an arbitrary possible move. That one exists, that a send
   finds room in an open channel, and that the loop ends, is part of what is verified.
   */
  method Run<V>(tasks: seq<Task<V>>, limit: int) returns (received: seq<V>, failed: bool)
    requires limit != 0
    ensures failed <==> exists i :: 0 <= i < |tasks| && tasks[i].fails
    ensures !failed ==> multiset(received) == multiset(Values(tasks))
    ensures failed ==> received == []
  {
    var capacity := |tasks|;
    var channel: seq<V> := [];
    var closed := false;
    failed := false;
    var pc := seq(|tasks|, _ => NotStarted);
    var next := 0;
    ghost var order: seq<nat> := [];

    while exists i :: 0 <= i < |pc| && !pc[i].Finished?
      invariant |pc| == |tasks| && next <= |tasks| && !closed
      invariant forall i :: 0 <= i < |pc| ==> (pc[i].NotStarted? <==> next <= i)
      invariant Holds(tasks, pc, order, channel)
      invariant failed <==> SomeFailed(tasks, pc)
      decreases StepsLeft(pc)
    {
      MoveExists(pc, next, limit);
      var m :| CanMove(pc, next, limit, m);
      var i := if m.Start? then next else m.task;
      var phase := if m.Start? then Running else if pc[i].Running? then Delivered else Finished;
      StepsChange(pc, i, phase);
      FinishFails(tasks, pc, i, phase);
      if m.Start? {
        next := next + 1;
      } else if pc[i].Running? {
        SendHolds(tasks, pc, order, channel, i);
        if tasks[i].sends.Some? {
          assert !closed && |channel| < capacity;
          channel, order := channel + [tasks[i].sends.value], order + [i];
        }
      } else {
        failed := failed || tasks[i].fails;
      }
      pc := pc[i := phase];
    }
    assert Delivers(tasks, order, channel);
    DeliveredAll(tasks, order, channel);
    closed := true;
    received := [];
    if failed {
      return;
    }
    received := Drain(channel);
  }
}
