/**
 Interleaving two lists in order: items take positions of an `External` and a `Resource` list, each list in order.
 The greedy choice, an external position whenever it fits, finds the only assignment there can be, provided that no
 external position fits two items and there are as many positions as items.
 */
module Matching {

  /** A position in the external or in the resource list. */
  datatype Slot = External(pos: nat) | Resource(pos: nat)

  datatype Problem = Problem(
    items: nat,
    externals: nat,
    resources: nat,
    fits: (nat, nat) -> bool,        // item, external position
    accepted: (nat, Slot) -> bool)   // item, slot

  predicate InRange(p: Problem, slot: Slot) {
    slot.pos < if slot.External? then p.externals else p.resources
  }

  predicate InOrder(x: Slot, y: Slot) {
    x.External? == y.External? ==> x.pos < y.pos
  }

  /** Items in order get positions of either list in order. */
  ghost predicate OrderPreserving(a: seq<Slot>) {
    forall i, j {:trigger InOrder(a[i], a[j])} :: 0 <= i < j < |a| ==> InOrder(a[i], a[j])
  }

  /** An order preserving, accepted assignment of the first |a| items. */
  ghost predicate Assignment(p: Problem, a: seq<Slot>) {
    && |a| <= p.items
    && OrderPreserving(a)
    && forall i :: 0 <= i < |a| ==> InRange(p, a[i]) && p.accepted(i, a[i])
  }

  ghost predicate FullAssignment(p: Problem, a: seq<Slot>) {
    |a| == p.items && Assignment(p, a)
  }

  ghost predicate Unambiguous(p: Problem) {
    && (forall i, j, e :: p.fits(i, e) && p.fits(j, e) ==> i == j)
    && (forall i, e :: p.accepted(i, External(e)) ==> p.fits(i, e))
  }

  /** One position per item. */
  predicate Balanced(p: Problem) {
    p.items == p.externals + p.resources
  }

  /** The external positions are numbered first. */
  function Index(p: Problem, slot: Slot): nat {
    match slot
    case External(e) => e
    case Resource(r) => p.externals + r
  }

  // ---- The greedy walk ----

  function Externals(a: seq<Slot>): nat {
    if a == [] then 0 else Externals(a[..|a|-1]) + if a[|a|-1].External? then 1 else 0
  }

  /** The walk's choice for item `i` with the cursors at `e` and `r`: an external position that fits goes first. */
  function Choice(p: Problem, i: nat, e: nat, r: nat): Slot {
    if e < p.externals && p.fits(i, e) then External(e) else Resource(r)
  }

  /** The choices for the first `i` items; the cursors are the numbers of slots of each kind chosen before. */
  function Walk(p: Problem, i: nat): (w: seq<Slot>)
    requires i <= p.items
    ensures |w| == i && Externals(w) <= i
  {
    if i == 0 then []
    else
      var w := Walk(p, i - 1);
      w + [Choice(p, i - 1, Externals(w), i - 1 - Externals(w))]
  }

  predicate Contains(w: seq<Slot>, slot: Slot) {
    slot in w
  }

  /** The slots taken are the first e external and the first r resource positions. */
  ghost predicate Takes(w: seq<Slot>, e: nat, r: nat) {
    && (forall q: nat {:trigger Contains(w, External(q))} :: q < e ==> Contains(w, External(q)))
    && (forall q: nat {:trigger Contains(w, Resource(q))} :: q < r ==> Contains(w, Resource(q)))
    && (forall j :: 0 <= j < |w| ==> w[j].pos < if w[j].External? then e else r)
  }

  lemma ExternalsGrow(w: seq<Slot>, slot: Slot)
    ensures Externals(w + [slot]) == Externals(w) + if slot.External? then 1 else 0
  {
    assert (w + [slot])[..|w|] == w;
  }

  lemma TakesNext(w: seq<Slot>, e: nat, r: nat, next: Slot)
    requires Takes(w, e, r) && (next == External(e) || next == Resource(r))
    ensures Takes(w + [next], if next.External? then e + 1 else e, if next.External? then r else r + 1)
  {
    var v := w + [next];
    assert v[|w|] == next;
    forall slot | Contains(w, slot) ensures Contains(v, slot) {}
    assert Contains(v, next);
    forall q: nat | q < if next.External? then e + 1 else e ensures Contains(v, External(q)) {
      assert q < e ==> Contains(w, External(q));
    }
    forall q: nat | q < if next.External? then r else r + 1 ensures Contains(v, Resource(q)) {
      assert q < r ==> Contains(w, Resource(q));
    }
  }

  lemma OrderNext(w: seq<Slot>, e: nat, r: nat, next: Slot)
    requires Takes(w, e, r) && OrderPreserving(w) && (next == External(e) || next == Resource(r))
    ensures OrderPreserving(w + [next])
  {
  }

  lemma WalkNext(p: Problem, i: nat)
    requires i < p.items
    ensures var w := Walk(p, i);
            var next := Choice(p, i, Externals(w), i - Externals(w));
            Walk(p, i + 1) == w + [next] && Externals(w + [next]) == Externals(w) + if next.External? then 1 else 0
  {
    var w := Walk(p, i);
    ExternalsGrow(w, Choice(p, i, Externals(w), i - Externals(w)));
  }

  lemma WalkStart(p: Problem)
    ensures Walk(p, 0) == [] && Externals(Walk(p, 0)) == 0 && Takes(Walk(p, 0), 0, 0) && OrderPreserving(Walk(p, 0))
  {
  }

  /** The walk takes each list from its front without a gap. */
  lemma {:induction false} WalkHasNoGaps(p: Problem, i: nat)
    requires i <= p.items
    ensures Takes(Walk(p, i), Externals(Walk(p, i)), i - Externals(Walk(p, i)))
    ensures OrderPreserving(Walk(p, i))
  {
    hide Walk, Externals, Takes, OrderPreserving;
    WalkStart(p);
    if i > 0 {
      var w := Walk(p, i - 1);
      var e, r := Externals(w), i - 1 - Externals(w);
      var next := Choice(p, i - 1, e, r);
      WalkHasNoGaps(p, i - 1);
      TakesNext(w, e, r, next);
      OrderNext(w, e, r, next);
      WalkNext(p, i - 1);
    }
  }

  predicate From(p: Problem, slot: Slot, x: nat, y: nat) {
    InRange(p, slot) && slot.pos >= if slot.External? then x else y
  }

  /** Slots in order, none before external position x or resource position y, are at most what is left. */
  lemma {:induction false} SlotsLeft(p: Problem, a: seq<Slot>, x: nat, y: nat)
    requires x <= p.externals && y <= p.resources && OrderPreserving(a)
    requires forall i :: 0 <= i < |a| ==> From(p, a[i], x, y)
    ensures |a| <= p.externals - x + p.resources - y
  {
    if a != [] {
      var rest, slot := a[1..], a[0];
      var x', y' := if slot.External? then slot.pos + 1 else x, if slot.External? then y else slot.pos + 1;
      forall j | 0 <= j < |rest| ensures From(p, rest[j], x', y') { assert InOrder(slot, a[j+1]); }
      forall i, j | 0 <= i < j < |rest| ensures InOrder(rest[i], rest[j]) { assert InOrder(a[i+1], a[j+1]); }
      SlotsLeft(p, rest, x', y');
    }
  }

  lemma PositionsLeft(p: Problem, a: seq<Slot>, i: nat, e: nat, r: nat)
    requires Assignment(p, a) && i <= |a| && Takes(a[..i], e, r)
    ensures e <= p.externals && r <= p.resources
    ensures OrderPreserving(a[i..])
    ensures forall j :: 0 <= j < |a[i..]| ==> From(p, a[i..][j], e, r)
  {
    if e > 0 {
      assert Contains(a[..i], External(e - 1));
      var m :| 0 <= m < i && a[m] == External(e - 1);
      assert forall j :: i <= j < |a| ==> InOrder(a[m], a[j]);
    }
    if r > 0 {
      assert Contains(a[..i], Resource(r - 1));
      var m :| 0 <= m < i && a[m] == Resource(r - 1);
      assert forall j :: i <= j < |a| ==> InOrder(a[m], a[j]);
    }
    forall j, m | 0 <= j < m < |a[i..]| ensures InOrder(a[i..][j], a[i..][m]) { assert InOrder(a[i+j], a[i+m]); }
  }

  /** As many slots as positions left: the first slot takes the next position of its list, and no external one is skipped. */
  lemma NoneSkipped(p: Problem, rest: seq<Slot>, e: nat, r: nat)
    requires rest != [] && OrderPreserving(rest) && e <= p.externals && r <= p.resources
    requires forall j :: 0 <= j < |rest| ==> From(p, rest[j], e, r)
    requires |rest| == p.externals - e + p.resources - r
    ensures rest[0] == External(e) || rest[0] == Resource(r)
    ensures e < p.externals ==> External(e) in rest
  {
    var slot := rest[0];
    if slot.External? && slot.pos != e {
      forall j | 0 <= j < |rest| ensures From(p, rest[j], e + 1, r) { assert j > 0 ==> InOrder(slot, rest[j]); }
      SlotsLeft(p, rest, e + 1, r);
    }
    if slot.Resource? && slot.pos != r {
      forall j | 0 <= j < |rest| ensures From(p, rest[j], e, r + 1) { assert j > 0 ==> InOrder(slot, rest[j]); }
      SlotsLeft(p, rest, e, r + 1);
    }
    if e < p.externals && External(e) !in rest {
      forall j | 0 <= j < |rest| ensures From(p, rest[j], e + 1, r) { assert rest[j] in rest; }
      SlotsLeft(p, rest, e + 1, r);
    }
  }

  /** Exchange: an assignment that follows the walk so far cannot save an external position that fits now for a later item. */
  lemma FollowsWalk(p: Problem, a: seq<Slot>, i: nat)
    requires Balanced(p) && Unambiguous(p) && FullAssignment(p, a) && i < |a| && a[..i] == Walk(p, i)
    ensures a[i] == Choice(p, i, Externals(a[..i]), i - Externals(a[..i]))
  {
    hide OrderPreserving, Takes, Walk, Externals;
    var e := Externals(a[..i]);
    var r := i - e;
    WalkHasNoGaps(p, i);
    PositionsLeft(p, a, i, e, r);
    NoneSkipped(p, a[i..], e, r);
    assert a[i] == a[i..][0];
    assert p.accepted(i, a[i]);
    if e < p.externals && p.fits(i, e) {
      var j :| 0 <= j < |a[i..]| && a[i..][j] == External(e);
      assert p.accepted(i + j, a[i+j]) && p.fits(i + j, e);
    }
  }

  lemma {:induction false} AssignmentIsWalk(p: Problem, a: seq<Slot>, i: nat)
    requires Balanced(p) && Unambiguous(p) && FullAssignment(p, a) && i <= |a|
    ensures a[..i] == Walk(p, i)
  {
    hide Unambiguous, Balanced, Externals, Walk, Assignment;
    WalkStart(p);
    if i > 0 {
      AssignmentIsWalk(p, a, i - 1);
      FollowsWalk(p, a, i - 1);
      WalkNext(p, i - 1);
      assert a[..i] == a[..i-1] + [a[i-1]];
    }
  }

  /** If any assignment exists, every choice of the walk is accepted. */
  lemma WalkIsAccepted(p: Problem, a: seq<Slot>, i: nat)
    requires Balanced(p) && Unambiguous(p) && FullAssignment(p, a) && i < |a|
    ensures p.accepted(i, Choice(p, i, Externals(Walk(p, i)), i - Externals(Walk(p, i))))
  {
    hide Walk, Externals, Unambiguous, Balanced, OrderPreserving;
    AssignmentIsWalk(p, a, i);
    FollowsWalk(p, a, i);
    assert p.accepted(i, a[i]);
  }

  /** At most one assignment exists: the greedy walk misses none and chooses wrongly never. */
  lemma AssignmentUnique(p: Problem, a: seq<Slot>, b: seq<Slot>)
    requires Balanced(p) && Unambiguous(p) && FullAssignment(p, a) && FullAssignment(p, b)
    ensures a == b
  {
    AssignmentIsWalk(p, a, |a|);
    AssignmentIsWalk(p, b, |b|);
    assert a[..|a|] == a && b[..|b|] == b;
  }

  /** The lists are used up, in order and without a gap. */
  lemma AssignmentUsesAll(p: Problem, a: seq<Slot>)
    requires Balanced(p) && Unambiguous(p) && FullAssignment(p, a)
    ensures Externals(a) == p.externals && |a| - Externals(a) == p.resources && Takes(a, p.externals, p.resources)
  {
    hide Walk, Externals, Unambiguous, OrderPreserving, Takes;
    AssignmentIsWalk(p, a, |a|);
    assert a[..|a|] == a;
    WalkHasNoGaps(p, |a|);
    PositionsLeft(p, a, |a|, Externals(a), |a| - Externals(a));
  }

  /** Items and indices correspond one to one: an index is in range exactly if some item has it, and no two items share one. */
  lemma AssignmentIsBijection(p: Problem, a: seq<Slot>, m: nat)
    requires Balanced(p) && Unambiguous(p) && FullAssignment(p, a)
    ensures m < |a| <==> exists i :: 0 <= i < |a| && Index(p, a[i]) == m
    ensures forall i, j :: 0 <= i < j < |a| ==> Index(p, a[i]) != Index(p, a[j])
  {
    AssignmentUsesAll(p, a);
    forall i, j | 0 <= i < j < |a| ensures Index(p, a[i]) != Index(p, a[j]) {
      assert InOrder(a[i], a[j]);
      assert InRange(p, a[i]) && InRange(p, a[j]);
    }
    var slot := if m < p.externals then External(m) else Resource(m - p.externals);
    if m < |a| {
      assert Contains(a, slot);
      var i :| 0 <= i < |a| && a[i] == slot;
      assert Index(p, a[i]) == m;
    }
  }
}
