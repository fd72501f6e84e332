/**
 api-server/api/models/horizontal_scaling_summary.go: which metric of the HPA belongs to which trigger.
 KEDA lists the external metric names and the resource metric names separately; the walk interleaves them again.
 */
module HorizontalScaling {
  import opened Matching
  import opened Options
  import opened Search

  datatype Trigger = Trigger(name: string, kind: string)

  datatype ExternalMetric = ExternalMetric(name: string, averageValue: Option<string>)
  datatype ResourceMetric = ResourceMetric(name: string, averageUtilization: Option<int>)
  datatype MetricStatus = MetricStatus(kind: string, external: Option<ExternalMetric>, resource: Option<ResourceMetric>)
  datatype Health = Health(status: string, failures: int)

  datatype ScaledObject = ScaledObject(
    triggers: seq<Trigger>,
    externalNames: seq<string>,
    resourceNames: seq<string>,
    health: map<string, Health>)

  datatype CurrentState = CurrentState(utilization: string, errorMsg: string)

  const EXTERNAL := "External"
  const RESOURCE := "Resource"

  // ---- Decimal numerals ----

  function Digit(d: nat): char
    requires d < 10
  {
    '0' + d as char
  }

  function Decimal(n: nat): (s: string)
    ensures s != [] && forall i :: 0 <= i < |s| ==> '0' <= s[i] <= '9'
  {
    if n < 10 then [Digit(n)] else Decimal(n / 10) + [Digit(n % 10)]
  }

  function Numeral(n: int): string {
    if n < 0 then "-" + Decimal(-n) else Decimal(n)
  }

  lemma {:induction false} DecimalInjective(m: nat, n: nat)
    requires Decimal(m) == Decimal(n)
    ensures m == n
  {
    var s := Decimal(m);
    assert s[|s|-1] == Digit(m % 10) && s[|s|-1] == Digit(n % 10);
    if m >= 10 && n >= 10 {
      assert Decimal(m / 10) == s[..|s|-1] == Decimal(n / 10);
      DecimalInjective(m / 10, n / 10);
    }
  }

  predicate HasPrefix(s: string, prefix: string) {
    prefix <= s
  }

  /** The prefix KEDA gives the external metric of trigger `i`. */
  function Prefix(i: nat, kind: string): string {
    "s" + Decimal(i) + "-" + kind + "-"
  }

  lemma PrefixDetermines(name: string, i: nat, kind: string)
    requires HasPrefix(name, Prefix(i, kind))
    ensures name != [] && FirstIndex(name[1..], Is('-')) < |name| - 1 && Decimal(i) == name[1..][..FirstIndex(name[1..], Is('-'))]
  {
    var rest := kind + "-" + name[|Prefix(i, kind)|..];
    assert name == Prefix(i, kind) + name[|Prefix(i, kind)|..];
    assert name[1..] == Decimal(i) + ['-'] + rest;
    FirstIndexOf(Decimal(i), '-', rest, Is('-'));
  }

  /** A name carries the prefix of one trigger index only: numerals are injective and hold no dash. */
  lemma PrefixUnambiguous(name: string, i: nat, kind: string, j: nat, kind': string)
    requires HasPrefix(name, Prefix(i, kind)) && HasPrefix(name, Prefix(j, kind'))
    ensures i == j
  {
    PrefixDetermines(name, i, kind);
    PrefixDetermines(name, j, kind');
    DecimalInjective(i, j);
  }

  // ---- Readings ----

  /** getHorizontalScalingCurrentUtilization: the reading of metric `index`, or None if it is not that metric. */
  function CurrentUtilization(metrics: seq<MetricStatus>, index: nat, name: string, kind: string): Option<string> {
    if |metrics| <= index then None
    else
      var m := metrics[index];
      if m.kind != kind then (if m.kind == "" then Some("") else None)
      else if kind == EXTERNAL then
        if m.external.None? || m.external.value.name != name then None
        else Some(if m.external.value.averageValue.None? then "" else m.external.value.averageValue.value)
      else if kind == RESOURCE then
        if m.resource.None? || m.resource.value.name != name then None
        else Some(if m.resource.value.averageUtilization.None? then "" else Numeral(m.resource.value.averageUtilization.value))
      else Some("")
  }

  function ErrorMessage(keda: ScaledObject, name: string): string {
    if name in keda.health && keda.health[name].status != "Happy" then
      "Number of failures: " + Numeral(keda.health[name].failures)
    else ""
  }

  // ---- Assignments ----

  /** The external name at position `e` carries the prefix of trigger `i`. */
  predicate FitsExternal(keda: ScaledObject, i: nat, e: nat) {
    i < |keda.triggers| && e < |keda.externalNames| && HasPrefix(keda.externalNames[e], Prefix(i, keda.triggers[i].kind))
  }

  /** A resource name is the trigger's type. */
  predicate FitsResource(keda: ScaledObject, i: nat, r: nat) {
    i < |keda.triggers| && r < |keda.resourceNames| && keda.resourceNames[r] == keda.triggers[i].kind
  }

  /** The reading of the metric a slot stands for; the HPA lists the external metrics first. */
  function Reading(keda: ScaledObject, metrics: seq<MetricStatus>, slot: Slot): Option<CurrentState> {
    match slot
    case External(e) =>
      if e >= |keda.externalNames| then None
      else
        var u := CurrentUtilization(metrics, e, keda.externalNames[e], EXTERNAL);
        if u.None? then None else Some(CurrentState(u.value, ErrorMessage(keda, keda.externalNames[e])))
    case Resource(r) =>
      if r >= |keda.resourceNames| then None
      else
        var u := CurrentUtilization(metrics, |keda.externalNames| + r, keda.resourceNames[r], RESOURCE);
        if u.None? then None else Some(CurrentState(u.value, ""))
  }

  predicate Accepted(keda: ScaledObject, metrics: seq<MetricStatus>, i: nat, slot: Slot) {
    && (if slot.External? then FitsExternal(keda, i, slot.pos) else FitsResource(keda, i, slot.pos))
    && Reading(keda, metrics, slot).Some?
  }

  // ---- What a reading is, in plain terms ----

  /** The name that a slot stands for. */
  function NameAt(keda: ScaledObject, slot: Slot): string
    requires slot.pos < if slot.External? then |keda.externalNames| else |keda.resourceNames|
  {
    match slot
    case External(e) => keda.externalNames[e]
    case Resource(r) => keda.resourceNames[r]
  }

  /**
   What may be reported for trigger i at a slot. The slot's name belongs to the trigger. The metric with the slot's
   index, the external ones first, either has no kind and shows nothing, or has the slot's kind and name and shows its
   value. The error message tells the failures of an external metric that is not Happy.
   */
  ghost predicate Reports(keda: ScaledObject, metrics: seq<MetricStatus>, i: nat, slot: Slot, state: CurrentState) {
    && i < |keda.triggers| && (slot.pos < if slot.External? then |keda.externalNames| else |keda.resourceNames|)
    && var kind, name := keda.triggers[i].kind, NameAt(keda, slot);
       var index := if slot.External? then slot.pos else |keda.externalNames| + slot.pos;
       && index < |metrics|
       && var m := metrics[index];
          && (if slot.External? then "s" + Decimal(i) + "-" + kind + "-" <= name else name == kind)
          && ( || (m.kind == "" && state.utilization == "")
               || (slot.External? && m.kind == "External" && m.external.Some? && m.external.value.name == name &&
                   state.utilization == match m.external.value.averageValue case Some(v) => v case None => "")
               || (slot.Resource? && m.kind == "Resource" && m.resource.Some? && m.resource.value.name == name &&
                   state.utilization == match m.resource.value.averageUtilization case Some(n) => Numeral(n) case None => ""))
          && state.errorMsg == if slot.External? && name in keda.health && keda.health[name].status != "Happy"
                               then "Number of failures: " + Numeral(keda.health[name].failures) else ""
  }

  ghost predicate Reportable(keda: ScaledObject, metrics: seq<MetricStatus>, i: nat, slot: Slot) {
    exists state :: Reports(keda, metrics, i, slot, state)
  }

  /** A slot is accepted exactly if something may be reported for it, and that is its reading. */
  lemma AcceptedIff(keda: ScaledObject, metrics: seq<MetricStatus>, i: nat, slot: Slot)
    ensures Accepted(keda, metrics, i, slot) <==> Reportable(keda, metrics, i, slot)
    ensures Accepted(keda, metrics, i, slot) ==>
              forall state :: Reports(keda, metrics, i, slot, state) <==> Reading(keda, metrics, slot) == Some(state)
  {
    hide Decimal, Numeral;
    if Accepted(keda, metrics, i, slot) {
      assert Reports(keda, metrics, i, slot, Reading(keda, metrics, slot).value);
    }
  }

  /** The number a numeral stands for. */
  function Value(s: string): int {
    if s == [] then 0 else Value(s[..|s|-1]) * 10 + (s[|s|-1] as int - '0' as int)
  }

  lemma {:induction false} DecimalValue(n: nat)
    ensures Value(Decimal(n)) == n && (Decimal(n)[0] == '0' ==> n == 0)
  {
    var s := Decimal(n);
    if n >= 10 {
      assert s[..|s|-1] == Decimal(n / 10);
      DecimalValue(n / 10);
    } else {
      assert s[..0] == [] && Value([]) == 0;
    }
  }

  lemma NumeralValue(n: int)
    ensures if n < 0 then Numeral(n)[0] == '-' && Value(Numeral(n)[1..]) == -n else Value(Numeral(n)) == n
  {
    DecimalValue(if n < 0 then -n else n);
  }

  /** The triggers are the items, the two lists of metric names the positions. */
  function Triggers(keda: ScaledObject, metrics: seq<MetricStatus>): Problem {
    Problem(|keda.triggers|, |keda.externalNames|, |keda.resourceNames|,
            (i: nat, e: nat) => FitsExternal(keda, i, e),
            (i: nat, slot: Slot) => Accepted(keda, metrics, i, slot))
  }

  lemma TriggersUnambiguous(keda: ScaledObject, metrics: seq<MetricStatus>)
    ensures Unambiguous(Triggers(keda, metrics))
  {
    var p := Triggers(keda, metrics);
    forall i: nat, j: nat, e: nat | p.fits(i, e) && p.fits(j, e) ensures i == j {
      PrefixUnambiguous(keda.externalNames[e], i, keda.triggers[i].kind, j, keda.triggers[j].kind);
    }
  }

  // ---- The source's functions ----

  /** The checks made before the walk, and that KEDA and the HPA exist. */
  ghost predicate Comparable(config: seq<Trigger>, keda: Option<ScaledObject>, metrics: Option<seq<MetricStatus>>) {
    && keda.Some? && metrics.Some?
    && |keda.value.triggers| == |keda.value.externalNames| + |keda.value.resourceNames|
    && |keda.value.triggers| == |metrics.value|
    && config == keda.value.triggers
  }

  /** A way to give each trigger, in order, a name of either list whose reading the HPA has. */
  ghost predicate Resolves(config: seq<Trigger>, keda: Option<ScaledObject>, metrics: Option<seq<MetricStatus>>, a: seq<Slot>) {
    Comparable(config, keda, metrics) && FullAssignment(Triggers(keda.value, metrics.value), a)
  }

  /** Such a way in plain terms: each list is taken in order, and something may be reported for every trigger. */
  lemma ResolvesIff(config: seq<Trigger>, keda: Option<ScaledObject>, metrics: Option<seq<MetricStatus>>, a: seq<Slot>)
    ensures Resolves(config, keda, metrics, a) <==>
              && keda.Some? && metrics.Some?
              && |a| == |config| == |keda.value.triggers| == |metrics.value| == |keda.value.externalNames| + |keda.value.resourceNames|
              && (forall i :: 0 <= i < |config| ==> config[i].name == keda.value.triggers[i].name && config[i].kind == keda.value.triggers[i].kind)
              && (forall i, j :: 0 <= i < j < |a| && a[i].External? == a[j].External? ==> a[i].pos < a[j].pos)
              && forall i :: 0 <= i < |a| ==> Reportable(keda.value, metrics.value, i, a[i])
  {
    hide Reportable, Accepted;
    ComparableIff(config, keda, metrics);
    if !Comparable(config, keda, metrics) {
      return;
    }
    hide Comparable;
    var p := Triggers(keda.value, metrics.value);
    forall i | 0 <= i < |a|
      ensures InRange(p, a[i]) && p.accepted(i, a[i]) <==> Reportable(keda.value, metrics.value, i, a[i])
    {
      AcceptedIff(keda.value, metrics.value, i, a[i]);
      AcceptedInRange(keda.value, metrics.value, i, a[i]);
    }
    if Resolves(config, keda, metrics, a) {
      forall i, j | 0 <= i < j < |a| && a[i].External? == a[j].External? ensures a[i].pos < a[j].pos { assert InOrder(a[i], a[j]); }
      forall i | 0 <= i < |a| ensures Reportable(keda.value, metrics.value, i, a[i]) {
        assert InRange(p, a[i]) && p.accepted(i, a[i]);
      }
    } else if |a| == |config| && forall i :: 0 <= i < |a| ==> Reportable(keda.value, metrics.value, i, a[i]) {
      assert forall i :: 0 <= i < |a| ==> InRange(p, a[i]) && p.accepted(i, a[i]);
      assert !OrderPreserving(a);
      var i, j :| 0 <= i < j < |a| && !InOrder(a[i], a[j]);
    }
  }

  lemma ComparableIff(config: seq<Trigger>, keda: Option<ScaledObject>, metrics: Option<seq<MetricStatus>>)
    ensures Comparable(config, keda, metrics) <==>
              && keda.Some? && metrics.Some?
              && |config| == |keda.value.triggers| == |metrics.value| == |keda.value.externalNames| + |keda.value.resourceNames|
              && (forall i :: 0 <= i < |config| ==> config[i].name == keda.value.triggers[i].name && config[i].kind == keda.value.triggers[i].kind)
  {
    if keda.Some? && |config| == |keda.value.triggers| &&
       forall i :: 0 <= i < |config| ==> config[i].name == keda.value.triggers[i].name && config[i].kind == keda.value.triggers[i].kind {
      assert forall i :: 0 <= i < |config| ==> config[i] == keda.value.triggers[i];
      assert config == keda.value.triggers;
    }
  }

  lemma AcceptedInRange(keda: ScaledObject, metrics: seq<MetricStatus>, i: nat, slot: Slot)
    ensures Accepted(keda, metrics, i, slot) ==> InRange(Triggers(keda, metrics), slot)
  {
  }

  /** Only one such way exists. */
  lemma ResolvesUniquely(config: seq<Trigger>, keda: Option<ScaledObject>, metrics: Option<seq<MetricStatus>>, a: seq<Slot>, b: seq<Slot>)
    requires Resolves(config, keda, metrics, a) && Resolves(config, keda, metrics, b)
    ensures a == b
  {
    TriggersUnambiguous(keda.value, metrics.value);
    AssignmentUnique(Triggers(keda.value, metrics.value), a, b);
  }

  /** It pairs the triggers with the HPA's metrics one to one; every metric index looked up is in range. */
  lemma ResolvesBijectively(config: seq<Trigger>, keda: Option<ScaledObject>, metrics: Option<seq<MetricStatus>>, a: seq<Slot>, m: nat)
    requires Resolves(config, keda, metrics, a)
    ensures var p := Triggers(keda.value, metrics.value);
            && |a| == |config|
            && (m < |metrics.value| <==> exists i :: 0 <= i < |config| && Index(p, a[i]) == m)
            && (forall i, j :: 0 <= i < j < |config| ==> Index(p, a[i]) != Index(p, a[j]))
            && Takes(a, |keda.value.externalNames|, |keda.value.resourceNames|)
  {
    TriggersUnambiguous(keda.value, metrics.value);
    AssignmentIsBijection(Triggers(keda.value, metrics.value), a, m);
    AssignmentUsesAll(Triggers(keda.value, metrics.value), a);
  }

  /** The walk misses nothing: if a choice of the walk is not accepted, nothing resolves the triggers. */
  lemma WalkMissesNothing(keda: ScaledObject, metrics: seq<MetricStatus>, i: nat)
    requires Balanced(Triggers(keda, metrics)) && i < |keda.triggers|
    ensures var w := Walk(Triggers(keda, metrics), i);
            Accepted(keda, metrics, i, Choice(Triggers(keda, metrics), i, Externals(w), i - Externals(w))) ||
            forall a :: !FullAssignment(Triggers(keda, metrics), a)
  {
    hide Accepted, Assignment, Unambiguous, Walk, Externals, Choice;
    var p := Triggers(keda, metrics);
    TriggersUnambiguous(keda, metrics);
    if a :| FullAssignment(p, a) {
      WalkIsAccepted(p, a, i);
    }
  }

  /** Every metric that the walk looks up is in range of the HPA's metrics, whether or not it succeeds in the end. */
  lemma WalkReadsInRange(keda: ScaledObject, metrics: seq<MetricStatus>, i: nat)
    requires Balanced(Triggers(keda, metrics)) && |keda.triggers| == |metrics| && i < |keda.triggers|
    ensures var p, w := Triggers(keda, metrics), Walk(Triggers(keda, metrics), i);
            var slot := Choice(p, i, Externals(w), i - Externals(w));
            && (InRange(p, slot) ==> Index(p, slot) < |metrics|)
            && (FitsExternal(keda, i, Externals(w)) || FitsResource(keda, i, i - Externals(w)) ==>
                 && InRange(p, slot)
                 && var m := metrics[if slot.External? then slot.pos else |keda.externalNames| + slot.pos];
                    Accepted(keda, metrics, i, slot) <==>
                      || m.kind == ""
                      || (slot.External? && m.kind == "External" && m.external.Some? && m.external.value.name == NameAt(keda, slot))
                      || (slot.Resource? && m.kind == "Resource" && m.resource.Some? && m.resource.value.name == NameAt(keda, slot)))
  {
    hide HasPrefix, Prefix, Decimal, Numeral, Walk, Externals, ErrorMessage;
  }

  /** The first |w| states are the readings of the slots of `w`, each accepted. */
  ghost predicate Recorded(keda: ScaledObject, metrics: seq<MetricStatus>, w: seq<Slot>, states: seq<CurrentState>) {
    |w| <= |states| && forall j :: 0 <= j < |w| ==> Accepted(keda, metrics, j, w[j]) && Reading(keda, metrics, w[j]) == Some(states[j])
  }

  lemma RecordedReports(keda: ScaledObject, metrics: seq<MetricStatus>, w: seq<Slot>, states: seq<CurrentState>)
    requires Recorded(keda, metrics, w, states)
    ensures forall i :: 0 <= i < |w| ==> Reports(keda, metrics, i, w[i], states[i])
  {
    hide Reports, Accepted, Reading;
    forall i | 0 <= i < |w| ensures Reports(keda, metrics, i, w[i], states[i]) { AcceptedIff(keda, metrics, i, w[i]); }
  }

  lemma NothingRecorded(keda: ScaledObject, metrics: seq<MetricStatus>, states: seq<CurrentState>)
    ensures Recorded(keda, metrics, Walk(Triggers(keda, metrics), 0), states) && Externals(Walk(Triggers(keda, metrics), 0)) == 0
  {
  }

  lemma RecordNext(keda: ScaledObject, metrics: seq<MetricStatus>, w: seq<Slot>, states: seq<CurrentState>, slot: Slot, state: CurrentState)
    requires Recorded(keda, metrics, w, states) && |w| < |states|
    requires Accepted(keda, metrics, |w|, slot) && Reading(keda, metrics, slot) == Some(state)
    ensures Recorded(keda, metrics, w + [slot], states[|w| := state])
  {
  }

  /** The body of the walk: reads trigger `i` with the cursors at `e` and `r`; `external` tells which one to advance. */
  method ReadTrigger(keda: ScaledObject, metrics: seq<MetricStatus>, i: nat, e: nat, r: nat)
    returns (state: Option<CurrentState>, external: bool)
    requires i < |keda.triggers|
    ensures var slot := Choice(Triggers(keda, metrics), i, e, r);
            && (state.Some? <==> Accepted(keda, metrics, i, slot))
            && (state.Some? ==> state == Reading(keda, metrics, slot) && Reports(keda, metrics, i, slot, state.value))
            && (state.None? ==> forall s :: !Reports(keda, metrics, i, slot, s))
            && external == slot.External?
  {
    hide Reports, Decimal, Numeral;
    AcceptedIff(keda, metrics, i, Choice(Triggers(keda, metrics), i, e, r));
    if e < |keda.externalNames| && HasPrefix(keda.externalNames[e], Prefix(i, keda.triggers[i].kind)) {
      var value := CurrentUtilization(metrics, e, keda.externalNames[e], EXTERNAL);
      if value.None? {
        return None, true;
      }
      return Some(CurrentState(value.value, ErrorMessage(keda, keda.externalNames[e]))), true;
    } else if r < |keda.resourceNames| && keda.resourceNames[r] == keda.triggers[i].kind {
      var value := CurrentUtilization(metrics, |keda.externalNames| + r, keda.resourceNames[r], RESOURCE);
      if value.None? {
        return None, false;
      }
      return Some(CurrentState(value.value, "")), false;
    } else {
      return None, false;
    }
  }

  /** The walk: it fails only if nothing resolves the triggers. */
  method WalkTriggers(keda: ScaledObject, metrics: seq<MetricStatus>) returns (states: seq<CurrentState>, ok: bool)
    requires Balanced(Triggers(keda, metrics))
    ensures ok ==> |states| == |keda.triggers| && Recorded(keda, metrics, Walk(Triggers(keda, metrics), |keda.triggers|), states)
    ensures ok ==> forall i :: 0 <= i < |states| ==> Reports(keda, metrics, i, Walk(Triggers(keda, metrics), |keda.triggers|)[i], states[i])
    ensures !ok ==> states == [] && forall a :: !FullAssignment(Triggers(keda, metrics), a)
  {
    hide Reports, Walk, Choice, Accepted, Reading, Recorded, Externals, FullAssignment;
    ghost var p := Triggers(keda, metrics);
    var triggerStates := new CurrentState[|keda.triggers|](_ => CurrentState("", ""));
    NothingRecorded(keda, metrics, triggerStates[..]);
    var externalPos, resourcePos := 0, 0;
    for i := 0 to |keda.triggers|
      invariant externalPos == Externals(Walk(p, i)) && externalPos + resourcePos == i
      invariant Recorded(keda, metrics, Walk(p, i), triggerStates[..])
    {
      ghost var slot := Choice(p, i, externalPos, resourcePos);
      var state, external := ReadTrigger(keda, metrics, i, externalPos, resourcePos);
      if state.None? {
        WalkMissesNothing(keda, metrics, i);
        return [], false;
      }
      RecordNext(keda, metrics, Walk(p, i), triggerStates[..], slot, state.value);
      WalkNext(p, i);
      ghost var before := triggerStates[..];
      triggerStates[i] := state.value;
      assert triggerStates[..] == before[i := state.value];
      if external { externalPos := externalPos + 1; } else { resourcePos := resourcePos + 1; }
    }
    RecordedReports(keda, metrics, Walk(p, |keda.triggers|), triggerStates[..]);
    return triggerStates[..], true;
  }

  lemma RecordedResolves(keda: ScaledObject, metrics: seq<MetricStatus>, states: seq<CurrentState>)
    requires Balanced(Triggers(keda, metrics))
    requires Recorded(keda, metrics, Walk(Triggers(keda, metrics), |keda.triggers|), states)
    ensures FullAssignment(Triggers(keda, metrics), Walk(Triggers(keda, metrics), |keda.triggers|))
  {
    WalkHasNoGaps(Triggers(keda, metrics), |keda.triggers|);
  }

  /**
   resolveHorizontalScalingTriggersCurrentState: succeeds exactly when something resolves the triggers, and then
   reports each trigger's reading under it.
   */
  method ResolveTriggersCurrentState(config: seq<Trigger>, scaler: Option<ScaledObject>, hpaMetrics: Option<seq<MetricStatus>>)
    returns (states: seq<CurrentState>, ok: bool)
    ensures ok <==> exists a :: Resolves(config, scaler, hpaMetrics, a)
    ensures ok ==> |states| == |config|
    ensures ok ==> forall a, i :: Resolves(config, scaler, hpaMetrics, a) && 0 <= i < |a| ==>
                      Reports(scaler.value, hpaMetrics.value, i, a[i], states[i])
    ensures ok ==> forall a, i :: Resolves(config, scaler, hpaMetrics, a) && 0 <= i < |a| ==>
                      Reading(scaler.value, hpaMetrics.value, a[i]) == Some(states[i])
    ensures !ok ==> states == []
  {
    if scaler.None? || hpaMetrics.None? {
      return [], false;
    }
    var keda, metrics := scaler.value, hpaMetrics.value;
    if |keda.triggers| != |keda.resourceNames| + |keda.externalNames| {
      return [], false;
    }
    if |keda.triggers| != |metrics| {
      return [], false;
    }
    if |config| != |keda.triggers| {
      return [], false;
    }
    for i := 0 to |config|
      invariant forall j :: 0 <= j < i ==> config[j] == keda.triggers[j]
    {
      if keda.triggers[i].name != config[i].name || keda.triggers[i].kind != config[i].kind {
        return [], false;
      }
    }
    assert config == keda.triggers;
    states, ok := WalkTriggers(keda, metrics);
    if ok {
      ghost var walked := Walk(Triggers(keda, metrics), |keda.triggers|);
      RecordedResolves(keda, metrics, states);
      assert Resolves(config, scaler, hpaMetrics, walked);
      forall a | Resolves(config, scaler, hpaMetrics, a) ensures a == walked {
        ResolvesUniquely(config, scaler, hpaMetrics, a, walked);
      }
      RecordedReports(keda, metrics, walked, states);
    }
  }

  // ---- An example: a cron trigger and a cpu trigger, one metric in each list ----

  const TRIGGERS := [Trigger("schedule", "cron"), Trigger("load", "cpu")]
  const SCALER := ScaledObject(TRIGGERS, ["s0-cron-x"], ["cpu"], map[])
  const METRICS := [MetricStatus("External", Some(ExternalMetric("s0-cron-x", Some("1"))), None),
                    MetricStatus("Resource", None, Some(ResourceMetric("cpu", Some(70))))]

  lemma ExampleReports(state: CurrentState)
    ensures Reports(SCALER, METRICS, 0, External(0), state) <==> state == CurrentState("1", "")
    ensures Reports(SCALER, METRICS, 1, Resource(0), state) <==> state == CurrentState("70", "")
  {
    assert "s" + Decimal(0) + "-" + "cron" + "-" == "s0-cron-";
    assert "s0-cron-x"[..8] == "s0-cron-";
    assert Numeral(70) == "70" by { assert Decimal(7) == "7"; }
    hide Decimal, Numeral;
  }

  lemma ExampleResolves()
    ensures Resolves(TRIGGERS, Some(SCALER), Some(METRICS), [External(0), Resource(0)])
  {
    hide Reports;
    ExampleReports(CurrentState("1", ""));
    ExampleReports(CurrentState("70", ""));
    ResolvesIff(TRIGGERS, Some(SCALER), Some(METRICS), [External(0), Resource(0)]);
  }

  /** The triggers show 1 and 70. */
  method CronAndCpu() returns (states: seq<CurrentState>, ok: bool)
    ensures ok && states == [CurrentState("1", ""), CurrentState("70", "")]
  {
    hide Reports, Resolves, Reading;
    ExampleResolves();
    states, ok := ResolveTriggersCurrentState(TRIGGERS, Some(SCALER), Some(METRICS));
    ghost var a := [External(0), Resource(0)];
    assert Reports(SCALER, METRICS, 0, a[0], states[0]) && Reports(SCALER, METRICS, 1, a[1], states[1]);
    ExampleReports(states[0]);
    ExampleReports(states[1]);
  }

  datatype TriggerSummary = TriggerSummary(name: string, kind: string, current: Option<CurrentState>)

  /** The trigger part of buildHpaSummary: its lookup by config index is always in range. */
  method BuildTriggerSummaries(config: seq<Trigger>, scaler: Option<ScaledObject>, hpaMetrics: Option<seq<MetricStatus>>)
    returns (triggers: seq<TriggerSummary>)
    ensures |triggers| == |config|
    ensures forall i :: 0 <= i < |config| ==> triggers[i].name == config[i].name && triggers[i].kind == config[i].kind
    ensures forall a, i :: Resolves(config, scaler, hpaMetrics, a) && 0 <= i < |a| ==>
               triggers[i].current.Some? && Reports(scaler.value, hpaMetrics.value, i, a[i], triggers[i].current.value)
    ensures forall a, i :: Resolves(config, scaler, hpaMetrics, a) && 0 <= i < |a| ==>
               triggers[i].current == Reading(scaler.value, hpaMetrics.value, a[i])
    ensures (forall a :: !Resolves(config, scaler, hpaMetrics, a)) ==> forall i :: 0 <= i < |config| ==> triggers[i].current == None
  {
    var current, hasCurrent := ResolveTriggersCurrentState(config, scaler, hpaMetrics);
    triggers := [];
    for i := 0 to |config|
      invariant |triggers| == i
      invariant forall j :: 0 <= j < i ==>
                  triggers[j] == TriggerSummary(config[j].name, config[j].kind, if hasCurrent then Some(current[j]) else None)
    {
      triggers := triggers + [TriggerSummary(config[i].name, config[i].kind, if hasCurrent then Some(current[i]) else None)];
    }
  }
}
