/**
 api-server/api/environmentvariables/env_vars_handler.go: users edit the environment variables of a component, and
 metadata remembers what radixconfig said. The two live in two config maps that are written one after the other.
 */
module EnvVars {
  import opened CaseFolding

  datatype Parameter = Parameter(name: string, value: string)

  // ---- Strings ----

  predicate IsSpace(c: char) {
    c in {'\t', '\n', '\U{0B}', '\U{0C}', '\r', ' ', '\U{85}', '\U{A0}', '\U{1680}', '\U{2028}', '\U{2029}', '\U{202F}', '\U{205F}', '\U{3000}'}
    || '\U{2000}' <= c <= '\U{200A}'
  }

  function TrimLeft(s: string): (r: string)
    ensures r == [] || !IsSpace(r[0])
    ensures |r| <= |s| && r == s[|s| - |r|..] && forall i :: 0 <= i < |s| - |r| ==> IsSpace(s[i])
  {
    if s != [] && IsSpace(s[0]) then TrimLeft(s[1..]) else s
  }

  function TrimRight(s: string): (r: string)
    ensures r == [] || !IsSpace(r[|r|-1])
    ensures |r| <= |s| && r == s[..|r|] && forall i :: |r| <= i < |s| ==> IsSpace(s[i])
  {
    if s != [] && IsSpace(s[|s|-1]) then TrimRight(s[..|s|-1]) else s
  }

  /** strings.TrimSpace */
  function TrimSpace(s: string): (r: string)
    ensures r == [] || (!IsSpace(r[0]) && !IsSpace(r[|r|-1]))
  {
    TrimRight(TrimLeft(s))
  }

  /** The code points with the Unicode property White_Space. */
  lemma SpacesAre(c: char)
    ensures IsSpace(c) <==>
              || 9 <= c as int <= 13
              || c as int in {32, 133, 160, 5760, 8232, 8233, 8239, 8287, 12288}
              || 8192 <= c as int <= 8202
  {
  }

  /** Trimming takes away white space at both ends, and nothing else. */
  lemma TrimSpaceMeans(s: string) returns (i: nat, j: nat)
    ensures i <= j <= |s| && TrimSpace(s) == s[i..j]
    ensures (forall k :: 0 <= k < i ==> IsSpace(s[k])) && (forall k :: j <= k < |s| ==> IsSpace(s[k]))
    ensures i < j ==> !IsSpace(s[i]) && !IsSpace(s[j-1])
  {
    hide IsSpace, TrimLeft, TrimRight;
    var l := TrimLeft(s);
    var r := TrimRight(l);
    i, j := |s| - |l|, |s| - |l| + |r|;
    assert l == s[i..] && r == l[..|r|];
    assert r == s[i..j];
    forall k | j <= k < |s| ensures IsSpace(s[k]) { assert s[k] == l[k - i]; }
    if i < j { assert r[0] == s[i] && r[|r|-1] == s[j-1]; }
  }

  /** Variables whose names start so are Radix's own. */
  const RADIX_PREFIX := "RADIX_"

  predicate IsRadixEnvVar(name: string) {
    RADIX_PREFIX <= name
  }

  // ---- What a request asks for ----

  /** A request collapsed: the value its last entry gives to each variable that users may edit. */
  function Wanted(params: seq<Parameter>): map<string, string> {
    if params == [] then map[]
    else
      var last := params[|params|-1];
      var rest := Wanted(params[..|params|-1]);
      if IsRadixEnvVar(last.name) then rest else rest[last.name := TrimSpace(last.value)]
  }

  /** Position i holds the last entry that names its variable. */
  predicate IsLast(params: seq<Parameter>, i: nat) {
    i < |params| && !IsRadixEnvVar(params[i].name) && forall j :: i < j < |params| ==> params[j].name != params[i].name
  }

  lemma {:induction false} WantedIsLast(params: seq<Parameter>, x: string)
    ensures x in Wanted(params) <==> exists i: nat :: IsLast(params, i) && params[i].name == x
    ensures forall i: nat :: IsLast(params, i) && params[i].name == x ==> Wanted(params)[x] == TrimSpace(params[i].value)
  {
    hide IsRadixEnvVar, TrimSpace;
    if params != [] {
      var n := |params| - 1;
      var rest := params[..n];
      WantedIsLast(rest, x);
      if params[n].name == x && !IsRadixEnvVar(x) {
        assert IsLast(params, n);
      } else {
        forall i: nat | i < n && params[i].name == x ensures IsLast(params, i) <==> IsLast(rest, i) {}
        if i: nat :| IsLast(rest, i) && rest[i].name == x { assert IsLast(params, i); }
        if i: nat :| IsLast(params, i) && params[i].name == x { assert IsLast(rest, i) && rest[i].name == x; }
      }
    }
  }

  /** What radixconfig says about a variable: its metadata if there is any, else its value. */
  function Baseline(data: map<string, string>, metadata: map<string, string>, x: string): string
    requires x in data
  {
    if x in metadata then metadata[x] else data[x]
  }

  /** The effect of a request on the values. */
  ghost predicate DataChanged(wanted: map<string, string>, d0: map<string, string>, d1: map<string, string>) {
    && d1.Keys == d0.Keys
    && forall x :: x in d0 ==> d1[x] == if x in wanted then wanted[x] else d0[x]
  }

  /**
   The effect of a request on one variable's metadata: none if the request does not name it; otherwise it has metadata
   afterwards exactly if it exists and its new value differs from its baseline, and then the metadata is the baseline.
   */
  ghost predicate MetadataChangedFor(fold: Folding, wanted: map<string, string>, d0: map<string, string>, m0: map<string, string>,
      m1: map<string, string>, x: string)
  {
    if x !in wanted then (x in m1 <==> x in m0) && (x in m0 ==> m1[x] == m0[x])
    else if x !in d0 then x !in m1
    else
      && (x in m1 <==> !EqualFold(fold, Baseline(d0, m0, x), wanted[x]))
      && (x in m1 ==> EqualFold(fold, m1[x], Baseline(d0, m0, x)))
  }

  ghost predicate MetadataChanged(fold: Folding, wanted: map<string, string>, d0: map<string, string>, m0: map<string, string>,
      m1: map<string, string>)
  {
    forall x :: MetadataChangedFor(fold, wanted, d0, m0, m1, x)
  }

  /** One entry of a request, on the working copies of both maps. */
  function Edit(fold: Folding, p: Parameter, d: map<string, string>, m: map<string, string>): (map<string, string>, map<string, string>) {
    if IsRadixEnvVar(p.name) then (d, m)
    else if p.name !in d then (d, m - {p.name})
    else
      var value := TrimSpace(p.value);
      var d' := d[p.name := value];
      if p.name in m then (d', if EqualFold(fold, m[p.name], value) then m - {p.name} else m)
      else (d', if EqualFold(fold, d[p.name], value) then m else m[p.name := d[p.name]])
  }

  /** Folded equality is an equivalence, so a variable edited again still compares with its first baseline. */
  lemma EditChangesNamed(fold: Folding, p: Parameter, w: map<string, string>, d0: map<string, string>, m0: map<string, string>,
      d: map<string, string>, m: map<string, string>)
    requires !IsRadixEnvVar(p.name)
    requires DataChanged(w, d0, d) && MetadataChangedFor(fold, w, d0, m0, m, p.name)
    ensures MetadataChangedFor(fold, w[p.name := TrimSpace(p.value)], d0, m0, Edit(fold, p, d, m).1, p.name)
  {
    var x, v := p.name, TrimSpace(p.value);
    if x in d0 {
      var b := Baseline(d0, m0, x);
      EqualFoldIsEquivalence(fold, b, b, b);
      EqualFoldIsEquivalence(fold, d[x], b, v);
      EqualFoldIsEquivalence(fold, b, d[x], v);
      if x in m { EqualFoldIsEquivalence(fold, m[x], b, v); }
    }
  }

  lemma EditChanges(fold: Folding, params: seq<Parameter>, i: nat, d0: map<string, string>, m0: map<string, string>,
      d: map<string, string>, m: map<string, string>)
    requires i < |params| && DataChanged(Wanted(params[..i]), d0, d) && MetadataChanged(fold, Wanted(params[..i]), d0, m0, m)
    ensures DataChanged(Wanted(params[..i+1]), d0, Edit(fold, params[i], d, m).0)
    ensures MetadataChanged(fold, Wanted(params[..i+1]), d0, m0, Edit(fold, params[i], d, m).1)
  {
    hide IsRadixEnvVar, TrimSpace, EqualFold, MetadataChangedFor;
    assert params[..i+1][..i] == params[..i];
    var w, m' := Wanted(params[..i]), Edit(fold, params[i], d, m).1;
    var w' := Wanted(params[..i+1]);
    forall x ensures MetadataChangedFor(fold, w', d0, m0, m', x) {
      assert MetadataChangedFor(fold, w, d0, m0, m, x);
      if x == params[i].name && !IsRadixEnvVar(x) {
        EditChangesNamed(fold, params[i], w, d0, m0, d, m);
      } else {
        EditKeepsOthers(fold, params[i], w, d0, m0, d, m, x);
      }
    }
  }

  lemma EditKeepsOthers(fold: Folding, p: Parameter, w: map<string, string>, d0: map<string, string>, m0: map<string, string>,
      d: map<string, string>, m: map<string, string>, x: string)
    requires x != p.name || IsRadixEnvVar(p.name)
    requires MetadataChangedFor(fold, w, d0, m0, m, x)
    ensures MetadataChangedFor(fold, if IsRadixEnvVar(p.name) then w else w[p.name := TrimSpace(p.value)], d0, m0, Edit(fold, p, d, m).1, x)
  {
    hide IsRadixEnvVar, TrimSpace, EqualFold;
  }

  /** A request and how the API answers: the read of both maps, the write of the values, the write of the metadata. */
  datatype Request = Request(params: seq<Parameter>, readOk: bool, dataOk: bool, metadataOk: bool)

  /** The values are written although the metadata is not. */
  predicate Torn(r: Request) {
    r.readOk && r.dataOk && !r.metadataOk
  }

  ghost predicate Handled(fold: Folding, r: Request, d0: map<string, string>, m0: map<string, string>, d1: map<string, string>, m1: map<string, string>) {
    && (if r.readOk && r.dataOk then DataChanged(Wanted(r.params), d0, d1) else d1 == d0)
    && (if r.readOk && r.dataOk && r.metadataOk then MetadataChanged(fold, Wanted(r.params), d0, m0, m1) else m1 == m0)
  }

  /**
   A request that succeeds, in plain terms. A variable that exists gets the trimmed value of the last entry that names
   it, and has metadata afterwards exactly if that differs up to case from its metadata before, or from its value if
   it had none. A variable that does not exist is not created and has no metadata afterwards. A variable that no entry
   names, or that is Radix's own, is left alone.
   */
  lemma RequestMeans(fold: Folding, params: seq<Parameter>, d0: map<string, string>, m0: map<string, string>,
      d1: map<string, string>, m1: map<string, string>, x: string)
    requires Handled(fold, Request(params, true, true, true), d0, m0, d1, m1)
    ensures x in d1 <==> x in d0
    ensures forall i :: 0 <= i < |params| && params[i].name == x && !("RADIX_" <= x) && (forall j :: i < j < |params| ==> params[j].name != x) ==>
              var v := TrimSpace(params[i].value);
              if x in d0
              then d1[x] == v && (x in m1 <==> !EqualFold(fold, if x in m0 then m0[x] else d0[x], v))
              else x !in m1
    ensures (forall i :: 0 <= i < |params| ==> params[i].name != x) || "RADIX_" <= x ==>
              (x in d0 ==> d1[x] == d0[x]) && (x in m1 <==> x in m0) && (x in m0 ==> m1[x] == m0[x])
  {
    hide TrimSpace, EqualFold, Wanted;
    assert MetadataChangedFor(fold, Wanted(params), d0, m0, m1, x);
    WantedIsLast(params, x);
    forall i | 0 <= i < |params| && params[i].name == x && !IsRadixEnvVar(x) && (forall j :: i < j < |params| ==> params[j].name != x)
      ensures x in Wanted(params) && Wanted(params)[x] == TrimSpace(params[i].value)
    {
      assert IsLast(params, i);
    }
  }

  /** The two config maps of a component. */
  class EnvVarsHandler {
    const fold: Folding
    var data: map<string, string>
    var metadata: map<string, string>

    constructor (fold: Folding, data: map<string, string>, metadata: map<string, string>)
      ensures this.fold == fold && this.data == data && this.metadata == metadata
    {
      this.fold, this.data, this.metadata := fold, data, metadata;
    }

    /**
     ChangeEnvVar: reads both maps, works out the desired ones, writes the data map, then the metadata map. Each of
     the three API calls may fail.
     */
    method ChangeEnvVar(params: seq<Parameter>, readOk: bool, dataOk: bool, metadataOk: bool) returns (ok: bool)
      modifies this
      ensures ok <==> readOk && (Wanted(params) == map[] || (dataOk && metadataOk))
      ensures Handled(fold, Request(params, readOk, dataOk, metadataOk), old(data), old(metadata), data, metadata)
    {
      hide IsRadixEnvVar, TrimSpace, EqualFold;
      if !readOk {
        return false;
      }
      var desired, meta := data, metadata;
      var hasChanges := false;
      for i := 0 to |params|
        invariant data == old(data) && metadata == old(metadata)
        invariant DataChanged(Wanted(params[..i]), data, desired)
        invariant MetadataChanged(fold, Wanted(params[..i]), data, metadata, meta)
        invariant hasChanges <==> Wanted(params[..i]) != map[]
        invariant !hasChanges ==> desired == data && meta == metadata
      {
        EditChanges(fold, params, i, data, metadata, desired, meta);
        assert params[..i+1][..i] == params[..i];
        var name := params[i].name;
        if IsRadixEnvVar(name) {
          continue;
        }
        hasChanges := true;
        assert name in Wanted(params[..i+1]);
        if name !in desired {
          meta := meta - {name};
          continue;
        }
        var current := desired[name];
        var value := TrimSpace(params[i].value);
        desired := desired[name := value];
        if name in meta {
          if EqualFold(fold, meta[name], value) {
            meta := meta - {name};
          }
          continue;
        }
        if !EqualFold(fold, current, value) {
          meta := meta[name := current];
        }
      }
      assert params[..|params|] == params;
      if !hasChanges {
        return true;
      }
      if !dataOk {
        return false;
      }
      data := desired;
      if !metadataOk {
        return false;
      }
      metadata := meta;
      return true;
    }
  }

  // ---- What users can rely on ----

  /** Metadata is kept only for variables whose value differs from radixconfig's. */
  ghost predicate Exact(fold: Folding, d: map<string, string>, m: map<string, string>) {
    forall x :: x in m ==> x in d && !EqualFold(fold, m[x], d[x])
  }

  lemma RequestKeepsBaseline(fold: Folding, r: Request, d0: map<string, string>, m0: map<string, string>,
      d1: map<string, string>, m1: map<string, string>, x: string)
    requires Handled(fold, r, d0, m0, d1, m1) && !Torn(r) && x in d0
    ensures x in d1 && EqualFold(fold, Baseline(d1, m1, x), Baseline(d0, m0, x))
  {
    var b := Baseline(d0, m0, x);
    EqualFoldIsEquivalence(fold, b, d1[x], b);
    if r.readOk && r.dataOk { assert MetadataChangedFor(fold, Wanted(r.params), d0, m0, m1, x); }
  }

  /** The request does not write a value that its variable's metadata already has, up to case, and leave that metadata. */
  ghost predicate LeavesExact(fold: Folding, r: Request, m0: map<string, string>) {
    Torn(r) ==> forall x :: x in m0 && x in Wanted(r.params) ==> !EqualFold(fold, m0[x], Wanted(r.params)[x])
  }

  /** Metadata that was exact stays exact after a request, whichever of its calls fail, exactly under this condition. */
  lemma RequestKeepsExactIff(fold: Folding, r: Request, d0: map<string, string>, m0: map<string, string>,
      d1: map<string, string>, m1: map<string, string>)
    requires Handled(fold, r, d0, m0, d1, m1) && Exact(fold, d0, m0)
    ensures Exact(fold, d1, m1) <==> LeavesExact(fold, r, m0)
  {
    if Torn(r) {
      TornKeepsExactIff(fold, r, d0, m0, d1, m1);
    } else {
      UntornKeepsExact(fold, r, d0, m0, d1, m1);
    }
  }

  lemma TornKeepsExactIff(fold: Folding, r: Request, d0: map<string, string>, m0: map<string, string>,
      d1: map<string, string>, m1: map<string, string>)
    requires Handled(fold, r, d0, m0, d1, m1) && Exact(fold, d0, m0) && Torn(r)
    ensures Exact(fold, d1, m1) <==> forall x :: x in m0 && x in Wanted(r.params) ==> !EqualFold(fold, m0[x], Wanted(r.params)[x])
  {
    hide EqualFold, Wanted;
  }

  lemma UntornKeepsExact(fold: Folding, r: Request, d0: map<string, string>, m0: map<string, string>,
      d1: map<string, string>, m1: map<string, string>)
    requires Handled(fold, r, d0, m0, d1, m1) && Exact(fold, d0, m0) && !Torn(r)
    ensures Exact(fold, d1, m1)
  {
    if r.readOk && r.dataOk {
      forall x | x in m1 ensures x in d1 && !EqualFold(fold, m1[x], d1[x]) {
        assert MetadataChangedFor(fold, Wanted(r.params), d0, m0, m1, x);
        if x in Wanted(r.params) { EqualFoldIsEquivalence(fold, m1[x], Baseline(d0, m0, x), d1[x]); }
      }
    }
  }

  lemma {:induction false} ReservedNotWanted(params: seq<Parameter>, x: string)
    requires IsRadixEnvVar(x)
    ensures x !in Wanted(params)
  {
    if params != [] { ReservedNotWanted(params[..|params|-1], x); }
  }

  /** States of the two maps between requests. */
  datatype Maps = Maps(data: map<string, string>, metadata: map<string, string>)

  ghost predicate History(fold: Folding, states: seq<Maps>, requests: seq<Request>) {
    && |states| == |requests| + 1
    && forall i :: 0 <= i < |requests| ==>
         Handled(fold, requests[i], states[i].data, states[i].metadata, states[i+1].data, states[i+1].metadata)
  }

  /** The condition of TornRequestKeepsBaselineIff, for a request that may be torn. */
  ghost predicate LeavesBaseline(fold: Folding, r: Request, s: Maps, x: string) {
    Torn(r) && x in s.data ==> x in s.metadata || x !in Wanted(r.params) || EqualFold(fold, s.data[x], Wanted(r.params)[x])
  }

  /**
   Over any sequence of requests, whichever of their calls fail: no variable appears or disappears, and Radix's own
   variables keep their values and metadata.
   */
  lemma {:induction false} NamesAndReservedKept(fold: Folding, states: seq<Maps>, requests: seq<Request>, x: string)
    requires History(fold, states, requests)
    ensures states[|requests|].data.Keys == states[0].data.Keys
    ensures IsRadixEnvVar(x) && x in states[0].data ==> states[|requests|].data[x] == states[0].data[x]
    ensures IsRadixEnvVar(x) ==>
              (x in states[|requests|].metadata <==> x in states[0].metadata) &&
              (x in states[0].metadata ==> states[|requests|].metadata[x] == states[0].metadata[x])
  {
    hide IsRadixEnvVar, EqualFold, Wanted;
    var n := |requests|;
    if n > 0 {
      var s, t, r := states[n-1], states[n], requests[n-1];
      NamesAndReservedKept(fold, states[..n], requests[..n-1], x);
      assert Handled(fold, r, s.data, s.metadata, t.data, t.metadata);
      if IsRadixEnvVar(x) { ReservedNotWanted(r.params, x); }
      if r.readOk && r.dataOk && r.metadataOk { assert MetadataChangedFor(fold, Wanted(r.params), s.data, s.metadata, t.metadata, x); }
    }
  }

  /**
   Over any sequence of requests a variable keeps its baseline up to case, provided that those requests whose metadata
   write fails meet the condition of TornRequestKeepsBaselineIff in the state that they find.
   */
  lemma {:induction false} BaselineKept(fold: Folding, states: seq<Maps>, requests: seq<Request>, x: string)
    requires History(fold, states, requests)
    requires forall i :: 0 <= i < |requests| ==> LeavesBaseline(fold, requests[i], states[i], x)
    requires x in states[0].data
    ensures x in states[|requests|].data
    ensures EqualFold(fold, Baseline(states[|requests|].data, states[|requests|].metadata, x), Baseline(states[0].data, states[0].metadata, x))
  {
    hide EqualFold, Wanted;
    var n := |requests|;
    var b := Baseline(states[0].data, states[0].metadata, x);
    EqualFoldIsEquivalence(fold, b, b, b);
    if n > 0 {
      var s, t, r := states[n-1], states[n], requests[n-1];
      BaselineKept(fold, states[..n], requests[..n-1], x);
      assert Handled(fold, r, s.data, s.metadata, t.data, t.metadata) && LeavesBaseline(fold, r, s, x);
      if Torn(r) {
        TornRequestKeepsBaselineIff(fold, r, s.data, s.metadata, t.data, t.metadata, x);
      } else {
        RequestKeepsBaseline(fold, r, s.data, s.metadata, t.data, t.metadata, x);
      }
      EqualFoldIsEquivalence(fold, Baseline(t.data, t.metadata, x), Baseline(s.data, s.metadata, x), b);
    }
  }

  /** Likewise metadata that is exact stays exact, under the condition of RequestKeepsExactIff. */
  lemma {:induction false} ExactKept(fold: Folding, states: seq<Maps>, requests: seq<Request>)
    requires History(fold, states, requests) && Exact(fold, states[0].data, states[0].metadata)
    requires forall i :: 0 <= i < |requests| ==> LeavesExact(fold, requests[i], states[i].metadata)
    ensures Exact(fold, states[|requests|].data, states[|requests|].metadata)
  {
    hide EqualFold, Wanted, Exact, LeavesExact;
    var n := |requests|;
    if n > 0 {
      var s, t, r := states[n-1], states[n], requests[n-1];
      ExactKept(fold, states[..n], requests[..n-1]);
      assert Handled(fold, r, s.data, s.metadata, t.data, t.metadata) && LeavesExact(fold, r, s.metadata);
      RequestKeepsExactIff(fold, r, s.data, s.metadata, t.data, t.metadata);
    }
  }

  /**
   The two writes are not atomic. When the second fails, a variable keeps its baseline exactly if it had metadata
   already, is not named, or its value does not change; otherwise what radixconfig said is forgotten.
   */
  lemma TornRequestKeepsBaselineIff(fold: Folding, r: Request, d0: map<string, string>, m0: map<string, string>,
      d1: map<string, string>, m1: map<string, string>, x: string)
    requires Handled(fold, r, d0, m0, d1, m1) && Torn(r) && x in d0
    ensures EqualFold(fold, Baseline(d1, m1, x), Baseline(d0, m0, x)) <==>
            x in m0 || x !in Wanted(r.params) || EqualFold(fold, d0[x], Wanted(r.params)[x])
  {
    var b := Baseline(d0, m0, x);
    EqualFoldIsEquivalence(fold, b, d1[x], b);
    if x !in m0 && x in Wanted(r.params) { EqualFoldIsEquivalence(fold, d0[x], Wanted(r.params)[x], d0[x]); }
  }

  function Fold(): Folding {
    c => c
  }

  /** A torn request in which variable A gets the value `value`. */
  function TornRequest(value: string): Request {
    Request([Parameter("A", value)], true, true, false)
  }

  lemma TornRequestWants(value: string)
    requires value == "a" || value == "b"
    ensures Wanted(TornRequest(value).params) == map["A" := value]
  {
    var params := TornRequest(value).params;
    assert params[..0] == [];
    assert !IsSpace(value[0]) && TrimLeft(value) == value && TrimRight(value) == value;
  }

  /** radixconfig says a, a user asks for b, and the metadata write fails: b is now the baseline. */
  lemma TornRequestForgetsBaseline()
    ensures var d0, d1 := map["A" := "a"], map["A" := "b"];
            && Handled(Fold(), TornRequest("b"), d0, map[], d1, map[])
            && !EqualFold(Fold(), Baseline(d1, map[], "A"), Baseline(d0, map[], "A"))
  {
    TornRequestWants("b");
    assert "a"[0] != "b"[0];
  }

  /** A user goes back from b to a, and the metadata write fails: metadata stays for a variable that does not differ. */
  lemma TornRequestLeavesStaleMetadata()
    ensures var d0, d1, m := map["A" := "b"], map["A" := "a"], map["A" := "a"];
            && Handled(Fold(), TornRequest("a"), d0, m, d1, m)
            && Exact(Fold(), d0, m) && !Exact(Fold(), d1, m)
  {
    TornRequestWants("a");
    var d1, m := map["A" := "a"], map["A" := "a"];
    assert "a"[0] != "b"[0];
    assert "A" in m && EqualFold(Fold(), m["A"], d1["A"]);
  }

  // ---- Requests collapse ----

  /** The request without the entries that a later one overrides. */
  function KeepLast(params: seq<Parameter>): seq<Parameter> {
    if params == [] then []
    else if exists j :: 1 <= j < |params| && params[j].name == params[0].name then KeepLast(params[1..])
    else [params[0]] + KeepLast(params[1..])
  }

  lemma {:induction false} WantedOfFirst(p: Parameter, rest: seq<Parameter>)
    ensures Wanted([p] + rest) == Wanted([p]) + Wanted(rest)
  {
    hide IsRadixEnvVar, TrimSpace;
    if rest == [] {
      assert [p] + rest == [p];
    } else {
      assert ([p] + rest)[..|rest|] == [p] + rest[..|rest|-1];
      WantedOfFirst(p, rest[..|rest|-1]);
    }
  }

  lemma {:induction false} WantedOfKeepLast(params: seq<Parameter>)
    ensures Wanted(KeepLast(params)) == Wanted(params)
  {
    hide IsRadixEnvVar, TrimSpace;
    if params != [] {
      var p, rest := params[0], params[1..];
      assert params == [p] + rest;
      WantedOfFirst(p, rest);
      WantedOfKeepLast(rest);
      hide Wanted;
      if j :| 1 <= j < |params| && params[j].name == p.name {
        assert rest[j-1] == params[j];
        OverriddenAddsNothing(p, rest, j - 1);
      } else {
        WantedOfFirst(p, KeepLast(rest));
      }
    }
  }

  lemma OverriddenAddsNothing(p: Parameter, rest: seq<Parameter>, j: nat)
    requires j < |rest| && rest[j].name == p.name
    ensures Wanted([p]) + Wanted(rest) == Wanted(rest)
  {
    hide IsRadixEnvVar, TrimSpace;
    NamedIsWanted(rest, j);
    assert [p][..0] == [] && Wanted([p]).Keys <= {p.name};
    assert IsRadixEnvVar(p.name) ==> Wanted([p]) == map[];
  }

  lemma {:induction false} NamedIsWanted(params: seq<Parameter>, j: nat)
    requires j < |params|
    ensures IsRadixEnvVar(params[j].name) || params[j].name in Wanted(params)
    ensures IsRadixEnvVar(params[j].name) ==> Wanted([params[j]]) == map[]
  {
    hide TrimSpace;
    assert [params[j]][..0] == [];
    if j < |params| - 1 { NamedIsWanted(params[..|params|-1], j); }
  }

  /** Naming a variable several times has the effect of naming it once, the last way; metadata agrees up to case. */
  lemma RequestsCollapse(fold: Folding, params: seq<Parameter>, d0: map<string, string>, m0: map<string, string>, s: Maps, t: Maps)
    requires Handled(fold, Request(params, true, true, true), d0, m0, s.data, s.metadata)
    requires Handled(fold, Request(KeepLast(params), true, true, true), d0, m0, t.data, t.metadata)
    ensures s.data == t.data && s.metadata.Keys == t.metadata.Keys
    ensures forall x :: x in s.metadata ==> EqualFold(fold, s.metadata[x], t.metadata[x])
  {
    hide IsRadixEnvVar, EqualFold;
    WantedOfKeepLast(params);
    var w := Wanted(params);
    forall x ensures (x in s.metadata <==> x in t.metadata) && (x in s.metadata ==> EqualFold(fold, s.metadata[x], t.metadata[x])) {
      assert MetadataChangedFor(fold, w, d0, m0, s.metadata, x) && MetadataChangedFor(fold, w, d0, m0, t.metadata, x);
      if x in s.metadata && x in t.metadata {
        EqualFoldIsEquivalence(fold, s.metadata[x], t.metadata[x], s.metadata[x]);
        if x in d0 {
          EqualFoldIsEquivalence(fold, t.metadata[x], Baseline(d0, m0, x), s.metadata[x]);
          EqualFoldIsEquivalence(fold, s.metadata[x], Baseline(d0, m0, x), s.metadata[x]);
        }
      }
    }
  }
}
