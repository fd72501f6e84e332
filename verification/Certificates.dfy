/**
 api-server/api/models/component.go: the state of certificate automation for an external alias, read from the
 certificate and from the certificate requests of its current or newer revisions.
 */
module Certificates {
  import opened Options
  import opened Search
  import opened Sorting

  datatype Condition = Condition(kind: string, status: string, reason: string, message: string)

  /** `revision` is the annotation's value if it parses as an integer; `controller` the owner that controls the request. */
  datatype Request = Request(controller: string, revision: Option<int>, conditions: seq<Condition>)

  datatype Certificate = Certificate(uid: string, revision: Option<int>, conditions: seq<Condition>)

  datatype Automation = Success | Pending(message: string) | Failed(message: string)

  const READY := "Ready"
  const DENIED := "Denied"
  const INVALID_REQUEST := "InvalidRequest"
  const TRUE := "True"

  predicate IsReady(c: Condition) {
    c.kind == READY
  }

  /** certificateRequestConditionFailed */
  predicate IsFailure(c: Condition) {
    || c.kind == DENIED
    || (c.kind == INVALID_REQUEST && c.status == TRUE)
    || (c.kind == READY && c.status != TRUE && c.reason == "Failed")
  }

  predicate FirstAt<T(!new)>(s: seq<T>, p: T -> bool, i: nat) {
    i < |s| && p(s[i]) && forall j :: 0 <= j < i ==> !p(s[j])
  }

  /** slice.FindFirst */
  function FindFirst<T(!new)>(s: seq<T>, p: T -> bool): (r: Option<T>)
    ensures r.Some? ==> exists i: nat :: FirstAt(s, p, i) && s[i] == r.value
    ensures r.None? ==> forall i :: 0 <= i < |s| ==> !p(s[i])
  {
    var n := FirstIndex(s, p);
    assert n < |s| ==> FirstAt(s, p, n);
    if n < |s| then Some(s[n]) else None
  }

  /** What one request says about the certificate. */
  function Verdict(r: Request): Automation {
    var failure := FindFirst(r.conditions, IsFailure);
    if failure.Some? then Failed(failure.value.message)
    else
      var ready := FindFirst(r.conditions, IsReady);
      Pending(if ready.Some? then ready.value.message else "")
  }

  /** certificateRequestNewOrCurrentForCertificate */
  predicate NewOrCurrent(cert: Certificate, r: Request) {
    && r.revision.Some?
    && r.revision.value >= (if cert.revision.Some? then cert.revision.value else 0)
    && r.controller == cert.uid
  }

  predicate CertificateReady(cert: Certificate) {
    var ready := FindFirst(cert.conditions, IsReady);
    ready.Some? && ready.value.status == TRUE
  }

  /** `r` is new or current for the certificate, and no such request has a higher revision. */
  ghost predicate IsLatest(cert: Certificate, requests: seq<Request>, r: Request) {
    && r in requests && NewOrCurrent(cert, r)
    && forall q :: q in requests && NewOrCurrent(cert, q) ==> q.revision.value <= r.revision.value
  }

  /** The states that may be reported: the sort does not order requests of equal revision. */
  ghost predicate MayReport(cert: Certificate, requests: seq<Request>, a: Automation) {
    if CertificateReady(cert) then a == Success
    else if forall r :: r in requests ==> !NewOrCurrent(cert, r) then a == Pending("")
    else exists r :: IsLatest(cert, requests, r) && a == Verdict(r)
  }

  /** A revision that does not parse counts as 0 when requests are compared. */
  function Revision(r: Request): int {
    if r.revision.Some? then r.revision.value else 0
  }

  /** sortCertificateRequestByCertificateRevisionDesc */
  predicate NotOlder(a: Request, b: Request) {
    Revision(a) >= Revision(b)
  }

  /**
   getExternalDNSAutomationCondition. `belongs` selects the certificates labelled for the alias; the library sort may
   give any descending order.
   */
  method AutomationCondition(automated: bool, certs: seq<Certificate>, belongs: Certificate -> bool, requests: seq<Request>)
    returns (a: Option<Automation>)
    ensures a.None? <==> !automated
    ensures automated && a.Some? ==>
      var cert := FindFirst(certs, belongs);
      if cert.None? then a.value == Pending("") else MayReport(cert.value, requests, a.value)
  {
    hide Verdict, CertificateReady;
    if !automated {
      return None;
    }
    var found := FindFirst(certs, belongs);
    if found.None? {
      return Some(Pending(""));
    }
    var cert := found.value;
    if CertificateReady(cert) {
      return Some(Success);
    }
    var current: seq<Request> := [];
    for i := 0 to |requests|
      invariant forall r :: r in current <==> r in requests[..i] && NewOrCurrent(cert, r)
    {
      if NewOrCurrent(cert, requests[i]) {
        current := current + [requests[i]];
      }
    }
    assert requests[..|requests|] == requests;
    if |current| == 0 {
      assert forall r :: r in requests && NewOrCurrent(cert, r) ==> r in current;
      return Some(Pending(""));
    }
    var sorted := LibrarySort(current, NotOlder);
    FirstIsLatest(cert, requests, current, sorted);
    assert exists r :: r in requests && NewOrCurrent(cert, r);
    return Some(Verdict(sorted[0]));
  }

  lemma FirstIsLatest(cert: Certificate, requests: seq<Request>, current: seq<Request>, sorted: seq<Request>)
    requires forall r :: r in current <==> r in requests && NewOrCurrent(cert, r)
    requires Sorted(sorted, NotOlder) && multiset(sorted) == multiset(current) && current != []
    ensures sorted != [] && IsLatest(cert, requests, sorted[0])
  {
    assert |sorted| == |multiset(sorted)| == |current|;
    assert sorted[0] in multiset(sorted);
    assert sorted[0] in current && NewOrCurrent(cert, sorted[0]) && sorted[0].revision.Some?;
    forall q | q in requests && NewOrCurrent(cert, q) ensures q.revision.value <= sorted[0].revision.value {
      assert q in current && q in multiset(current);
      assert q in multiset(sorted);
      var i :| 0 <= i < |sorted| && sorted[i] == q;
    }
  }

  /** The request does not count here, or one of a higher revision does. */
  ghost predicate Stale(cert: Certificate, requests: seq<Request>, q: Request) {
    NewOrCurrent(cert, q) ==> exists r :: Outdates(cert, requests, r, q)
  }

  ghost predicate Outdates(cert: Certificate, requests: seq<Request>, r: Request, q: Request) {
    r in requests && NewOrCurrent(cert, r) && NewOrCurrent(cert, q) && q.revision.value < r.revision.value
  }

  /** A request that counts is at most as new as some latest one. */
  lemma {:induction false} LatestAbove(cert: Certificate, requests: seq<Request>, q: Request) returns (r: Request)
    requires q in requests && NewOrCurrent(cert, q)
    ensures IsLatest(cert, requests, r) && q.revision.value <= r.revision.value
  {
    var n := |requests| - 1;
    var last, rest := requests[n], requests[..n];
    assert requests == rest + [last];
    if q in rest {
      r := LatestAbove(cert, rest, q);
      if NewOrCurrent(cert, last) && last.revision.value > r.revision.value { r := last; }
    } else if p :| p in rest && NewOrCurrent(cert, p) {
      r := LatestAbove(cert, rest, p);
      if last.revision.value > r.revision.value { r := last; }
    } else {
      r := last;
    }
  }

  /** Two lists that differ only in requests stale in the other have the same latest requests. */
  lemma SameLatest(cert: Certificate, before: seq<Request>, after: seq<Request>, r: Request)
    requires forall q :: q in before && q !in after ==> Stale(cert, after, q)
    requires forall q :: q in after && q !in before ==> Stale(cert, before, q)
    requires IsLatest(cert, before, r)
    ensures IsLatest(cert, after, r)
  {
    forall q | q in after && NewOrCurrent(cert, q) ensures q.revision.value <= r.revision.value {
      if q !in before { var x :| Outdates(cert, before, x, q); }
    }
  }

  /**
   Stale requests are irrelevant: adding, removing, repeating and reordering requests that are stale changes nothing
   that may be reported.
   */
  lemma StaleRequestsAreIrrelevant(cert: Certificate, before: seq<Request>, after: seq<Request>, a: Automation)
    requires forall q :: q in before && q !in after ==> Stale(cert, after, q)
    requires forall q :: q in after && q !in before ==> Stale(cert, before, q)
    ensures MayReport(cert, before, a) <==> MayReport(cert, after, a)
  {
    hide Stale, NewOrCurrent, IsLatest, Verdict, CertificateReady;
    forall r ensures IsLatest(cert, before, r) <==> IsLatest(cert, after, r) {
      if IsLatest(cert, before, r) { SameLatest(cert, before, after, r); }
      if IsLatest(cert, after, r) { SameLatest(cert, after, before, r); }
    }
    SomeLatest(cert, before);
    SomeLatest(cert, after);
  }

  /** Some request is a latest one unless none counts. */
  lemma SomeLatest(cert: Certificate, requests: seq<Request>)
    ensures (exists r :: r in requests && NewOrCurrent(cert, r)) <==> exists r :: IsLatest(cert, requests, r)
  {
    hide NewOrCurrent;
    if q :| q in requests && NewOrCurrent(cert, q) {
      var r := LatestAbove(cert, requests, q);
    }
  }

  /** Whenever only one request is a latest one the report is determined by it alone. */
  lemma LatestDecides(cert: Certificate, requests: seq<Request>, r: Request, a: Automation)
    requires forall q :: IsLatest(cert, requests, q) <==> q == r
    ensures MayReport(cert, requests, a) <==> a == if CertificateReady(cert) then Success else Verdict(r)
  {
    hide Verdict, CertificateReady;
    assert IsLatest(cert, requests, r);
  }

  /** No two requests that count have the same revision. */
  ghost predicate DistinctRevisions(cert: Certificate, requests: seq<Request>) {
    forall q, r :: q in requests && r in requests && NewOrCurrent(cert, q) && NewOrCurrent(cert, r) && q.revision == r.revision ==> q == r
  }

  /** With distinct revisions there is one latest request, if any counts. */
  lemma DistinctHaveOneLatest(cert: Certificate, requests: seq<Request>) returns (r: Request)
    requires DistinctRevisions(cert, requests) && exists q :: q in requests && NewOrCurrent(cert, q)
    ensures forall q :: IsLatest(cert, requests, q) <==> q == r
  {
    var q :| q in requests && NewOrCurrent(cert, q);
    r := LatestAbove(cert, requests, q);
  }

  /**
   Put together: with distinct revisions exactly one thing may be reported, and it is the same for any other list that
   differs only in stale requests, however it is ordered.
   */
  lemma ReportIsDetermined(cert: Certificate, before: seq<Request>, after: seq<Request>, a: Automation, b: Automation)
    requires DistinctRevisions(cert, before)
    requires forall q :: q in before && q !in after ==> Stale(cert, after, q)
    requires forall q :: q in after && q !in before ==> Stale(cert, before, q)
    requires MayReport(cert, before, a) && MayReport(cert, after, b)
    ensures a == b
  {
    StaleRequestsAreIrrelevant(cert, before, after, b);
    hide Verdict, CertificateReady, Stale, IsLatest, DistinctRevisions, NewOrCurrent;
    if exists q :: q in before && NewOrCurrent(cert, q) {
      var r := DistinctHaveOneLatest(cert, before);
      LatestDecides(cert, before, r, a);
      LatestDecides(cert, before, r, b);
    }
  }

  /**
   What one request says: it failed exactly if some condition is a failure, with the message of the first of these;
   otherwise it is pending, with the message of its first Ready condition, if any.
   */
  lemma VerdictMeans(r: Request, message: string)
    ensures Verdict(r) == Failed(message) <==> exists i: nat :: FirstAt(r.conditions, IsFailure, i) && r.conditions[i].message == message
    ensures Verdict(r) == Pending(message) <==>
              && (forall i :: 0 <= i < |r.conditions| ==> !IsFailure(r.conditions[i]))
              && if exists i: nat :: FirstAt(r.conditions, IsReady, i)
                 then exists i: nat :: FirstAt(r.conditions, IsReady, i) && r.conditions[i].message == message
                 else message == ""
    ensures Verdict(r) != Success
  {
    FirstIsFound(r.conditions, IsFailure);
    FirstIsFound(r.conditions, IsReady);
  }

  /** The revision of a request that this certificate controls, if it parses and is at least the certificate's own (or 0). */
  ghost predicate CountsAt(cert: Certificate, requests: seq<Request>, r: Request, v: int) {
    && r in requests && r.controller == cert.uid && r.revision == Some(v)
    && v >= match cert.revision case Some(w) => w case None => 0
  }

  ghost predicate FirstKind(conditions: seq<Condition>, kind: string, i: nat) {
    i < |conditions| && conditions[i].kind == kind && forall j :: 0 <= j < i ==> conditions[j].kind != kind
  }

  /** A request that counts and has no newer one beside it. */
  ghost predicate HasHighest(cert: Certificate, requests: seq<Request>, r: Request, v: int) {
    CountsAt(cert, requests, r, v) && forall q, w :: CountsAt(cert, requests, q, w) ==> w <= v
  }

  /**
   The report in plain terms. Success stands for a first Ready condition of the certificate that is True, and nothing
   else. A failure carries the message of a condition, of a request of highest revision, that is Denied, or
   InvalidRequest and True, or Ready and not True for the reason Failed. While no request counts, an empty message is
   pending; and if no condition of any request of highest revision is such a failure, the report is no failure.
   */
  lemma ReportMeans(cert: Certificate, requests: seq<Request>, a: Automation)
    requires MayReport(cert, requests, a)
    ensures a == Success <==> exists i: nat :: FirstKind(cert.conditions, "Ready", i) && cert.conditions[i].status == "True"
    ensures a.Failed? ==> exists r, v, i :: HasHighest(cert, requests, r, v) && 0 <= i < |r.conditions| && Fails(r.conditions[i]) && r.conditions[i].message == a.message
    ensures a.Pending? ==>
              || ((forall r, v :: !CountsAt(cert, requests, r, v)) && a.message == "")
              || (exists r, v :: HasHighest(cert, requests, r, v) && forall i :: 0 <= i < |r.conditions| ==> !Fails(r.conditions[i]))
  {
    ReadyIff(cert);
    if a != Success {
      if r :| IsLatest(cert, requests, r) && a == Verdict(r) {
        LatestIsHighest(cert, requests, r);
        var v := r.revision.value;
        assert HasHighest(cert, requests, r, v);
        VerdictMeans(r, a.message);
        FailureIff(r);
        if a.Failed? {
          var i: nat :| FirstAt(r.conditions, IsFailure, i) && r.conditions[i].message == a.message;
          assert Fails(r.conditions[i]);
        }
      } else {
        NoneCounts(cert, requests);
      }
    }
  }

  ghost predicate Fails(c: Condition) {
    c.kind == "Denied" || (c.kind == "InvalidRequest" && c.status == "True") || (c.kind == "Ready" && c.status != "True" && c.reason == "Failed")
  }

  lemma FailureIff(r: Request)
    ensures forall i :: 0 <= i < |r.conditions| ==> (IsFailure(r.conditions[i]) <==> Fails(r.conditions[i]))
  {
  }

  lemma ReadyIff(cert: Certificate)
    ensures CertificateReady(cert) <==> exists i: nat :: FirstKind(cert.conditions, "Ready", i) && cert.conditions[i].status == "True"
  {
    FirstIsFound(cert.conditions, IsReady);
    assert forall i: nat :: FirstKind(cert.conditions, "Ready", i) <==> FirstAt(cert.conditions, IsReady, i);
  }

  lemma LatestIsHighest(cert: Certificate, requests: seq<Request>, r: Request)
    requires IsLatest(cert, requests, r)
    ensures HasHighest(cert, requests, r, r.revision.value)
  {
  }

  lemma NoneCounts(cert: Certificate, requests: seq<Request>)
    requires forall r :: r in requests ==> !NewOrCurrent(cert, r)
    ensures forall r, v :: !CountsAt(cert, requests, r, v)
  {
  }

  lemma FirstIsFound<T(!new)>(s: seq<T>, p: T -> bool)
    ensures forall i: nat :: FirstAt(s, p, i) ==> FindFirst(s, p) == Some(s[i])
    ensures FindFirst(s, p).Some? <==> exists i: nat :: FirstAt(s, p, i)
  {
    var found := FindFirst(s, p);
    forall i: nat | FirstAt(s, p, i) ensures found == Some(s[i]) {
      var k: nat :| FirstAt(s, p, k) && s[k] == found.value;
      assert k == i;
    }
  }
}
