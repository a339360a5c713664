/**
 Merging flags for one document type must not change what is accepted: acceptance depends
 on the requests only through the (docType, namespace, claim) triples they demand.
 */
module Merging {
  import opened Values
  import opened Validation
  import opened Requests

  ghost predicate Demanded(requests: seq<DocRequest>, docType: string, ns: string, claim: string) {
    exists r, n | r in requests && n in r.namespaces :: r.docType == docType && n.0 == ns && claim in n.1
  }

  ghost predicate SpecsDemand(specs: seq<Spec>, docType: string, ns: string, claim: string) {
    exists s | s in specs :: s.docType == docType && s.ns == ns && claim in s.claims
  }

  /** Every request asks for something, and so does each of its namespaces. */
  ghost predicate NothingEmpty(requests: seq<DocRequest>) {
    forall r | r in requests :: r.namespaces != [] && forall n | n in r.namespaces :: n.1 != []
  }

  /** Acceptance said through the demanded triples alone. */
  ghost predicate Meets(response: Response, requests: seq<DocRequest>, now: int) {
    && EnvelopeSound(response)
    && (forall t, ns, c | Demanded(requests, t, ns, c) :: exists d | d in response.documents :: d.docType == t)
    && (forall d | d in response.documents :: DocumentSound(d, now) && MeetsDemand(d, requests))
  }

  lemma DemandOf(requests: seq<DocRequest>, r: DocRequest, n: (string, seq<string>), c: string)
    requires r in requests && n in r.namespaces && c in n.1
    ensures Demanded(requests, r.docType, n.0, c)
  {
  }

  lemma SomethingDemanded(requests: seq<DocRequest>, r: DocRequest)
    requires NothingEmpty(requests) && r in requests
    ensures exists ns, c :: Demanded(requests, r.docType, ns, c)
  {
    var n := r.namespaces[0];
    assert n in r.namespaces;
    DemandOf(requests, r, n, n.1[0]);
  }

  /** What the requests ask of one document, said through triples. */
  ghost predicate MeetsDemand(d: Document, requests: seq<DocRequest>) {
    && (exists ns, c :: Demanded(requests, d.docType, ns, c))
    && (forall ns, c | Demanded(requests, d.docType, ns, c) :: Provides(d, ns, c))
  }

  lemma SatisfiedMeets(d: Document, requests: seq<DocRequest>)
    requires NothingEmpty(requests)
    requires exists r | r in requests :: r.docType == d.docType
    requires forall r | r in requests && r.docType == d.docType :: Satisfies(d, r)
    ensures MeetsDemand(d, requests)
  {
    var r :| r in requests && r.docType == d.docType;
    SomethingDemanded(requests, r);
    forall ns, c | Demanded(requests, d.docType, ns, c) ensures Provides(d, ns, c) {
      var r, n :| r in requests && n in r.namespaces && r.docType == d.docType && n.0 == ns && c in n.1;
      assert Satisfies(d, r);
    }
  }

  lemma MeetsSatisfied(d: Document, requests: seq<DocRequest>, r: DocRequest)
    requires NothingEmpty(requests) && MeetsDemand(d, requests)
    requires r in requests && r.docType == d.docType
    ensures Satisfies(d, r)
  {
    forall n | n in r.namespaces
      ensures Lookup(d.namespaces, n.0).Some? && forall c | c in n.1 :: Provides(d, n.0, c)
    {
      forall c | c in n.1 ensures Provides(d, n.0, c) {
        DemandOf(requests, r, n, c);
      }
      assert Provides(d, n.0, n.1[0]);
    }
  }

  lemma DemandedTypesPresent(documents: seq<Document>, requests: seq<DocRequest>)
    requires forall r | r in requests :: exists d | d in documents :: d.docType == r.docType
    ensures forall t, ns, c | Demanded(requests, t, ns, c) :: exists d | d in documents :: d.docType == t
  {
    forall t, ns, c | Demanded(requests, t, ns, c) ensures exists d | d in documents :: d.docType == t {
      var r, n :| r in requests && n in r.namespaces && r.docType == t && n.0 == ns && c in n.1;
      assert exists d | d in documents :: d.docType == r.docType;
    }
  }

  lemma DocumentsMeet(documents: seq<Document>, requests: seq<DocRequest>, now: int)
    requires NothingEmpty(requests)
    requires forall d | d in documents :: DocumentAcceptable(d, requests, now)
    ensures forall d | d in documents :: DocumentSound(d, now) && MeetsDemand(d, requests)
  {
    forall d | d in documents ensures MeetsDemand(d, requests) {
      SatisfiedMeets(d, requests);
    }
  }

  lemma AcceptableMeets(response: Response, requests: seq<DocRequest>, now: int)
    requires NothingEmpty(requests) && Acceptable(response, requests, now)
    ensures Meets(response, requests, now)
  {
    DocumentsMeet(response.documents, requests, now);
    DemandedTypesPresent(response.documents, requests);
  }

  lemma MeetsAcceptable(response: Response, requests: seq<DocRequest>, now: int)
    requires NothingEmpty(requests) && Meets(response, requests, now)
    ensures Acceptable(response, requests, now)
  {
    forall r | r in requests ensures exists d | d in response.documents :: d.docType == r.docType {
      SomethingDemanded(requests, r);
    }
    forall d | d in response.documents ensures DocumentAcceptable(d, requests, now) {
      assert MeetsDemand(d, requests);
      var ns, c :| Demanded(requests, d.docType, ns, c);
      var r, n :| r in requests && n in r.namespaces && r.docType == d.docType && n.0 == ns && c in n.1;
      forall r | r in requests && r.docType == d.docType ensures Satisfies(d, r) {
        MeetsSatisfied(d, requests, r);
      }
    }
  }

  ghost predicate SameDemand(a: seq<DocRequest>, b: seq<DocRequest>) {
    forall t, ns, c :: Demanded(a, t, ns, c) <==> Demanded(b, t, ns, c)
  }

  lemma SameDemandSameVerdict(response: Response, a: seq<DocRequest>, b: seq<DocRequest>, now: int)
    requires NothingEmpty(a) && NothingEmpty(b) && SameDemand(a, b)
    ensures Acceptable(response, a, now) <==> Acceptable(response, b, now)
  {
    if Acceptable(response, a, now) {
      AcceptableMeets(response, a, now);
      MeetsTransfers(response, a, b, now);
      MeetsAcceptable(response, b, now);
    }
    if Acceptable(response, b, now) {
      AcceptableMeets(response, b, now);
      MeetsTransfers(response, b, a, now);
      MeetsAcceptable(response, a, now);
    }
  }

  lemma MeetsTransfers(response: Response, a: seq<DocRequest>, b: seq<DocRequest>, now: int)
    requires SameDemand(a, b) && Meets(response, a, now)
    ensures Meets(response, b, now)
  {
    forall d | d in response.documents ensures MeetsDemand(d, b) {
      assert MeetsDemand(d, a);
      var ns, c :| Demanded(a, d.docType, ns, c);
      assert Demanded(b, d.docType, ns, c);
    }
  }

  // ------------------------------------------------- what merged requests demand

  lemma {:induction false} InForType(specs: seq<Spec>, docType: string, s: Spec)
    ensures s in ForType(specs, docType) <==> s in specs && s.docType == docType
  {
    if specs != [] {
      var front := specs[..|specs| - 1];
      assert specs == front + [specs[|specs| - 1]];
      InForType(front, docType, s);
    }
  }

  lemma {:induction false} InClaims(specs: seq<Spec>, ns: string, claim: string)
    ensures claim in ClaimsIn(specs, ns) <==> exists s | s in specs :: s.ns == ns && claim in s.claims
  {
    if specs != [] {
      var front := specs[..|specs| - 1];
      assert specs == front + [specs[|specs| - 1]];
      InClaims(front, ns, claim);
    }
  }

  lemma MergedDemands(requests: seq<DocRequest>, specs: seq<Spec>, t: string, ns: string, c: string)
    requires IsMerged(requests, specs)
    requires Demanded(requests, t, ns, c)
    ensures SpecsDemand(specs, t, ns, c)
  {
    var r, n :| r in requests && n in r.namespaces && r.docType == t && n.0 == ns && c in n.1;
    var own := ForType(specs, t);
    assert IsMergeOf(r.namespaces, own);
    InClaims(own, ns, c);
    var s :| s in own && s.ns == ns && c in s.claims;
    InForType(specs, t, s);
  }

  lemma NamedIn(specs: seq<Spec>, s: Spec)
    requires s in specs
    ensures s.ns in Names(specs) && s.docType in DocTypes(specs)
  {
    var i :| 0 <= i < |specs| && specs[i] == s;
    assert Names(specs)[i] == s.ns && DocTypes(specs)[i] == s.docType;
  }

  lemma DemandsMerged(requests: seq<DocRequest>, specs: seq<Spec>, s: Spec, c: string)
    requires IsMerged(requests, specs)
    requires s in specs && c in s.claims
    ensures Demanded(requests, s.docType, s.ns, c)
  {
    NamedIn(specs, s);
    var i :| 0 <= i < |requests| && requests[i].docType == s.docType;
    var r, own := requests[i], ForType(specs, s.docType);
    assert IsMergeOf(r.namespaces, own);
    InForType(specs, s.docType, s);
    NamedIn(own, s);
    var j :| 0 <= j < |r.namespaces| && Keys(r.namespaces)[j] == s.ns;
    InClaims(own, s.ns, c);
    DemandOf(requests, r, r.namespaces[j], c);
  }

  /** Conservation: the merged requests demand exactly the triples the flags name. */
  lemma MergedDemandsExactly(requests: seq<DocRequest>, specs: seq<Spec>)
    requires IsMerged(requests, specs)
    ensures forall t, ns, c :: Demanded(requests, t, ns, c) <==> SpecsDemand(specs, t, ns, c)
  {
    forall t, ns, c ensures Demanded(requests, t, ns, c) <==> SpecsDemand(specs, t, ns, c) {
      if Demanded(requests, t, ns, c) {
        MergedDemands(requests, specs, t, ns, c);
      }
      if SpecsDemand(specs, t, ns, c) {
        var s :| s in specs && s.docType == t && s.ns == ns && c in s.claims;
        DemandsMerged(requests, specs, s, c);
      }
    }
  }

  ghost predicate EachClaims(specs: seq<Spec>) { forall s | s in specs :: s.claims != [] }

  lemma MergedNotEmpty(requests: seq<DocRequest>, specs: seq<Spec>)
    requires IsMerged(requests, specs) && EachClaims(specs)
    ensures NothingEmpty(requests)
  {
    forall r | r in requests
      ensures r.namespaces != [] && forall n | n in r.namespaces :: n.1 != []
    {
      var own := ForType(specs, r.docType);
      assert IsMergeOf(r.namespaces, own);
      assert r.docType in DocTypes(specs);
      var i :| 0 <= i < |specs| && DocTypes(specs)[i] == r.docType;
      InForType(specs, r.docType, specs[i]);
      NamedIn(own, specs[i]);
      assert Keys(r.namespaces) != [];
      forall n | n in r.namespaces ensures n.1 != [] {
        var j :| 0 <= j < |r.namespaces| && r.namespaces[j] == n;
        assert Keys(r.namespaces)[j] == n.0;
        assert n.0 in FirstSeen(Names(own));
        var k :| 0 <= k < |Names(own)| && Names(own)[k] == n.0;
        InForType(specs, r.docType, own[k]);
        InClaims(own, n.0, own[k].claims[0]);
      }
    }
  }

  /** One request per flag, as if nothing had been merged. */
  function Unmerged(specs: seq<Spec>): seq<DocRequest> {
    seq(|specs|, i requires 0 <= i < |specs| => DocRequest(specs[i].docType, [(specs[i].ns, specs[i].claims)]))
  }

  lemma UnmergedDemands(specs: seq<Spec>)
    ensures forall t, ns, c :: Demanded(Unmerged(specs), t, ns, c) <==> SpecsDemand(specs, t, ns, c)
    ensures EachClaims(specs) ==> NothingEmpty(Unmerged(specs))
  {
    forall t, ns, c ensures Demanded(Unmerged(specs), t, ns, c) <==> SpecsDemand(specs, t, ns, c) {
      if SpecsDemand(specs, t, ns, c) {
        var s :| s in specs && s.docType == t && s.ns == ns && c in s.claims;
        var i :| 0 <= i < |specs| && specs[i] == s;
        var r := Unmerged(specs)[i];
        assert r.namespaces[0] == (s.ns, s.claims);
        DemandOf(Unmerged(specs), r, r.namespaces[0], c);
      }
    }
  }

  // ---------------------------------------------------------------- main results

  /** The merged requests accept exactly the responses that one request per flag accepts. */
  lemma MergingIsTransparent(response: Response, requests: seq<DocRequest>, specs: seq<Spec>, now: int)
    requires IsMerged(requests, specs) && EachClaims(specs)
    ensures Acceptable(response, requests, now) <==> Acceptable(response, Unmerged(specs), now)
  {
    MergedDemandsExactly(requests, specs);
    MergedNotEmpty(requests, specs);
    UnmergedDemands(specs);
    SameDemandSameVerdict(response, requests, Unmerged(specs), now);
  }

  /** Neither the order nor the repetition of flags matters to acceptance. */
  lemma OrderIsIrrelevant(response: Response, a: seq<DocRequest>, aSpecs: seq<Spec>,
                          b: seq<DocRequest>, bSpecs: seq<Spec>, now: int)
    requires IsMerged(a, aSpecs) && EachClaims(aSpecs) && IsMerged(b, bSpecs) && EachClaims(bSpecs)
    requires forall s :: s in aSpecs <==> s in bSpecs
    ensures Acceptable(response, a, now) <==> Acceptable(response, b, now)
  {
    MergedDemandsExactly(a, aSpecs);
    MergedDemandsExactly(b, bSpecs);
    MergedNotEmpty(a, aSpecs);
    MergedNotEmpty(b, bSpecs);
    forall t, ns, c ensures SpecsDemand(aSpecs, t, ns, c) <==> SpecsDemand(bSpecs, t, ns, c) {
    }
    SameDemandSameVerdict(response, a, b, now);
  }

  /** One more flag for a document type already requested can only shrink what is accepted. */
  lemma AnotherFlagOnlyShrinks(response: Response, a: seq<DocRequest>, specs: seq<Spec>,
                               b: seq<DocRequest>, spec: Spec, now: int)
    requires IsMerged(a, specs) && IsMerged(b, specs + [spec]) && EachClaims(specs + [spec])
    requires spec.docType in DocTypes(specs)
    requires Acceptable(response, b, now)
    ensures Acceptable(response, a, now)
  {
    var more := specs + [spec];
    assert EachClaims(specs) by {
      assert forall s | s in specs :: s in more;
    }
    MergedNotEmpty(a, specs);
    MergedNotEmpty(b, more);
    AcceptableMeets(response, b, now);
    forall t, ns, c | Demanded(a, t, ns, c) ensures Demanded(b, t, ns, c) {
      DemandGrows(a, specs, b, spec, t, ns, c);
    }
    forall d | d in response.documents ensures MeetsDemand(d, a) {
      assert MeetsDemand(d, b);
      StillAsked(a, specs, b, spec, d.docType);
    }
    MeetsAcceptable(response, a, now);
  }

  lemma DemandGrows(a: seq<DocRequest>, specs: seq<Spec>, b: seq<DocRequest>, spec: Spec,
                    t: string, ns: string, c: string)
    requires IsMerged(a, specs) && IsMerged(b, specs + [spec])
    requires Demanded(a, t, ns, c)
    ensures Demanded(b, t, ns, c)
  {
    MergedDemands(a, specs, t, ns, c);
    var s :| s in specs && s.docType == t && s.ns == ns && c in s.claims;
    assert s in specs + [spec];
    DemandsMerged(b, specs + [spec], s, c);
  }

  lemma StillAsked(a: seq<DocRequest>, specs: seq<Spec>, b: seq<DocRequest>, spec: Spec, t: string)
    requires IsMerged(a, specs) && IsMerged(b, specs + [spec]) && EachClaims(specs + [spec])
    requires spec.docType in DocTypes(specs)
    requires exists ns, c :: Demanded(b, t, ns, c)
    ensures exists ns, c :: Demanded(a, t, ns, c)
  {
    var ns, c :| Demanded(b, t, ns, c);
    MergedDemands(b, specs + [spec], t, ns, c);
    var s :| s in specs + [spec] && s.docType == t && s.ns == ns && c in s.claims;
    var i :| 0 <= i < |specs| && DocTypes(specs)[i] == spec.docType;
    var asking := if s in specs then s else specs[i];
    assert asking in specs && asking in specs + [spec];
    DemandsMerged(a, specs, asking, asking.claims[0]);
  }
}
