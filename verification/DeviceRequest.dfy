/** The DeviceRequest built from the requests (build_device_request of mdoc.py), down to its bytes. */
module DeviceRequest {
  import opened Common
  import opened Values
  import opened Validation
  import opened Parsing
  import opened Requests
  import opened Merging

  /** {claim: False for claim in claims}: nothing is to be retained. */
  function ClaimMap(claims: seq<string>): Value {
    var distinct := FirstSeen(claims);
    Map(seq(|distinct|, i requires 0 <= i < |distinct| => (Text(distinct[i]), Bool(false))))
  }

  function ItemsRequest(request: DocRequest): Value {
    var ns := request.namespaces;
    Map([(Text("docType"), Text(request.docType)),
         (Text("nameSpaces"), Map(seq(|ns|, i requires 0 <= i < |ns| => (Text(ns[i].0), ClaimMap(ns[i].1)))))])
  }

  /** One element of docRequests: the encoded ItemsRequest under tag 24. */
  function DocRequestValue(c: Codec, request: DocRequest): Value {
    Map([(Text("itemsRequest"), Tag(24, Bytes(c.dumps(ItemsRequest(request)))))])
  }

  function DocRequestValues(c: Codec, requests: seq<DocRequest>): seq<Value> {
    seq(|requests|, i requires 0 <= i < |requests| => DocRequestValue(c, requests[i]))
  }

  function DeviceRequestValue(c: Codec, requests: seq<DocRequest>): Value {
    Map([(Text("version"), Text("1.0")), (Text("docRequests"), List(DocRequestValues(c, requests)))])
  }

  /** The codec gives these values back: all that is asked of it. */
  ghost predicate RoundTrips(c: Codec, requests: seq<DocRequest>) {
    && c.loads(c.dumps(DeviceRequestValue(c, requests))) == Some(DeviceRequestValue(c, requests))
    && forall r | r in requests :: c.loads(c.dumps(ItemsRequest(r))) == Some(ItemsRequest(r))
  }

  method BuildDeviceRequest(c: Codec, requests: seq<DocRequest>) returns (wire: seq<Byte>)
    ensures wire == c.dumps(DeviceRequestValue(c, requests))
    ensures RoundTrips(c, requests) ==>
              forall t, ns, claim :: WireAsks(c, wire, t, ns, claim) <==> Demanded(requests, t, ns, claim)
  {
    var values: seq<Value> := [];
    for k := 0 to |requests|
      invariant values == DocRequestValues(c, requests[..k])
    {
      assert requests[..k + 1] == requests[..k] + [requests[k]];
      values := values + [DocRequestValue(c, requests[k])];
    }
    assert requests[..|requests|] == requests;
    wire := c.dumps(Map([(Text("version"), Text("1.0")), (Text("docRequests"), List(values))]));
    if RoundTrips(c, requests) {
      forall t, ns, claim ensures WireAsks(c, wire, t, ns, claim) <==> Demanded(requests, t, ns, claim) {
        WireAsksDemanded(c, requests, t, ns, claim);
      }
    }
  }

  /** What a wallet reads out of one ItemsRequest. */
  ghost predicate ItemAsks(item: Value, docType: string, ns: string, claim: string) {
    && item.Map?
    && Get(item.entries, "docType") == Text(docType)
    && var names := Get(item.entries, "nameSpaces");
       names.Map? && exists e | e in names.entries ::
         e.0 == Text(ns) && e.1.Map? && (Text(claim), Bool(false)) in e.1.entries
  }

  /** What a wallet reads out of one element of docRequests. */
  ghost predicate DocRequestAsks(c: Codec, v: Value, docType: string, ns: string, claim: string) {
    && v.Map?
    && Unwrap24(c, Get(v.entries, "itemsRequest")).Ok?
    && ItemAsks(Unwrap24(c, Get(v.entries, "itemsRequest")).value, docType, ns, claim)
  }

  /** What a wallet reads out of the bytes of a version 1.0 DeviceRequest. */
  ghost predicate WireAsks(c: Codec, wire: seq<Byte>, docType: string, ns: string, claim: string) {
    && c.loads(wire).Some? && c.loads(wire).value.Map?
    && var top := c.loads(wire).value.entries;
       && Get(top, "version") == Text("1.0")
       && Get(top, "docRequests").List?
       && exists v | v in Get(top, "docRequests").items :: DocRequestAsks(c, v, docType, ns, claim)
  }

  lemma ClaimMapAsks(claims: seq<string>, claim: string)
    ensures (Text(claim), Bool(false)) in ClaimMap(claims).entries <==> claim in claims
  {
    var distinct := FirstSeen(claims);
    if claim in claims {
      var i :| 0 <= i < |distinct| && distinct[i] == claim;
      assert ClaimMap(claims).entries[i] == (Text(claim), Bool(false));
    }
  }

  lemma ItemsRequestFields(request: DocRequest)
    ensures var item := ItemsRequest(request);
            var ns := request.namespaces;
            && Get(item.entries, "docType") == Text(request.docType)
            && Get(item.entries, "nameSpaces") ==
               Map(seq(|ns|, i requires 0 <= i < |ns| => (Text(ns[i].0), ClaimMap(ns[i].1))))
  {
    var entries := ItemsRequest(request).entries;
    assert |"docType"| != |"nameSpaces"|;
    assert entries[0].0 == Text("docType") && entries[1..][0] == entries[1];
    assert Lookup(entries[1..], Text("nameSpaces")) == Some(entries[1].1);
  }

  lemma ItemsRequestAsks(request: DocRequest, t: string, ns: string, c: string)
    ensures ItemAsks(ItemsRequest(request), t, ns, c) <==>
            request.docType == t && exists n | n in request.namespaces :: n.0 == ns && c in n.1
  {
    ItemsRequestFields(request);
    var names := Get(ItemsRequest(request).entries, "nameSpaces");
    forall i | 0 <= i < |request.namespaces| {
      ClaimMapAsks(request.namespaces[i].1, c);
    }
    if exists n | n in request.namespaces :: n.0 == ns && c in n.1 {
      var n :| n in request.namespaces && n.0 == ns && c in n.1;
      var i :| 0 <= i < |request.namespaces| && request.namespaces[i] == n;
      assert names.entries[i] == (Text(ns), ClaimMap(n.1));
    }
  }

  lemma TopFields(c: Codec, requests: seq<DocRequest>)
    ensures var top := DeviceRequestValue(c, requests).entries;
            && Get(top, "version") == Text("1.0")
            && Get(top, "docRequests") == List(DocRequestValues(c, requests))
  {
    var top := DeviceRequestValue(c, requests).entries;
    assert |"version"| != |"docRequests"|;
    assert top[0].0 == Text("version") && top[1..][0] == top[1];
    assert Lookup(top[1..], Text("docRequests")) == Some(top[1].1);
  }

  lemma DocRequestAsksExactly(c: Codec, request: DocRequest, t: string, ns: string, claim: string)
    requires c.loads(c.dumps(ItemsRequest(request))) == Some(ItemsRequest(request))
    ensures DocRequestAsks(c, DocRequestValue(c, request), t, ns, claim) <==>
            request.docType == t && exists n | n in request.namespaces :: n.0 == ns && claim in n.1
  {
    ItemsRequestAsks(request, t, ns, claim);
    var entries := DocRequestValue(c, request).entries;
    assert Lookup(entries, Text("itemsRequest")) == Some(entries[0].1);
  }

  lemma WireAsksDemanded(c: Codec, requests: seq<DocRequest>, t: string, ns: string, claim: string)
    requires RoundTrips(c, requests)
    ensures WireAsks(c, c.dumps(DeviceRequestValue(c, requests)), t, ns, claim) <==> Demanded(requests, t, ns, claim)
  {
    TopFields(c, requests);
    var values := DocRequestValues(c, requests);
    forall i | 0 <= i < |requests|
      ensures DocRequestAsks(c, values[i], t, ns, claim) <==>
              requests[i].docType == t && exists n | n in requests[i].namespaces :: n.0 == ns && claim in n.1
    {
      DocRequestAsksExactly(c, requests[i], t, ns, claim);
    }
    if Demanded(requests, t, ns, claim) {
      var r, n :| r in requests && n in r.namespaces && r.docType == t && n.0 == ns && claim in n.1;
      var i :| 0 <= i < |requests| && requests[i] == r;
      assert DocRequestAsks(c, values[i], t, ns, claim);
    }
  }

  /** From flags to wire: the bytes built from readable flags ask for exactly what the flags name. */
  lemma WireAsksWhatFlagsName(c: Codec, texts: seq<string>, specs: seq<Spec>, requests: seq<DocRequest>)
    requires Spelled(texts, specs) && IsMerged(requests, specs) && RoundTrips(c, requests)
    ensures EachClaims(specs)
    ensures forall t, ns, claim ::
              WireAsks(c, c.dumps(DeviceRequestValue(c, requests)), t, ns, claim) <==> SpecsDemand(specs, t, ns, claim)
  {
    SpelledOnce(texts, specs, specs);
    MergedDemandsExactly(requests, specs);
    forall t, ns, claim
      ensures WireAsks(c, c.dumps(DeviceRequestValue(c, requests)), t, ns, claim) <==> Demanded(requests, t, ns, claim)
    {
      WireAsksDemanded(c, requests, t, ns, claim);
    }
  }

  // ---------------------------------------------------- nothing else is asked for

  /** A namespace asks for each of its claims once, none of them to be retained. */
  ghost predicate CleanClaims(v: Value) {
    && v.Map? && DistinctKeys(v.entries)
    && forall e | e in v.entries :: e.0.Text? && e.1 == Bool(false)
  }

  /** An ItemsRequest with each namespace once, and nothing in it but claims not to be retained. */
  ghost predicate CleanItem(item: Value) {
    && item.Map? && |item.entries| == 2 && DistinctKeys(item.entries)
    && var names := Get(item.entries, "nameSpaces");
       && names.Map? && DistinctKeys(names.entries)
       && forall e | e in names.entries :: e.0.Text? && CleanClaims(e.1)
  }

  /** Every element of docRequests decodes to a clean ItemsRequest, each for a document type of its own. */
  ghost predicate WireClean(c: Codec, wire: seq<Byte>) {
    && c.loads(wire).Some? && c.loads(wire).value.Map?
    && var docRequests := Get(c.loads(wire).value.entries, "docRequests");
       && docRequests.List?
       && (forall i | 0 <= i < |docRequests.items| :: ItemIn(c, docRequests.items[i]).Some?)
       && (forall i | 0 <= i < |docRequests.items| :: CleanItem(ItemIn(c, docRequests.items[i]).value))
       && (forall i, j | 0 <= i < j < |docRequests.items| ::
             DocTypeIn(c, docRequests.items[i]) != DocTypeIn(c, docRequests.items[j]))
  }

  /** The ItemsRequest in one element of docRequests. */
  function ItemIn(c: Codec, v: Value): Option<Value> {
    if !v.Map? then None
    else match Unwrap24(c, Get(v.entries, "itemsRequest"))
         case Ok(item) => if item.Map? then Some(item) else None
         case Err(_) => None
  }

  function DocTypeIn(c: Codec, v: Value): Value {
    var item := ItemIn(c, v);
    if item.Some? && item.value.Map? then Get(item.value.entries, "docType") else Null
  }

  lemma ClaimMapClean(claims: seq<string>)
    ensures CleanClaims(ClaimMap(claims))
    ensures forall e | e in ClaimMap(claims).entries :: e.0.Text? && e.0.s in claims
  {
    var distinct, entries := FirstSeen(claims), ClaimMap(claims).entries;
    forall i, j | 0 <= i < j < |entries| ensures entries[i].0 != entries[j].0 {
      assert distinct[i] != distinct[j];
    }
    forall e | e in entries ensures e.0.Text? && e.1 == Bool(false) && e.0.s in claims {
      var i :| 0 <= i < |entries| && entries[i] == e;
      assert distinct[i] in distinct;
    }
  }

  lemma ItemsRequestClean(request: DocRequest)
    requires forall i, j | 0 <= i < j < |request.namespaces| :: request.namespaces[i].0 != request.namespaces[j].0
    ensures CleanItem(ItemsRequest(request))
  {
    ItemsRequestFields(request);
    var ns, item := request.namespaces, ItemsRequest(request);
    assert |"docType"| != |"nameSpaces"|;
    var names := Get(item.entries, "nameSpaces");
    forall i, j | 0 <= i < j < |names.entries| ensures names.entries[i].0 != names.entries[j].0 {
      assert ns[i].0 != ns[j].0;
    }
    forall e | e in names.entries ensures e.0.Text? && CleanClaims(e.1) {
      var i :| 0 <= i < |names.entries| && names.entries[i] == e;
      ClaimMapClean(ns[i].1);
    }
  }

  lemma MergedIsDistinct(requests: seq<DocRequest>, specs: seq<Spec>)
    requires IsMerged(requests, specs)
    ensures forall i, j | 0 <= i < j < |requests| :: requests[i].docType != requests[j].docType
    ensures forall r, i, j | r in requests && 0 <= i < j < |r.namespaces| :: r.namespaces[i].0 != r.namespaces[j].0
  {
    forall r, i, j | r in requests && 0 <= i < j < |r.namespaces| ensures r.namespaces[i].0 != r.namespaces[j].0 {
      var k :| 0 <= k < |requests| && requests[k] == r;
      KeysDistinct(r.namespaces, ForType(specs, r.docType), j, i);
    }
  }

  /**
   The bytes built from merged requests say nothing more: one ItemsRequest for each document
   type, each namespace once, each claim once, and nothing to be retained.
   */
  lemma NothingElseIsAsked(c: Codec, requests: seq<DocRequest>, specs: seq<Spec>)
    requires IsMerged(requests, specs) && RoundTrips(c, requests)
    ensures WireClean(c, c.dumps(DeviceRequestValue(c, requests)))
  {
    MergedIsDistinct(requests, specs);
    TopFields(c, requests);
    var items := DocRequestValues(c, requests);
    forall i | 0 <= i < |items|
      ensures ItemIn(c, items[i]) == Some(ItemsRequest(requests[i])) && CleanItem(ItemsRequest(requests[i]))
      ensures DocTypeIn(c, items[i]) == Text(requests[i].docType)
    {
      assert requests[i] in requests;
      ItemsRequestClean(requests[i]);
    }
  }
}
