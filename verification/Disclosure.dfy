/**
 Parsing and validation together: in a response that passed both, every element shown is
 backed by the issuer's signed table, and every element asked for is there exactly once.
 */
module Disclosure {
  import opened Common
  import opened Values
  import opened Validation
  import opened Parsing
  import opened ReadGate
  import opened Merging
  import opened Provenance

  /** The documents of a plaintext as sent, before parsing. */
  function RawDocuments(c: Codec, plaintext: seq<Byte>): seq<Value> {
    match c.loads(plaintext)
    case Some(Map(entries)) =>
      var documents := Get(entries, "documents", List([]));
      if documents.List? then documents.items else []
    case _ => []
  }

  /**
   The item as sent spells the element, and the digest of exactly that item, under the MSO's
   own supported algorithm, is what the MSO lists for its digest id in its namespace.
   */
  ghost predicate Backed(c: Codec, mso: Mso, ns: string, e: Element, tagged: Value) {
    && mso.digestAlgorithm in {Text("SHA-256"), Text("SHA-384"), Text("SHA-512")}
    && mso.valueDigests.Map?
    && exists table ::
         && Lookup(mso.valueDigests.entries, Text(ns)) == Some(Map(table))
         && Lookup(table, Int(e.digestId)) == Some(Bytes(c.digest(mso.digestAlgorithm.s, c.dumps(tagged))))
         && ItemSays(c, mso.digestAlgorithm, table, tagged, e)
  }

  lemma ItemBacked(c: Codec, mso: Mso, ns: string, e: Element, tagged: Value)
    requires DigestsFor(mso, Text(ns)).Some?
    requires GoodItem(c, mso.digestAlgorithm, DigestsFor(mso, Text(ns)).value, tagged)
    requires e == ElementOf(c, mso.digestAlgorithm, DigestsFor(mso, Text(ns)).value, tagged)
    requires e.digestValid == Some(true)
    ensures Backed(c, mso, ns, e, tagged)
  {
    var table := DigestsFor(mso, Text(ns)).value;
    assert Lookup(mso.valueDigests.entries, Text(ns)) == Some(Map(table));
    ItemExactly(c, mso.digestAlgorithm, table, tagged, e);
  }

  /** Document n of a checked response is document n of the plaintext, parsed and authenticated. */
  lemma DocumentSource(cfg: Config, plaintext: seq<Byte>, response: Response, n: nat) returns (parsed: Document)
    requires Checked(cfg, plaintext, response) && n < |response.documents|
    ensures |RawDocuments(cfg.codec, plaintext)| == |response.documents|
    ensures DocumentFrom(cfg.codec, RawDocuments(cfg.codec, plaintext)[n], parsed)
    ensures response.documents[n] == parsed.(deviceAuthValid := response.documents[n].deviceAuthValid)
    ensures cfg.deviceAuth(parsed) == Some(response.documents[n].deviceAuthValid)
  {
    var raw := cfg.codec.loads(plaintext).value;
    var whole :| ResponseFrom(cfg.codec, raw, whole) && Authenticated(cfg, whole, response);
    parsed := whole.documents[n];
  }

  /** The items as sent in namespace number k of document number n. */
  function SentItems(cfg: Config, plaintext: seq<Byte>, n: nat, k: nat): seq<Value> {
    var raws := RawDocuments(cfg.codec, plaintext);
    if n < |raws| then RawItems(raws[n], k) else []
  }

  /**
   Every element of an accepted response, asked for or not, is backed by the item at its own
   place in the response.
   */
  lemma EverythingShownIsBacked(cfg: Config, plaintext: seq<Byte>, response: Response, n: nat, k: nat, i: nat)
    requires Checked(cfg, plaintext, response) && Acceptable(response, cfg.requests, cfg.clock)
    requires n < |response.documents| && k < |response.documents[n].namespaces|
    requires i < |response.documents[n].namespaces[k].1|
    ensures var d := response.documents[n];
            && MsoOf(d).Some?
            && i < |SentItems(cfg, plaintext, n, k)|
            && Backed(cfg.codec, MsoOf(d).value, d.namespaces[k].0, d.namespaces[k].1[i],
                      SentItems(cfg, plaintext, n, k)[i])
  {
    var d := response.documents[n];
    var parsed := DocumentSource(cfg, plaintext, response, n);
    NamespaceSource(cfg.codec, RawDocuments(cfg.codec, plaintext)[n], parsed, k);
    AcceptedDigests(response, cfg.requests, cfg.clock, d);
    var ns := d.namespaces[k];
    assert ns in d.namespaces && ns.1[i] in ns.1;
    ItemBacked(cfg.codec, MsoOf(d).value, ns.0, ns.1[i], SentItems(cfg, plaintext, n, k)[i]);
  }

  /**
   Every document of an accepted response is authentic: its issuerAuth, as sent, is signed by the
   first of the certificates sent with it, and the MSO it is judged by is what was signed.
   */
  lemma EverythingShownIsSigned(cfg: Config, plaintext: seq<Byte>, response: Response, n: nat)
    requires Checked(cfg, plaintext, response) && Acceptable(response, cfg.requests, cfg.clock)
    requires n < |response.documents|
    ensures |RawDocuments(cfg.codec, plaintext)| == |response.documents|
    ensures var d := response.documents[n];
            && d.issuerAuth.Some?
            && (exists cose :: Authentic(cfg.codec, RawDocuments(cfg.codec, plaintext)[n], d.issuerAuth.value, cose))
            && d.issuerAuth.value.mso.Some?
            && MsoAcceptable(d.issuerAuth.value.mso.value, d.docType, cfg.clock)
  {
    var parsed := DocumentSource(cfg, plaintext, response, n);
    AcceptedSound(response, cfg.requests, cfg.clock, response.documents[n]);
    SignedDocument(cfg.codec, RawDocuments(cfg.codec, plaintext)[n], parsed);
  }

  lemma AcceptedSound(response: Response, requests: seq<DocRequest>, now: int, d: Document)
    requires Acceptable(response, requests, now) && d in response.documents
    ensures DocumentSound(d, now)
  {
    assert DocumentAcceptable(d, requests, now);
  }

  lemma AcceptedDigests(response: Response, requests: seq<DocRequest>, now: int, d: Document)
    requires Acceptable(response, requests, now) && d in response.documents
    ensures MsoOf(d).Some?
    ensures forall n, e | n in d.namespaces && e in n.1 :: e.digestValid == Some(true)
  {
    assert DocumentAcceptable(d, requests, now);
  }

  lemma AcceptedProvides(d: Document, requests: seq<DocRequest>, ns: string, claim: string)
    requires forall r | r in requests && r.docType == d.docType :: Satisfies(d, r)
    requires Demanded(requests, d.docType, ns, claim)
    ensures Provides(d, ns, claim)
  {
    var r, n :| r in requests && n in r.namespaces && r.docType == d.docType && n.0 == ns && claim in n.1;
    assert Satisfies(d, r);
  }

  /**
   Every requested (docType, namespace, element) resolves, in each returned document of
   that type, to exactly one element, and that element is backed by an item of that document.
   */
  lemma RequestedResolvesOnce(cfg: Config, plaintext: seq<Byte>, response: Response, n: nat,
                              ns: string, claim: string) returns (k: nat, i: nat)
    requires Checked(cfg, plaintext, response) && Acceptable(response, cfg.requests, cfg.clock)
    requires n < |response.documents|
    requires Demanded(cfg.requests, response.documents[n].docType, ns, claim)
    ensures Lookup(response.documents[n].namespaces, ns).Some? && MsoOf(response.documents[n]).Some?
    ensures var elements := Lookup(response.documents[n].namespaces, ns).value;
            && i < |elements| && elements[i].identifier == claim
            && (forall j | 0 <= j < |elements| && elements[j].identifier == claim :: j == i)
            && i < |SentItems(cfg, plaintext, n, k)|
            && Backed(cfg.codec, MsoOf(response.documents[n]).value, ns, elements[i],
                      SentItems(cfg, plaintext, n, k)[i])
  {
    var d := response.documents[n];
    ProvidedIfDemanded(response, cfg.requests, cfg.clock, d, ns, claim);
    var elements := Lookup(d.namespaces, ns).value;
    i :| 0 <= i < |elements| && elements[i].identifier == claim;
    LookupIndex(d.namespaces, ns);
    k :| 0 <= k < |d.namespaces| && d.namespaces[k] == (ns, elements);
    EverythingShownIsBacked(cfg, plaintext, response, n, k, i);
    ElementsDistinct(cfg, plaintext, response, n, k);
  }

  lemma ProvidedIfDemanded(response: Response, requests: seq<DocRequest>, now: int, d: Document, ns: string,
                           claim: string)
    requires Acceptable(response, requests, now) && d in response.documents
    requires Demanded(requests, d.docType, ns, claim)
    ensures Provides(d, ns, claim)
  {
    assert DocumentAcceptable(d, requests, now);
    AcceptedProvides(d, requests, ns, claim);
  }

  lemma ElementsDistinct(cfg: Config, plaintext: seq<Byte>, response: Response, n: nat, k: nat)
    requires Checked(cfg, plaintext, response) && n < |response.documents| && k < |response.documents[n].namespaces|
    ensures DistinctElements(response.documents[n].namespaces[k].1)
  {
    var parsed := DocumentSource(cfg, plaintext, response, n);
    NamespaceSource(cfg.codec, RawDocuments(cfg.codec, plaintext)[n], parsed, k);
  }
}
