/** One mdoc that is released: the premises of the gate's theorems can be met together. */
module Example {
  import opened Common
  import opened Values
  import opened Validation
  import opened Parsing
  import opened ReadGate

  const DOC_TYPE := "mDL"
  const NAMESPACE := "ns"
  const CLAIM := "age"

  const VALIDITY := Map([
    (Text("signed"), Date(Instant(1, true), "")),
    (Text("validFrom"), Date(Instant(1, true), "")),
    (Text("validUntil"), Date(Instant(9, true), ""))])

  const MSO_VALUE := Map([
    (Text("version"), Text("1.0")),
    (Text("digestAlgorithm"), Text("SHA-256")),
    (Text("docType"), Text(DOC_TYPE)),
    (Text("valueDigests"), Map([(Text(NAMESPACE), Map([(Int(0), Bytes([7]))]))])),
    (Text("validityInfo"), VALIDITY)])

  const ITEM := Map([
    (Text("digestID"), Int(0)),
    (Text("random"), Bytes([0, 1, 2, 3, 4, 5, 6, 7, 8, 9, 10, 11, 12, 13, 14, 15])),
    (Text("elementIdentifier"), Text(CLAIM)),
    (Text("elementValue"), Int(42))])

  const TAGGED := Tag(24, Bytes([3]))

  const COSE := List([Bytes([]), Map([(Int(33), Bytes([9]))]), Bytes([1]), Bytes([])])

  const DOCUMENT := Map([
    (Text("docType"), Text(DOC_TYPE)),
    (Text("issuerSigned"), Map([
      (Text("issuerAuth"), COSE),
      (Text("nameSpaces"), Map([(Text(NAMESPACE), List([TAGGED]))]))])),
    (Text("deviceSigned"), Map([(Text("nameSpaces"), Tag(24, Bytes([4])))]))])

  const RESPONSE := Map([
    (Text("version"), Text("1.0")),
    (Text("documents"), List([DOCUMENT])),
    (Text("status"), Int(0))])

  function Loads(bytes: seq<Byte>): Option<Value> {
    if bytes == [0] then Some(RESPONSE)
    else if bytes == [1] then Some(Tag(24, Bytes([2])))
    else if bytes == [2] then Some(MSO_VALUE)
    else if bytes == [3] then Some(ITEM)
    else if bytes == [4] then Some(Map([]))
    else None
  }

  function TheCodec(): Codec {
    Codec(bytes => Loads(bytes), _ => [], (_, _) => [7], _ => true, (_, _) => Some(Some(true)))
  }

  const REQUESTS := [DocRequest(DOC_TYPE, [(NAMESPACE, [CLAIM])])]

  function TheConfig(certificates: IssuerId.Library): Config {
    Config(TheCodec(), certificates, REQUESTS, 5, _ => Some(Some(true)), None, _ => Some("shown"))
  }

  const MSO := Mso(Text("1.0"), Text("SHA-256"), Text(DOC_TYPE),
                   Map([(Text(NAMESPACE), Map([(Int(0), Bytes([7]))]))]), Null, VALIDITY)

  const ELEMENT := Element(CLAIM, Int(42), 0, Some(true))

  const PARSED := Document(DOC_TYPE, [(NAMESPACE, [ELEMENT])], Some(IssuerAuth(Some(true), Some(MSO), [[9]])),
                           Map([]), [], None, Map([]), Map([]), None)

  lemma {:induction false} LookupAt<K, V>(entries: seq<(K, V)>, k: nat, key: K)
    requires k < |entries| && entries[k].0 == key
    requires forall j | 0 <= j < k :: entries[j].0 != key
    ensures Lookup(entries, key) == Some(entries[k].1)
  {
    if k > 0 {
      LookupAt(entries[1..], k - 1, key);
    }
  }

  lemma {:induction false} LookupMissing<K, V>(entries: seq<(K, V)>, key: K)
    requires forall j | 0 <= j < |entries| :: entries[j].0 != key
    ensures Lookup(entries, key) == None
  {
    LookupMeans(entries, key);
  }

  lemma ValidityReads()
    ensures AwareDate(VALIDITY, "signed") == Some(1)
    ensures AwareDate(VALIDITY, "validFrom") == Some(1)
    ensures AwareDate(VALIDITY, "validUntil") == Some(9)
  {
    assert |"signed"| == 6 && |"validFrom"| == 9 && |"validUntil"| == 10;
    LookupAt(VALIDITY.entries, 0, Text("signed"));
    LookupAt(VALIDITY.entries, 1, Text("validFrom"));
    LookupAt(VALIDITY.entries, 2, Text("validUntil"));
  }

  lemma MsoReads()
    ensures ReadMso(MSO_VALUE.entries) == Some(MSO)
  {
    var e := MSO_VALUE.entries;
    assert |"version"| == 7 && |"digestAlgorithm"| == 15 && |"docType"| == 7 && |"valueDigests"| == 12
        && |"validityInfo"| == 12 && |"deviceKeyInfo"| == 13 && |"deviceKey"| == 9;
    assert "version"[0] != "docType"[0] && "valueDigests"[3] != "validityInfo"[3];
    LookupAt(e, 0, Text("version"));
    LookupAt(e, 1, Text("digestAlgorithm"));
    LookupAt(e, 2, Text("docType"));
    LookupAt(e, 3, Text("valueDigests"));
    LookupAt(e, 4, Text("validityInfo"));
    LookupMissing(e, Text("deviceKeyInfo"));
  }

  lemma ItemReads()
    ensures GoodItem(TheCodec(), Text("SHA-256"), [(Int(0), Bytes([7]))], TAGGED)
    ensures ElementOf(TheCodec(), Text("SHA-256"), [(Int(0), Bytes([7]))], TAGGED) == ELEMENT
  {
    var e := ITEM.entries;
    assert |"digestID"| == 8 && |"random"| == 6 && |"elementIdentifier"| == 17 && |"elementValue"| == 12;
    LookupAt(e, 0, Text("digestID"));
    LookupAt(e, 1, Text("random"));
    LookupAt(e, 2, Text("elementIdentifier"));
    LookupAt(e, 3, Text("elementValue"));
    assert Unwrap24(TheCodec(), TAGGED) == Ok(ITEM);
  }

  lemma NamespacesRead()
    ensures NamespacesBecome(TheCodec(), Some(MSO), Map([(Text(NAMESPACE), List([TAGGED]))]), [(NAMESPACE, [ELEMENT])])
  {
    ItemReads();
    assert DigestsFor(MSO, Text(NAMESPACE)) == Some([(Int(0), Bytes([7]))]);
    assert ItemsBecome(TheCodec(), Text("SHA-256"), [(Int(0), Bytes([7]))], [TAGGED], [ELEMENT]);
  }

  lemma PayloadMeans(c: Codec, payload: seq<Byte>, inner: seq<Byte>, entries: seq<(Value, Value)>, mso: Mso)
    requires payload != [] && c.loads(payload) == Some(Tag(24, Bytes(inner)))
    requires c.loads(inner) == Some(Map(entries)) && ReadMso(entries) == Some(mso)
    ensures MsoIn(c, payload) == Ok(Some(mso))
  {
  }

  lemma LoadsMean()
    ensures TheCodec().loads([1]) == Some(Tag(24, Bytes([2])))
    ensures TheCodec().loads([2]) == Some(MSO_VALUE)
  {
    assert [1] != [0] && [2] != [0] && [2] != [1] by {
      assert [1][0] == 1 && [2][0] == 2 && [0][0] == 0;
    }
  }

  lemma PayloadReads()
    ensures MsoIn(TheCodec(), [1]) == Ok(Some(MSO))
  {
    MsoReads();
    LoadsMean();
    PayloadMeans(TheCodec(), [1], [2], MSO_VALUE.entries, MSO);
  }

  lemma EmptyHeader(c: Codec)
    ensures HeaderMap(c, []) == Ok(Map([]))
    ensures var none: seq<(Value, Value)> := []; Lookup(none, Int(1)) == None
  {
  }

  lemma OneCertificate(certificate: seq<Byte>)
    ensures ChainOf(Bytes(certificate)) == Ok([Bytes(certificate)])
    ensures CertificateBytes([Bytes(certificate)]) == [certificate]
  {
  }

  /** A COSE_Sign1 with one certificate and neither protected headers nor an algorithm. */
  lemma AuthMeans(c: Codec, unprotected: seq<(Value, Value)>, payload: seq<Byte>, certificate: seq<Byte>, mso: Mso)
    requires Lookup(unprotected, Int(1)) == None && Lookup(unprotected, Int(33)) == Some(Bytes(certificate))
    requires c.certificateLoads(certificate) && MsoIn(c, payload) == Ok(Some(mso))
    requires forall cose :: c.signature(cose, certificate) == Some(Some(true))
    ensures FromCoseSign1(c, List([Bytes([]), Map(unprotected), Bytes(payload), Bytes([])])) ==
            Ok(IssuerAuth(Some(true), Some(mso), [certificate]))
  {
    EmptyHeader(c);
    OneCertificate(certificate);
    var cose := List([Bytes([]), Map(unprotected), Bytes(payload), Bytes([])]);
    assert SignedUnder(c, cose, payload, [certificate]) == Ok(IssuerAuth(Some(true), Some(mso), [certificate]));
  }

  lemma AuthReads()
    ensures IssuerAuthOf(TheCodec(), COSE) == Ok(PARSED.issuerAuth)
  {
    PayloadReads();
    var unprotected := [(Int(33), Bytes([9]))];
    LookupMissing(unprotected, Int(1));
    LookupAt(unprotected, 0, Int(33));
    AuthMeans(TheCodec(), unprotected, [1], [9], MSO);
  }

  lemma TopReads()
    ensures Get(DOCUMENT.entries, "docType") == Text(DOC_TYPE)
    ensures Get(DOCUMENT.entries, "issuerSigned", Map([])) == DOCUMENT.entries[1].1
    ensures Get(DOCUMENT.entries, "deviceSigned") == DOCUMENT.entries[2].1
    ensures Get(DOCUMENT.entries, "errors", Map([])) == Map([])
  {
    var e := DOCUMENT.entries;
    assert |"docType"| == 7 && |"issuerSigned"| == 12 && |"deviceSigned"| == 12 && |"errors"| == 6;
    assert "issuerSigned"[0] != "deviceSigned"[0];
    LookupAt(e, 0, Text("docType"));
    LookupAt(e, 1, Text("issuerSigned"));
    LookupAt(e, 2, Text("deviceSigned"));
    LookupMissing(e, Text("errors"));
  }

  lemma SignedReads()
    ensures var signed := DOCUMENT.entries[1].1.entries;
            && Get(signed, "issuerAuth") == COSE
            && Get(signed, "nameSpaces", Map([])) == Map([(Text(NAMESPACE), List([TAGGED]))])
  {
    var signed := DOCUMENT.entries[1].1.entries;
    assert |"issuerAuth"| == 10 && |"nameSpaces"| == 10 && "issuerAuth"[0] != "nameSpaces"[0];
    LookupAt(signed, 0, Text("issuerAuth"));
    LookupAt(signed, 1, Text("nameSpaces"));
  }

  lemma DeviceReads()
    ensures var device := DOCUMENT.entries[2].1.entries;
            && Get(device, "nameSpaces") == Tag(24, Bytes([4]))
            && Get(device, "deviceAuth") == Null
    ensures Unwrap24(TheCodec(), Tag(24, Bytes([4]))) == Ok(Map([]))
  {
    var device := DOCUMENT.entries[2].1.entries;
    assert |"deviceAuth"| == 10 && |"nameSpaces"| == 10 && "deviceAuth"[0] != "nameSpaces"[0];
    LookupAt(device, 0, Text("nameSpaces"));
    LookupMissing(device, Text("deviceAuth"));
  }

  lemma DocumentReads()
    ensures DocumentFrom(TheCodec(), DOCUMENT, PARSED)
  {
    TopReads();
    SignedReads();
    DeviceReads();
    AuthReads();
    NamespacesRead();
  }

  const ACCEPTED := Response(Text("1.0"), Some(0), [PARSED.(deviceAuthValid := Some(true))], List([]))

  lemma ResponseReads()
    ensures exists parsed ::
              ResponseFrom(TheCodec(), RESPONSE, parsed) && parsed == ACCEPTED.(documents := [PARSED])
  {
    var e := RESPONSE.entries;
    assert |"version"| == 7 && |"documents"| == 9 && |"status"| == 6 && |"documentErrors"| == 14;
    LookupAt(e, 0, Text("version"));
    LookupAt(e, 1, Text("documents"));
    LookupAt(e, 2, Text("status"));
    LookupMissing(e, Text("documentErrors"));
    DocumentReads();
    assert ResponseFrom(TheCodec(), RESPONSE, ACCEPTED.(documents := [PARSED]));
  }

  lemma IsAccepted()
    ensures Acceptable(ACCEPTED, REQUESTS, 5)
  {
    var doc := ACCEPTED.documents[0];
    IsSound(doc);
    IsSatisfied(doc);
    assert REQUESTS[0] in REQUESTS && doc in ACCEPTED.documents;
  }

  lemma IsSound(doc: Document)
    requires doc == PARSED.(deviceAuthValid := Some(true))
    ensures DocumentSound(doc, 5)
  {
    ValidityReads();
  }

  lemma IsSatisfied(doc: Document)
    requires doc.namespaces == PARSED.namespaces
    ensures Satisfies(doc, REQUESTS[0])
  {
    LookupAt(doc.namespaces, 0, NAMESPACE);
    assert doc.namespaces[0].1[0].identifier == CLAIM;
    assert Provides(doc, NAMESPACE, CLAIM);
  }

  /** Every condition of a release holds at once for this mdoc, this request and this codec. */
  lemma ReleaseIsPossible(certificates: IssuerId.Library)
    ensures MayRelease(TheConfig(certificates), [0], ACCEPTED, [])
  {
    ResponseReads();
    IsAccepted();
    assert Authenticated(TheConfig(certificates), ACCEPTED.(documents := [PARSED]), ACCEPTED);
  }
}
