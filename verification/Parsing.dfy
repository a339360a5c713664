/**
 From decoded CBOR to a Response (mdoc.py): every issuer-signed item must be well typed,
 distinct in its namespace and listed in the MSO, or the whole response is refused.
 */
module Parsing {
  import opened Common
  import opened Values
  import opened Validation

  /**
   The CBOR codec and the cryptography.  `loads` decodes exactly one item (None when it
   raises or leaves bytes over); `signature` is None when the check raises, Some(None) when
   the algorithm is unsupported.
   */
  datatype Codec = Codec(
    loads: seq<Byte> -> Option<Value>,
    dumps: Value -> seq<Byte>,
    digest: (string, seq<Byte>) -> seq<Byte>,
    certificateLoads: seq<Byte> -> bool,
    signature: (Value, seq<Byte>) -> Option<Option<bool>>)

  datatype Malformed =
    | BadCbor
    | NotTagged24
    | BadValueDigests
    | BadDeviceKeyInfo
    | BadIssuerAuth
    | NamespacesNotMap
    | NoMso
    | BadNamespace
    | NamespaceNotInMso
    | ItemNotMap
    | BadDigestId
    | DuplicateDigestId
    | BadRandom
    | BadIdentifier
    | DuplicateElement
    | NoElementValue
    | DigestIdNotInMso
    | TypeFault
    | BadDocument
    | BadDeviceSigned
    | BadResponse

  function Unwrap24(c: Codec, v: Value): Result<Value, Malformed> {
    if !(v.Tag? && v.number == 24 && v.content.Bytes?) then Err(NotTagged24)
    else match c.loads(v.content.b)
         case None => Err(BadCbor)
         case Some(inner) => Ok(inner)
  }

  // --------------------------------------------------------------------- the MSO

  predicate IsDigestId(v: Value) { v.Int? && 0 <= v.i < TWO_TO_64 }

  predicate DigestsOk(v: Value) {
    v.Map? && forall d | d in v.entries :: IsDigestId(d.0) && d.1.Bytes?
  }

  /** namespace -> digest id -> digest */
  predicate DigestTableOk(v: Value) {
    v.Map? && forall e | e in v.entries :: e.0.Text? && DigestsOk(e.1)
  }

  /** `mso.get("deviceKeyInfo") or {}` */
  function OrEmpty(v: Value): Value { if Truthy(v) then v else Map([]) }

  function ReadMso(entries: seq<(Value, Value)>): Option<Mso> {
    var table := Get(entries, "valueDigests", Map([]));
    var keyInfo := OrEmpty(Get(entries, "deviceKeyInfo"));
    if !DigestTableOk(table) || !keyInfo.Map? then None
    else Some(Mso(Get(entries, "version"), Get(entries, "digestAlgorithm"), Get(entries, "docType"), table,
                  Get(keyInfo.entries, "deviceKey"), Get(entries, "validityInfo", Map([]))))
  }

  method MsoFromCbor(entries: seq<(Value, Value)>) returns (r: Result<Mso, Malformed>)
    ensures if ReadMso(entries).Some? then r == Ok(ReadMso(entries).value) else r.Err?
    ensures r.Ok? ==> DigestTableOk(r.value.valueDigests)
  {
    var table := Get(entries, "valueDigests", Map([]));
    if !table.Map? {
      return Err(BadValueDigests);
    }
    for i := 0 to |table.entries|
      invariant forall e | e in table.entries[..i] :: e.0.Text? && DigestsOk(e.1)
    {
      var ns, digests := table.entries[i].0, table.entries[i].1;
      if !ns.Text? || !digests.Map? {
        return Err(BadValueDigests);
      }
      for j := 0 to |digests.entries|
        invariant forall d | d in digests.entries[..j] :: IsDigestId(d.0) && d.1.Bytes?
      {
        var id, digest := digests.entries[j].0, digests.entries[j].1;
        if !id.Int? || !(0 <= id.i < TWO_TO_64) || !digest.Bytes? {
          assert !DigestsOk(digests) by { assert digests.entries[j] in digests.entries; }
          return Err(BadValueDigests);
        }
      }
      assert digests.entries[..|digests.entries|] == digests.entries;
    }
    assert table.entries[..|table.entries|] == table.entries;
    var keyInfo := OrEmpty(Get(entries, "deviceKeyInfo"));
    if !keyInfo.Map? {
      return Err(BadDeviceKeyInfo);
    }
    return Ok(Mso(Get(entries, "version"), Get(entries, "digestAlgorithm"), Get(entries, "docType"), table,
                  Get(keyInfo.entries, "deviceKey"), Get(entries, "validityInfo", Map([]))));
  }

  // ------------------------------------------------------------ issuer-signed items

  predicate SupportedDigest(algorithm: Value) {
    algorithm == Text("SHA-256") || algorithm == Text("SHA-384") || algorithm == Text("SHA-512")
  }

  /** None: not attempted, for want of an algorithm this tool supports. */
  function DigestValid(c: Codec, algorithm: Value, tagged: Value, expected: Value): Option<bool> {
    if SupportedDigest(algorithm) then Some(Bytes(c.digest(algorithm.s, c.dumps(tagged))) == expected) else None
  }

  /** Everything one item must satisfy by itself. */
  ghost predicate GoodItem(c: Codec, algorithm: Value, digests: seq<(Value, Value)>, tagged: Value) {
    && Unwrap24(c, tagged).Ok?
    && Unwrap24(c, tagged).value.Map?
    && var item := Unwrap24(c, tagged).value.entries;
       && IsDigestId(Get(item, "digestID"))
       && Get(item, "random").Bytes? && |Get(item, "random").b| >= 16
       && Get(item, "elementIdentifier").Text?
       && Lookup(item, Text("elementValue")).Some?
       && Lookup(digests, Get(item, "digestID")).GetOr(Null) != Null
       && Hashable(algorithm)
  }

  /** The element a good item becomes. */
  function ElementOf(c: Codec, algorithm: Value, digests: seq<(Value, Value)>, tagged: Value): Element
    requires GoodItem(c, algorithm, digests, tagged)
  {
    var item := Unwrap24(c, tagged).value.entries;
    var id := Get(item, "digestID");
    Element(Get(item, "elementIdentifier").s, Lookup(item, Text("elementValue")).value, id.i,
            DigestValid(c, algorithm, tagged, Lookup(digests, id).value))
  }

  ghost predicate DistinctElements(elements: seq<Element>) {
    forall i, j | 0 <= i < j < |elements| ::
      elements[i].digestId != elements[j].digestId && elements[i].identifier != elements[j].identifier
  }

  /** `elements` is what the items of one namespace become, one for one and in order, all distinct. */
  ghost predicate ItemsBecome(c: Codec, algorithm: Value, digests: seq<(Value, Value)>, items: seq<Value>,
                              elements: seq<Element>)
  {
    && |elements| == |items|
    && (forall i | 0 <= i < |items| ::
          GoodItem(c, algorithm, digests, items[i]) && elements[i] == ElementOf(c, algorithm, digests, items[i]))
    && DistinctElements(elements)
  }

  method ParseItem(c: Codec, algorithm: Value, digests: seq<(Value, Value)>, tagged: Value,
                   seenIds: set<int>, seenIdentifiers: set<string>)
      returns (r: Result<Element, Malformed>)
    ensures r.Ok? <==>
            && GoodItem(c, algorithm, digests, tagged)
            && ElementOf(c, algorithm, digests, tagged).digestId !in seenIds
            && ElementOf(c, algorithm, digests, tagged).identifier !in seenIdentifiers
    ensures r.Ok? ==> r.value == ElementOf(c, algorithm, digests, tagged)
  {
    var unwrapped := Unwrap24(c, tagged);
    if unwrapped.Err? {
      return Err(unwrapped.error);
    }
    if !unwrapped.value.Map? {
      return Err(ItemNotMap);
    }
    var item := unwrapped.value.entries;
    var id := Get(item, "digestID");
    if !id.Int? || !(0 <= id.i < TWO_TO_64) {
      return Err(BadDigestId);
    }
    if id.i in seenIds {
      return Err(DuplicateDigestId);
    }
    var random := Get(item, "random");
    if !random.Bytes? || |random.b| < 16 {
      return Err(BadRandom);
    }
    var identifier := Get(item, "elementIdentifier");
    if !identifier.Text? {
      return Err(BadIdentifier);
    }
    if identifier.s in seenIdentifiers {
      return Err(DuplicateElement);
    }
    var value := Lookup(item, Text("elementValue"));
    if value.None? {
      return Err(NoElementValue);
    }
    var expected := Lookup(digests, id);
    if expected.None? || expected.value == Null {
      return Err(DigestIdNotInMso);
    }
    if !Hashable(algorithm) {
      return Err(TypeFault);
    }
    return Ok(Element(identifier.s, value.value, id.i, DigestValid(c, algorithm, tagged, expected.value)));
  }

  /** The two sets of the loop hold exactly what the elements so far use. */
  ghost predicate Seen(elements: seq<Element>, ids: set<int>, identifiers: set<string>) {
    && ids == (set e | e in elements :: e.digestId)
    && identifiers == (set e | e in elements :: e.identifier)
  }

  /** The item is good and repeats neither an id nor an identifier of `elements`. */
  ghost predicate Fits(c: Codec, algorithm: Value, digests: seq<(Value, Value)>, tagged: Value,
                       elements: seq<Element>)
  {
    && GoodItem(c, algorithm, digests, tagged)
    && var next := ElementOf(c, algorithm, digests, tagged);
       forall e | e in elements :: e.digestId != next.digestId && e.identifier != next.identifier
  }

  lemma PrefixBecomes(c: Codec, algorithm: Value, digests: seq<(Value, Value)>, items: seq<Value>,
                      all: seq<Element>, k: nat, elements: seq<Element>)
    requires k < |items|
    requires ItemsBecome(c, algorithm, digests, items, all)
    requires ItemsBecome(c, algorithm, digests, items[..k], elements)
    ensures Fits(c, algorithm, digests, items[k], elements)
  {
    forall i | 0 <= i < k ensures elements[i] == all[i] {
      assert items[..k][i] == items[i];
    }
    assert all[k] == ElementOf(c, algorithm, digests, items[k]);
  }

  lemma DistinctSnoc(elements: seq<Element>, e: Element, ids: set<int>, identifiers: set<string>)
    requires DistinctElements(elements)
    requires forall x | x in elements :: x.digestId in ids && x.identifier in identifiers
    requires e.digestId !in ids && e.identifier !in identifiers
    ensures DistinctElements(elements + [e])
  {
    forall i | 0 <= i < |elements|
      ensures elements[i].digestId != e.digestId && elements[i].identifier != e.identifier
    {
      assert elements[i] in elements;
    }
  }

  lemma OneMoreSeen(elements: seq<Element>, e: Element, ids: set<int>, identifiers: set<string>)
    requires Seen(elements, ids, identifiers)
    ensures Seen(elements + [e], ids + {e.digestId}, identifiers + {e.identifier})
  {
    var more := elements + [e];
    assert forall x :: x in more <==> x in elements || x == e;
    assert (set x | x in more :: x.digestId) == ids + {e.digestId};
    assert (set x | x in more :: x.identifier) == identifiers + {e.identifier};
  }

  lemma OneMoreItem(c: Codec, algorithm: Value, digests: seq<(Value, Value)>, items: seq<Value>, k: nat,
                    elements: seq<Element>, e: Element)
    requires k < |items|
    requires ItemsBecome(c, algorithm, digests, items[..k], elements)
    requires GoodItem(c, algorithm, digests, items[k]) && e == ElementOf(c, algorithm, digests, items[k])
    requires DistinctElements(elements + [e])
    ensures ItemsBecome(c, algorithm, digests, items[..k + 1], elements + [e])
  {
    assert items[..k + 1] == items[..k] + [items[k]];
  }

  method ParseItems(c: Codec, algorithm: Value, digests: seq<(Value, Value)>, items: seq<Value>)
      returns (r: Result<seq<Element>, Malformed>)
    ensures r.Ok? ==> ItemsBecome(c, algorithm, digests, items, r.value)
    ensures r.Err? ==> forall elements :: !ItemsBecome(c, algorithm, digests, items, elements)
  {
    var elements: seq<Element> := [];
    var seenIds: set<int> := {};
    var seenIdentifiers: set<string> := {};
    for k := 0 to |items|
      invariant ItemsBecome(c, algorithm, digests, items[..k], elements)
      invariant Seen(elements, seenIds, seenIdentifiers)
    {
      forall all | ItemsBecome(c, algorithm, digests, items, all)
        ensures Fits(c, algorithm, digests, items[k], elements)
      {
        PrefixBecomes(c, algorithm, digests, items, all, k, elements);
      }
      var element := ParseItem(c, algorithm, digests, items[k], seenIds, seenIdentifiers);
      if element.Err? {
        return Err(element.error);
      }
      DistinctSnoc(elements, element.value, seenIds, seenIdentifiers);
      OneMoreSeen(elements, element.value, seenIds, seenIdentifiers);
      OneMoreItem(c, algorithm, digests, items, k, elements, element.value);
      elements := elements + [element.value];
      seenIds := seenIds + {element.value.digestId};
      seenIdentifiers := seenIdentifiers + {element.value.identifier};
    }
    assert items[..|items|] == items;
    return Ok(elements);
  }

  /** The digests the MSO lists for a namespace. */
  function DigestsFor(mso: Mso, ns: Value): Option<seq<(Value, Value)>> {
    if !mso.valueDigests.Map? then None
    else
      var found := Lookup(mso.valueDigests.entries, ns);
      if found.Some? && found.value.Map? then Some(found.value.entries) else None
  }

  ghost predicate NamespaceBecomes(c: Codec, mso: Mso, entry: (Value, Value), ns: (string, seq<Element>)) {
    && entry.0 == Text(ns.0)
    && entry.1.List?
    && DigestsFor(mso, entry.0).Some?
    && ItemsBecome(c, mso.digestAlgorithm, DigestsFor(mso, entry.0).value, entry.1.items, ns.1)
  }

  /** Every namespace of the issuer-signed map, one for one and in order. */
  ghost predicate NamespacesBecome(c: Codec, mso: Option<Mso>, v: Value, namespaces: seq<(string, seq<Element>)>) {
    && v.Map?
    && mso.Some?
    && |namespaces| == |v.entries|
    && forall i | 0 <= i < |namespaces| :: NamespaceBecomes(c, mso.value, v.entries[i], namespaces[i])
  }

  method ParseNamespace(c: Codec, mso: Mso, entry: (Value, Value))
      returns (r: Result<(string, seq<Element>), Malformed>)
    ensures r.Ok? ==> NamespaceBecomes(c, mso, entry, r.value)
    ensures r.Err? ==> forall ns :: !NamespaceBecomes(c, mso, entry, ns)
  {
    if !entry.0.Text? || !entry.1.List? {
      return Err(BadNamespace);
    }
    var digests := DigestsFor(mso, entry.0);
    if digests.None? {
      return Err(NamespaceNotInMso);
    }
    var elements := ParseItems(c, mso.digestAlgorithm, digests.value, entry.1.items);
    if elements.Err? {
      return Err(elements.error);
    }
    return Ok((entry.0.s, elements.value));
  }

  lemma NamespaceRefuted(c: Codec, mso: Option<Mso>, v: Value, k: nat)
    requires v.Map? && mso.Some? && k < |v.entries|
    requires forall ns :: !NamespaceBecomes(c, mso.value, v.entries[k], ns)
    ensures forall namespaces :: !NamespacesBecome(c, mso, v, namespaces)
  {
    forall namespaces ensures !NamespacesBecome(c, mso, v, namespaces) {
      if k < |namespaces| {
        assert !NamespaceBecomes(c, mso.value, v.entries[k], namespaces[k]);
      }
    }
  }

  method ParseNamespaces(c: Codec, v: Value, mso: Option<Mso>)
      returns (r: Result<seq<(string, seq<Element>)>, Malformed>)
    ensures r.Ok? ==> NamespacesBecome(c, mso, v, r.value)
    ensures r.Err? ==> forall namespaces :: !NamespacesBecome(c, mso, v, namespaces)
  {
    if !v.Map? {
      return Err(NamespacesNotMap);
    }
    if mso.None? {
      return Err(NoMso);
    }
    var namespaces: seq<(string, seq<Element>)> := [];
    for k := 0 to |v.entries|
      invariant |namespaces| == k
      invariant forall i | 0 <= i < k :: NamespaceBecomes(c, mso.value, v.entries[i], namespaces[i])
    {
      var ns := ParseNamespace(c, mso.value, v.entries[k]);
      if ns.Err? {
        NamespaceRefuted(c, mso, v, k);
        return Err(ns.error);
      }
      namespaces := namespaces + [ns.value];
    }
    return Ok(namespaces);
  }

  /** The items fix their elements, so a namespace map has at most one reading. */
  lemma NamespacesUnique(c: Codec, mso: Option<Mso>, v: Value,
                         a: seq<(string, seq<Element>)>, b: seq<(string, seq<Element>)>)
    requires NamespacesBecome(c, mso, v, a) && NamespacesBecome(c, mso, v, b)
    ensures a == b
  {
    forall i | 0 <= i < |a| ensures a[i] == b[i] {
      assert NamespaceBecomes(c, mso.value, v.entries[i], a[i]);
      assert NamespaceBecomes(c, mso.value, v.entries[i], b[i]);
      assert a[i].1 == b[i].1;
    }
  }

  // ------------------------------------------------------------------- IssuerAuth

  /** The certificates of header 33: none, one byte string, or whatever list() makes of it. */
  function ChainOf(x5chain: Value): Result<seq<Value>, Malformed> {
    match x5chain
    case Null => Ok([])
    case Bytes(_) => Ok([x5chain])
    case List(items) => Ok(items)
    case Map(entries) => Ok(seq(|entries|, i requires 0 <= i < |entries| => entries[i].0))
    case Text(s) => if s == "" then Ok([]) else Err(BadIssuerAuth)
    case _ => Err(TypeFault)
  }

  function CertificateBytes(chain: seq<Value>): seq<seq<Byte>>
    requires forall v | v in chain :: v.Bytes?
  {
    if chain == [] then [] else [chain[0].b] + CertificateBytes(chain[1..])
  }

  function HeaderMap(c: Codec, protected: seq<Byte>): Result<Value, Malformed> {
    if protected == [] then Ok(Map([]))
    else match c.loads(protected)
         case None => Err(BadCbor)
         case Some(header) => if header.Map? then Ok(header) else Err(TypeFault)
  }

  function MsoIn(c: Codec, payload: seq<Byte>): Result<Option<Mso>, Malformed> {
    if payload == [] then Ok(None)
    else match c.loads(payload)
         case None => Err(BadCbor)
         case Some(outer) =>
           var inner :- Unwrap24(c, outer);
           if !inner.Map? then Ok(None)
           else if ReadMso(inner.entries).None? then Err(BadValueDigests)
           else Ok(ReadMso(inner.entries))
  }

  function FromCoseSign1(c: Codec, cose: Value): Result<IssuerAuth, Malformed> {
    if !cose.List? || |cose.items| != 4 then Err(BadIssuerAuth)
    else
      var protected, unprotected, payload := cose.items[0], cose.items[1], cose.items[2];
      if !protected.Bytes? || !unprotected.Map? || !payload.Bytes? || !cose.items[3].Bytes? then Err(BadIssuerAuth)
      else
        var header :- HeaderMap(c, protected.b);
        var alg := Lookup(header.entries, Int(1)).GetOr(Lookup(unprotected.entries, Int(1)).GetOr(Null));
        if alg != Null && !alg.Int? then Err(BadIssuerAuth)
        else
          var chain :- ChainOf(Lookup(unprotected.entries, Int(33)).GetOr(Null));
          if exists v | v in chain :: !v.Bytes? then Err(BadIssuerAuth)
          else if exists v | v in chain :: !c.certificateLoads(v.b) then Err(BadIssuerAuth)
          else SignedUnder(c, cose, payload.b, CertificateBytes(chain))
  }

  /** The signature is checked under the first certificate, if there is one; then the payload is read. */
  function SignedUnder(c: Codec, cose: Value, payload: seq<Byte>, certificates: seq<seq<Byte>>)
    : Result<IssuerAuth, Malformed>
  {
    var checked := if certificates == [] then Some(None) else c.signature(cose, certificates[0]);
    if checked.None? then Err(BadIssuerAuth)
    else
      var mso :- MsoIn(c, payload);
      Ok(IssuerAuth(checked.value, mso, certificates))
  }

  /** A falsy issuerAuth entry counts as absent. */
  function IssuerAuthOf(c: Codec, v: Value): Result<Option<IssuerAuth>, Malformed> {
    if !Truthy(v) then Ok(None)
    else
      var auth :- FromCoseSign1(c, v);
      Ok(Some(auth))
  }

  // --------------------------------------------------------- documents and response

  /** `next(iter(d), None)` */
  function FirstKey(entries: seq<(Value, Value)>): Option<Value> {
    if entries == [] then None else Some(entries[0].0)
  }

  /** `doc` is what the raw document `raw` parses to. */
  ghost predicate DocumentFrom(c: Codec, raw: Value, doc: Document) {
    && raw.Map?
    && Get(raw.entries, "docType") == Text(doc.docType)
    && var signed := Get(raw.entries, "issuerSigned", Map([]));
       var device := OrEmpty(Get(raw.entries, "deviceSigned"));
       && signed.Map? && device.Map?
       && IssuerAuthOf(c, Get(signed.entries, "issuerAuth")) == Ok(doc.issuerAuth)
       && NamespacesBecome(c, MsoOf(doc), Get(signed.entries, "nameSpaces", Map([])), doc.namespaces)
       && Unwrap24(c, Get(device.entries, "nameSpaces")) == Ok(doc.deviceNamespaces)
       && doc.deviceNamespacesRaw == c.dumps(Get(device.entries, "nameSpaces"))
       && doc.deviceAuth == OrEmpty(Get(device.entries, "deviceAuth")) && doc.deviceAuth.Map?
       && doc.deviceAuthType == FirstKey(doc.deviceAuth.entries)
       && doc.errors == Get(raw.entries, "errors", Map([]))
       && doc.deviceAuthValid == None
  }

  method ParseDocument(c: Codec, raw: Value) returns (r: Result<Document, Malformed>)
    ensures r.Ok? ==> DocumentFrom(c, raw, r.value)
    ensures r.Err? ==> forall doc :: !DocumentFrom(c, raw, doc)
  {
    if !raw.Map? {
      return Err(BadDocument);
    }
    var docType := Get(raw.entries, "docType");
    var signed := Get(raw.entries, "issuerSigned", Map([]));
    if !docType.Text? || !signed.Map? {
      return Err(BadDocument);
    }
    var auth := IssuerAuthOf(c, Get(signed.entries, "issuerAuth"));
    if auth.Err? {
      return Err(auth.error);
    }
    var mso := if auth.value.Some? then auth.value.value.mso else None;
    var namespaces := ParseNamespaces(c, Get(signed.entries, "nameSpaces", Map([])), mso);
    if namespaces.Err? {
      return Err(namespaces.error);
    }
    var device := OrEmpty(Get(raw.entries, "deviceSigned"));
    if !device.Map? {
      return Err(BadDeviceSigned);
    }
    var deviceNamespaces := Unwrap24(c, Get(device.entries, "nameSpaces"));
    if deviceNamespaces.Err? {
      return Err(deviceNamespaces.error);
    }
    var deviceAuth := OrEmpty(Get(device.entries, "deviceAuth"));
    if !deviceAuth.Map? {
      return Err(BadDeviceSigned);
    }
    return Ok(Document(docType.s, namespaces.value, auth.value, deviceNamespaces.value,
                       c.dumps(Get(device.entries, "nameSpaces")), FirstKey(deviceAuth.entries), deviceAuth,
                       Get(raw.entries, "errors", Map([])), None));
  }

  /** The issuer-signed namespaces of a raw document, as sent. */
  function RawNamespaces(raw: Value): seq<(Value, Value)> {
    if !raw.Map? then []
    else
      var signed := Get(raw.entries, "issuerSigned", Map([]));
      if !signed.Map? then []
      else
        var namespaces := Get(signed.entries, "nameSpaces", Map([]));
        if namespaces.Map? then namespaces.entries else []
  }

  /** The issuer-signed items in namespace number k of a raw document, as sent. */
  function RawItems(raw: Value, k: nat): seq<Value> {
    if k < |RawNamespaces(raw)| && RawNamespaces(raw)[k].1.List? then RawNamespaces(raw)[k].1.items else []
  }

  /** The MSO's digest table for namespace number k of a document. */
  function TableFor(d: Document, k: nat): seq<(Value, Value)>
    requires k < |d.namespaces|
  {
    if MsoOf(d).None? then [] else DigestsFor(MsoOf(d).value, Text(d.namespaces[k].0)).GetOr([])
  }

  lemma NamespaceSource(c: Codec, raw: Value, d: Document, k: nat)
    requires DocumentFrom(c, raw, d) && k < |d.namespaces|
    ensures |d.namespaces| == |RawNamespaces(raw)|
    ensures MsoOf(d).Some? && DigestsFor(MsoOf(d).value, Text(d.namespaces[k].0)) == Some(TableFor(d, k))
    ensures ItemsBecome(c, MsoOf(d).value.digestAlgorithm, TableFor(d, k), RawItems(raw, k), d.namespaces[k].1)
  {
    var signed := Get(raw.entries, "issuerSigned", Map([]));
    var v := Get(signed.entries, "nameSpaces", Map([]));
    assert NamespaceBecomes(c, MsoOf(d).value, v.entries[k], d.namespaces[k]);
  }

  /**
   The items of a parsed document map injectively into the MSO's table: `at` sends element i,
   which is what raw item i spells, to the table entry keyed by its digest id, and no entry is
   hit twice.  No item is dropped and none is invented.
   */
  lemma ItemsMapInjectively(c: Codec, raw: Value, d: Document, k: nat) returns (at: seq<nat>)
    requires DocumentFrom(c, raw, d) && k < |d.namespaces|
    ensures var elements, items, table := d.namespaces[k].1, RawItems(raw, k), TableFor(d, k);
            && |at| == |elements| == |items|
            && (forall i | 0 <= i < |at| ::
                  && at[i] < |table|
                  && table[at[i]].0 == Int(elements[i].digestId)
                  && Spells(c, items[i], elements[i]))
            && (forall i, j | 0 <= i < j < |at| :: at[i] != at[j])
  {
    NamespaceSource(c, raw, d, k);
    at := TableIndices(c, MsoOf(d).value.digestAlgorithm, TableFor(d, k), RawItems(raw, k), d.namespaces[k].1);
  }

  /** The item carries the element's digest id, identifier and value. */
  ghost predicate Spells(c: Codec, tagged: Value, e: Element) {
    && Unwrap24(c, tagged).Ok? && Unwrap24(c, tagged).value.Map?
    && Get(Unwrap24(c, tagged).value.entries, "digestID") == Int(e.digestId)
    && Get(Unwrap24(c, tagged).value.entries, "elementIdentifier") == Text(e.identifier)
    && Lookup(Unwrap24(c, tagged).value.entries, Text("elementValue")) == Some(e.value)
  }

  lemma ItemSpells(c: Codec, algorithm: Value, table: seq<(Value, Value)>, tagged: Value) returns (at: nat)
    requires GoodItem(c, algorithm, table, tagged)
    ensures Spells(c, tagged, ElementOf(c, algorithm, table, tagged))
    ensures at < |table| && table[at].0 == Int(ElementOf(c, algorithm, table, tagged).digestId)
  {
    var id := Get(Unwrap24(c, tagged).value.entries, "digestID");
    LookupIndex(table, id);
    at :| 0 <= at < |table| && table[at] == (id, Lookup(table, id).value);
  }

  lemma TableIndices(c: Codec, algorithm: Value, table: seq<(Value, Value)>, items: seq<Value>, elements: seq<Element>)
      returns (at: seq<nat>)
    requires ItemsBecome(c, algorithm, table, items, elements)
    ensures |at| == |elements|
    ensures forall i | 0 <= i < |at| ::
              at[i] < |table| && table[at[i]].0 == Int(elements[i].digestId) && Spells(c, items[i], elements[i])
    ensures forall i, j | 0 <= i < j < |at| :: at[i] != at[j]
  {
    at := [];
    for n := 0 to |items|
      invariant |at| == n
      invariant forall i | 0 <= i < n ::
                  at[i] < |table| && table[at[i]].0 == Int(elements[i].digestId) && Spells(c, items[i], elements[i])
    {
      var k := ItemSpells(c, algorithm, table, items[n]);
      at := at + [k];
    }
    forall i, j | 0 <= i < j < |at| ensures at[i] != at[j] {
      assert elements[i].digestId != elements[j].digestId;
    }
  }

  /** `response` is what the decoded DeviceResponse `raw` parses to. */
  ghost predicate ResponseFrom(c: Codec, raw: Value, response: Response) {
    && raw.Map?
    && var documents := Get(raw.entries, "documents", List([]));
       var status := Get(raw.entries, "status");
       && documents.List?
       && |response.documents| == |documents.items|
       && (forall i | 0 <= i < |documents.items| :: DocumentFrom(c, documents.items[i], response.documents[i]))
       && response.version == Get(raw.entries, "version")
       && response.status == (if status.Int? then Some(status.i) else None)
       && response.documentErrors == Get(raw.entries, "documentErrors", List([]))
  }

  lemma DocumentRefuted(c: Codec, raw: Value, k: nat)
    requires raw.Map? && Get(raw.entries, "documents", List([])).List?
    requires k < |Get(raw.entries, "documents", List([])).items|
    requires forall doc :: !DocumentFrom(c, Get(raw.entries, "documents", List([])).items[k], doc)
    ensures forall response :: !ResponseFrom(c, raw, response)
  {
    var items := Get(raw.entries, "documents", List([])).items;
    forall response ensures !ResponseFrom(c, raw, response) {
      if k < |response.documents| {
        assert !DocumentFrom(c, items[k], response.documents[k]);
      }
    }
  }

  method ParseDeviceResponse(c: Codec, plaintext: seq<Byte>) returns (r: Result<Response, Malformed>)
    ensures r.Ok? ==> c.loads(plaintext).Some? && ResponseFrom(c, c.loads(plaintext).value, r.value)
    ensures r.Err? ==>
              c.loads(plaintext).None? || forall response :: !ResponseFrom(c, c.loads(plaintext).value, response)
  {
    var loaded := c.loads(plaintext);
    if loaded.None? {
      return Err(BadCbor);
    }
    var raw := loaded.value;
    if !raw.Map? {
      return Err(BadResponse);
    }
    var items := Get(raw.entries, "documents", List([]));
    if !items.List? {
      return Err(BadResponse);
    }
    var documents: seq<Document> := [];
    for k := 0 to |items.items|
      invariant |documents| == k
      invariant forall i | 0 <= i < k :: DocumentFrom(c, items.items[i], documents[i])
    {
      var doc := ParseDocument(c, items.items[k]);
      if doc.Err? {
        DocumentRefuted(c, raw, k);
        return Err(doc.error);
      }
      documents := documents + [doc.value];
    }
    var status := Get(raw.entries, "status");
    return Ok(Response(Get(raw.entries, "version"), if status.Int? then Some(status.i) else None, documents,
                       Get(raw.entries, "documentErrors", List([]))));
  }
}
