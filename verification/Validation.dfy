/**
 The disclosure decision of mdoc.py: `validate_device_response` collects failure codes in
 nested loops.  Here every code has a meaning of its own, the collected list holds a code
 exactly when that meaning applies, and the list is empty exactly when one declarative
 acceptance predicate holds.
 */
module Validation {
  import opened Common
  import opened Values

  datatype Mso = Mso(
    version: Value,
    digestAlgorithm: Value,
    docType: Value,
    valueDigests: Value,
    deviceKey: Value,
    validityInfo: Value)

  datatype IssuerAuth = IssuerAuth(signatureValid: Option<bool>, mso: Option<Mso>, x5chain: seq<seq<Byte>>)

  datatype Element = Element(identifier: string, value: Value, digestId: int, digestValid: Option<bool>)

  datatype Document = Document(
    docType: string,
    namespaces: seq<(string, seq<Element>)>,
    issuerAuth: Option<IssuerAuth>,
    deviceNamespaces: Value,
    deviceNamespacesRaw: seq<Byte>,
    deviceAuthType: Option<Value>,
    deviceAuth: Value,
    errors: Value,
    deviceAuthValid: Option<bool>)

  datatype Response = Response(
    version: Value,
    status: Option<int>,
    documents: seq<Document>,
    documentErrors: Value)

  datatype DocRequest = DocRequest(docType: string, namespaces: seq<(string, seq<string>)>)

  // ------------------------------------------------------------ pure predicates

  predicate ValidErrorCode(code: Value) { code.Int? && -TWO_TO_64 <= code.i < TWO_TO_64 }

  predicate ValidErrorMap(errors: Value) {
    errors.Map? && forall e | e in errors.entries :: e.0.Text? && ValidErrorCode(e.1)
  }

  predicate ValidDocumentErrors(errors: Value) {
    errors.List? && forall item | item in errors.items :: ValidErrorMap(item)
  }

  predicate ValidElementErrors(errors: Value) {
    errors.Map? && forall e | e in errors.entries :: e.0.Text? && ValidErrorMap(e.1)
  }

  /** An aware datetime under `name`, if there is one. */
  function AwareDate(info: Value, name: string): Option<int>
    requires info.Map?
  {
    var v := Get(info.entries, name);
    if v.Date? && v.at.aware then Some(v.at.micros) else None
  }

  predicate ValidityReadable(info: Value) {
    && info.Map?
    && AwareDate(info, "signed").Some?
    && AwareDate(info, "validFrom").Some?
    && AwareDate(info, "validUntil").Some?
  }

  // ----------------------------------------------------------- what a code means

  datatype Fault =
    | DocTypeNotRequested
    | IssuerAuthMissing
    | IssuerSignatureNotValid
    | MsoMissing
    | MsoVersion
    | DocTypeMismatch
    | ValidityInfo
    | SignedInFuture
    | NotYetValid
    | Expired
    | ElementDigestNotValid(ns: string, identifier: string)
    | DeviceAuthNotValid
    | DeviceNamespacesUnsupported
    | InvalidErrors
    | RequestedNamespaceMissing(ns: string)
    | RequestedElementMissing(ns: string, identifier: string)

  datatype Failure =
    | UnsupportedVersion
    | ResponseStatusNotOk
    | DocumentCount
    | InvalidDocumentErrors
    | RequestedDocTypeMissing(docType: string)
    | InDocument(index: nat, fault: Fault)

  function MsoOf(doc: Document): Option<Mso> {
    if doc.issuerAuth.Some? then doc.issuerAuth.value.mso else None
  }

  predicate DateAfter(doc: Document, name: string, now: int) {
    && MsoOf(doc).Some?
    && ValidityReadable(MsoOf(doc).value.validityInfo)
    && now < AwareDate(MsoOf(doc).value.validityInfo, name).GetOr(0)
  }

  predicate Discloses(elements: seq<Element>, identifier: string) {
    exists i | 0 <= i < |elements| :: elements[i].identifier == identifier
  }

  /** Some request for this document's type names `ns`. */
  ghost predicate Asks(requests: seq<DocRequest>, docType: string, ns: string, claims: seq<string>) {
    exists r | r in requests :: r.docType == docType && (ns, claims) in r.namespaces
  }

  ghost predicate HasFault(doc: Document, requests: seq<DocRequest>, now: int, f: Fault) {
    match f
    case DocTypeNotRequested => forall r | r in requests :: r.docType != doc.docType
    case IssuerAuthMissing => doc.issuerAuth.None?
    case IssuerSignatureNotValid => doc.issuerAuth.Some? && doc.issuerAuth.value.signatureValid != Some(true)
    case MsoMissing => MsoOf(doc).None?
    case MsoVersion => MsoOf(doc).Some? && MsoOf(doc).value.version != Text("1.0")
    case DocTypeMismatch => MsoOf(doc).Some? && MsoOf(doc).value.docType != Text(doc.docType)
    case ValidityInfo => MsoOf(doc).Some? && !ValidityReadable(MsoOf(doc).value.validityInfo)
    case SignedInFuture => DateAfter(doc, "signed", now)
    case NotYetValid => DateAfter(doc, "validFrom", now)
    case Expired =>
      && MsoOf(doc).Some?
      && ValidityReadable(MsoOf(doc).value.validityInfo)
      && !DateAfter(doc, "validUntil", now)
    case ElementDigestNotValid(ns, identifier) =>
      exists n, e | n in doc.namespaces && e in n.1 ::
        n.0 == ns && e.identifier == identifier && e.digestValid != Some(true)
    case DeviceAuthNotValid => doc.deviceAuthValid != Some(true)
    case DeviceNamespacesUnsupported => doc.deviceNamespaces != Map([])
    case InvalidErrors => !ValidElementErrors(doc.errors)
    case RequestedNamespaceMissing(ns) =>
      Lookup(doc.namespaces, ns).None? && exists claims :: Asks(requests, doc.docType, ns, claims)
    case RequestedElementMissing(ns, identifier) =>
      && Lookup(doc.namespaces, ns).Some?
      && !Discloses(Lookup(doc.namespaces, ns).value, identifier)
      && exists claims :: Asks(requests, doc.docType, ns, claims) && identifier in claims
  }

  ghost predicate Occurs(response: Response, requests: seq<DocRequest>, now: int, f: Failure) {
    match f
    case UnsupportedVersion => response.version != Text("1.0")
    case ResponseStatusNotOk => response.status != Some(0)
    case DocumentCount => response.documents == []
    case InvalidDocumentErrors => !ValidDocumentErrors(response.documentErrors)
    case RequestedDocTypeMissing(docType) =>
      && (exists r | r in requests :: r.docType == docType)
      && (forall d | d in response.documents :: d.docType != docType)
    case InDocument(index, fault) =>
      index < |response.documents| && HasFault(response.documents[index], requests, now, fault)
  }

  // ------------------------------------------------------ the acceptance predicate

  ghost predicate MsoAcceptable(mso: Mso, docType: string, now: int) {
    && mso.version == Text("1.0")
    && mso.docType == Text(docType)
    && ValidityReadable(mso.validityInfo)
    && AwareDate(mso.validityInfo, "signed").value <= now
    && AwareDate(mso.validityInfo, "validFrom").value <= now < AwareDate(mso.validityInfo, "validUntil").value
  }

  /** Everything about a document that does not depend on what was requested. */
  ghost predicate DocumentSound(doc: Document, now: int) {
    && doc.issuerAuth.Some?
    && doc.issuerAuth.value.signatureValid == Some(true)
    && doc.issuerAuth.value.mso.Some?
    && MsoAcceptable(doc.issuerAuth.value.mso.value, doc.docType, now)
    && (forall n, e | n in doc.namespaces && e in n.1 :: e.digestValid == Some(true))
    && doc.deviceAuthValid == Some(true)
    && doc.deviceNamespaces == Map([])
    && ValidElementErrors(doc.errors)
  }

  /** The document discloses `identifier` in namespace `ns`. */
  predicate Provides(doc: Document, ns: string, identifier: string) {
    Lookup(doc.namespaces, ns).Some? && Discloses(Lookup(doc.namespaces, ns).value, identifier)
  }

  ghost predicate Satisfies(doc: Document, request: DocRequest) {
    forall n | n in request.namespaces ::
      && Lookup(doc.namespaces, n.0).Some?
      && forall c | c in n.1 :: Provides(doc, n.0, c)
  }

  ghost predicate DocumentAcceptable(doc: Document, requests: seq<DocRequest>, now: int) {
    && DocumentSound(doc, now)
    && (exists r | r in requests :: r.docType == doc.docType)
    && (forall r | r in requests && r.docType == doc.docType :: Satisfies(doc, r))
  }

  ghost predicate EnvelopeSound(response: Response) {
    && response.version == Text("1.0")
    && response.status == Some(0)
    && response.documents != []
    && ValidDocumentErrors(response.documentErrors)
  }

  ghost predicate Acceptable(response: Response, requests: seq<DocRequest>, now: int) {
    && EnvelopeSound(response)
    && (forall r | r in requests :: exists d | d in response.documents :: d.docType == r.docType)
    && (forall d | d in response.documents :: DocumentAcceptable(d, requests, now))
  }

  // ------------------------------------------------- the report, code by code

  predicate IsRequestFault(f: Fault) { f.RequestedNamespaceMissing? || f.RequestedElementMissing? }

  /** The code, if its meaning applies to the document. */
  ghost function When(doc: Document, requests: seq<DocRequest>, now: int, f: Fault): seq<Fault> {
    if HasFault(doc, requests, now, f) then [f] else []
  }

  ghost function ValidityReport(doc: Document, requests: seq<DocRequest>, now: int): seq<Fault> {
    When(doc, requests, now, ValidityInfo) + When(doc, requests, now, SignedInFuture) +
    When(doc, requests, now, NotYetValid) + When(doc, requests, now, Expired)
  }

  ghost function MsoReport(doc: Document, requests: seq<DocRequest>, now: int): seq<Fault> {
    When(doc, requests, now, MsoMissing) + When(doc, requests, now, MsoVersion) +
    When(doc, requests, now, DocTypeMismatch) + ValidityReport(doc, requests, now)
  }

  ghost function IssuerReport(doc: Document, requests: seq<DocRequest>, now: int): seq<Fault> {
    When(doc, requests, now, IssuerAuthMissing) + When(doc, requests, now, IssuerSignatureNotValid) +
    MsoReport(doc, requests, now)
  }

  ghost function DeviceReport(doc: Document, requests: seq<DocRequest>, now: int): seq<Fault> {
    When(doc, requests, now, DeviceAuthNotValid) + When(doc, requests, now, DeviceNamespacesUnsupported) +
    When(doc, requests, now, InvalidErrors)
  }

  /** One code per element whose digest is not valid, in order and with repetition. */
  ghost function ElementReport(ns: string, elements: seq<Element>): seq<Fault> {
    if elements == [] then []
    else
      var last := elements[|elements| - 1];
      ElementReport(ns, elements[..|elements| - 1]) +
      if last.digestValid != Some(true) then [ElementDigestNotValid(ns, last.identifier)] else []
  }

  ghost function DigestReport(namespaces: seq<(string, seq<Element>)>): seq<Fault> {
    if namespaces == [] then []
    else
      var last := namespaces[|namespaces| - 1];
      DigestReport(namespaces[..|namespaces| - 1]) + ElementReport(last.0, last.1)
  }

  /** One code per claim that is not disclosed, in order and with repetition. */
  ghost function ClaimReport(elements: seq<Element>, ns: string, claims: seq<string>): seq<Fault> {
    if claims == [] then []
    else
      var last := claims[|claims| - 1];
      ClaimReport(elements, ns, claims[..|claims| - 1]) +
      if Discloses(elements, last) then [] else [RequestedElementMissing(ns, last)]
  }

  ghost function NamespaceReport(doc: Document, ns: string, claims: seq<string>): seq<Fault> {
    match Lookup(doc.namespaces, ns)
    case None => [RequestedNamespaceMissing(ns)]
    case Some(elements) => ClaimReport(elements, ns, claims)
  }

  ghost function RequestReport(doc: Document, namespaces: seq<(string, seq<string>)>): seq<Fault> {
    if namespaces == [] then []
    else
      var last := namespaces[|namespaces| - 1];
      RequestReport(doc, namespaces[..|namespaces| - 1]) + NamespaceReport(doc, last.0, last.1)
  }

  ghost function MissingReport(doc: Document, requests: seq<DocRequest>): seq<Fault> {
    if requests == [] then []
    else
      var last := requests[|requests| - 1];
      MissingReport(doc, requests[..|requests| - 1]) +
      if last.docType == doc.docType then RequestReport(doc, last.namespaces) else []
  }

  ghost function DocumentReport(doc: Document, requests: seq<DocRequest>, now: int): seq<Fault> {
    When(doc, requests, now, DocTypeNotRequested) + IssuerReport(doc, requests, now) +
    DigestReport(doc.namespaces) + DeviceReport(doc, requests, now) + MissingReport(doc, requests)
  }

  /** The codes of one document, marked with its index. */
  function Located(index: nat, faults: seq<Fault>): (failures: seq<Failure>)
    ensures |failures| == |faults|
  {
    seq(|faults|, i requires 0 <= i < |faults| => InDocument(index, faults[i]))
  }

  /** The reports of all documents, each located at its document. */
  ghost function LocatedAll(reports: seq<seq<Fault>>): seq<Failure> {
    if reports == [] then []
    else LocatedAll(reports[..|reports| - 1]) + Located(|reports| - 1, reports[|reports| - 1])
  }

  ghost function Reports(docs: seq<Document>, requests: seq<DocRequest>, now: int): seq<seq<Fault>> {
    seq(|docs|, i requires 0 <= i < |docs| => DocumentReport(docs[i], requests, now))
  }

  ghost function DocumentsReport(docs: seq<Document>, requests: seq<DocRequest>, now: int): seq<Failure> {
    LocatedAll(Reports(docs, requests, now))
  }

  /** One code per request whose document type is not returned. */
  ghost function TypesReport(docs: seq<Document>, requests: seq<DocRequest>): seq<Failure> {
    if requests == [] then []
    else
      var last := requests[|requests| - 1].docType;
      TypesReport(docs, requests[..|requests| - 1]) +
      if exists d | d in docs :: d.docType == last then [] else [RequestedDocTypeMissing(last)]
  }

  ghost function Whenever(response: Response, f: Failure): seq<Failure> {
    if Occurs(response, [], 0, f) then [f] else []
  }

  ghost function EnvelopeReport(response: Response): seq<Failure> {
    Whenever(response, UnsupportedVersion) + Whenever(response, ResponseStatusNotOk) +
    Whenever(response, DocumentCount) + Whenever(response, InvalidDocumentErrors)
  }

  /** The whole list of codes, in the order they are reported. */
  ghost function FailureReport(response: Response, requests: seq<DocRequest>, now: int): seq<Failure> {
    EnvelopeReport(response) +
    TypesReport(response.documents, requests) + DocumentsReport(response.documents, requests, now)
  }

  // -------------------------------------------------------------- the validator

  method ValidityFaults(doc: Document, ghost requests: seq<DocRequest>, now: int) returns (faults: seq<Fault>)
    requires MsoOf(doc).Some?
    ensures faults == ValidityReport(doc, requests, now)
  {
    var info := MsoOf(doc).value.validityInfo;
    if !info.Map? {
      return [ValidityInfo];
    }
    var signed := AwareDate(info, "signed");
    var validFrom := AwareDate(info, "validFrom");
    var validUntil := AwareDate(info, "validUntil");
    if signed.None? || validFrom.None? || validUntil.None? {
      return [ValidityInfo];
    }
    faults := [];
    if now < signed.value {
      faults := faults + [SignedInFuture];
    }
    if now < validFrom.value {
      faults := faults + [NotYetValid];
    }
    if now >= validUntil.value {
      faults := faults + [Expired];
    }
  }

  method MsoFaults(doc: Document, ghost requests: seq<DocRequest>, now: int) returns (faults: seq<Fault>)
    ensures faults == MsoReport(doc, requests, now)
  {
    var mso := MsoOf(doc);
    if mso.None? {
      return [MsoMissing];
    }
    faults := [];
    if mso.value.version != Text("1.0") {
      faults := faults + [MsoVersion];
    }
    if mso.value.docType != Text(doc.docType) {
      faults := faults + [DocTypeMismatch];
    }
    assert faults == When(doc, requests, now, MsoMissing) + When(doc, requests, now, MsoVersion)
                     + When(doc, requests, now, DocTypeMismatch);
    var validity := ValidityFaults(doc, requests, now);
    faults := faults + validity;
  }

  method IssuerFaults(doc: Document, ghost requests: seq<DocRequest>, now: int) returns (faults: seq<Fault>)
    ensures faults == IssuerReport(doc, requests, now)
  {
    faults := [];
    if doc.issuerAuth.None? {
      faults := faults + [IssuerAuthMissing];
    } else if doc.issuerAuth.value.signatureValid != Some(true) {
      faults := faults + [IssuerSignatureNotValid];
    }
    assert faults == When(doc, requests, now, IssuerAuthMissing) + When(doc, requests, now, IssuerSignatureNotValid);
    var mso := MsoFaults(doc, requests, now);
    faults := faults + mso;
  }

  method ElementDigestFaults(ns: string, elements: seq<Element>) returns (faults: seq<Fault>)
    ensures faults == ElementReport(ns, elements)
  {
    faults := [];
    for k := 0 to |elements|
      invariant faults == ElementReport(ns, elements[..k])
    {
      assert elements[..k + 1][..k] == elements[..k];
      if elements[k].digestValid != Some(true) {
        faults := faults + [ElementDigestNotValid(ns, elements[k].identifier)];
      }
    }
    assert elements[..|elements|] == elements;
  }

  method DigestFaults(namespaces: seq<(string, seq<Element>)>) returns (faults: seq<Fault>)
    ensures faults == DigestReport(namespaces)
  {
    faults := [];
    for k := 0 to |namespaces|
      invariant faults == DigestReport(namespaces[..k])
    {
      assert namespaces[..k + 1][..k] == namespaces[..k];
      var more := ElementDigestFaults(namespaces[k].0, namespaces[k].1);
      faults := faults + more;
    }
    assert namespaces[..|namespaces|] == namespaces;
  }

  method NamespaceFaults(doc: Document, ns: string, claims: seq<string>) returns (faults: seq<Fault>)
    ensures faults == NamespaceReport(doc, ns, claims)
  {
    var disclosed := Lookup(doc.namespaces, ns);
    if disclosed.None? {
      return [RequestedNamespaceMissing(ns)];
    }
    faults := [];
    for k := 0 to |claims|
      invariant faults == ClaimReport(disclosed.value, ns, claims[..k])
    {
      assert claims[..k + 1][..k] == claims[..k];
      if !Discloses(disclosed.value, claims[k]) {
        faults := faults + [RequestedElementMissing(ns, claims[k])];
      }
    }
    assert claims[..|claims|] == claims;
  }

  method RequestFaults(doc: Document, request: DocRequest) returns (faults: seq<Fault>)
    ensures faults == RequestReport(doc, request.namespaces)
  {
    var ns := request.namespaces;
    faults := [];
    for k := 0 to |ns|
      invariant faults == RequestReport(doc, ns[..k])
    {
      assert ns[..k + 1][..k] == ns[..k];
      var more := NamespaceFaults(doc, ns[k].0, ns[k].1);
      faults := faults + more;
    }
    assert ns[..|ns|] == ns;
  }

  /** The requests for the document's own type, and what they miss. */
  method AllRequestFaults(doc: Document, requests: seq<DocRequest>) returns (faults: seq<Fault>, matched: bool)
    ensures faults == MissingReport(doc, requests)
    ensures matched <==> exists r | r in requests :: r.docType == doc.docType
  {
    faults, matched := [], false;
    for k := 0 to |requests|
      invariant faults == MissingReport(doc, requests[..k])
      invariant matched <==> exists r | r in requests[..k] :: r.docType == doc.docType
    {
      assert requests[..k + 1] == requests[..k] + [requests[k]];
      assert requests[..k + 1][..k] == requests[..k];
      if requests[k].docType == doc.docType {
        var more := RequestFaults(doc, requests[k]);
        faults, matched := faults + more, true;
      }
    }
    assert requests[..|requests|] == requests;
  }

  method DeviceFaults(doc: Document, ghost requests: seq<DocRequest>, ghost now: int) returns (faults: seq<Fault>)
    ensures faults == DeviceReport(doc, requests, now)
  {
    faults := [];
    if doc.deviceAuthValid != Some(true) {
      faults := faults + [DeviceAuthNotValid];
    }
    if !doc.deviceNamespaces.Map? || doc.deviceNamespaces.entries != [] {
      faults := faults + [DeviceNamespacesUnsupported];
    }
    if !ValidElementErrors(doc.errors) {
      faults := faults + [InvalidErrors];
    }
  }

  method DocumentFaults(doc: Document, requests: seq<DocRequest>, now: int) returns (faults: seq<Fault>)
    ensures faults == DocumentReport(doc, requests, now)
    ensures forall f :: f in faults <==> HasFault(doc, requests, now, f)
  {
    var missing, matched := AllRequestFaults(doc, requests);
    faults := if matched then [] else [DocTypeNotRequested];
    var issuer := IssuerFaults(doc, requests, now);
    var digests := DigestFaults(doc.namespaces);
    var device := DeviceFaults(doc, requests, now);
    faults := faults + issuer + digests + device + missing;
    forall f ensures f in DocumentReport(doc, requests, now) <==> HasFault(doc, requests, now, f) {
      ReportMeans(doc, requests, now, f);
    }
  }

  datatype ValidationError = NaiveNow

  /**
   The validator.  `now` is the caller's time, if any, and `clock` the current time used
   otherwise; a time without UTC offset is refused.
   */
  method ValidateDeviceResponse(response: Response, requests: seq<DocRequest>, now: Option<Instant>, clock: int)
      returns (r: Result<seq<Failure>, ValidationError>)
    ensures r.Err? <==> now.Some? && !now.value.aware
    ensures r.Ok? ==>
              var time := if now.Some? then now.value.micros else clock;
              && r.value == FailureReport(response, requests, time)
              && (forall f :: f in r.value <==> Occurs(response, requests, time, f))
              && (r.value == [] <==> Acceptable(response, requests, time))
  {
    var envelope := EnvelopeFailures(response);
    var types := TypeFailures(response.documents, requests);
    if now.Some? && !now.value.aware {
      return Err(NaiveNow);
    }
    var time := if now.Some? then now.value.micros else clock;
    var located := DocumentFailures(response.documents, requests, time);
    EmptyReport(response, requests, time);
    return Ok(envelope + types + located);
  }

  lemma EmptyReport(response: Response, requests: seq<DocRequest>, now: int)
    ensures forall f :: f in FailureReport(response, requests, now) <==> Occurs(response, requests, now, f)
    ensures FailureReport(response, requests, now) == [] <==> Acceptable(response, requests, now)
  {
    FailureReportMeans(response, requests, now);
    AcceptedExactly(response, requests, now);
    var report := FailureReport(response, requests, now);
    assert report != [] ==> report[0] in report;
  }

  method DocumentFailures(docs: seq<Document>, requests: seq<DocRequest>, now: int) returns (failures: seq<Failure>)
    ensures failures == DocumentsReport(docs, requests, now)
  {
    failures := [];
    ghost var reports := Reports(docs, requests, now);
    for k := 0 to |docs|
      invariant failures == LocatedAll(reports[..k])
    {
      var faults := DocumentFaults(docs[k], requests, now);
      OneMoreLocated(reports, k);
      failures := failures + Located(k, faults);
    }
    assert reports[..|docs|] == reports;
  }

  lemma OneMoreLocated(reports: seq<seq<Fault>>, k: nat)
    requires k < |reports|
    ensures LocatedAll(reports[..k + 1]) == LocatedAll(reports[..k]) + Located(k, reports[k])
  {
    assert reports[..k + 1][..k] == reports[..k];
  }

  method EnvelopeFailures(response: Response) returns (failures: seq<Failure>)
    ensures failures == EnvelopeReport(response)
  {
    failures := [];
    if response.version != Text("1.0") {
      failures := failures + [UnsupportedVersion];
    }
    assert failures == Whenever(response, UnsupportedVersion);
    if response.status != Some(0) {
      failures := failures + [ResponseStatusNotOk];
    }
    assert failures == Whenever(response, UnsupportedVersion) + Whenever(response, ResponseStatusNotOk);
    if response.documents == [] {
      failures := failures + [DocumentCount];
    }
    if !ValidDocumentErrors(response.documentErrors) {
      failures := failures + [InvalidDocumentErrors];
    }
  }

  method TypeFailures(docs: seq<Document>, requests: seq<DocRequest>) returns (failures: seq<Failure>)
    ensures failures == TypesReport(docs, requests)
  {
    failures := [];
    for k := 0 to |requests|
      invariant failures == TypesReport(docs, requests[..k])
    {
      assert requests[..k + 1][..k] == requests[..k];
      if !exists d | d in docs :: d.docType == requests[k].docType {
        failures := failures + [RequestedDocTypeMissing(requests[k].docType)];
      }
    }
    assert requests[..|requests|] == requests;
  }

  // ------------------------------------------------ what the report contains

  predicate IsMsoFault(f: Fault) {
    || f.MsoMissing? || f.MsoVersion? || f.DocTypeMismatch?
    || f.ValidityInfo? || f.SignedInFuture? || f.NotYetValid? || f.Expired?
  }

  lemma InMsoReport(doc: Document, requests: seq<DocRequest>, now: int, f: Fault)
    ensures f in MsoReport(doc, requests, now) <==> IsMsoFault(f) && HasFault(doc, requests, now, f)
  {
    InValidityReport(doc, requests, now, f);
    InWhen(doc, requests, now, MsoMissing, f);
    InWhen(doc, requests, now, MsoVersion, f);
    InWhen(doc, requests, now, DocTypeMismatch, f);
  }

  lemma InValidityReport(doc: Document, requests: seq<DocRequest>, now: int, f: Fault)
    ensures f in ValidityReport(doc, requests, now) <==>
            (f.ValidityInfo? || f.SignedInFuture? || f.NotYetValid? || f.Expired?) && HasFault(doc, requests, now, f)
  {
    InWhen(doc, requests, now, ValidityInfo, f);
    InWhen(doc, requests, now, SignedInFuture, f);
    InWhen(doc, requests, now, NotYetValid, f);
    InWhen(doc, requests, now, Expired, f);
  }

  lemma InWhen(doc: Document, requests: seq<DocRequest>, now: int, code: Fault, f: Fault)
    ensures f in When(doc, requests, now, code) <==> f == code && HasFault(doc, requests, now, f)
  {
  }

  lemma {:induction false} InElementReport(ns: string, elements: seq<Element>, f: Fault)
    ensures f in ElementReport(ns, elements) <==>
            && f.ElementDigestNotValid? && f.ns == ns
            && exists e | e in elements :: e.identifier == f.identifier && e.digestValid != Some(true)
  {
    if elements != [] {
      var front := elements[..|elements| - 1];
      assert elements == front + [elements[|elements| - 1]];
      InElementReport(ns, front, f);
    }
  }

  lemma {:induction false} InDigestReport(namespaces: seq<(string, seq<Element>)>, f: Fault)
    ensures f in DigestReport(namespaces) <==>
            && f.ElementDigestNotValid?
            && exists n, e | n in namespaces && e in n.1 ::
                 n.0 == f.ns && e.identifier == f.identifier && e.digestValid != Some(true)
  {
    if namespaces != [] {
      var front, last := namespaces[..|namespaces| - 1], namespaces[|namespaces| - 1];
      assert namespaces == front + [last];
      InDigestReport(front, f);
      InElementReport(last.0, last.1, f);
    }
  }

  lemma {:induction false} InClaimReport(elements: seq<Element>, ns: string, claims: seq<string>, f: Fault)
    ensures f in ClaimReport(elements, ns, claims) <==>
            f.RequestedElementMissing? && f.ns == ns && f.identifier in claims && !Discloses(elements, f.identifier)
  {
    if claims != [] {
      var front := claims[..|claims| - 1];
      assert claims == front + [claims[|claims| - 1]];
      InClaimReport(elements, ns, front, f);
    }
  }

  ghost predicate MissingIn(doc: Document, ns: string, claims: seq<string>, f: Fault) {
    match f
    case RequestedNamespaceMissing(m) => m == ns && Lookup(doc.namespaces, ns).None?
    case RequestedElementMissing(m, c) =>
      m == ns && c in claims && Lookup(doc.namespaces, ns).Some? && !Discloses(Lookup(doc.namespaces, ns).value, c)
    case _ => false
  }

  ghost predicate MissingFor(doc: Document, namespaces: seq<(string, seq<string>)>, f: Fault) {
    exists n | n in namespaces :: MissingIn(doc, n.0, n.1, f)
  }

  ghost predicate MissingAny(doc: Document, requests: seq<DocRequest>, f: Fault) {
    exists r | r in requests :: r.docType == doc.docType && MissingFor(doc, r.namespaces, f)
  }

  lemma InNamespaceReport(doc: Document, ns: string, claims: seq<string>, f: Fault)
    ensures f in NamespaceReport(doc, ns, claims) <==> MissingIn(doc, ns, claims, f)
  {
    var found := Lookup(doc.namespaces, ns);
    if found.Some? {
      InClaimReport(found.value, ns, claims, f);
    }
  }

  lemma {:induction false} InRequestReport(doc: Document, namespaces: seq<(string, seq<string>)>, f: Fault)
    ensures f in RequestReport(doc, namespaces) <==> MissingFor(doc, namespaces, f)
  {
    if namespaces != [] {
      var front, last := namespaces[..|namespaces| - 1], namespaces[|namespaces| - 1];
      assert namespaces == front + [last];
      InRequestReport(doc, front, f);
      InNamespaceReport(doc, last.0, last.1, f);
    }
  }

  lemma {:induction false} InMissingReport(doc: Document, requests: seq<DocRequest>, f: Fault)
    ensures f in MissingReport(doc, requests) <==> MissingAny(doc, requests, f)
  {
    if requests != [] {
      var front, last := requests[..|requests| - 1], requests[|requests| - 1];
      assert requests == front + [last];
      InMissingReport(doc, front, f);
      InRequestReport(doc, last.namespaces, f);
    }
  }

  lemma MissingAnyMeans(doc: Document, requests: seq<DocRequest>, now: int, f: Fault)
    ensures MissingAny(doc, requests, f) <==> IsRequestFault(f) && HasFault(doc, requests, now, f)
  {
    if MissingAny(doc, requests, f) {
      var r :| r in requests && r.docType == doc.docType && MissingFor(doc, r.namespaces, f);
      var n :| n in r.namespaces && MissingIn(doc, n.0, n.1, f);
      assert (n.0, n.1) == n;
      assert Asks(requests, doc.docType, n.0, n.1);
    }
    if IsRequestFault(f) && HasFault(doc, requests, now, f) {
      var claims :|
        Asks(requests, doc.docType, f.ns, claims) && (f.RequestedElementMissing? ==> f.identifier in claims);
      var r :| r in requests && r.docType == doc.docType && (f.ns, claims) in r.namespaces;
      assert MissingIn(doc, f.ns, claims, f);
      var n := (f.ns, claims);
      assert n in r.namespaces && MissingIn(doc, n.0, n.1, f);
    }
  }

  lemma InIssuerReport(doc: Document, requests: seq<DocRequest>, now: int, f: Fault)
    ensures f in IssuerReport(doc, requests, now) <==>
            (IsMsoFault(f) || f.IssuerAuthMissing? || f.IssuerSignatureNotValid?) && HasFault(doc, requests, now, f)
  {
    InWhen(doc, requests, now, IssuerAuthMissing, f);
    InWhen(doc, requests, now, IssuerSignatureNotValid, f);
    InMsoReport(doc, requests, now, f);
    InFive(When(doc, requests, now, IssuerAuthMissing), When(doc, requests, now, IssuerSignatureNotValid),
           MsoReport(doc, requests, now), [], [], f);
  }

  lemma InDeviceReport(doc: Document, requests: seq<DocRequest>, now: int, f: Fault)
    ensures f in DeviceReport(doc, requests, now) <==>
            && (f.DeviceAuthNotValid? || f.DeviceNamespacesUnsupported? || f.InvalidErrors?)
            && HasFault(doc, requests, now, f)
  {
    InWhen(doc, requests, now, DeviceAuthNotValid, f);
    InWhen(doc, requests, now, DeviceNamespacesUnsupported, f);
    InWhen(doc, requests, now, InvalidErrors, f);
  }

  /** The report of a document holds a code exactly when its meaning applies. */
  lemma ReportMeans(doc: Document, requests: seq<DocRequest>, now: int, f: Fault)
    ensures f in DocumentReport(doc, requests, now) <==> HasFault(doc, requests, now, f)
  {
    InStages(doc, requests, now, f);
    InDigestStage(doc, requests, now, f);
    InLaterStages(doc, requests, now, f);
    InFive(When(doc, requests, now, DocTypeNotRequested), IssuerReport(doc, requests, now),
           DigestReport(doc.namespaces), DeviceReport(doc, requests, now), MissingReport(doc, requests), f);
  }

  /** The part of a document's report that `f` belongs to. */
  function Stage(f: Fault): (stage: nat)
    ensures stage < 5
  {
    match f
    case DocTypeNotRequested => 0
    case ElementDigestNotValid(_, _) => 2
    case DeviceAuthNotValid => 3
    case DeviceNamespacesUnsupported => 3
    case InvalidErrors => 3
    case RequestedNamespaceMissing(_) => 4
    case RequestedElementMissing(_, _) => 4
    case _ => 1
  }

  lemma InStages(doc: Document, requests: seq<DocRequest>, now: int, f: Fault)
    ensures f in When(doc, requests, now, DocTypeNotRequested) <==> Stage(f) == 0 && HasFault(doc, requests, now, f)
    ensures f in IssuerReport(doc, requests, now) <==> Stage(f) == 1 && HasFault(doc, requests, now, f)
  {
    InWhen(doc, requests, now, DocTypeNotRequested, f);
    InIssuerReport(doc, requests, now, f);
  }

  lemma InDigestStage(doc: Document, requests: seq<DocRequest>, now: int, f: Fault)
    ensures f in DigestReport(doc.namespaces) <==> Stage(f) == 2 && HasFault(doc, requests, now, f)
  {
    InDigestReport(doc.namespaces, f);
  }

  lemma InLaterStages(doc: Document, requests: seq<DocRequest>, now: int, f: Fault)
    ensures f in DeviceReport(doc, requests, now) <==> Stage(f) == 3 && HasFault(doc, requests, now, f)
    ensures f in MissingReport(doc, requests) <==> Stage(f) == 4 && HasFault(doc, requests, now, f)
  {
    InDeviceReport(doc, requests, now, f);
    InMissingReport(doc, requests, f);
    MissingAnyMeans(doc, requests, now, f);
  }

  lemma InFive<T>(a: seq<T>, b: seq<T>, c: seq<T>, d: seq<T>, e: seq<T>, x: T)
    ensures x in a + b + c + d + e <==> x in a || x in b || x in c || x in d || x in e
  {
  }

  lemma {:induction false} InTypesReport(docs: seq<Document>, requests: seq<DocRequest>, f: Failure)
    ensures f in TypesReport(docs, requests) <==>
            && f.RequestedDocTypeMissing?
            && (exists r | r in requests :: r.docType == f.docType)
            && (forall d | d in docs :: d.docType != f.docType)
  {
    if requests != [] {
      var front := requests[..|requests| - 1];
      assert requests == front + [requests[|requests| - 1]];
      InTypesReport(docs, front, f);
    }
  }

  lemma InLocated(index: nat, faults: seq<Fault>, f: Failure)
    ensures f in Located(index, faults) <==> f.InDocument? && f.index == index && f.fault in faults
  {
    if f.InDocument? && f.index == index && f.fault in faults {
      var i :| 0 <= i < |faults| && faults[i] == f.fault;
      assert Located(index, faults)[i] == f;
    }
  }

  lemma {:induction false} InLocatedAll(reports: seq<seq<Fault>>, f: Failure)
    ensures f in LocatedAll(reports) <==> f.InDocument? && f.index < |reports| && f.fault in reports[f.index]
  {
    if reports != [] {
      InLocatedAll(reports[..|reports| - 1], f);
      InLocated(|reports| - 1, reports[|reports| - 1], f);
    }
  }

  lemma InDocumentsReport(docs: seq<Document>, requests: seq<DocRequest>, now: int, f: Failure)
    ensures f in DocumentsReport(docs, requests, now) <==>
            f.InDocument? && f.index < |docs| && HasFault(docs[f.index], requests, now, f.fault)
  {
    var reports := Reports(docs, requests, now);
    InLocatedAll(reports, f);
    if f.InDocument? && f.index < |docs| {
      assert reports[f.index] == DocumentReport(docs[f.index], requests, now);
      ReportMeans(docs[f.index], requests, now, f.fault);
    }
  }

  /** The whole report holds a code exactly when it occurs. */
  lemma FailureReportMeans(response: Response, requests: seq<DocRequest>, now: int)
    ensures forall f :: f in FailureReport(response, requests, now) <==> Occurs(response, requests, now, f)
  {
    forall f ensures f in FailureReport(response, requests, now) <==> Occurs(response, requests, now, f) {
      InFailureReport(response, requests, now, f);
    }
  }

  /** The part of the whole report that `f` belongs to. */
  function Level(f: Failure): (level: nat)
    ensures level < 3
  {
    match f
    case RequestedDocTypeMissing(_) => 1
    case InDocument(_, _) => 2
    case _ => 0
  }

  lemma InFirstLevel(response: Response, requests: seq<DocRequest>, now: int, f: Failure)
    ensures f in EnvelopeReport(response) <==> Level(f) == 0 && Occurs(response, requests, now, f)
  {
    InEnvelope(response, f);
  }

  lemma InSecondLevel(response: Response, requests: seq<DocRequest>, now: int, f: Failure)
    ensures f in TypesReport(response.documents, requests) <==> Level(f) == 1 && Occurs(response, requests, now, f)
  {
    InTypesReport(response.documents, requests, f);
  }

  lemma InThirdLevel(response: Response, requests: seq<DocRequest>, now: int, f: Failure)
    ensures f in DocumentsReport(response.documents, requests, now) <==>
            Level(f) == 2 && Occurs(response, requests, now, f)
  {
    InDocumentsReport(response.documents, requests, now, f);
  }

  lemma InFailureReport(response: Response, requests: seq<DocRequest>, now: int, f: Failure)
    ensures f in FailureReport(response, requests, now) <==> Occurs(response, requests, now, f)
  {
    InFirstLevel(response, requests, now, f);
    InSecondLevel(response, requests, now, f);
    InThirdLevel(response, requests, now, f);
    InFive(EnvelopeReport(response), TypesReport(response.documents, requests),
           DocumentsReport(response.documents, requests, now), [], [], f);
  }

  lemma InEnvelope(response: Response, f: Failure)
    ensures f in EnvelopeReport(response) <==>
            (f.UnsupportedVersion? || f.ResponseStatusNotOk? || f.DocumentCount? || f.InvalidDocumentErrors?) &&
            Occurs(response, [], 0, f)
  {
  }

  // ---------------------------------------------------------------- main result

  lemma UnacceptableMso(doc: Document, requests: seq<DocRequest>, now: int)
    requires MsoOf(doc).Some? && !MsoAcceptable(MsoOf(doc).value, doc.docType, now)
    ensures exists f :: HasFault(doc, requests, now, f)
  {
    assert || HasFault(doc, requests, now, MsoVersion)
           || HasFault(doc, requests, now, DocTypeMismatch)
           || HasFault(doc, requests, now, ValidityInfo)
           || HasFault(doc, requests, now, SignedInFuture)
           || HasFault(doc, requests, now, NotYetValid)
           || HasFault(doc, requests, now, Expired);
  }

  lemma BadDigestIsFault(doc: Document, requests: seq<DocRequest>, now: int, n: (string, seq<Element>), e: Element)
    requires n in doc.namespaces && e in n.1 && e.digestValid != Some(true)
    ensures exists f :: HasFault(doc, requests, now, f)
  {
    assert HasFault(doc, requests, now, ElementDigestNotValid(n.0, e.identifier));
  }

  lemma UnsoundHasFault(doc: Document, requests: seq<DocRequest>, now: int)
    requires !DocumentSound(doc, now)
    ensures exists f :: HasFault(doc, requests, now, f)
  {
    if doc.issuerAuth.None? {
      assert HasFault(doc, requests, now, IssuerAuthMissing);
    } else if doc.issuerAuth.value.signatureValid != Some(true) {
      assert HasFault(doc, requests, now, IssuerSignatureNotValid);
    } else if MsoOf(doc).None? {
      assert HasFault(doc, requests, now, MsoMissing);
    } else if !MsoAcceptable(MsoOf(doc).value, doc.docType, now) {
      UnacceptableMso(doc, requests, now);
    } else if n, e :| n in doc.namespaces && e in n.1 && e.digestValid != Some(true) {
      BadDigestIsFault(doc, requests, now, n, e);
    } else {
      UnsoundDevice(doc, requests, now);
    }
  }

  lemma UnsoundDevice(doc: Document, requests: seq<DocRequest>, now: int)
    requires doc.deviceAuthValid != Some(true) || doc.deviceNamespaces != Map([]) || !ValidElementErrors(doc.errors)
    ensures exists f :: HasFault(doc, requests, now, f)
  {
    assert || HasFault(doc, requests, now, DeviceAuthNotValid)
           || HasFault(doc, requests, now, DeviceNamespacesUnsupported)
           || HasFault(doc, requests, now, InvalidErrors);
  }

  lemma DocumentAcceptedExactly(doc: Document, requests: seq<DocRequest>, now: int)
    ensures (forall f :: !HasFault(doc, requests, now, f)) <==> DocumentAcceptable(doc, requests, now)
  {
    if forall f :: !HasFault(doc, requests, now, f) {
      assert DocumentSound(doc, now) by {
        if !DocumentSound(doc, now) {
          UnsoundHasFault(doc, requests, now);
        }
      }
      assert !HasFault(doc, requests, now, DocTypeNotRequested);
      forall r | r in requests && r.docType == doc.docType ensures Satisfies(doc, r) {
        NothingMissing(doc, requests, now, r);
      }
    }
    if DocumentAcceptable(doc, requests, now) {
      forall f ensures !HasFault(doc, requests, now, f) {
        if IsRequestFault(f) {
        } else if !f.DocTypeNotRequested? {
        }
      }
    }
  }

  lemma NothingMissing(doc: Document, requests: seq<DocRequest>, now: int, r: DocRequest)
    requires forall f :: !HasFault(doc, requests, now, f)
    requires r in requests && r.docType == doc.docType
    ensures Satisfies(doc, r)
  {
    forall n | n in r.namespaces
      ensures Lookup(doc.namespaces, n.0).Some? && forall c | c in n.1 :: Provides(doc, n.0, c)
    {
      assert (n.0, n.1) == n;
      assert Asks(requests, doc.docType, n.0, n.1);
      assert !HasFault(doc, requests, now, RequestedNamespaceMissing(n.0));
      forall c | c in n.1 ensures Provides(doc, n.0, c) {
        assert !HasFault(doc, requests, now, RequestedElementMissing(n.0, c));
      }
    }
  }

  lemma BadDocumentFails(response: Response, requests: seq<DocRequest>, now: int, i: nat)
    requires i < |response.documents| && !DocumentAcceptable(response.documents[i], requests, now)
    ensures exists f :: Occurs(response, requests, now, f)
  {
    DocumentAcceptedExactly(response.documents[i], requests, now);
    var f :| HasFault(response.documents[i], requests, now, f);
    assert Occurs(response, requests, now, InDocument(i, f));
  }

  lemma UnsoundEnvelopeFails(response: Response, requests: seq<DocRequest>, now: int)
    requires !EnvelopeSound(response)
    ensures exists f :: Occurs(response, requests, now, f)
  {
    assert || Occurs(response, requests, now, UnsupportedVersion)
           || Occurs(response, requests, now, ResponseStatusNotOk)
           || Occurs(response, requests, now, DocumentCount)
           || Occurs(response, requests, now, InvalidDocumentErrors);
  }

  lemma UnacceptableFails(response: Response, requests: seq<DocRequest>, now: int)
    requires !Acceptable(response, requests, now)
    ensures exists f :: Occurs(response, requests, now, f)
  {
    if !EnvelopeSound(response) {
      UnsoundEnvelopeFails(response, requests, now);
    } else if i :| 0 <= i < |response.documents| && !DocumentAcceptable(response.documents[i], requests, now) {
      BadDocumentFails(response, requests, now, i);
    } else {
      var r :| r in requests && forall d | d in response.documents :: d.docType != r.docType;
      assert Occurs(response, requests, now, RequestedDocTypeMissing(r.docType));
    }
  }

  lemma NoTypeMissing(response: Response, requests: seq<DocRequest>, now: int, docType: string)
    requires forall r | r in requests :: exists d | d in response.documents :: d.docType == r.docType
    ensures !Occurs(response, requests, now, RequestedDocTypeMissing(docType))
  {
    if r :| r in requests && r.docType == docType {
      assert exists d | d in response.documents :: d.docType == r.docType;
    }
  }

  lemma NoDocumentFault(response: Response, requests: seq<DocRequest>, now: int, index: nat, fault: Fault)
    requires forall d | d in response.documents :: DocumentAcceptable(d, requests, now)
    ensures !Occurs(response, requests, now, InDocument(index, fault))
  {
    if index < |response.documents| {
      DocumentAcceptedExactly(response.documents[index], requests, now);
    }
  }

  lemma AcceptableIsFailureFree(response: Response, requests: seq<DocRequest>, now: int, f: Failure)
    requires Acceptable(response, requests, now)
    ensures !Occurs(response, requests, now, f)
  {
    match f
    case RequestedDocTypeMissing(docType) => NoTypeMissing(response, requests, now, docType);
    case InDocument(index, fault) => NoDocumentFault(response, requests, now, index, fault);
    case _ =>
  }

  /** No code applies exactly when the response is acceptable. */
  lemma AcceptedExactly(response: Response, requests: seq<DocRequest>, now: int)
    ensures (forall f :: !Occurs(response, requests, now, f)) <==> Acceptable(response, requests, now)
  {
    if !Acceptable(response, requests, now) {
      UnacceptableFails(response, requests, now);
    }
    if Acceptable(response, requests, now) {
      forall f ensures !Occurs(response, requests, now, f) {
        AcceptableIsFailureFree(response, requests, now, f);
      }
    }
  }
}
