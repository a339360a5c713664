/**
 The policy decision point of trust.py: a bounded read of its answer, a strict reading of
 the decision, and one explicit permit for every document.
 */
module Pdp {
  import opened Common
  import opened JsonTree
  import opened Validation
  import IssuerId
  import Requests

  const MAX_RESPONSE_BYTES := 1024 * 1024
  const READ_SIZE := 65536

  datatype TrustError =
    | InvalidRole
    | NoCertificateChain(docType: string)
    | InvalidConfiguration
    | HttpStatus(status: int)
    | TooLarge
    | RequestFailed
    | MalformedJson
    | NoBooleanDecision
    | Denied(docType: string)

  // ------------------------------------------------------------ the bounded read

  /** The network's side of a response body: any non-empty piece at a time, and it may break unless sound. */
  class BodyStream {
    const sound: bool
    var rest: seq<Byte>
    var broken: bool

    constructor (body: seq<Byte>, sound: bool)
      ensures rest == body && !broken && this.sound == sound
    {
      this.sound := sound;
      rest, broken := body, false;
    }

    /** StreamReader.read(n): at most n octets, and no octets only at the end of the body. */
    method Read(n: nat) returns (r: Result<seq<Byte>, ()>)
      requires n > 0 && !broken
      modifies this
      ensures r.Err? <==> broken
      ensures sound ==> !broken
      ensures r.Ok? ==> r.value + rest == old(rest) && |r.value| <= n && (r.value == [] <==> old(rest) == [])
      ensures r.Err? ==> rest == old(rest)
    {
      if !sound {
        if * {
          broken := true;
          return Err(());
        }
      }
      var size: nat := 0;
      if rest != [] {
        size :| 1 <= size <= n && size <= |rest|;
      }
      r := Ok(rest[..size]);
      rest := rest[size..];
    }
  }

  datatype Reply = Reply(status: int, contentLength: Option<int>, stream: BodyStream)

  /**
   However the network splits the body: unless it breaks, the whole body is returned when it
   has at most MAX_RESPONSE_BYTES octets and refused otherwise, and never more than one octet
   past the limit is taken from the network.
   */
  method ReadBody(reply: Reply) returns (r: Result<seq<Byte>, TrustError>)
    requires !reply.stream.broken
    modifies reply.stream
    ensures |old(reply.stream.rest)| - |reply.stream.rest| <= MAX_RESPONSE_BYTES + 1
    ensures |reply.stream.rest| <= |old(reply.stream.rest)|
    ensures reply.stream.rest == old(reply.stream.rest)[|old(reply.stream.rest)| - |reply.stream.rest|..]
    ensures reply.stream.sound ==> !reply.stream.broken
    ensures reply.stream.broken ==> r == Err(RequestFailed)
    ensures !reply.stream.broken && r.Err? ==>
              r.error == if 200 <= reply.status < 300 then TooLarge else HttpStatus(reply.status)
    ensures !reply.stream.broken ==>
              (r.Ok? <==>
               && 200 <= reply.status < 300
               && (reply.contentLength.None? || reply.contentLength.value <= MAX_RESPONSE_BYTES)
               && |old(reply.stream.rest)| <= MAX_RESPONSE_BYTES)
    ensures r.Ok? ==> r.value == old(reply.stream.rest)
  {
    if !(200 <= reply.status < 300) {
      return Err(HttpStatus(reply.status));
    }
    if reply.contentLength.Some? && reply.contentLength.value > MAX_RESPONSE_BYTES {
      return Err(TooLarge);
    }
    var stream := reply.stream;
    var body: seq<Byte> := [];
    while |body| <= MAX_RESPONSE_BYTES
      invariant !stream.broken
      invariant body + stream.rest == old(stream.rest)
      invariant |body| <= MAX_RESPONSE_BYTES + 1
      decreases |stream.rest|
    {
      var chunk := stream.Read(Min(READ_SIZE, MAX_RESPONSE_BYTES + 1 - |body|));
      if chunk.Err? {
        return Err(RequestFailed);
      }
      if chunk.value == [] {
        break;
      }
      assert body + chunk.value + stream.rest == body + (chunk.value + stream.rest);
      body := body + chunk.value;
    }
    if |body| > MAX_RESPONSE_BYTES {
      return Err(TooLarge);
    }
    return Ok(body);
  }

  // ---------------------------------------------------------------- the decision

  /** No non-finite constant at any depth. */
  predicate Finite(json: Json)
    decreases json
  {
    match json
    case JConstant => false
    case JArray(items) => forall item | item in items :: Finite(item)
    case JObject(members) => forall m | m in members :: FiniteMember(m)
    case _ => true
  }

  predicate FiniteMember(member: (string, Json))
    decreases member
  {
    Finite(member.1)
  }

  /** What the strict JSON reader lets through. */
  predicate Strict(json: Json) { NoDuplicates(json) && Finite(json) }

  predicate NotConstant(json: Json) { json != JConstant }

  lemma {:induction false} FiniteExactly(json: Json)
    ensures Finite(json) <==> Everywhere(json, NotConstant)
    decreases json
  {
    EverywhereInside(json, NotConstant);
    match json
    case JArray(items) =>
      forall i | 0 <= i < |items| ensures Finite(items[i]) <==> Everywhere(items[i], NotConstant) {
        FiniteExactly(items[i]);
      }
    case JObject(members) =>
      forall i | 0 <= i < |members| ensures FiniteMember(members[i]) <==> Everywhere(members[i].1, NotConstant) {
        FiniteExactly(members[i].1);
      }
    case _ =>
  }

  /** Strict means: at no place of the tree a member named twice, and at none NaN or an infinity. */
  lemma StrictExactly(json: Json)
    ensures Strict(json) <==>
            Everywhere(json, NamesDistinct) && Everywhere(json, NotConstant)
  {
    NoDuplicatesExactly(json);
    FiniteExactly(json);
  }

  function MemberNamed(members: seq<(string, Json)>, name: string): Option<Json> {
    if members == [] then None
    else if members[0].0 == name then Some(members[0].1)
    else MemberNamed(members[1..], name)
  }

  /** `parse` reads UTF-8 JSON text; only a top-level object with a Boolean decision counts. */
  function DecisionIn(parse: seq<Byte> -> Option<Json>, body: seq<Byte>): Result<bool, TrustError> {
    match parse(body)
    case None => Err(MalformedJson)
    case Some(json) =>
      if !Strict(json) then Err(MalformedJson)
      else if !json.JObject? then Err(NoBooleanDecision)
      else
        match MemberNamed(json.members, "decision")
        case Some(JBool(flag)) => Ok(flag)
        case _ => Err(NoBooleanDecision)
  }

  lemma {:induction false} MemberNamedMeans(members: seq<(string, Json)>, name: string, value: Json)
    requires DistinctNames(members)
    ensures MemberNamed(members, name) == Some(value) <==> (name, value) in members
  {
    if members != [] {
      var rest := members[1..];
      assert members == [members[0]] + rest;
      assert forall i | 0 <= i < |rest| :: rest[i] == members[i + 1];
      MemberNamedMeans(rest, name, value);
    }
  }

  /** A permit is an explicit `"decision": true` and nothing else, and a denial an explicit `"decision": false`. */
  lemma PermitExactly(parse: seq<Byte> -> Option<Json>, body: seq<Byte>)
    ensures forall flag ::
              DecisionIn(parse, body) == Ok(flag) <==>
              && parse(body).Some?
              && Strict(parse(body).value)
              && parse(body).value.JObject?
              && ("decision", JBool(flag)) in parse(body).value.members
    ensures DecisionIn(parse, body) == Err(MalformedJson) <==> parse(body).None? || !Strict(parse(body).value)
    ensures DecisionIn(parse, body).Err? ==> DecisionIn(parse, body).error in {MalformedJson, NoBooleanDecision}
  {
    if parse(body).Some? && Strict(parse(body).value) && parse(body).value.JObject? {
      MemberNamedMeans(parse(body).value.members, "decision", JBool(true));
      MemberNamedMeans(parse(body).value.members, "decision", JBool(false));
    }
  }

  /** What an answer that arrives whole comes to. */
  function Outcome(parse: seq<Byte> -> Option<Json>, endpointValid: bool, answer: Answer): Result<bool, TrustError> {
    if !endpointValid then Err(InvalidConfiguration)
    else if !(200 <= answer.status < 300) then Err(HttpStatus(answer.status))
    else if answer.contentLength.Some? && answer.contentLength.value > MAX_RESPONSE_BYTES then Err(TooLarge)
    else if |answer.body| > MAX_RESPONSE_BYTES then Err(TooLarge)
    else DecisionIn(parse, answer.body)
  }

  method EvaluateRequest(parse: seq<Byte> -> Option<Json>, endpointValid: bool, reply: Reply)
      returns (r: Result<bool, TrustError>)
    requires !reply.stream.broken
    modifies reply.stream
    ensures reply.stream.sound ==> !reply.stream.broken
    ensures reply.stream.broken ==> r == Err(RequestFailed)
    ensures !reply.stream.broken ==>
              var answer := Answer(reply.status, reply.contentLength, old(reply.stream.rest), reply.stream.sound);
              r == Outcome(parse, endpointValid, answer)
    ensures !reply.stream.broken ==>
              (r == Ok(true) <==>
               && endpointValid
               && 200 <= reply.status < 300
               && (reply.contentLength.None? || reply.contentLength.value <= MAX_RESPONSE_BYTES)
               && |old(reply.stream.rest)| <= MAX_RESPONSE_BYTES
               && DecisionIn(parse, old(reply.stream.rest)) == Ok(true))
    ensures !endpointValid ==> reply.stream.rest == old(reply.stream.rest)
  {
    if !endpointValid {
      return Err(InvalidConfiguration);
    }
    var body := ReadBody(reply);
    if body.Err? {
      return Err(body.error);
    }
    return DecisionIn(parse, body.value);
  }

  // ---------------------------------------------------- one permit per document

  /** The AuthZEN request for one document; certificates in leaf-first order. */
  datatype AuthzRequest = AuthzRequest(issuerId: string, key: seq<seq<Byte>>, role: string, docType: string)

  predicate IsControl(c: char) { c as int < 0x20 || 0x7F <= c as int <= 0x9F }

  predicate ValidRole(role: string) {
    role != "" && Requests.Strip(role) == role && forall c | c in role :: !IsControl(c)
  }

  /** A role that may be sent: neither empty nor padded, and without a control character. */
  lemma RoleExactly(role: string)
    ensures ValidRole(role) <==>
            && role != ""
            && !Requests.IsSpace(role[0]) && !Requests.IsSpace(role[|role| - 1])
            && forall i | 0 <= i < |role| :: !(role[i] < ' ') && !('\U{7F}' <= role[i] <= '\U{9F}')
  {
    assert (forall c | c in role :: !IsControl(c)) <==> forall i | 0 <= i < |role| :: !IsControl(role[i]);
    if role != "" && !Requests.IsSpace(role[0]) && !Requests.IsSpace(role[|role| - 1]) {
      assert Requests.Strip(role) == role;
    }
  }

  function ChainOf(doc: Document): seq<seq<Byte>> {
    if doc.issuerAuth.Some? then doc.issuerAuth.value.x5chain else []
  }

  /** `request` is the one request that may be sent for `doc`. */
  ghost predicate RequestFor(lib: IssuerId.Library, role: string, doc: Document, request: AuthzRequest) {
    && ValidRole(role)
    && ChainOf(doc) != []
    && IssuerId.IsIssuerIdentity(lib, ChainOf(doc)[0], request.issuerId)
    && request.key == ChainOf(doc)
    && request.role == role
    && request.docType == doc.docType
  }

  method BuildAuthzenRequest(lib: IssuerId.Library, doc: Document, role: string)
      returns (r: Result<AuthzRequest, TrustError>)
    ensures r.Ok? <==> ValidRole(role) && ChainOf(doc) != []
    ensures r.Err? ==> r.error == if ValidRole(role) then NoCertificateChain(doc.docType) else InvalidRole
    ensures r.Ok? ==> RequestFor(lib, role, doc, r.value)
  {
    if !ValidRole(role) {
      return Err(InvalidRole);
    }
    var chain := ChainOf(doc);
    if chain == [] {
      return Err(NoCertificateChain(doc.docType));
    }
    var issuerId := IssuerId.MdocIssuerId(lib, chain[0]);
    return Ok(AuthzRequest(issuerId, chain, role, doc.docType));
  }

  /**
   What the network answers to one evaluation.  A sound answer arrives completely; any other may
   break off at any read, or may not.
   */
  datatype Answer = Answer(status: int, contentLength: Option<int>, body: seq<Byte>, sound: bool)

  /** An explicit decision: 2xx, at most 1 MiB announced and sent, strict JSON with that "decision". */
  ghost predicate Decides(parse: seq<Byte> -> Option<Json>, endpointValid: bool, answer: Answer, flag: bool) {
    && endpointValid
    && 200 <= answer.status < 300
    && (answer.contentLength.None? || answer.contentLength.value <= MAX_RESPONSE_BYTES)
    && |answer.body| <= MAX_RESPONSE_BYTES
    && parse(answer.body).Some?
    && var json := parse(answer.body).value;
       Strict(json) && json.JObject? && ("decision", JBool(flag)) in json.members
  }

  ghost predicate IsPermit(parse: seq<Byte> -> Option<Json>, endpointValid: bool, answer: Answer) {
    Decides(parse, endpointValid, answer, true)
  }

  lemma OutcomeExactly(parse: seq<Byte> -> Option<Json>, endpointValid: bool, answer: Answer)
    ensures forall flag ::
              Outcome(parse, endpointValid, answer) == Ok(flag) <==> Decides(parse, endpointValid, answer, flag)
  {
    PermitExactly(parse, answer.body);
  }

  /**
   The configured PDP, over a network whose k-th answer is `answers(k)`.  `log` records the
   evaluations in order and `outcomes` what each of them gave.
   */
  class Client {
    const parse: seq<Byte> -> Option<Json>
    const endpointValid: bool
    const answers: nat -> Answer
    var log: seq<AuthzRequest>
    var outcomes: seq<Result<bool, TrustError>>

    ghost predicate Valid()
      reads this
    {
      && |log| == |outcomes|
      && forall k | 0 <= k < |outcomes| :: Explains(answers(k), outcomes[k])
    }

    /** A decision was that explicit decision, and an explicit decision that arrived whole was taken as it is. */
    ghost predicate Explains(answer: Answer, outcome: Result<bool, TrustError>) {
      && (forall flag | outcome == Ok(flag) :: Decides(parse, endpointValid, answer, flag))
      && (forall flag | Decides(parse, endpointValid, answer, flag) && answer.sound :: outcome == Ok(flag))
    }

    constructor (parse: seq<Byte> -> Option<Json>, endpointValid: bool, answers: nat -> Answer)
      ensures Valid() && log == [] && outcomes == []
      ensures this.parse == parse && this.endpointValid == endpointValid && this.answers == answers
    {
      this.parse, this.endpointValid, this.answers := parse, endpointValid, answers;
      log, outcomes := [], [];
    }

    method Evaluate(request: AuthzRequest) returns (r: Result<bool, TrustError>)
      requires Valid()
      modifies this
      ensures Valid()
      ensures log == old(log) + [request] && outcomes == old(outcomes) + [r]
    {
      var answer := answers(|log|);
      var stream := new BodyStream(answer.body, answer.sound);
      r := EvaluateRequest(parse, endpointValid, Reply(answer.status, answer.contentLength, stream));
      OutcomeExactly(parse, endpointValid, answer);
      assert Explains(answer, r);
      log, outcomes := log + [request], outcomes + [r];
    }
  }

  /** The evaluations from number `from` on are the requests for the first documents, in order. */
  ghost predicate AskedAbout(lib: IssuerId.Library, role: string, documents: seq<Document>, asked: seq<AuthzRequest>) {
    && |asked| <= |documents|
    && forall i | 0 <= i < |asked| :: RequestFor(lib, role, documents[i], asked[i])
  }

  /** Every document can be asked about, and got one outcome, a permit. */
  ghost predicate AllPermitted(documents: seq<Document>, role: string, outcomes: seq<Result<bool, TrustError>>) {
    && |outcomes| == |documents|
    && (forall d | d in documents :: ValidRole(role) && ChainOf(d) != [])
    && (forall j | 0 <= j < |outcomes| :: outcomes[j] == Ok(true))
  }

  /** The outcomes of the evaluations from number `from` on, and the requests behind them. */
  ghost predicate AskedSince(lib: IssuerId.Library, role: string, documents: seq<Document>, client: Client, from: nat)
    reads client
  {
    && from <= |client.log| == |client.outcomes|
    && AskedAbout(lib, role, documents, client.log[from..])
    // Asking stops only at the first document that is not permitted or cannot be asked about.
    && (forall i | from <= i < |client.outcomes| - 1 :: client.outcomes[i] == Ok(true))
    && var asked := |client.log| - from;
       asked < |documents| ==>
         || (asked > 0 && client.outcomes[|client.outcomes| - 1] != Ok(true))
         || !ValidRole(role)
         || ChainOf(documents[asked]) == []
  }

  /** Why the asking stops at a document: it cannot be asked about, its evaluation failed, or it was denied. */
  ghost predicate Refuses(role: string, doc: Document, given: seq<Result<bool, TrustError>>, error: TrustError) {
    if given == [] then error == if ValidRole(role) then NoCertificateChain(doc.docType) else InvalidRole
    else error == if given[0].Err? then given[0].error else Denied(doc.docType)
  }

  /** The error raised, told from the outcomes: the last one's, a denial, or that of the next document. */
  ghost predicate RefusedWith(role: string, documents: seq<Document>, outcomes: seq<Result<bool, TrustError>>,
                              error: TrustError)
  {
    var n := |outcomes|;
    if n > 0 && outcomes[n - 1] != Ok(true) then
      n <= |documents| && Refuses(role, documents[n - 1], [outcomes[n - 1]], error)
    else n < |documents| && Refuses(role, documents[n], [], error)
  }

  /** One turn of the loop: build the request, evaluate it, go on only with a permit. */
  method AuthorizeOne(lib: IssuerId.Library, doc: Document, role: string, client: Client)
      returns (r: Result<(), TrustError>, ghost asked: seq<AuthzRequest>, ghost given: seq<Result<bool, TrustError>>)
    requires client.Valid()
    modifies client
    ensures client.Valid()
    ensures client.log == old(client.log) + asked && client.outcomes == old(client.outcomes) + given
    ensures |asked| == |given| <= 1
    ensures asked == [] <==> !ValidRole(role) || ChainOf(doc) == []
    ensures asked != [] ==> RequestFor(lib, role, doc, asked[0])
    ensures r.Ok? <==> given == [Ok(true)]
    ensures r.Err? ==> Refuses(role, doc, given, r.error)
  {
    asked, given := [], [];
    var request := BuildAuthzenRequest(lib, doc, role);
    if request.Err? {
      return Err(request.error), asked, given;
    }
    var decision := client.Evaluate(request.value);
    asked, given := [request.value], [decision];
    if decision.Err? {
      return Err(decision.error), asked, given;
    }
    if !decision.value {
      return Err(Denied(doc.docType)), asked, given;
    }
    return Ok(()), asked, given;
  }

  method AuthorizeDocuments(lib: IssuerId.Library, documents: seq<Document>, role: string, client: Client)
      returns (r: Result<(), TrustError>)
    requires client.Valid()
    modifies client
    ensures client.Valid()
    ensures old(client.log) <= client.log && old(client.outcomes) <= client.outcomes
    ensures AskedSince(lib, role, documents, client, |old(client.log)|)
    ensures r.Ok? <==> AllPermitted(documents, role, client.outcomes[|old(client.log)|..])
    ensures r.Err? ==> RefusedWith(role, documents, client.outcomes[|old(client.log)|..], r.error)
  {
    ghost var log, outcomes := client.log, client.outcomes;
    ghost var requests: seq<AuthzRequest> := [];
    ghost var permits: seq<Result<bool, TrustError>> := [];
    for k := 0 to |documents|
      invariant client.Valid()
      invariant client.log == log + requests && client.outcomes == outcomes + permits
      invariant AllAsked(lib, role, documents, k, requests, permits)
    {
      ghost var asked, given;
      r, asked, given := AuthorizeOne(lib, documents[k], role, client);
      assert log + requests + asked == log + (requests + asked);
      assert outcomes + permits + given == outcomes + (permits + given);
      if r.Err? {
        Stopped(lib, role, documents, k, requests, permits, asked, given);
        StoppedSince(lib, role, documents, client, log, outcomes, requests + asked, permits + given);
        assert client.outcomes[|log|..] == permits + given;
        StoppedWith(role, documents, k, permits, given, r.error);
        return;
      }
      OneMoreAsked(lib, role, documents, k, requests, permits, asked, given);
      requests, permits := requests + asked, permits + given;
    }
    AllAskedSince(lib, role, documents, client, log, outcomes, requests, permits);
    return Ok(());
  }

  /** The first k documents could be asked about, were, and got permits. */
  ghost predicate AllAsked(lib: IssuerId.Library, role: string, documents: seq<Document>, k: nat,
                           requests: seq<AuthzRequest>, permits: seq<Result<bool, TrustError>>)
  {
    && |requests| == |permits| == k <= |documents|
    && forall i | 0 <= i < k :: RequestFor(lib, role, documents[i], requests[i]) && permits[i] == Ok(true)
  }

  lemma OneMoreAsked(lib: IssuerId.Library, role: string, documents: seq<Document>, k: nat,
                     requests: seq<AuthzRequest>, permits: seq<Result<bool, TrustError>>,
                     asked: seq<AuthzRequest>, given: seq<Result<bool, TrustError>>)
    requires AllAsked(lib, role, documents, k, requests, permits) && k < |documents|
    requires |asked| == 1 && given == [Ok(true)] && RequestFor(lib, role, documents[k], asked[0])
    ensures AllAsked(lib, role, documents, k + 1, requests + asked, permits + given)
  {
  }

  /** Where the asking ended: at a refusal, or at a document that cannot be asked about. */
  ghost predicate Ended(lib: IssuerId.Library, role: string, documents: seq<Document>,
                        requests: seq<AuthzRequest>, outcomes: seq<Result<bool, TrustError>>)
  {
    && |requests| == |outcomes|
    && AskedAbout(lib, role, documents, requests)
    && (forall j | 0 <= j < |outcomes| - 1 :: outcomes[j] == Ok(true))
    && if |outcomes| > 0 && outcomes[|outcomes| - 1] != Ok(true) then true
       else |requests| < |documents| && (!ValidRole(role) || ChainOf(documents[|requests|]) == [])
  }

  lemma Stopped(lib: IssuerId.Library, role: string, documents: seq<Document>, k: nat,
                requests: seq<AuthzRequest>, permits: seq<Result<bool, TrustError>>,
                asked: seq<AuthzRequest>, given: seq<Result<bool, TrustError>>)
    requires AllAsked(lib, role, documents, k, requests, permits) && k < |documents|
    requires |asked| == |given| <= 1 && given != [Ok(true)]
    requires asked == [] ==> !ValidRole(role) || ChainOf(documents[k]) == []
    requires asked != [] ==> RequestFor(lib, role, documents[k], asked[0])
    ensures Ended(lib, role, documents, requests + asked, permits + given)
  {
    if given != [] {
      assert given == [given[0]];
    }
  }

  lemma StoppedWith(role: string, documents: seq<Document>, k: nat, permits: seq<Result<bool, TrustError>>,
                    given: seq<Result<bool, TrustError>>, error: TrustError)
    requires |permits| == k < |documents| && forall i | 0 <= i < k :: permits[i] == Ok(true)
    requires |given| <= 1 && given != [Ok(true)] && Refuses(role, documents[k], given, error)
    ensures RefusedWith(role, documents, permits + given, error)
  {
    if given != [] {
      assert given == [given[0]];
    } else {
      assert permits + given == permits;
    }
  }

  lemma StoppedSince(lib: IssuerId.Library, role: string, documents: seq<Document>, client: Client,
                     log: seq<AuthzRequest>, before: seq<Result<bool, TrustError>>,
                     requests: seq<AuthzRequest>, outcomes: seq<Result<bool, TrustError>>)
    requires |log| == |before| && client.log == log + requests && client.outcomes == before + outcomes
    requires Ended(lib, role, documents, requests, outcomes)
    ensures AskedSince(lib, role, documents, client, |log|)
    ensures !AllPermitted(documents, role, client.outcomes[|log|..])
  {
    assert client.log[|log|..] == requests && client.outcomes[|log|..] == outcomes;
    if |requests| < |documents| && ChainOf(documents[|requests|]) == [] {
      assert documents[|requests|] in documents;
    }
  }

  lemma AllAskedSince(lib: IssuerId.Library, role: string, documents: seq<Document>, client: Client,
                      log: seq<AuthzRequest>, before: seq<Result<bool, TrustError>>,
                      requests: seq<AuthzRequest>, permits: seq<Result<bool, TrustError>>)
    requires |log| == |before| && client.log == log + requests && client.outcomes == before + permits
    requires AllAsked(lib, role, documents, |documents|, requests, permits)
    ensures AskedSince(lib, role, documents, client, |log|)
    ensures AllPermitted(documents, role, client.outcomes[|log|..])
  {
    assert client.log[|log|..] == requests && client.outcomes[|log|..] == permits;
    forall d | d in documents ensures ValidRole(role) && ChainOf(d) != [] {
      var i :| 0 <= i < |documents| && documents[i] == d;
      assert RequestFor(lib, role, documents[i], requests[i]);
    }
  }
}
