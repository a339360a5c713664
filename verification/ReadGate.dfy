/**
 The release gate of run_read (cli.py), from the decrypted DeviceResponse on: claims reach
 stdout all at once or not at all, and only past every check.
 */
module ReadGate {
  import opened Common
  import opened Values
  import opened Validation
  import opened Parsing
  import IssuerId
  import Pdp

  /** What a run is given besides the response: requests, time, libraries and options. */
  datatype Config = Config(
    codec: Codec,
    certificates: IssuerId.Library,
    requests: seq<DocRequest>,
    clock: int,
    /** verify_device_auth; None when it raises an exception that run_read reports. */
    deviceAuth: Document -> Option<Option<bool>>,
    /** The issuer role, when a PDP URL is configured. */
    pdpRole: Option<string>,
    /** The text of the rendered response; None when rendering raises. */
    render: Response -> Option<string>)

  /** `response` is the parsed response with every document's DeviceAuth verdict filled in. */
  ghost predicate Checked(cfg: Config, plaintext: seq<Byte>, response: Response) {
    && cfg.codec.loads(plaintext).Some?
    && exists parsed ::
         && ResponseFrom(cfg.codec, cfg.codec.loads(plaintext).value, parsed)
         && Authenticated(cfg, parsed, response)
  }

  ghost predicate Authenticated(cfg: Config, parsed: Response, response: Response) {
    && |response.documents| == |parsed.documents|
    && response == parsed.(documents := response.documents)
    && forall i | 0 <= i < |parsed.documents| ::
         && cfg.deviceAuth(parsed.documents[i]).Some?
         && response.documents[i] == parsed.documents[i].(deviceAuthValid := cfg.deviceAuth(parsed.documents[i]).value)
  }

  type Outcomes = seq<Result<bool, Pdp.TrustError>>

  /** With a PDP configured, `outcomes` is one permit per document. */
  ghost predicate Permitted(cfg: Config, response: Response, outcomes: Outcomes) {
    cfg.pdpRole.Some? ==> Pdp.AllPermitted(response.documents, cfg.pdpRole.value, outcomes)
  }

  /** Everything a release needs. */
  ghost predicate MayRelease(cfg: Config, plaintext: seq<Byte>, response: Response, outcomes: Outcomes) {
    && Checked(cfg, plaintext, response)
    && Acceptable(response, cfg.requests, cfg.clock)
    && Permitted(cfg, response, outcomes)
    && cfg.render(response).Some?
  }

  method AuthenticateDocuments(cfg: Config, parsed: Response) returns (r: Option<Response>)
    ensures r.Some? ==> Authenticated(cfg, parsed, r.value)
    ensures r.None? ==> forall response :: !Authenticated(cfg, parsed, response)
  {
    var documents := parsed.documents;
    for k := 0 to |documents|
      invariant |documents| == |parsed.documents|
      invariant forall i | k <= i < |documents| :: documents[i] == parsed.documents[i]
      invariant forall i | 0 <= i < k ::
                  && cfg.deviceAuth(parsed.documents[i]).Some?
                  && documents[i] == parsed.documents[i].(deviceAuthValid := cfg.deviceAuth(parsed.documents[i]).value)
    {
      var verdict := cfg.deviceAuth(documents[k]);
      if verdict.None? {
        return None;
      }
      documents := documents[k := documents[k].(deviceAuthValid := verdict.value)];
    }
    return Some(parsed.(documents := documents));
  }

  /** The local checks: parse, authenticate, validate. */
  method Examine(cfg: Config, plaintext: seq<Byte>) returns (r: Option<Response>)
    ensures r.Some? ==> Checked(cfg, plaintext, r.value) && Acceptable(r.value, cfg.requests, cfg.clock)
    ensures r.None? ==>
              forall response :: Checked(cfg, plaintext, response) ==> !Acceptable(response, cfg.requests, cfg.clock)
  {
    var parsed := ParseDeviceResponse(cfg.codec, plaintext);
    if parsed.Err? {
      return None;
    }
    var response := AuthenticateDocuments(cfg, parsed.value);
    CheckedOnce(cfg, plaintext, parsed.value);
    if response.None? {
      return None;
    }
    var failures := ValidateDeviceResponse(response.value, cfg.requests, None, cfg.clock);
    if failures.Err? || failures.value != [] {
      return None;
    }
    return response;
  }

  /** The documents are asked about only when a PDP is configured. */
  method Authorize(cfg: Config, response: Response, client: Pdp.Client) returns (permitted: bool)
    requires client.Valid()
    modifies client
    ensures client.Valid()
    ensures old(client.log) <= client.log && old(client.outcomes) <= client.outcomes
    ensures permitted <==> Permitted(cfg, response, client.outcomes[|old(client.log)|..])
    ensures cfg.pdpRole.None? ==> client.log == old(client.log)
    ensures cfg.pdpRole.Some? ==>
              Pdp.AskedSince(cfg.certificates, cfg.pdpRole.value, response.documents, client, |old(client.log)|)
    ensures permitted && cfg.pdpRole.Some? ==>
              && |client.log| == |old(client.log)| + |response.documents|
              && forall k | |old(client.log)| <= k < |client.log| ::
                   Pdp.IsPermit(client.parse, client.endpointValid, client.answers(k))
  {
    if cfg.pdpRole.None? {
      return true;
    }
    var authorized := Pdp.AuthorizeDocuments(cfg.certificates, response.documents, cfg.pdpRole.value, client);
    if authorized.Err? {
      return false;
    }
    PermitsExplained(client, |old(client.log)|);
    return true;
  }

  /** One run, with the console it writes claims to. */
  class Run {
    var stdout: string

    constructor ()
      ensures stdout == ""
    {
      stdout := "";
    }

    /**
     Exit code 0 exactly when some response may be released, and then stdout grows by its
     rendering; otherwise stdout does not change.  The PDP hears nothing before every local
     check has passed, and then about the documents in order, all of them on a release; and a
     release then means that every answer was an explicit permit.
     */
    method Finish(cfg: Config, plaintext: seq<Byte>, client: Pdp.Client)
        returns (code: int, ghost shown: Option<Response>)
      requires client.Valid()
      modifies this, client
      ensures client.Valid()
      ensures code == 0 || code == 1
      ensures old(client.log) <= client.log && old(client.outcomes) <= client.outcomes
      ensures code == 0 <==>
              shown.Some? && MayRelease(cfg, plaintext, shown.value, client.outcomes[|old(client.log)|..])
      ensures code == 0 ==> stdout == old(stdout) + cfg.render(shown.value).value
      ensures code == 1 ==> stdout == old(stdout)
      ensures shown.None? ==>
                forall response :: Checked(cfg, plaintext, response) ==> !Acceptable(response, cfg.requests, cfg.clock)
      ensures shown.Some? ==> Checked(cfg, plaintext, shown.value) && Acceptable(shown.value, cfg.requests, cfg.clock)
      ensures shown.None? || cfg.pdpRole.None? ==> client.log == old(client.log)
      ensures shown.Some? && cfg.pdpRole.Some? ==>
                Pdp.AskedSince(cfg.certificates, cfg.pdpRole.value, shown.value.documents, client, |old(client.log)|)
      ensures code == 0 && cfg.pdpRole.Some? ==>
                && |client.log| == |old(client.log)| + |shown.value.documents|
                && forall k | |old(client.log)| <= k < |client.log| ::
                     Pdp.IsPermit(client.parse, client.endpointValid, client.answers(k))
    {
      var examined := Examine(cfg, plaintext);
      shown := examined;
      if examined.None? {
        return 1, None;
      }
      var response := examined.value;
      var permitted := Authorize(cfg, response, client);
      if !permitted {
        return 1, shown;
      }
      var rendered := cfg.render(response);
      if rendered.None? {
        return 1, shown;
      }
      stdout := stdout + rendered.value;
      return 0, shown;
    }
  }

  lemma PermitsExplained(client: Pdp.Client, from: nat)
    requires client.Valid() && from <= |client.log|
    requires forall j | 0 <= j < |client.outcomes[from..]| :: client.outcomes[from..][j] == Ok(true)
    ensures forall k | from <= k < |client.log| ::
              Pdp.IsPermit(client.parse, client.endpointValid, client.answers(k))
  {
    forall k | from <= k < |client.log| ensures Pdp.IsPermit(client.parse, client.endpointValid, client.answers(k)) {
      assert client.outcomes[from..][k - from] == client.outcomes[k];
      assert client.Explains(client.answers(k), client.outcomes[k]);
    }
  }

  /** A plaintext parses to one response, and that has at most one checked form. */
  lemma CheckedOnce(cfg: Config, plaintext: seq<Byte>, parsed: Response)
    requires cfg.codec.loads(plaintext).Some?
    requires ResponseFrom(cfg.codec, cfg.codec.loads(plaintext).value, parsed)
    ensures forall response :: Checked(cfg, plaintext, response) <==> Authenticated(cfg, parsed, response)
    ensures forall a, b | Authenticated(cfg, parsed, a) && Authenticated(cfg, parsed, b) :: a == b
  {
    var raw := cfg.codec.loads(plaintext).value;
    forall other | ResponseFrom(cfg.codec, raw, other) ensures other == parsed {
      ResponseUnique(cfg.codec, raw, other, parsed);
    }
    forall a, b | Authenticated(cfg, parsed, a) && Authenticated(cfg, parsed, b) ensures a == b {
      assert a.documents == b.documents;
    }
  }

  lemma DocumentUnique(c: Codec, raw: Value, a: Document, b: Document)
    requires DocumentFrom(c, raw, a) && DocumentFrom(c, raw, b)
    ensures a == b
  {
    var signed := Get(raw.entries, "issuerSigned", Map([]));
    NamespacesUnique(c, MsoOf(a), Get(signed.entries, "nameSpaces", Map([])), a.namespaces, b.namespaces);
  }

  lemma ResponseUnique(c: Codec, raw: Value, a: Response, b: Response)
    requires ResponseFrom(c, raw, a) && ResponseFrom(c, raw, b)
    ensures a == b
  {
    var items := Get(raw.entries, "documents", List([])).items;
    forall i | 0 <= i < |items| ensures a.documents[i] == b.documents[i] {
      DocumentUnique(c, items[i], a.documents[i], b.documents[i]);
    }
    assert a.documents == b.documents;
  }
}
