/**
 What a parsed document says about its issuer, read off the message as sent: which bytes were
 signed, under which of the sent certificates the signature was checked, and what the signed
 payload says.  Nothing here goes through the parser's own functions.
 */
module Provenance {
  import opened Common
  import opened Values
  import opened Validation
  import opened Parsing

  /** The issuerAuth entry of a raw document. */
  function RawAuth(raw: Value): Value {
    if !raw.Map? then Null
    else
      var signed := Get(raw.entries, "issuerSigned", Map([]));
      if signed.Map? then Get(signed.entries, "issuerAuth") else Null
  }

  /** The values that Python takes for false. */
  ghost predicate Falsy(v: Value) {
    || v in {Null, Bool(false), Int(0), Text(""), Bytes([]), List([]), Map([])}
    || (v.Other? && !v.truth)
  }

  /** The certificates that header 33 holds, in the order they were sent: one byte string, or several. */
  ghost predicate Holds(header: Option<Value>, certificates: seq<seq<Byte>>) {
    match header
    case None => certificates == []
    case Some(Null) => certificates == []
    case Some(Bytes(b)) => certificates == [b]
    case Some(List(items)) =>
      |items| == |certificates| && forall i | 0 <= i < |items| :: items[i] == Bytes(certificates[i])
    case Some(Map(entries)) =>
      |entries| == |certificates| && forall i | 0 <= i < |entries| :: entries[i].0 == Bytes(certificates[i])
    case Some(Text(s)) => s == "" && certificates == []
    case _ => false
  }

  /** The algorithm: that of the protected header if it is there, else that of the other; absent or an integer. */
  ghost predicate AlgorithmOk(header: seq<(Value, Value)>, unprotected: seq<(Value, Value)>) {
    match (Lookup(header, Int(1)), Lookup(unprotected, Int(1)))
    case (Some(alg), _) => alg.Null? || alg.Int?
    case (None, Some(alg)) => alg.Null? || alg.Int?
    case (None, None) => true
  }

  /** The fields of an MSO, copied from the map that spells it. */
  ghost predicate MsoSpells(entries: seq<(Value, Value)>, mso: Mso) {
    && mso.version == Get(entries, "version")
    && mso.digestAlgorithm == Get(entries, "digestAlgorithm")
    && mso.docType == Get(entries, "docType")
    && mso.validityInfo == Get(entries, "validityInfo", Map([]))
    && mso.valueDigests == Get(entries, "valueDigests", Map([]))
    && mso.valueDigests.Map?
    && (forall e | e in mso.valueDigests.entries ::
          && e.0.Text? && e.1.Map?
          && forall d | d in e.1.entries :: d.0.Int? && 0 <= d.0.i < TWO_TO_64 && d.1.Bytes?)
    && var keyInfo := Get(entries, "deviceKeyInfo");
       || (Falsy(keyInfo) && mso.deviceKey == Null)
       || (!Falsy(keyInfo) && keyInfo.Map? && mso.deviceKey == Get(keyInfo.entries, "deviceKey"))
  }

  /** What the signed payload says: nothing, something that is no map, or an MSO. */
  ghost predicate PayloadSays(c: Codec, payload: seq<Byte>, mso: Option<Mso>) {
    if payload == [] then mso == None
    else
      exists inner, v ::
        && c.loads(payload) == Some(Tag(24, Bytes(inner))) && c.loads(inner) == Some(v)
        && if v.Map? then mso.Some? && MsoSpells(v.entries, mso.value) else mso == None
  }

  /** The four parts of a COSE_Sign1. */
  datatype Sign1 = Sign1(
    protected: seq<Byte>,
    unprotected: seq<(Value, Value)>,
    payload: seq<Byte>,
    signature: seq<Byte>)
  {
    function Sent(): Value { List([Bytes(protected), Map(unprotected), Bytes(payload), Bytes(signature)]) }
  }

  ghost predicate HeadersOk(c: Codec, cose: Sign1) {
    exists header ::
      && (if cose.protected == [] then header == [] else c.loads(cose.protected) == Some(Map(header)))
      && AlgorithmOk(header, cose.unprotected)
  }

  /** `auth` is what the COSE_Sign1 as sent says. */
  ghost predicate Says(c: Codec, cose: Sign1, auth: IssuerAuth) {
    && HeadersOk(c, cose)
    && Holds(Lookup(cose.unprotected, Int(33)), auth.x5chain)
    && (forall certificate | certificate in auth.x5chain :: c.certificateLoads(certificate))
    && (if auth.x5chain == [] then auth.signatureValid == None
        else c.signature(cose.Sent(), auth.x5chain[0]) == Some(auth.signatureValid))
    && PayloadSays(c, cose.payload, auth.mso)
  }

  lemma TruthyExactly(v: Value)
    ensures Truthy(v) <==> !Falsy(v)
  {
  }

  lemma {:induction false} CertificatesAt(chain: seq<Value>)
    requires forall v | v in chain :: v.Bytes?
    ensures |CertificateBytes(chain)| == |chain|
    ensures forall i | 0 <= i < |chain| :: chain[i] == Bytes(CertificateBytes(chain)[i])
  {
    if chain != [] {
      CertificatesAt(chain[1..]);
      assert chain[0] in chain && CertificateBytes(chain)[0] == chain[0].b;
      forall i | 0 < i < |chain| ensures chain[i] == Bytes(CertificateBytes(chain)[i]) {
        assert chain[i] == chain[1..][i - 1];
      }
    }
  }

  /** The values of `chain` are the byte strings of `certificates`. */
  ghost predicate Carries(chain: seq<Value>, certificates: seq<seq<Byte>>) {
    |chain| == |certificates| && forall i | 0 <= i < |chain| :: chain[i] == Bytes(certificates[i])
  }

  lemma CarriesExactly(chain: seq<Value>, certificates: seq<seq<Byte>>)
    ensures Carries(chain, certificates) <==>
            (forall v | v in chain :: v.Bytes?) && CertificateBytes(chain) == certificates
  {
    if forall v | v in chain :: v.Bytes? {
      CertificatesAt(chain);
      if Carries(chain, certificates) {
        assert forall i | 0 <= i < |chain| :: Bytes(CertificateBytes(chain)[i]) == Bytes(certificates[i]);
      }
    }
  }

  /** The chain that is checked is what header 33 holds. */
  lemma ChainExactly(header: Option<Value>, certificates: seq<seq<Byte>>)
    ensures Holds(header, certificates) <==>
            ChainOf(header.GetOr(Null)).Ok? && Carries(ChainOf(header.GetOr(Null)).value, certificates)
  {
  }

  lemma MsoExactly(entries: seq<(Value, Value)>, mso: Mso)
    ensures ReadMso(entries) == Some(mso) <==> MsoSpells(entries, mso)
  {
    var keyInfo := Get(entries, "deviceKeyInfo");
    TruthyExactly(keyInfo);
  }

  lemma PayloadExactly(c: Codec, payload: seq<Byte>, mso: Option<Mso>)
    ensures MsoIn(c, payload) == Ok(mso) <==> PayloadSays(c, payload, mso)
  {
    forall entries, m ensures ReadMso(entries) == Some(m) <==> MsoSpells(entries, m) {
      MsoExactly(entries, m);
    }
    if MsoIn(c, payload) == Ok(mso) && payload != [] {
      var outer := c.loads(payload).value;
      assert outer == Tag(24, Bytes(outer.content.b));
    }
  }

  lemma SignedUnderExactly(c: Codec, cose: Value, payload: seq<Byte>, certificates: seq<seq<Byte>>, auth: IssuerAuth)
    ensures SignedUnder(c, cose, payload, certificates) == Ok(auth) <==>
            && auth.x5chain == certificates
            && (if certificates == [] then auth.signatureValid == None
                else c.signature(cose, certificates[0]) == Some(auth.signatureValid))
            && PayloadSays(c, payload, auth.mso)
  {
    PayloadExactly(c, payload, auth.mso);
  }

  lemma HeadersExactly(c: Codec, cose: Sign1)
    ensures HeadersOk(c, cose) <==>
            && HeaderMap(c, cose.protected).Ok?
            && var alg := Lookup(HeaderMap(c, cose.protected).value.entries, Int(1))
                          .GetOr(Lookup(cose.unprotected, Int(1)).GetOr(Null));
               alg == Null || alg.Int?
  {
    var r := HeaderMap(c, cose.protected);
    if r.Ok? {
      assert r == Ok(Map(r.value.entries));
    }
  }

  /** With certificates that all load, the reading is that of the payload under the first of them. */
  lemma ChainDecides(c: Codec, cose: Sign1, certificates: seq<seq<Byte>>)
    requires HeadersOk(c, cose) && Holds(Lookup(cose.unprotected, Int(33)), certificates)
    ensures if forall certificate | certificate in certificates :: c.certificateLoads(certificate)
            then FromCoseSign1(c, cose.Sent()) == SignedUnder(c, cose.Sent(), cose.payload, certificates)
            else FromCoseSign1(c, cose.Sent()).Err?
  {
    HeadersExactly(c, cose);
    var held := Lookup(cose.unprotected, Int(33));
    ChainExactly(held, certificates);
    var chain := ChainOf(held.GetOr(Null)).value;
    CarriesExactly(chain, certificates);
  }

  lemma ReadHasChain(c: Codec, cose: Sign1, auth: IssuerAuth)
    requires FromCoseSign1(c, cose.Sent()) == Ok(auth)
    ensures HeadersOk(c, cose) && exists certificates :: Holds(Lookup(cose.unprotected, Int(33)), certificates)
  {
    HeadersExactly(c, cose);
    var held := Lookup(cose.unprotected, Int(33));
    var chain := ChainOf(held.GetOr(Null)).value;
    CarriesExactly(chain, CertificateBytes(chain));
    ChainExactly(held, CertificateBytes(chain));
  }

  /** The parser's reading of a COSE_Sign1, and whether there is one, in terms of the message alone. */
  lemma Sign1Exactly(c: Codec, cose: Sign1, auth: IssuerAuth)
    ensures FromCoseSign1(c, cose.Sent()) == Ok(auth) <==> Says(c, cose, auth)
  {
    var held := Lookup(cose.unprotected, Int(33));
    if FromCoseSign1(c, cose.Sent()) == Ok(auth) {
      ReadHasChain(c, cose, auth);
      var certificates :| Holds(held, certificates);
      ChainDecides(c, cose, certificates);
      SignedUnderExactly(c, cose.Sent(), cose.payload, certificates, auth);
    }
    if Says(c, cose, auth) {
      ChainDecides(c, cose, auth.x5chain);
      SignedUnderExactly(c, cose.Sent(), cose.payload, auth.x5chain, auth);
    }
  }

  // ------------------------------------------------------------ the whole document

  /** The document has no issuerAuth exactly when the entry is falsy, and otherwise what the entry says. */
  lemma IssuerAuthExactly(c: Codec, v: Value, auth: Option<IssuerAuth>)
    ensures IssuerAuthOf(c, v) == Ok(auth) <==>
            if Falsy(v) then auth == None
            else auth.Some? && exists cose: Sign1 :: v == cose.Sent() && Says(c, cose, auth.value)
  {
    TruthyExactly(v);
    if auth.Some? {
      forall cose: Sign1 ensures FromCoseSign1(c, cose.Sent()) == Ok(auth.value) <==> Says(c, cose, auth.value) {
        Sign1Exactly(c, cose, auth.value);
      }
      if FromCoseSign1(c, v).Ok? {
        assert v == Sign1(v.items[0].b, v.items[1].entries, v.items[2].b, v.items[3].b).Sent();
      }
    }
  }

  /** The certificate that header 33 puts first. */
  ghost predicate Leads(header: Option<Value>, leaf: seq<Byte>) {
    match header
    case Some(Bytes(b)) => b == leaf
    case Some(List(items)) => items != [] && items[0] == Bytes(leaf)
    case Some(Map(entries)) => entries != [] && entries[0].0 == Bytes(leaf)
    case _ => false
  }

  /** The signature over the message as sent checks out under the certificate it puts first. */
  ghost predicate SignedBy(c: Codec, raw: Value, leaf: seq<Byte>) {
    exists cose: Sign1 ::
      && RawAuth(raw) == cose.Sent()
      && Leads(Lookup(cose.unprotected, Int(33)), leaf)
      && c.signature(cose.Sent(), leaf) == Some(Some(true))
  }

  /** A parsed document, against the issuerAuth entry it came from. */
  lemma DocumentAuth(c: Codec, raw: Value, d: Document)
    requires DocumentFrom(c, raw, d)
    ensures d.issuerAuth.None? <==> Falsy(RawAuth(raw))
    ensures d.issuerAuth.Some? ==>
              exists cose: Sign1 :: RawAuth(raw) == cose.Sent() && Says(c, cose, d.issuerAuth.value)
  {
    IssuerAuthExactly(c, RawAuth(raw), d.issuerAuth);
  }

  /**
   A parsed document's signature counts as valid exactly when the issuerAuth that was sent is
   signed by the certificate that it puts first; without a certificate nothing was checked.
   */
  lemma ValidExactly(c: Codec, raw: Value, d: Document)
    requires DocumentFrom(c, raw, d)
    ensures d.issuerAuth.Some? && d.issuerAuth.value.signatureValid == Some(true) <==>
            exists leaf :: SignedBy(c, raw, leaf)
    ensures d.issuerAuth.Some? && d.issuerAuth.value.x5chain == [] ==> d.issuerAuth.value.signatureValid == None
    ensures d.issuerAuth.Some? && d.issuerAuth.value.x5chain != [] ==>
              c.signature(RawAuth(raw), d.issuerAuth.value.x5chain[0]) == Some(d.issuerAuth.value.signatureValid)
  {
    DocumentAuth(c, raw, d);
    if d.issuerAuth.Some? {
      var auth := d.issuerAuth.value;
      var cose: Sign1 :| RawAuth(raw) == cose.Sent() && Says(c, cose, auth);
      forall leaf ensures Leads(Lookup(cose.unprotected, Int(33)), leaf) <==>
                          auth.x5chain != [] && auth.x5chain[0] == leaf
      {
      }
      if auth.signatureValid == Some(true) {
        assert SignedBy(c, raw, auth.x5chain[0]);
      }
      if leaf :| SignedBy(c, raw, leaf) {
        var sent: Sign1 :| RawAuth(raw) == sent.Sent() && Leads(Lookup(sent.unprotected, Int(33)), leaf)
                           && c.signature(sent.Sent(), leaf) == Some(Some(true));
        assert sent.Sent() == cose.Sent();
      }
    }
  }

  /**
   `auth` stands for the issuerAuth of `raw` as sent: signed by the first of the certificates sent
   with it, keeping those in their order, and with the MSO that the signed payload spells.
   */
  ghost predicate Authentic(c: Codec, raw: Value, auth: IssuerAuth, cose: Sign1) {
    && auth.x5chain != [] && SignedBy(c, raw, auth.x5chain[0])
    && RawAuth(raw) == cose.Sent()
    && Holds(Lookup(cose.unprotected, Int(33)), auth.x5chain)
    && PayloadSays(c, cose.payload, auth.mso)
  }

  lemma SignedDocument(c: Codec, raw: Value, d: Document)
    requires DocumentFrom(c, raw, d)
    requires d.issuerAuth.Some? && d.issuerAuth.value.signatureValid == Some(true)
    ensures exists cose :: Authentic(c, raw, d.issuerAuth.value, cose)
  {
    DocumentAuth(c, raw, d);
    var auth := d.issuerAuth.value;
    var cose: Sign1 :| RawAuth(raw) == cose.Sent() && Says(c, cose, auth);
    assert Authentic(c, raw, auth, cose);
  }

  // ------------------------------------------------------- the items as sent

  /** The map that an item, tag 24 around its encoding, decodes to. */
  ghost predicate DecodesTo(c: Codec, tagged: Value, item: seq<(Value, Value)>) {
    exists inner :: tagged == Tag(24, Bytes(inner)) && c.loads(inner) == Some(Map(item))
  }

  /** The digest of the item as sent against the table's: None if the algorithm is none of the three. */
  ghost predicate DigestSays(c: Codec, algorithm: Value, tagged: Value, expected: Value, valid: Option<bool>) {
    if algorithm in {Text("SHA-256"), Text("SHA-384"), Text("SHA-512")}
    then valid == Some(expected == Bytes(c.digest(algorithm.s, c.dumps(tagged))))
    else valid == None
  }

  /** The item as sent carries the element, and the table lists its digest id. */
  ghost predicate ItemSays(c: Codec, algorithm: Value, table: seq<(Value, Value)>, tagged: Value, e: Element) {
    exists item, random, expected ::
      && DecodesTo(c, tagged, item)
      && Lookup(item, Text("digestID")) == Some(Int(e.digestId)) && 0 <= e.digestId < TWO_TO_64
      && Lookup(item, Text("random")) == Some(Bytes(random)) && |random| >= 16
      && Lookup(item, Text("elementIdentifier")) == Some(Text(e.identifier))
      && Lookup(item, Text("elementValue")) == Some(e.value)
      && Lookup(table, Int(e.digestId)) == Some(expected) && expected != Null
      && DigestSays(c, algorithm, tagged, expected, e.digestValid)
  }

  lemma ItemExactly(c: Codec, algorithm: Value, table: seq<(Value, Value)>, tagged: Value, e: Element)
    ensures Hashable(algorithm) && ItemSays(c, algorithm, table, tagged, e) <==>
            GoodItem(c, algorithm, table, tagged) && ElementOf(c, algorithm, table, tagged) == e
  {
    if GoodItem(c, algorithm, table, tagged) && ElementOf(c, algorithm, table, tagged) == e {
    }
    if Hashable(algorithm) && ItemSays(c, algorithm, table, tagged, e) {
      SaidItemIsGood(c, algorithm, table, tagged, e);
    }
  }

  lemma SaidItemIsGood(c: Codec, algorithm: Value, table: seq<(Value, Value)>, tagged: Value, e: Element)
    requires Hashable(algorithm) && ItemSays(c, algorithm, table, tagged, e)
    ensures GoodItem(c, algorithm, table, tagged) && ElementOf(c, algorithm, table, tagged) == e
  {
    var item :| DecodesTo(c, tagged, item) && Lookup(item, Text("digestID")) == Some(Int(e.digestId));
    assert Unwrap24(c, tagged) == Ok(Map(item));
  }

  /** Element i of namespace k of a parsed document is what item i of that namespace, as sent, says. */
  lemma ElementsSaid(c: Codec, raw: Value, d: Document, k: nat, i: nat)
    requires DocumentFrom(c, raw, d) && k < |d.namespaces| && i < |d.namespaces[k].1|
    ensures MsoOf(d).Some? && i < |RawItems(raw, k)|
    ensures ItemSays(c, MsoOf(d).value.digestAlgorithm, TableFor(d, k), RawItems(raw, k)[i], d.namespaces[k].1[i])
  {
    NamespaceSource(c, raw, d, k);
    ItemExactly(c, MsoOf(d).value.digestAlgorithm, TableFor(d, k), RawItems(raw, k)[i], d.namespaces[k].1[i]);
  }

  // -------------------------------------------------------- the validity window

  ghost predicate DatedAt(info: seq<(Value, Value)>, name: string, micros: int) {
    exists iso :: Get(info, name) == Date(Instant(micros, true), iso)
  }

  /** The MSO is accepted at `now` exactly within the window that its three aware dates open. */
  lemma WindowExactly(mso: Mso, docType: string, now: int)
    ensures MsoAcceptable(mso, docType, now) <==>
            && mso.version == Text("1.0") && mso.docType == Text(docType) && mso.validityInfo.Map?
            && exists signed, from, until ::
                 && DatedAt(mso.validityInfo.entries, "signed", signed) && signed <= now
                 && DatedAt(mso.validityInfo.entries, "validFrom", from) && from <= now
                 && DatedAt(mso.validityInfo.entries, "validUntil", until) && now < until
  {
    if mso.validityInfo.Map? {
      DateExactly(mso.validityInfo, "signed");
      DateExactly(mso.validityInfo, "validFrom");
      DateExactly(mso.validityInfo, "validUntil");
    }
  }

  lemma DateExactly(info: Value, name: string)
    requires info.Map?
    ensures forall micros :: AwareDate(info, name) == Some(micros) <==> DatedAt(info.entries, name, micros)
  {
    var v := Get(info.entries, name);
    if v.Date? && v.at.aware {
      assert v == Date(Instant(v.at.micros, true), v.iso);
      assert DatedAt(info.entries, name, v.at.micros);
    }
  }

  // -------------------------------------------------------------- the error maps

  /** A text, and an integer that CBOR writes without a bignum. */
  ghost predicate CodeEntry(e: (Value, Value)) {
    e.0.Text? && exists code :: e.1 == Int(code) && -0x1_0000_0000_0000_0000 <= code <= 0xFFFF_FFFF_FFFF_FFFF
  }

  lemma ErrorMapsExactly(v: Value)
    ensures ValidDocumentErrors(v) <==>
            v.List? && forall m | m in v.items :: m.Map? && forall e | e in m.entries :: CodeEntry(e)
    ensures ValidElementErrors(v) <==>
            v.Map? && forall n | n in v.entries :: n.0.Text? && n.1.Map? && forall e | e in n.1.entries :: CodeEntry(e)
  {
    forall m: Value ensures ValidErrorMap(m) <==> m.Map? && forall e | e in m.entries :: CodeEntry(e) {
      ErrorMapExactly(m);
    }
  }

  lemma ErrorMapExactly(m: Value)
    ensures ValidErrorMap(m) <==> m.Map? && forall e | e in m.entries :: CodeEntry(e)
  {
    if m.Map? {
      forall e | e in m.entries ensures CodeEntry(e) <==> e.0.Text? && ValidErrorCode(e.1) {
        if e.1.Int? {
          assert e.1 == Int(e.1.i);
        }
      }
    }
  }
}
