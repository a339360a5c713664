/**
 The issuer identity of trust.py: the first usable subject alternative name of the
 leaf certificate (section 4.2.1.6 of RFC 5280), or else a hash of the leaf.
 */
module IssuerId {
  import opened Common
  import Der

  datatype Extension = Extension(oid: string, value: seq<Byte>)

  datatype NameKind = Uri | Dns | OtherKind

  datatype GeneralName = GeneralName(kind: NameKind, contents: seq<Byte>)

  /**
   The certificate library.  `extensions` and `names` are its strict loaders (None when
   they raise), `redump` re-encodes what `names` loaded, `leafHash` is the hash identity.
   */
  datatype Library = Library(
    extensions: seq<Byte> -> Option<seq<Extension>>,
    names: seq<Byte> -> Option<seq<GeneralName>>,
    redump: seq<Byte> -> seq<Byte>,
    leafHash: seq<Byte> -> string)

  const SAN_OID := "2.5.29.17"

  /** What one extension or one list of names leads to. */
  datatype Verdict = Named(id: string) | LeafHash | NextExtension

  predicate Relevant(name: GeneralName) { name.kind != OtherKind }

  predicate IsAscii(bytes: seq<Byte>) { forall i | 0 <= i < |bytes| :: bytes[i] < 128 }

  function AsciiText(bytes: seq<Byte>): (text: string)
    requires IsAscii(bytes)
    ensures |text| == |bytes|
  {
    seq(|bytes|, i requires 0 <= i < |bytes| => bytes[i] as char)
  }

  /** A name the loop can read past: of another kind, or decodable as ASCII. */
  predicate Legible(name: GeneralName) { Relevant(name) ==> IsAscii(name.contents) }

  predicate UsableUri(name: GeneralName) {
    && name.kind == Uri
    && IsAscii(name.contents)
    && ("http://" <= AsciiText(name.contents) || "https://" <= AsciiText(name.contents))
  }

  function UriIdentity(name: GeneralName): string
    requires UsableUri(name)
  {
    var text := AsciiText(name.contents);
    if "http://" <= text then "https://" + text[|"http://"|..] else text
  }

  predicate UsableDns(name: GeneralName) {
    && name.kind == Dns
    && IsAscii(name.contents)
    && !("*." <= AsciiText(name.contents))
  }

  // ------------------------------------------------------- what a name list means

  /** Index of the first name satisfying p, or the length of the list when there is none. */
  function First(names: seq<GeneralName>, p: GeneralName -> bool): (i: nat)
    ensures i <= |names|
    ensures i < |names| ==> p(names[i])
    ensures forall j | 0 <= j < i :: !p(names[j])
  {
    if names == [] || p(names[0]) then 0 else 1 + First(names[1..], p)
  }

  /**
   Three independent searches: a usable URI that no unreadable name precedes wins; failing
   that an unreadable name spoils the list; failing that the first usable DNS name is taken.
   */
  function VerdictOf(names: seq<GeneralName>): Verdict {
    var uri := First(names, n => UsableUri(n));
    var spoilt := First(names, n => !Legible(n));
    var dns := First(names, n => UsableDns(n));
    if uri < spoilt then Named(UriIdentity(names[uri]))
    else if spoilt < |names| then LeafHash
    else if dns < |names| then Named("https://" + AsciiText(names[dns].contents))
    else NextExtension
  }

  /** The single early-exit pass of the source finds what the three searches find. */
  method ScanNames(names: seq<GeneralName>) returns (v: Verdict)
    ensures v == VerdictOf(names)
  {
    var dnsName: Option<string> := None;
    for k := 0 to |names|
      invariant First(names, n => UsableUri(n)) >= k
      invariant First(names, n => !Legible(n)) >= k
      invariant var dns := First(names, n => UsableDns(n));
                dnsName == if dns < k then Some(AsciiText(names[dns].contents)) else None
    {
      var name := names[k];
      if name.kind == Uri || name.kind == Dns {
        if !IsAscii(name.contents) {
          return LeafHash;
        }
        var value := AsciiText(name.contents);
        if name.kind == Uri {
          if "http://" <= value {
            return Named("https://" + value[|"http://"|..]);
          }
          if "https://" <= value {
            return Named(value);
          }
        } else if dnsName.None? && !("*." <= value) {
          dnsName := Some(value);
        }
      }
    }
    if dnsName.Some? {
      return Named("https://" + dnsName.value);
    }
    return NextExtension;
  }

  // ---------------------------------------------------------- the whole traversal

  function ExtensionVerdict(lib: Library, ext: Extension): Verdict {
    if ext.oid != SAN_OID then NextExtension
    else if !Der.ValidDer(ext.value) then LeafHash
    else match lib.names(ext.value)
         case None => LeafHash
         case Some(names) => if lib.redump(ext.value) != ext.value then LeafHash else VerdictOf(names)
  }

  /** Extension i is the first to settle the identity. */
  ghost predicate Settles(lib: Library, exts: seq<Extension>, i: int) {
    && 0 <= i < |exts|
    && ExtensionVerdict(lib, exts[i]) != NextExtension
    && forall j | 0 <= j < i :: ExtensionVerdict(lib, exts[j]) == NextExtension
  }

  /** What `id` has to be for a leaf whose extensions are `exts`. */
  ghost predicate IdentityFrom(lib: Library, leaf: seq<Byte>, exts: seq<Extension>, id: string) {
    && (forall i | Settles(lib, exts, i) ::
          match ExtensionVerdict(lib, exts[i])
          case Named(name) => id == name
          case _ => id == lib.leafHash(leaf))
    && ((forall i | 0 <= i < |exts| :: ExtensionVerdict(lib, exts[i]) == NextExtension) ==>
          id == lib.leafHash(leaf))
  }

  ghost predicate IsIssuerIdentity(lib: Library, leaf: seq<Byte>, id: string) {
    if !Der.ValidDer(leaf) || lib.extensions(leaf).None? then id == lib.leafHash(leaf)
    else IdentityFrom(lib, leaf, lib.extensions(leaf).value, id)
  }

  lemma SettledBy(lib: Library, leaf: seq<Byte>, exts: seq<Extension>, k: nat, id: string)
    requires k < |exts| && Settles(lib, exts, k)
    requires match ExtensionVerdict(lib, exts[k])
             case Named(name) => id == name
             case _ => id == lib.leafHash(leaf)
    ensures IdentityFrom(lib, leaf, exts, id)
  {
    forall i | Settles(lib, exts, i) ensures i == k {
      assert ExtensionVerdict(lib, exts[i]) != NextExtension;
    }
  }

  method ExtensionIdentity(lib: Library, ext: Extension) returns (v: Verdict)
    ensures v == ExtensionVerdict(lib, ext)
  {
    if ext.oid != SAN_OID {
      return NextExtension;
    }
    var valid := Der.ValidateDerEncoding(ext.value);
    if valid.Err? {
      return LeafHash;
    }
    var names := lib.names(ext.value);
    if names.None? || lib.redump(ext.value) != ext.value {
      return LeafHash;
    }
    v := ScanNames(names.value);
  }

  method MdocIssuerId(lib: Library, leaf: seq<Byte>) returns (id: string)
    ensures IsIssuerIdentity(lib, leaf, id)
  {
    id := lib.leafHash(leaf);
    var valid := Der.ValidateDerEncoding(leaf);
    if valid.Err? {
      return;
    }
    var loaded := lib.extensions(leaf);
    if loaded.None? {
      return;
    }
    var exts := loaded.value;
    for k := 0 to |exts|
      invariant forall j | 0 <= j < k :: ExtensionVerdict(lib, exts[j]) == NextExtension
    {
      var verdict := ExtensionIdentity(lib, exts[k]);
      if verdict != NextExtension {
        id := if verdict.Named? then verdict.id else id;
        SettledBy(lib, leaf, exts, k, id);
        return;
      }
    }
  }

  // ------------------------------------------------------------------ properties

  /** The description leaves no choice: one leaf, one identity. */
  lemma IdentityUnique(lib: Library, leaf: seq<Byte>, a: string, b: string)
    requires IsIssuerIdentity(lib, leaf, a) && IsIssuerIdentity(lib, leaf, b)
    ensures a == b
  {
    if Der.ValidDer(leaf) && lib.extensions(leaf).Some? {
      var exts := lib.extensions(leaf).value;
      var verdicts := seq(|exts|, i requires 0 <= i < |exts| => ExtensionVerdict(lib, exts[i]));
      var i := FirstSettled(verdicts);
      assert forall j | 0 <= j < |exts| :: verdicts[j] == ExtensionVerdict(lib, exts[j]);
      if i < |exts| {
        assert Settles(lib, exts, i);
      }
    }
  }

  lemma {:induction false} FirstSettled(verdicts: seq<Verdict>) returns (i: nat)
    ensures i <= |verdicts|
    ensures forall j | 0 <= j < i :: verdicts[j] == NextExtension
    ensures i < |verdicts| ==> verdicts[i] != NextExtension
  {
    i := 0;
    if verdicts != [] && verdicts[0] == NextExtension {
      i := FirstSettled(verdicts[1..]);
      assert forall j | 0 < j < |verdicts| :: verdicts[j] == verdicts[1..][j - 1];
      i := i + 1;
    }
  }

  /** A name list forces the hash exactly when an unreadable name has no usable URI before it. */
  lemma SpoiltExactly(names: seq<GeneralName>)
    ensures VerdictOf(names) == LeafHash <==>
            exists i :: 0 <= i < |names| && !Legible(names[i]) && forall j | 0 <= j < i :: !UsableUri(names[j])
  {
    var uri := First(names, n => UsableUri(n));
    var spoilt := First(names, n => !Legible(n));
    if VerdictOf(names) == LeafHash {
      assert !Legible(names[spoilt]) && forall j | 0 <= j < spoilt :: !UsableUri(names[j]);
    }
    forall i | 0 <= i < |names| && !Legible(names[i]) && forall j | 0 <= j < i :: !UsableUri(names[j])
      ensures VerdictOf(names) == LeafHash
    {
      assert spoilt <= i;
      assert uri >= i;
    }
  }

  // -------------------------------------------- which identity, in the names' own text

  /** The contents octets are the ASCII codes of `text`. */
  ghost predicate Reads(name: GeneralName, kind: NameKind, text: string) {
    && name.kind == kind
    && |text| == |name.contents|
    && forall i | 0 <= i < |text| :: name.contents[i] < 128 && text[i] as int == name.contents[i]
  }

  /** A name of either kind with an octet outside ASCII. */
  ghost predicate Unreadable(name: GeneralName) {
    (name.kind == Uri || name.kind == Dns) && exists i :: 0 <= i < |name.contents| && name.contents[i] >= 128
  }

  /** A web URI names the identity: http becomes https, https stays as it is. */
  ghost predicate UriGives(name: GeneralName, id: string) {
    exists rest ::
      id == "https://" + rest && (Reads(name, Uri, "http://" + rest) || Reads(name, Uri, "https://" + rest))
  }

  /** A DNS name that is no wildcard names the identity with https in front. */
  ghost predicate DnsGives(name: GeneralName, id: string) {
    exists host :: id == "https://" + host && Reads(name, Dns, host) && !("*." <= host)
  }

  ghost predicate WebUri(name: GeneralName) { exists id :: UriGives(name, id) }

  ghost predicate HostName(name: GeneralName) { exists id :: DnsGives(name, id) }

  /** Name i is the first web URI, and everything before it can be read. */
  ghost predicate NamedByUri(names: seq<GeneralName>, i: int, id: string) {
    && 0 <= i < |names| && UriGives(names[i], id)
    && forall j | 0 <= j < i :: !Unreadable(names[j]) && !WebUri(names[j])
  }

  /** Everything can be read, there is no web URI, and name i is the first DNS name that is no wildcard. */
  ghost predicate NamedByDns(names: seq<GeneralName>, i: int, id: string) {
    && 0 <= i < |names| && DnsGives(names[i], id)
    && (forall j | 0 <= j < |names| :: !Unreadable(names[j]) && !WebUri(names[j]))
    && (forall j | 0 <= j < i :: !HostName(names[j]))
  }

  lemma ReadsAscii(name: GeneralName, kind: NameKind, text: string)
    ensures Reads(name, kind, text) <==>
            name.kind == kind && IsAscii(name.contents) && AsciiText(name.contents) == text
  {
    if Reads(name, kind, text) {
      assert AsciiText(name.contents) == text;
    }
  }

  lemma UriExactly(name: GeneralName, id: string)
    ensures UriGives(name, id) <==> UsableUri(name) && id == UriIdentity(name)
  {
    assert |"http://"| == 7 && |"https://"| == 8 && "http://"[4] == ':' && "https://"[4] == 's';
    if UriGives(name, id) {
      var rest :|
        id == "https://" + rest && (Reads(name, Uri, "http://" + rest) || Reads(name, Uri, "https://" + rest));
      ReadsAscii(name, Uri, "http://" + rest);
      ReadsAscii(name, Uri, "https://" + rest);
      assert ("http://" + rest)[7..] == rest && ("https://" + rest)[4] == 's';
    }
    if UsableUri(name) {
      var text := AsciiText(name.contents);
      ReadsAscii(name, Uri, text);
      var prefix := if "http://" <= text then "http://" else "https://";
      var rest := text[|prefix|..];
      assert text == prefix + rest;
      assert UriGives(name, "https://" + rest);
    }
  }

  lemma DnsExactly(name: GeneralName, id: string)
    ensures DnsGives(name, id) <==> UsableDns(name) && id == "https://" + AsciiText(name.contents)
  {
    if DnsGives(name, id) {
      var host :| id == "https://" + host && Reads(name, Dns, host) && !("*." <= host);
      ReadsAscii(name, Dns, host);
    }
    if UsableDns(name) {
      ReadsAscii(name, Dns, AsciiText(name.contents));
    }
  }

  lemma KindsOfName(name: GeneralName)
    ensures WebUri(name) <==> UsableUri(name)
    ensures HostName(name) <==> UsableDns(name)
    ensures Unreadable(name) <==> !Legible(name)
  {
    forall id ensures UriGives(name, id) <==> UsableUri(name) && id == UriIdentity(name) {
      UriExactly(name, id);
    }
    forall id ensures DnsGives(name, id) <==> UsableDns(name) && id == "https://" + AsciiText(name.contents) {
      DnsExactly(name, id);
    }
    if UsableUri(name) {
      assert UriGives(name, UriIdentity(name));
    }
    if UsableDns(name) {
      assert DnsGives(name, "https://" + AsciiText(name.contents));
    }
  }

  /** The three searches, in the terms of the names' own text. */
  lemma SearchesFind(names: seq<GeneralName>, i: nat)
    requires i <= |names|
    ensures First(names, n => UsableUri(n)) >= i <==> forall j | 0 <= j < i :: !WebUri(names[j])
    ensures First(names, n => !Legible(n)) >= i <==> forall j | 0 <= j < i :: !Unreadable(names[j])
    ensures First(names, n => UsableDns(n)) >= i <==> forall j | 0 <= j < i :: !HostName(names[j])
  {
    forall j | 0 <= j < |names|
      ensures WebUri(names[j]) <==> UsableUri(names[j])
      ensures HostName(names[j]) <==> UsableDns(names[j])
      ensures Unreadable(names[j]) <==> !Legible(names[j])
    {
      KindsOfName(names[j]);
    }
  }

  lemma ByUriExactly(names: seq<GeneralName>, i: int, id: string)
    ensures NamedByUri(names, i, id) <==>
            && 0 <= i < |names| && i == First(names, n => UsableUri(n)) && i <= First(names, n => !Legible(n))
            && id == UriIdentity(names[i])
  {
    if 0 <= i < |names| {
      SearchesFind(names, i);
      UriExactly(names[i], id);
    }
  }

  lemma ByDnsExactly(names: seq<GeneralName>, i: int, id: string)
    ensures NamedByDns(names, i, id) <==>
            && 0 <= i < |names| && i == First(names, n => UsableDns(n))
            && First(names, n => UsableUri(n)) == First(names, n => !Legible(n)) == |names|
            && id == "https://" + AsciiText(names[i].contents)
  {
    if 0 <= i < |names| {
      SearchesFind(names, i);
      SearchesFind(names, |names|);
      DnsExactly(names[i], id);
    }
  }

  /**
   The identity a name list gives, exactly: that of its first web URI if everything before it
   can be read; without a web URI, that of its first DNS name if everything can be read.
   */
  lemma NamedExactly(names: seq<GeneralName>, id: string)
    ensures VerdictOf(names) == Named(id) <==>
            (exists i :: NamedByUri(names, i, id)) || (exists i :: NamedByDns(names, i, id))
    ensures VerdictOf(names) == Named(id) ==> "https://" <= id
  {
    var uri, dns, spoilt :=
      First(names, n => UsableUri(n)), First(names, n => UsableDns(n)), First(names, n => !Legible(n));
    forall i ensures NamedByUri(names, i, id) <==>
                     && 0 <= i < |names| && i == uri && i <= spoilt && id == UriIdentity(names[i])
    {
      ByUriExactly(names, i, id);
    }
    forall i ensures NamedByDns(names, i, id) <==>
                     && 0 <= i < |names| && i == dns && uri == spoilt == |names|
                     && id == "https://" + AsciiText(names[i].contents)
    {
      ByDnsExactly(names, i, id);
    }
    assert uri < spoilt <==> uri < |names| && uri <= spoilt;
  }

  /** The names of a subject alternative name extension that is strict DER and re-encodes to itself. */
  ghost predicate Loads(lib: Library, ext: Extension, names: seq<GeneralName>) {
    && Der.ValidDer(ext.value)
    && lib.names(ext.value) == Some(names)
    && lib.redump(ext.value) == ext.value
  }

  /** An extension that is passed over: of another type, or a sound list of names that names nobody. */
  ghost predicate PassedOver(lib: Library, ext: Extension) {
    ext.oid != SAN_OID || exists names :: Loads(lib, ext, names) && VerdictOf(names) == NextExtension
  }

  /** Extension i, all earlier ones being passed over, loads as `names`. */
  ghost predicate Reached(lib: Library, exts: seq<Extension>, i: int, names: seq<GeneralName>) {
    && 0 <= i < |exts| && exts[i].oid == SAN_OID && Loads(lib, exts[i], names)
    && forall j | 0 <= j < i :: PassedOver(lib, exts[j])
  }

  lemma VerdictMeans(lib: Library, ext: Extension)
    ensures ExtensionVerdict(lib, ext) == NextExtension <==> PassedOver(lib, ext)
    ensures ExtensionVerdict(lib, ext).Named? ==> ext.oid == SAN_OID && exists names :: Loads(lib, ext, names)
    ensures forall names | ext.oid == SAN_OID && Loads(lib, ext, names) ::
              ExtensionVerdict(lib, ext) == VerdictOf(names)
  {
    if ext.oid == SAN_OID && lib.names(ext.value).Some? {
      var names := lib.names(ext.value).value;
      assert Der.ValidDer(ext.value) && lib.redump(ext.value) == ext.value ==> Loads(lib, ext, names);
    }
  }

  /** Some reached list of names among the leaf's extensions gives `id`. */
  ghost predicate NamedIn(lib: Library, exts: seq<Extension>, id: string) {
    exists i, names :: Reached(lib, exts, i, names) && VerdictOf(names) == Named(id)
  }

  /**
   The identity of a leaf: what a reached list of names in the leaf's own extensions gives,
   always an https identity, and otherwise the hash.
   */
  lemma IdentityIsNamed(lib: Library, leaf: seq<Byte>, id: string)
    requires IsIssuerIdentity(lib, leaf, id)
    ensures id == lib.leafHash(leaf)
            || (Der.ValidDer(leaf) && lib.extensions(leaf).Some? && NamedIn(lib, lib.extensions(leaf).value, id))
    ensures forall named | Der.ValidDer(leaf) && lib.extensions(leaf).Some?
                           && NamedIn(lib, lib.extensions(leaf).value, named) :: id == named && "https://" <= id
  {
    if Der.ValidDer(leaf) && lib.extensions(leaf).Some? {
      var exts := lib.extensions(leaf).value;
      forall named | NamedIn(lib, exts, named) ensures id == named && "https://" <= id {
      }
      if id != lib.leafHash(leaf) {
        var verdicts := seq(|exts|, k requires 0 <= k < |exts| => ExtensionVerdict(lib, exts[k]));
        var i := FirstSettled(verdicts);
        assert forall j | 0 <= j < |exts| :: verdicts[j] == ExtensionVerdict(lib, exts[j]);
        SettledIsReached(lib, leaf, exts, i, id);
      }
    }
  }

  lemma AllVerdicts(lib: Library, exts: seq<Extension>)
    ensures forall j | 0 <= j < |exts| :: ExtensionVerdict(lib, exts[j]) == NextExtension <==> PassedOver(lib, exts[j])
    ensures forall i, names | Reached(lib, exts, i, names) :: ExtensionVerdict(lib, exts[i]) == VerdictOf(names)
  {
    forall j | 0 <= j < |exts|
      ensures ExtensionVerdict(lib, exts[j]) == NextExtension <==> PassedOver(lib, exts[j])
    {
      VerdictMeans(lib, exts[j]);
    }
    forall i, names | Reached(lib, exts, i, names) ensures ExtensionVerdict(lib, exts[i]) == VerdictOf(names) {
      VerdictMeans(lib, exts[i]);
    }
  }

  lemma SettledIsReached(lib: Library, leaf: seq<Byte>, exts: seq<Extension>, i: nat, id: string)
    requires IdentityFrom(lib, leaf, exts, id) && id != lib.leafHash(leaf)
    requires i <= |exts| && (i < |exts| ==> ExtensionVerdict(lib, exts[i]) != NextExtension)
    requires forall j | 0 <= j < i :: ExtensionVerdict(lib, exts[j]) == NextExtension
    ensures NamedIn(lib, exts, id)
  {
    AllVerdicts(lib, exts);
    assert i < |exts| && Settles(lib, exts, i);
    VerdictMeans(lib, exts[i]);
    var names :| Loads(lib, exts[i], names);
    assert Reached(lib, exts, i, names);
  }

  lemma FirstSkips(pre: seq<GeneralName>, name: GeneralName, post: seq<GeneralName>, p: GeneralName -> bool)
    requires !p(name)
    ensures var i, j := First(pre + [name] + post, p), First(pre + post, p);
            && (if j < |pre| then i == j else i == j + 1)
            && (j < |pre + post| ==> (pre + [name] + post)[i] == (pre + post)[j])
  {
    var with, without := pre + [name] + post, pre + post;
    var j := First(without, p);
    assert forall k | 0 <= k < |pre| :: with[k] == without[k];
    assert with[|pre|] == name;
    assert forall k | |pre| <= k < |without| :: with[k + 1] == without[k];
    var i := if j < |pre| then j else j + 1;
    forall k | 0 <= k < i ensures !p(with[k]) {
      assert k == |pre| || with[k] == without[if k < |pre| then k else k - 1];
    }
  }

  lemma RemoveIrrelevant(pre: seq<GeneralName>, name: GeneralName, post: seq<GeneralName>)
    requires !Relevant(name)
    ensures VerdictOf(pre + [name] + post) == VerdictOf(pre + post)
  {
    FirstSkips(pre, name, post, n => UsableUri(n));
    FirstSkips(pre, name, post, n => !Legible(n));
    FirstSkips(pre, name, post, n => UsableDns(n));
  }

  function RelevantOnly(names: seq<GeneralName>): seq<GeneralName> {
    if names == [] then []
    else (if Relevant(names[0]) then [names[0]] else []) + RelevantOnly(names[1..])
  }

  lemma {:induction false} RelevantOnlyAfter(pre: seq<GeneralName>, names: seq<GeneralName>)
    ensures VerdictOf(pre + RelevantOnly(names)) == VerdictOf(pre + names)
    decreases |names|
  {
    if names != [] {
      ShiftName(pre, names);
      if Relevant(names[0]) {
        RelevantOnlyAfter(pre + [names[0]], names[1..]);
      } else {
        RelevantOnlyAfter(pre, names[1..]);
        RemoveIrrelevant(pre, names[0], names[1..]);
      }
    }
  }

  lemma Regroup(pre: seq<GeneralName>, name: GeneralName, post: seq<GeneralName>)
    ensures pre + [name] + post == pre + ([name] + post)
  {
  }

  lemma ShiftName(pre: seq<GeneralName>, names: seq<GeneralName>)
    requires names != []
    ensures pre + [names[0]] + names[1..] == pre + names
    ensures if Relevant(names[0]) then pre + [names[0]] + RelevantOnly(names[1..]) == pre + RelevantOnly(names)
            else RelevantOnly(names) == RelevantOnly(names[1..])
  {
    var rest := RelevantOnly(names[1..]);
    Regroup(pre, names[0], names[1..]);
    assert names == [names[0]] + names[1..];
    if Relevant(names[0]) {
      Regroup(pre, names[0], rest);
      assert RelevantOnly(names) == [names[0]] + rest;
    } else {
      assert RelevantOnly(names) == [] + rest;
    }
  }

  /** Names of other kinds (IP addresses, directory names, ...) never change the choice. */
  lemma OtherKindsIrrelevant(names: seq<GeneralName>)
    ensures VerdictOf(RelevantOnly(names)) == VerdictOf(names)
  {
    RelevantOnlyAfter([], names);
    assert [] + names == names && [] + RelevantOnly(names) == RelevantOnly(names);
  }
}
