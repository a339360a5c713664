/**
 `--request DOCTYPE:NAMESPACE:CLAIM,...` flags (parse_requests of cli.py): which texts are
 read as which specs, and how the specs are merged into requests.
 */
module Requests {
  import opened Common
  import opened Validation

  // --------------------------------------------------------- one flag, as text

  /** The characters str.strip() removes. */
  predicate IsSpace(c: char) {
    var n := c as int;
    || 0x09 <= n <= 0x0D || 0x1C <= n <= 0x20 || n == 0x85 || n == 0xA0 || n == 0x1680
    || 0x2000 <= n <= 0x200A || n == 0x2028 || n == 0x2029 || n == 0x202F || n == 0x205F || n == 0x3000
  }

  function Strip(s: string): (r: string)
    ensures r != "" ==> !IsSpace(r[0]) && !IsSpace(r[|r| - 1])
    ensures forall c | c in r :: c in s
    decreases |s|
  {
    if s == "" then ""
    else if IsSpace(s[0]) then Strip(s[1..])
    else if IsSpace(s[|s| - 1]) then Strip(s[..|s| - 1])
    else s
  }

  /** The text before and after the first `sep`. */
  function Partition(s: string, sep: char): (r: Option<(string, string)>)
    ensures r.None? <==> sep !in s
    ensures r.Some? ==> sep !in r.value.0 && s == r.value.0 + [sep] + r.value.1
  {
    if s == "" then None
    else if s[0] == sep then Some(("", s[1..]))
    else
      match Partition(s[1..], sep)
      case None => None
      case Some((head, tail)) => Some(([s[0]] + head, tail))
  }

  function Split(s: string, sep: char): (parts: seq<string>)
    ensures parts != []
    ensures forall p | p in parts :: sep !in p
    decreases |s|
  {
    match Partition(s, sep)
    case None => [s]
    case Some((head, tail)) => [head] + Split(tail, sep)
  }

  function Join(parts: seq<string>, sep: char): string {
    if parts == [] then ""
    else if |parts| == 1 then parts[0]
    else parts[0] + [sep] + Join(parts[1..], sep)
  }

  /** The stripped pieces that are not blank. */
  function NonBlank(parts: seq<string>): (claims: seq<string>)
    ensures forall c | c in claims :: c != "" && c in Stripped(parts)
  {
    if parts == [] then []
    else if Strip(parts[0]) != "" then [Strip(parts[0])] + NonBlank(parts[1..])
    else NonBlank(parts[1..])
  }

  function Stripped(parts: seq<string>): seq<string> {
    if parts == [] then [] else [Strip(parts[0])] + Stripped(parts[1..])
  }

  lemma {:induction false} StrippedFrom(parts: seq<string>, claim: string)
    requires claim in Stripped(parts)
    ensures exists part :: part in parts && claim == Strip(part)
  {
    if claim == Strip(parts[0]) {
      assert parts[0] in parts;
    } else {
      StrippedFrom(parts[1..], claim);
    }
  }

  datatype Spec = Spec(docType: string, ns: string, claims: seq<string>)

  datatype SpecError = BadShape | NoClaims

  function ParseSpec(text: string): Result<Spec, SpecError> {
    match Partition(text, ':')
    case None => Err(BadShape)
    case Some((docType, rest)) =>
      match Partition(rest, ':')
      case None => Err(BadShape)
      case Some((ns, claims)) =>
        var claimList := NonBlank(Split(claims, ','));
        if claimList == [] then Err(NoClaims) else Ok(Spec(docType, ns, claimList))
  }

  function RenderSpec(spec: Spec): string {
    spec.docType + ":" + spec.ns + ":" + Join(spec.claims, ',')
  }

  predicate CleanClaim(claim: string) {
    claim != "" && ',' !in claim && !IsSpace(claim[0]) && !IsSpace(claim[|claim| - 1])
  }

  /** A spec that survives its own syntax: no separator in a name, no blank or padded claim. */
  predicate WellFormedSpec(spec: Spec) {
    && ':' !in spec.docType
    && ':' !in spec.ns
    && spec.claims != []
    && forall c | c in spec.claims :: CleanClaim(c)
  }

  lemma {:induction false} PartitionAt(head: string, sep: char, tail: string)
    requires sep !in head
    ensures Partition(head + [sep] + tail, sep) == Some((head, tail))
  {
    var s := head + [sep] + tail;
    if head == "" {
      assert s == [sep] + tail;
    } else {
      assert s[1..] == head[1..] + [sep] + tail;
      PartitionAt(head[1..], sep, tail);
      assert [head[0]] + head[1..] == head;
    }
  }

  lemma {:induction false} SplitJoin(parts: seq<string>, sep: char)
    requires parts != [] && forall p | p in parts :: sep !in p
    ensures Split(Join(parts, sep), sep) == parts
  {
    if |parts| > 1 {
      PartitionAt(parts[0], sep, Join(parts[1..], sep));
      SplitJoin(parts[1..], sep);
    }
  }

  lemma {:induction false} NonBlankKeeps(claims: seq<string>)
    requires forall c | c in claims :: CleanClaim(c)
    ensures NonBlank(claims) == claims
  {
    if claims != [] {
      assert CleanClaim(claims[0]);
      NonBlankKeeps(claims[1..]);
    }
  }

  /** Rendering then parsing gives back every well-formed spec. */
  lemma RenderThenParse(spec: Spec)
    requires WellFormedSpec(spec)
    ensures ParseSpec(RenderSpec(spec)) == Ok(spec)
  {
    var claims := Join(spec.claims, ',');
    PartitionAt(spec.docType, ':', spec.ns + [':'] + claims);
    assert RenderSpec(spec) == spec.docType + [':'] + (spec.ns + [':'] + claims);
    PartitionAt(spec.ns, ':', claims);
    forall p | p in spec.claims ensures ',' !in p { assert CleanClaim(p); }
    SplitJoin(spec.claims, ',');
    NonBlankKeeps(spec.claims);
  }

  /** Whatever text is accepted, the spec read from it is well formed, so re-rendering it is stable. */
  lemma ParsedIsWellFormed(text: string)
    requires ParseSpec(text).Ok?
    ensures WellFormedSpec(ParseSpec(text).value)
    ensures ParseSpec(RenderSpec(ParseSpec(text).value)) == ParseSpec(text)
  {
    var spec := ParseSpec(text).value;
    var pieces := Split(Partition(Partition(text, ':').value.1, ':').value.1, ',');
    forall c | c in spec.claims ensures CleanClaim(c) {
      StrippedFrom(pieces, c);
    }
    RenderThenParse(spec);
  }

  // --------------------------------------------- which texts spell which flags

  ghost predicate Blank(s: string) { forall c | c in s :: IsSpace(c) }

  ghost predicate Padded(piece: string, claim: string) {
    exists left, right :: Blank(left) && Blank(right) && piece == left + claim + right
  }

  /** The pieces are the claims in order, blanks around each, and blank pieces anywhere between. */
  ghost predicate Pads(pieces: seq<string>, claims: seq<string>) {
    if pieces == [] then claims == []
    else if Blank(pieces[0]) then Pads(pieces[1..], claims)
    else claims != [] && Padded(pieces[0], claims[0]) && Pads(pieces[1..], claims[1..])
  }

  /** The text of a flag: type, namespace, and the claims with all the blanks and commas one likes. */
  ghost predicate SpellsFlag(text: string, spec: Spec) {
    && WellFormedSpec(spec)
    && exists pieces :: pieces != [] && Pads(pieces, spec.claims)
                        && text == spec.docType + ":" + spec.ns + ":" + Join(pieces, ',')
  }

  lemma BlankInFront(s: string, claim: string)
    requires s != "" && IsSpace(s[0]) && Padded(s[1..], claim)
    ensures Padded(s, claim)
  {
    var left, right :| Blank(left) && Blank(right) && s[1..] == left + claim + right;
    var more := [s[0]] + left;
    assert Blank(more) && s == more + claim + right;
  }

  lemma BlankBehind(s: string, claim: string)
    requires s != "" && IsSpace(s[|s| - 1]) && Padded(s[..|s| - 1], claim)
    ensures Padded(s, claim)
  {
    var left, right :| Blank(left) && Blank(right) && s[..|s| - 1] == left + claim + right;
    var more := right + [s[|s| - 1]];
    assert Blank(more) && s == left + claim + more;
  }

  /** Strip removes blanks at the ends and nothing else. */
  lemma {:induction false} StripMeans(s: string)
    ensures Padded(s, Strip(s))
    decreases |s|
  {
    if s == "" || !(IsSpace(s[0]) || IsSpace(s[|s| - 1])) {
      var none := "";
      assert Blank(none) && s == none + Strip(s) + none;
    } else if IsSpace(s[0]) {
      StripMeans(s[1..]);
      BlankInFront(s, Strip(s));
    } else {
      StripMeans(s[..|s| - 1]);
      BlankBehind(s, Strip(s));
    }
  }

  lemma {:induction false} StripPadded(left: string, claim: string, right: string)
    requires Blank(left) && Blank(right) && CleanClaim(claim)
    ensures Strip(left + claim + right) == claim
    decreases |left| + |right|
  {
    var s := left + claim + right;
    if left != "" {
      assert s[1..] == left[1..] + claim + right;
      StripPadded(left[1..], claim, right);
    } else if right != "" {
      assert s[0] == claim[0] && s[|s| - 1] == right[|right| - 1];
      assert s[..|s| - 1] == left + claim + right[..|right| - 1];
      StripPadded(left, claim, right[..|right| - 1]);
    } else {
      assert s == claim;
    }
  }

  lemma {:induction false} StripBlank(s: string)
    ensures Strip(s) == "" <==> Blank(s)
  {
    if Blank(s) && s != "" {
      StripBlank(s[1..]);
    }
    if Strip(s) == "" {
      StripMeans(s);
    }
  }

  lemma PaddedExactly(piece: string, claim: string)
    requires CleanClaim(claim)
    ensures Padded(piece, claim) <==> Strip(piece) == claim
  {
    if Padded(piece, claim) {
      var left, right :| Blank(left) && Blank(right) && piece == left + claim + right;
      StripPadded(left, claim, right);
    }
    if Strip(piece) == claim {
      StripMeans(piece);
    }
  }

  /** The claims read from the pieces are those that the pieces pad, and no others. */
  lemma {:induction false} NonBlankExactly(pieces: seq<string>, claims: seq<string>)
    requires forall c | c in claims :: CleanClaim(c)
    ensures NonBlank(pieces) == claims <==> Pads(pieces, claims)
  {
    if pieces != [] {
      StripBlank(pieces[0]);
      if Blank(pieces[0]) {
        NonBlankExactly(pieces[1..], claims);
      } else if claims != [] {
        NonBlankExactly(pieces[1..], claims[1..]);
        PaddedExactly(pieces[0], claims[0]);
        assert claims == [claims[0]] + claims[1..];
      }
    }
  }

  lemma {:induction false} PadsNoComma(pieces: seq<string>, claims: seq<string>)
    requires Pads(pieces, claims) && forall c | c in claims :: CleanClaim(c)
    ensures forall p | p in pieces :: ',' !in p
  {
    if pieces != [] && !Blank(pieces[0]) {
      assert CleanClaim(claims[0]);
      PadsNoComma(pieces[1..], claims[1..]);
    } else if pieces != [] {
      PadsNoComma(pieces[1..], claims);
    }
  }

  lemma {:induction false} JoinSplit(s: string, sep: char)
    ensures Join(Split(s, sep), sep) == s
    decreases |s|
  {
    if Partition(s, sep).Some? {
      JoinSplit(Partition(s, sep).value.1, sep);
    }
  }

  /** A text with two colons is cut at the first two. */
  lemma TwoColons(docType: string, ns: string, claims: string)
    requires ':' !in docType && ':' !in ns
    ensures ParseSpec(docType + ":" + ns + ":" + claims) ==
            var claimList := NonBlank(Split(claims, ','));
            if claimList == [] then Err(NoClaims) else Ok(Spec(docType, ns, claimList))
  {
    PartitionAt(docType, ':', ns + [':'] + claims);
    assert docType + ":" + ns + ":" + claims == docType + [':'] + (ns + [':'] + claims);
    PartitionAt(ns, ':', claims);
  }

  lemma ReadSpells(text: string, spec: Spec)
    requires ParseSpec(text) == Ok(spec)
    ensures SpellsFlag(text, spec)
  {
    ParsedIsWellFormed(text);
    CutAtColons(text);
    var docType, ns, claims :| CutInto(text, docType, ns, claims);
    var pieces := Split(claims, ',');
    NonBlankExactly(pieces, spec.claims);
    JoinSplit(claims, ',');
  }

  /** A text that has the right shape, put together again from its three parts. */
  lemma CutAtColons(text: string)
    requires ParseSpec(text) != Err(BadShape)
    ensures exists docType, ns, claims :: CutInto(text, docType, ns, claims)
  {
    var first := Partition(text, ':').value;
    var second := Partition(first.1, ':').value;
    ThreeParts(text, first.0, first.1, second.0, second.1);
    TwoColons(first.0, second.0, second.1);
    assert CutInto(text, first.0, second.0, second.1);
  }

  ghost predicate CutInto(text: string, docType: string, ns: string, claims: string) {
    && text == docType + ":" + ns + ":" + claims && ':' !in docType && ':' !in ns
    && ParseSpec(text) == var claimList := NonBlank(Split(claims, ','));
                          if claimList == [] then Err(NoClaims) else Ok(Spec(docType, ns, claimList))
  }

  lemma ThreeParts(text: string, docType: string, rest: string, ns: string, claims: string)
    requires text == docType + [':'] + rest && rest == ns + [':'] + claims
    ensures text == docType + ":" + ns + ":" + claims
  {
  }

  lemma SpelledReads(text: string, spec: Spec)
    requires SpellsFlag(text, spec)
    ensures ParseSpec(text) == Ok(spec)
  {
    var pieces :| pieces != [] && Pads(pieces, spec.claims)
                  && text == spec.docType + ":" + spec.ns + ":" + Join(pieces, ',');
    PadsNoComma(pieces, spec.claims);
    SplitJoin(pieces, ',');
    NonBlankExactly(pieces, spec.claims);
    TwoColons(spec.docType, spec.ns, Join(pieces, ','));
  }

  /** A text is read as a spec exactly when it spells that spec. */
  lemma ReadsExactly(text: string, spec: Spec)
    ensures ParseSpec(text) == Ok(spec) <==> SpellsFlag(text, spec)
  {
    if ParseSpec(text) == Ok(spec) {
      ReadSpells(text, spec);
    }
    if SpellsFlag(text, spec) {
      SpelledReads(text, spec);
    }
  }

  /** Fewer than two colons: the wrong shape.  Two of them and only blanks after: no claims. */
  lemma RefusedExactly(text: string)
    ensures ParseSpec(text) == Err(BadShape) <==>
            forall docType, ns, claims :: text != docType + ":" + ns + ":" + claims
    ensures ParseSpec(text) == Err(NoClaims) <==>
            exists docType, ns, pieces ::
              && ':' !in docType && ':' !in ns && pieces != [] && Pads(pieces, [])
              && text == docType + ":" + ns + ":" + Join(pieces, ',')
  {
    if docType, ns, claims :| text == docType + ":" + ns + ":" + claims {
      assert text == docType + [':'] + (ns + ":" + claims);
      assert text[|docType|] == ':';
      AfterFirstColon(text, docType, ns + ":" + claims);
    }
    if ParseSpec(text) != Err(BadShape) {
      CutAtColons(text);
      var docType, ns, claims :| CutInto(text, docType, ns, claims);
      if ParseSpec(text) == Err(NoClaims) {
        NonBlankExactly(Split(claims, ','), []);
        JoinSplit(claims, ',');
      }
    }
    if docType, ns, pieces :| ':' !in docType && ':' !in ns && pieces != [] && Pads(pieces, [])
                              && text == docType + ":" + ns + ":" + Join(pieces, ',') {
      PadsNoComma(pieces, []);
      SplitJoin(pieces, ',');
      NonBlankExactly(pieces, []);
      TwoColons(docType, ns, Join(pieces, ','));
    }
  }

  lemma AfterFirstColon(text: string, head: string, tail: string)
    requires text == head + [':'] + tail && ':' in tail
    ensures Partition(text, ':').Some? && ':' in Partition(text, ':').value.1
  {
    assert text[|head|] == ':';
    var (first, rest) := Partition(text, ':').value;
    var i :| 0 <= i < |tail| && tail[i] == ':';
    var at := |head| + 1 + i;
    assert |first| <= |head| by {
      assert text[..|first|] == first;
    }
    assert rest[at - |first| - 1] == text[at];
  }

  // ------------------------------------------------------------- merging flags

  /** First occurrences, in order. */
  function FirstSeen(xs: seq<string>): (r: seq<string>)
    ensures forall x :: x in r <==> x in xs
    ensures forall i, j | 0 <= i < j < |r| :: r[i] != r[j]
  {
    if xs == [] then []
    else
      var front, last := FirstSeen(xs[..|xs| - 1]), xs[|xs| - 1];
      assert xs == xs[..|xs| - 1] + [last];
      if last in front then front else front + [last]
  }

  /** Two distinct values stand in the order in which they first occurred. */
  lemma {:induction false} FirstSeenInOrder(xs: seq<string>, i: nat, j: nat)
    requires i < j < |FirstSeen(xs)|
    ensures exists k | 0 <= k < |xs| :: xs[k] == FirstSeen(xs)[i] && FirstSeen(xs)[j] !in xs[..k]
  {
    var front, last := xs[..|xs| - 1], xs[|xs| - 1];
    var seen := FirstSeen(front);
    if j < |seen| {
      FirstSeenInOrder(front, i, j);
      var k :| 0 <= k < |front| && front[k] == seen[i] && seen[j] !in front[..k];
      assert xs[..k] == front[..k] && xs[k] == front[k];
    } else {
      assert seen[i] in front;
      var k :| 0 <= k < |front| && front[k] == seen[i];
      assert xs[k] == front[k];
      assert last !in front && forall x | x in xs[..k] :: x in front;
    }
  }

  type Namespaces = seq<(string, seq<string>)>

  function Keys(ns: Namespaces): seq<string> { seq(|ns|, i requires 0 <= i < |ns| => ns[i].0) }

  /** dict.setdefault(name, []).extend(claims) */
  function Extend(ns: Namespaces, name: string, claims: seq<string>): Namespaces {
    if ns == [] then [(name, claims)]
    else if ns[0].0 == name then [(name, ns[0].1 + claims)] + ns[1..]
    else [ns[0]] + Extend(ns[1..], name, claims)
  }

  /** The flags for one document type. */
  function ForType(specs: seq<Spec>, docType: string): seq<Spec> {
    if specs == [] then []
    else
      var last := specs[|specs| - 1];
      ForType(specs[..|specs| - 1], docType) + if last.docType == docType then [last] else []
  }

  function Names(specs: seq<Spec>): seq<string> { seq(|specs|, i requires 0 <= i < |specs| => specs[i].ns) }

  function DocTypes(specs: seq<Spec>): seq<string> { seq(|specs|, i requires 0 <= i < |specs| => specs[i].docType) }

  /** Claims asked for in one namespace, in the order of the flags. */
  function ClaimsIn(specs: seq<Spec>, ns: string): seq<string> {
    if specs == [] then []
    else ClaimsIn(specs[..|specs| - 1], ns) + if specs[|specs| - 1].ns == ns then specs[|specs| - 1].claims else []
  }

  /** Distinct namespaces in first-seen order, each with all its claims in order. */
  ghost predicate IsMergeOf(ns: Namespaces, specs: seq<Spec>) {
    && Keys(ns) == FirstSeen(Names(specs))
    && forall i | 0 <= i < |ns| :: ns[i].1 == ClaimsIn(specs, ns[i].0)
  }

  /** One request per document type, in first-seen order, each merging its own flags. */
  ghost predicate IsMerged(requests: seq<DocRequest>, specs: seq<Spec>) {
    && |requests| == |FirstSeen(DocTypes(specs))|
    && forall i | 0 <= i < |requests| ::
         && requests[i].docType == FirstSeen(DocTypes(specs))[i]
         && IsMergeOf(requests[i].namespaces, ForType(specs, requests[i].docType))
  }

  /** The specs spelled by the flags, when every flag is readable. */
  ghost predicate Spelled(texts: seq<string>, specs: seq<Spec>) {
    && |specs| == |texts|
    && forall i | 0 <= i < |texts| :: ParseSpec(texts[i]) == Ok(specs[i])
  }

  /** The two accumulators of the loop: claims by type and namespace, and the order of the types. */
  ghost predicate Accumulated(byType: map<string, Namespaces>, order: seq<string>, specs: seq<Spec>) {
    && order == FirstSeen(DocTypes(specs))
    && (forall t :: t in byType <==> t in order)
    && (forall t | t in byType :: IsMergeOf(byType[t], ForType(specs, t)))
  }

  /** The list comprehension that ends parse_requests. */
  function Collect(byType: map<string, Namespaces>, order: seq<string>): seq<DocRequest>
    requires forall t | t in order :: t in byType
  {
    seq(|order|, i requires 0 <= i < |order| => DocRequest(order[i], byType[order[i]]))
  }

  lemma CollectMerged(byType: map<string, Namespaces>, order: seq<string>, specs: seq<Spec>)
    requires Accumulated(byType, order, specs)
    ensures IsMerged(Collect(byType, order), specs)
  {
    forall i | 0 <= i < |order| ensures IsMergeOf(byType[order[i]], ForType(specs, order[i])) {
      assert order[i] in byType;
    }
  }

  lemma SpelledOne(texts: seq<string>, k: nat, specs: seq<Spec>, spec: Spec)
    requires k < |texts| && Spelled(texts[..k], specs) && ParseSpec(texts[k]) == Ok(spec)
    ensures Spelled(texts[..k + 1], specs + [spec])
  {
    assert texts[..k + 1] == texts[..k] + [texts[k]];
  }

  method ParseRequests(texts: seq<string>) returns (r: Result<seq<DocRequest>, SpecError>, ghost specs: seq<Spec>)
    ensures r.Ok? ==> Spelled(texts, specs) && IsMerged(r.value, specs)
    ensures r.Err? ==> exists i :: 0 <= i < |texts| && ParseSpec(texts[i]) == Err(r.error)
                                   && forall j | 0 <= j < i :: ParseSpec(texts[j]).Ok?
    ensures forall named: seq<Spec> :: (forall s | s in named :: WellFormedSpec(s)) && texts == Rendered(named) ==>
                                         r.Ok? && IsMerged(r.value, named)
    ensures forall named :: FlagsSpell(texts, named) ==> r.Ok? && IsMerged(r.value, named)
    ensures r.Ok? ==> FlagsSpell(texts, specs)
  {
    SpelledExactly(texts);
    forall named: seq<Spec> | (forall s | s in named :: WellFormedSpec(s)) && texts == Rendered(named)
      ensures Spelled(texts, named)
    {
      ListRoundTrip(named, named);
    }
    var byType: map<string, Namespaces> := map[];
    var order: seq<string> := [];
    specs := [];
    var k := 0;
    while k < |texts|
      invariant 0 <= k <= |texts|
      invariant Spelled(texts[..k], specs)
      invariant Accumulated(byType, order, specs)
    {
      var parsed := ParseSpec(texts[k]);
      if parsed.Err? {
        assert forall j | 0 <= j < k :: texts[..k][j] == texts[j];
        return Err(parsed.error), specs;
      }
      byType, order := AddSpec(byType, order, parsed.value, specs);
      SpelledOne(texts, k, specs, parsed.value);
      specs := specs + [parsed.value];
      k := k + 1;
    }
    assert texts[..|texts|] == texts;
    CollectMerged(byType, order, specs);
    r := Ok(Collect(byType, order));
  }

  /** The body of the loop, once the flag is read. */
  method AddSpec(byType: map<string, Namespaces>, order: seq<string>, spec: Spec, ghost specs: seq<Spec>)
      returns (byType': map<string, Namespaces>, order': seq<string>)
    requires Accumulated(byType, order, specs)
    ensures Accumulated(byType', order', specs + [spec])
  {
    AccumulateOne(byType, order, specs, spec);
    order' := if spec.docType in byType then order else order + [spec.docType];
    byType' := byType[spec.docType := Extend(SoFar(byType, spec.docType), spec.ns, spec.claims)];
  }

  /** What setdefault finds for a type: the claims so far, or a new empty dict. */
  function SoFar(byType: map<string, Namespaces>, docType: string): Namespaces {
    if docType in byType then byType[docType] else []
  }

  lemma MergedOne(byType: map<string, Namespaces>, order: seq<string>, specs: seq<Spec>, spec: Spec)
    requires Accumulated(byType, order, specs)
    ensures IsMergeOf(Extend(SoFar(byType, spec.docType), spec.ns, spec.claims), ForType(specs + [spec], spec.docType))
  {
    if spec.docType !in byType {
      NoSpecsYet(specs, spec.docType);
    }
    OneMoreOfType(specs, spec, spec.docType);
    ExtendMerges(SoFar(byType, spec.docType), ForType(specs, spec.docType), spec);
  }

  lemma StillMerged(ns: Namespaces, specs: seq<Spec>, spec: Spec, t: string)
    requires IsMergeOf(ns, ForType(specs, t)) && t != spec.docType
    ensures IsMergeOf(ns, ForType(specs + [spec], t))
  {
    OneMoreOfType(specs, spec, t);
  }

  lemma AccumulateMerged(byType: map<string, Namespaces>, order: seq<string>, specs: seq<Spec>, spec: Spec,
                         merged: Namespaces)
    requires Accumulated(byType, order, specs)
    requires IsMergeOf(merged, ForType(specs + [spec], spec.docType))
    ensures Accumulated(byType[spec.docType := merged],
                        if spec.docType in byType then order else order + [spec.docType],
                        specs + [spec])
  {
    AllKeys(byType, order, specs, spec, merged);
    AllMerged(byType, order, specs, spec, merged);
  }

  lemma AllKeys(byType: map<string, Namespaces>, order: seq<string>, specs: seq<Spec>, spec: Spec, merged: Namespaces)
    requires Accumulated(byType, order, specs)
    ensures var next := byType[spec.docType := merged];
            var order' := if spec.docType in byType then order else order + [spec.docType];
            order' == FirstSeen(DocTypes(specs + [spec])) && forall t :: t in next <==> t in order'
  {
    OneMoreType(specs, spec);
  }

  lemma AllMerged(byType: map<string, Namespaces>, order: seq<string>, specs: seq<Spec>, spec: Spec, merged: Namespaces)
    requires Accumulated(byType, order, specs)
    requires IsMergeOf(merged, ForType(specs + [spec], spec.docType))
    ensures var next := byType[spec.docType := merged];
            forall t | t in next :: IsMergeOf(next[t], ForType(specs + [spec], t))
  {
    var next := byType[spec.docType := merged];
    forall t | t in next && t != spec.docType ensures IsMergeOf(next[t], ForType(specs + [spec], t)) {
      StillMerged(next[t], specs, spec, t);
    }
  }

  lemma AccumulateOne(byType: map<string, Namespaces>, order: seq<string>, specs: seq<Spec>, spec: Spec)
    requires Accumulated(byType, order, specs)
    ensures Accumulated(byType[spec.docType := Extend(SoFar(byType, spec.docType), spec.ns, spec.claims)],
                        if spec.docType in byType then order else order + [spec.docType],
                        specs + [spec])
  {
    MergedOne(byType, order, specs, spec);
    AccumulateMerged(byType, order, specs, spec, Extend(SoFar(byType, spec.docType), spec.ns, spec.claims));
  }

  lemma OneMoreType(specs: seq<Spec>, spec: Spec)
    ensures DocTypes(specs + [spec]) == DocTypes(specs) + [spec.docType]
    ensures FirstSeen(DocTypes(specs + [spec])) ==
            if spec.docType in FirstSeen(DocTypes(specs)) then FirstSeen(DocTypes(specs))
            else FirstSeen(DocTypes(specs)) + [spec.docType]
  {
    var types := DocTypes(specs) + [spec.docType];
    assert DocTypes(specs + [spec]) == types;
    assert types[..|specs|] == DocTypes(specs);
  }

  lemma OneMoreOfType(specs: seq<Spec>, spec: Spec, docType: string)
    ensures ForType(specs + [spec], docType) ==
            if spec.docType == docType then ForType(specs, docType) + [spec] else ForType(specs, docType)
  {
    assert (specs + [spec])[..|specs|] == specs;
  }

  lemma {:induction false} NoSpecsYet(specs: seq<Spec>, docType: string)
    requires docType !in FirstSeen(DocTypes(specs))
    ensures ForType(specs, docType) == []
    ensures IsMergeOf([], ForType(specs, docType))
  {
    if specs != [] {
      var front, last := specs[..|specs| - 1], specs[|specs| - 1];
      assert specs == front + [last];
      OneMoreType(front, last);
      OneMoreOfType(front, last, docType);
      NoSpecsYet(front, docType);
    }
  }

  lemma {:induction false} ExtendKeys(ns: Namespaces, name: string, claims: seq<string>)
    ensures Keys(Extend(ns, name, claims)) == if name in Keys(ns) then Keys(ns) else Keys(ns) + [name]
  {
    if ns != [] {
      var all := Extend(ns, name, claims);
      assert Keys(ns) == [ns[0].0] + Keys(ns[1..]);
      assert Keys(all) == [all[0].0] + Keys(all[1..]);
      if ns[0].0 == name {
        assert all[1..] == ns[1..];
      } else {
        ExtendKeys(ns[1..], name, claims);
        assert all[1..] == Extend(ns[1..], name, claims);
      }
    }
  }

  lemma {:induction false} ExtendMeans(ns: Namespaces, name: string, claims: seq<string>)
    ensures |ns| <= |Extend(ns, name, claims)| <= |ns| + 1
    ensures |Extend(ns, name, claims)| > |ns| ==> Extend(ns, name, claims)[|ns|] == (name, claims)
    ensures forall i | 0 <= i < |ns| && ns[i].0 != name :: Extend(ns, name, claims)[i] == ns[i]
    ensures forall i | 0 <= i < |ns| && ns[i].0 == name && (forall j | 0 <= j < i :: ns[j].0 != name) ::
              Extend(ns, name, claims)[i] == (name, ns[i].1 + claims)
  {
    if ns != [] && ns[0].0 != name {
      ExtendMeans(ns[1..], name, claims);
      var all := Extend(ns, name, claims);
      assert all[0] == ns[0] && all[1..] == Extend(ns[1..], name, claims);
      forall i | 0 < i < |ns| ensures ns[i] == ns[1..][i - 1] && all[i] == all[1..][i - 1] {
      }
    }
  }

  lemma {:induction false} NotNamed(specs: seq<Spec>, ns: string)
    requires ns !in Names(specs)
    ensures ClaimsIn(specs, ns) == []
  {
    if specs != [] {
      var front := specs[..|specs| - 1];
      forall x | x in Names(front) ensures x in Names(specs) {
        var i :| 0 <= i < |front| && Names(front)[i] == x;
        assert Names(specs)[i] == x;
      }
      assert Names(specs)[|specs| - 1] == specs[|specs| - 1].ns;
      NotNamed(front, ns);
    }
  }

  lemma OneMoreName(specs: seq<Spec>, spec: Spec)
    ensures FirstSeen(Names(specs + [spec])) ==
            if spec.ns in FirstSeen(Names(specs)) then FirstSeen(Names(specs)) else FirstSeen(Names(specs)) + [spec.ns]
  {
    var names := Names(specs) + [spec.ns];
    assert Names(specs + [spec]) == names && names[..|specs|] == Names(specs);
  }

  lemma OneMoreClaims(specs: seq<Spec>, spec: Spec, ns: string)
    ensures ClaimsIn(specs + [spec], ns) == ClaimsIn(specs, ns) + if spec.ns == ns then spec.claims else []
  {
    assert (specs + [spec])[..|specs|] == specs;
  }

  /** The claims of two lists of flags, one after the other. */
  lemma {:induction false} ClaimsConcatenate(a: seq<Spec>, b: seq<Spec>, ns: string)
    ensures ClaimsIn(a + b, ns) == ClaimsIn(a, ns) + ClaimsIn(b, ns)
    decreases |b|
  {
    if b == [] {
      assert a + b == a;
    } else {
      var front, last := b[..|b| - 1], b[|b| - 1];
      assert a + b == (a + front) + [last] && b == front + [last];
      ClaimsConcatenate(a, front, ns);
      OneMoreClaims(a + front, last, ns);
      OneMoreClaims(front, last, ns);
    }
  }

  /** The flags for one document type, likewise. */
  lemma {:induction false} TypesConcatenate(a: seq<Spec>, b: seq<Spec>, docType: string)
    ensures ForType(a + b, docType) == ForType(a, docType) + ForType(b, docType)
    decreases |b|
  {
    if b == [] {
      assert a + b == a;
    } else {
      var front, last := b[..|b| - 1], b[|b| - 1];
      assert a + b == (a + front) + [last] && b == front + [last];
      TypesConcatenate(a, front, docType);
      OneMoreOfType(a + front, last, docType);
      OneMoreOfType(front, last, docType);
    }
  }

  lemma KeysDistinct(ns: Namespaces, specs: seq<Spec>, i: nat, j: nat)
    requires IsMergeOf(ns, specs) && j < i < |ns|
    ensures ns[j].0 != ns[i].0
  {
    assert Keys(ns)[j] == ns[j].0 && Keys(ns)[i] == ns[i].0;
  }

  lemma ExtendedAt(ns: Namespaces, specs: seq<Spec>, spec: Spec, i: nat)
    requires IsMergeOf(ns, specs) && i < |Extend(ns, spec.ns, spec.claims)|
    ensures var all := Extend(ns, spec.ns, spec.claims);
            all[i].1 == ClaimsIn(specs + [spec], all[i].0)
  {
    ExtendMeans(ns, spec.ns, spec.claims);
    if i < |ns| {
      ExtendedOld(ns, specs, spec, i);
    } else {
      ExtendedNew(ns, specs, spec);
    }
  }

  lemma ExtendedOld(ns: Namespaces, specs: seq<Spec>, spec: Spec, i: nat)
    requires IsMergeOf(ns, specs) && i < |ns|
    ensures i < |Extend(ns, spec.ns, spec.claims)|
    ensures var all := Extend(ns, spec.ns, spec.claims);
            all[i].0 == ns[i].0 && all[i].1 == ClaimsIn(specs + [spec], ns[i].0)
  {
    ExtendMeans(ns, spec.ns, spec.claims);
    forall j | 0 <= j < i ensures ns[j].0 != ns[i].0 {
      KeysDistinct(ns, specs, i, j);
    }
    OneMoreClaims(specs, spec, ns[i].0);
  }

  lemma ExtendedNew(ns: Namespaces, specs: seq<Spec>, spec: Spec)
    requires IsMergeOf(ns, specs) && |ns| < |Extend(ns, spec.ns, spec.claims)|
    ensures spec.claims == ClaimsIn(specs + [spec], spec.ns)
  {
    ExtendKeys(ns, spec.ns, spec.claims);
    assert |Keys(Extend(ns, spec.ns, spec.claims))| > |Keys(ns)|;
    NotNamed(specs, spec.ns);
    OneMoreClaims(specs, spec, spec.ns);
  }

  lemma ExtendMerges(ns: Namespaces, specs: seq<Spec>, spec: Spec)
    requires IsMergeOf(ns, specs)
    ensures IsMergeOf(Extend(ns, spec.ns, spec.claims), specs + [spec])
  {
    OneMoreName(specs, spec);
    ExtendKeys(ns, spec.ns, spec.claims);
    forall i | 0 <= i < |Extend(ns, spec.ns, spec.claims)|
      ensures var all := Extend(ns, spec.ns, spec.claims); all[i].1 == ClaimsIn(specs + [spec], all[i].0)
    {
      ExtendedAt(ns, specs, spec, i);
    }
  }

  // ------------------------------------------------------- whole lists of flags

  function Rendered(specs: seq<Spec>): seq<string> {
    seq(|specs|, i requires 0 <= i < |specs| => RenderSpec(specs[i]))
  }

  /** Every text spells its spec, blanks and stray commas included. */
  ghost predicate FlagsSpell(texts: seq<string>, specs: seq<Spec>) {
    |specs| == |texts| && forall i | 0 <= i < |texts| :: SpellsFlag(texts[i], specs[i])
  }

  lemma SpelledExactly(texts: seq<string>)
    ensures forall specs :: Spelled(texts, specs) <==> FlagsSpell(texts, specs)
    ensures forall a, b | Spelled(texts, a) && Spelled(texts, b) :: a == b
  {
    forall i, spec | 0 <= i < |texts| ensures ParseSpec(texts[i]) == Ok(spec) <==> SpellsFlag(texts[i], spec) {
      ReadsExactly(texts[i], spec);
    }
    forall a, b | Spelled(texts, a) && Spelled(texts, b) ensures a == b {
      SpelledOnce(texts, a, b);
    }
  }

  /** A list of flags spells at most one list of specs, and a well-formed one. */
  lemma SpelledOnce(texts: seq<string>, a: seq<Spec>, b: seq<Spec>)
    requires Spelled(texts, a) && Spelled(texts, b)
    ensures a == b
    ensures forall s | s in a :: WellFormedSpec(s)
  {
    forall i | 0 <= i < |a| ensures a[i] == b[i] && WellFormedSpec(a[i]) {
      assert ParseSpec(texts[i]) == Ok(a[i]);
      ParsedIsWellFormed(texts[i]);
    }
  }

  /** Rendering any list of well-formed specs and reading the flags back gives that list. */
  lemma ListRoundTrip(specs: seq<Spec>, read: seq<Spec>)
    requires forall s | s in specs :: WellFormedSpec(s)
    ensures Spelled(Rendered(specs), specs)
    ensures Spelled(Rendered(specs), read) ==> read == specs
  {
    forall i | 0 <= i < |specs| ensures ParseSpec(Rendered(specs)[i]) == Ok(specs[i]) {
      assert WellFormedSpec(specs[i]);
      RenderThenParse(specs[i]);
    }
    if Spelled(Rendered(specs), read) {
      SpelledOnce(Rendered(specs), read, specs);
    }
  }
}
