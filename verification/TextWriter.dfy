/**
 The text writer (_write_device_response of cli.py): its loops over elements, device-signed
 namespaces, error maps and the validity map, which trust the types validation left behind.
 An accepted response takes none of them into an AttributeError or TypeError.
 */
module TextWriter {
  import opened Common
  import opened Values
  import opened Validation

  /** What one printed line is about; how values are worded is left to format_value. */
  datatype Line =
    | CodeLine(names: seq<Value>, code: Value, meaning: string)    // names outermost first
    | NamespaceLine(ns: string)
    | ElementLine(element: Element)
    | DeviceNamespaceLine(name: Value)
    | DeviceItemLine(identifier: Value, value: Value)
    | ValidityLine(signed: Value, validFrom: Value, validUntil: Value)

  /** ERROR_CODE_NAMES.get(code, ...); None when `code < 0` is a type fault. */
  function Meaning(code: Value): Option<string> {
    match code
    case Int(i) => Some(if i == 0 then "Data not returned" else if i < 0 then "application-specific" else "RFU")
    case Bool(flag) => Some(if flag then "RFU" else "Data not returned")
    case _ => None
  }

  /** The lines for one map of codes, one per entry and in order. */
  ghost predicate LinesOf(names: seq<Value>, entries: seq<(Value, Value)>, lines: seq<Line>) {
    && |lines| == |entries|
    && forall i | 0 <= i < |entries| ::
         && Meaning(entries[i].1).Some?
         && lines[i] == CodeLine(names + [entries[i].0], entries[i].1, Meaning(entries[i].1).value)
  }

  /** The lines for a list of maps: their lines, concatenated; `prefixes` go before each name. */
  ghost predicate LinesOfAll(prefixes: seq<seq<Value>>, maps: seq<Value>, lines: seq<Line>) {
    |prefixes| == |maps| && exists parts: seq<seq<Line>> ::
      && |parts| == |maps|
      && lines == Flatten(parts)
      && forall i | 0 <= i < |maps| :: maps[i].Map? && LinesOf(prefixes[i], maps[i].entries, parts[i])
  }

  /** The inner loop: `error.items()` of one map; None is a type fault. */
  method WriteMap(names: seq<Value>, errors: Value) returns (lines: Option<seq<Line>>)
    ensures lines.Some? ==> errors.Map? && LinesOf(names, errors.entries, lines.value)
    ensures ValidErrorMap(errors) ==> lines.Some?
  {
    if !errors.Map? {
      return None;
    }
    var written: seq<Line> := [];
    for k := 0 to |errors.entries|
      invariant LinesOf(names, errors.entries[..k], written)
    {
      assert errors.entries[..k + 1] == errors.entries[..k] + [errors.entries[k]];
      assert errors.entries[k] in errors.entries;
      var meaning := Meaning(errors.entries[k].1);
      if meaning.None? {
        return None;
      }
      written := written + [CodeLine(names + [errors.entries[k].0], errors.entries[k].1, meaning.value)];
    }
    assert errors.entries[..|errors.entries|] == errors.entries;
    return Some(written);
  }

  method WriteMaps(prefixes: seq<seq<Value>>, maps: seq<Value>) returns (lines: Option<seq<Line>>)
    requires |prefixes| == |maps|
    ensures lines.Some? ==> LinesOfAll(prefixes, maps, lines.value)
    ensures (forall m | m in maps :: ValidErrorMap(m)) ==> lines.Some?
  {
    var written: seq<Line> := [];
    ghost var parts: seq<seq<Line>> := [];
    for k := 0 to |maps|
      invariant |parts| == k && written == Flatten(parts)
      invariant forall i | 0 <= i < k :: maps[i].Map? && LinesOf(prefixes[i], maps[i].entries, parts[i])
    {
      assert maps[k] in maps;
      var part := WriteMap(prefixes[k], maps[k]);
      if part.None? {
        return None;
      }
      FlattenOneMore(parts, part.value);
      parts := parts + [part.value];
      written := written + part.value;
    }
    return Some(written);
  }

  /** `for error in response.document_errors`: what iterating yields, or None when it cannot iterate. */
  function Iterated(v: Value): Option<seq<Value>> {
    match v
    case List(items) => Some(items)
    case Map(entries) => Some(seq(|entries|, i requires 0 <= i < |entries| => entries[i].0))
    case Text(s) => Some(seq(|s|, i requires 0 <= i < |s| => Text([s[i]])))
    case Bytes(b) => Some(seq(|b|, i requires 0 <= i < |b| => Int(b[i])))
    case _ => None
  }

  method WriteDocumentErrors(errors: Value) returns (lines: Option<seq<Line>>)
    ensures ValidDocumentErrors(errors) ==> lines.Some?
    ensures lines.Some? && errors.List? ==> LinesOfAll(seq(|errors.items|, _ => []), errors.items, lines.value)
  {
    var maps := Iterated(errors);
    if maps.None? {
      return None;
    }
    lines := WriteMaps(seq(|maps.value|, _ => []), maps.value);
  }

  function Firsts(entries: seq<(Value, Value)>): (names: seq<seq<Value>>)
    ensures |names| == |entries| && forall i | 0 <= i < |entries| :: names[i] == [entries[i].0]
  {
    seq(|entries|, i requires 0 <= i < |entries| => [entries[i].0])
  }

  function Seconds(entries: seq<(Value, Value)>): (values: seq<Value>)
    ensures |values| == |entries| && forall i | 0 <= i < |entries| :: values[i] == entries[i].1
  {
    seq(|entries|, i requires 0 <= i < |entries| => entries[i].1)
  }

  method WriteElementErrors(errors: Value) returns (lines: Option<seq<Line>>)
    ensures ValidElementErrors(errors) ==> lines.Some?
    ensures lines.Some? ==> errors.Map? && LinesOfAll(Firsts(errors.entries), Seconds(errors.entries), lines.value)
  {
    if !errors.Map? {
      return None;
    }
    if ValidElementErrors(errors) {
      forall m | m in Seconds(errors.entries) ensures ValidErrorMap(m) {
        var i :| 0 <= i < |errors.entries| && Seconds(errors.entries)[i] == m;
        assert errors.entries[i] in errors.entries;
      }
    }
    lines := WriteMaps(Firsts(errors.entries), Seconds(errors.entries));
  }

  // ------------------------------------------------------- elements of a document

  method WriteElements(elements: seq<Element>) returns (lines: seq<Line>)
    ensures |lines| == |elements| && forall i | 0 <= i < |elements| :: lines[i] == ElementLine(elements[i])
  {
    lines := [];
    for k := 0 to |elements|
      invariant |lines| == k && forall i | 0 <= i < k :: lines[i] == ElementLine(elements[i])
    {
      lines := lines + [ElementLine(elements[k])];
    }
  }

  /** The lines from `start` to `end` are the namespace's own and one per element. */
  ghost predicate NamespaceAt(namespace: (string, seq<Element>), start: nat, end: nat, lines: seq<Line>) {
    && start + 1 + |namespace.1| == end <= |lines|
    && lines[start] == NamespaceLine(namespace.0)
    && forall i | 0 <= i < |namespace.1| :: lines[start + 1 + i] == ElementLine(namespace.1[i])
  }

  /** The first `count` namespaces: each begins at its start with its own line, then has a line per element. */
  ghost predicate FirstLaidOut(namespaces: seq<(string, seq<Element>)>, count: nat, starts: seq<nat>, lines: seq<Line>)
    requires count <= |namespaces|
  {
    && |starts| == count + 1 && starts[0] == 0 && starts[count] == |lines|
    && forall k | 0 <= k < count :: NamespaceAt(namespaces[k], starts[k], starts[k + 1], lines)
  }

  /** Every namespace, followed by every element in it, once and in order, and nothing else. */
  ghost predicate LaidOut(namespaces: seq<(string, seq<Element>)>, starts: seq<nat>, lines: seq<Line>) {
    FirstLaidOut(namespaces, |namespaces|, starts, lines)
  }

  method WriteNamespaces(namespaces: seq<(string, seq<Element>)>) returns (lines: seq<Line>, ghost starts: seq<nat>)
    ensures LaidOut(namespaces, starts, lines)
  {
    lines, starts := [], [0];
    for k := 0 to |namespaces|
      invariant FirstLaidOut(namespaces, k, starts, lines)
    {
      var elements := WriteElements(namespaces[k].1);
      OneMoreNamespace(namespaces, k, starts, lines, elements);
      lines := lines + [NamespaceLine(namespaces[k].0)] + elements;
      starts := starts + [|lines|];
    }
  }

  lemma OneMoreNamespace(namespaces: seq<(string, seq<Element>)>, k: nat, starts: seq<nat>, lines: seq<Line>,
                         elements: seq<Line>)
    requires k < |namespaces| && FirstLaidOut(namespaces, k, starts, lines)
    requires |elements| == |namespaces[k].1|
    requires forall i | 0 <= i < |elements| :: elements[i] == ElementLine(namespaces[k].1[i])
    ensures var more := lines + [NamespaceLine(namespaces[k].0)] + elements;
            FirstLaidOut(namespaces, k + 1, starts + [|more|], more)
  {
    var more := lines + [NamespaceLine(namespaces[k].0)] + elements;
    assert more[|lines|] == NamespaceLine(namespaces[k].0);
    forall i | 0 <= i < |elements| ensures more[|lines| + 1 + i] == elements[i] {
    }
  }

  // --------------------------------------------------- device-signed namespaces

  method WriteItems(entries: seq<(Value, Value)>) returns (lines: seq<Line>)
    ensures |lines| == |entries|
    ensures forall i | 0 <= i < |entries| :: lines[i] == DeviceItemLine(entries[i].0, entries[i].1)
  {
    lines := [];
    for k := 0 to |entries|
      invariant |lines| == k && forall i | 0 <= i < k :: lines[i] == DeviceItemLine(entries[i].0, entries[i].1)
    {
      lines := lines + [DeviceItemLine(entries[k].0, entries[k].1)];
    }
  }

  ghost predicate DeviceNamespaceAt(entry: (Value, Value), start: nat, end: nat, lines: seq<Line>) {
    && entry.1.Map?
    && start + 1 + |entry.1.entries| == end <= |lines|
    && lines[start] == DeviceNamespaceLine(entry.0)
    && forall i | 0 <= i < |entry.1.entries| ::
         lines[start + 1 + i] == DeviceItemLine(entry.1.entries[i].0, entry.1.entries[i].1)
  }

  ghost predicate FirstDeviceLaidOut(entries: seq<(Value, Value)>, count: nat, starts: seq<nat>, lines: seq<Line>)
    requires count <= |entries|
  {
    && |starts| == count + 1 && starts[0] == 0 && starts[count] == |lines|
    && (forall line | line in lines :: line.DeviceNamespaceLine? || line.DeviceItemLine?)
    && forall k | 0 <= k < count :: DeviceNamespaceAt(entries[k], starts[k], starts[k + 1], lines)
  }

  /** Nothing for a falsy value; otherwise every namespace with every item in it, once and in order. */
  ghost predicate DeviceLaidOut(v: Value, starts: seq<nat>, lines: seq<Line>) {
    if !Truthy(v) then lines == []
    else v.Map? && FirstDeviceLaidOut(v.entries, |v.entries|, starts, lines)
  }

  /** Falsy, or a map of maps. */
  predicate DeviceWritable(v: Value) {
    Truthy(v) ==> v.Map? && forall e | e in v.entries :: e.1.Map?
  }

  method WriteDeviceNamespaces(v: Value) returns (lines: Option<seq<Line>>, ghost starts: seq<nat>)
    ensures lines.Some? <==> DeviceWritable(v)
    ensures lines.Some? ==> DeviceLaidOut(v, starts, lines.value)
  {
    starts := [0];
    if !Truthy(v) {
      return Some([]), starts;
    }
    if !v.Map? {
      return None, starts;
    }
    var written: seq<Line> := [];
    for k := 0 to |v.entries|
      invariant forall e | e in v.entries[..k] :: e.1.Map?
      invariant FirstDeviceLaidOut(v.entries, k, starts, written)
    {
      if !v.entries[k].1.Map? {
        assert v.entries[k] in v.entries;
        return None, starts;
      }
      var items := WriteItems(v.entries[k].1.entries);
      OneMoreDeviceNamespace(v.entries, k, starts, written, items);
      PrefixGrows(v.entries, k);
      written := written + [DeviceNamespaceLine(v.entries[k].0)] + items;
      starts := starts + [|written|];
    }
    assert v.entries[..|v.entries|] == v.entries;
    return Some(written), starts;
  }

  lemma OneMoreDeviceNamespace(entries: seq<(Value, Value)>, k: nat, starts: seq<nat>, lines: seq<Line>,
                               items: seq<Line>)
    requires k < |entries| && entries[k].1.Map? && FirstDeviceLaidOut(entries, k, starts, lines)
    requires |items| == |entries[k].1.entries|
    requires forall i | 0 <= i < |items| ::
               items[i] == DeviceItemLine(entries[k].1.entries[i].0, entries[k].1.entries[i].1)
    ensures var more := lines + [DeviceNamespaceLine(entries[k].0)] + items;
            FirstDeviceLaidOut(entries, k + 1, starts + [|more|], more)
  {
    var more := lines + [DeviceNamespaceLine(entries[k].0)] + items;
    assert more[|lines|] == DeviceNamespaceLine(entries[k].0);
    forall i | 0 <= i < |items| ensures more[|lines| + 1 + i] == items[i] {
    }
  }

  // ----------------------------------------------------------- the validity line

  /** The three dates of a document's MSO, as `.get` finds them; None when there is no map to ask. */
  function ValidityText(doc: Document): (lines: Option<seq<Line>>)
    ensures MsoOf(doc).None? ==> lines == Some([])
    ensures MsoOf(doc).Some? ==> (lines.Some? <==> MsoOf(doc).value.validityInfo.Map?)
    ensures MsoOf(doc).Some? && lines.Some? ==>
              && |lines.value| == 1
              && lines.value[0].ValidityLine?
              && var info := MsoOf(doc).value.validityInfo.entries;
                 && lines.value[0].signed == Get(info, "signed")
                 && lines.value[0].validFrom == Get(info, "validFrom")
                 && lines.value[0].validUntil == Get(info, "validUntil")
  {
    match MsoOf(doc)
    case None => Some([])
    case Some(mso) =>
      if !mso.validityInfo.Map? then None
      else
        var info := mso.validityInfo.entries;
        Some([ValidityLine(Get(info, "signed"), Get(info, "validFrom"), Get(info, "validUntil"))])
  }

  // ------------------------------------------------------------- the whole text

  /** The stretches of a document's text, and where its namespaces begin in the first two. */
  datatype Page = Page(
    elements: seq<Line>,
    starts: seq<nat>,
    device: seq<Line>,
    deviceStarts: seq<nat>,
    codes: seq<Line>,
    validity: seq<Line>)
  {
    function Lines(): seq<Line> { elements + device + codes + validity }
  }

  /** The text of one document: elements, device-signed items, error codes, validity. */
  ghost predicate DocumentText(doc: Document, text: Page) {
    && LaidOut(doc.namespaces, text.starts, text.elements)
    && DeviceLaidOut(doc.deviceNamespaces, text.deviceStarts, text.device)
    && doc.errors.Map? && LinesOfAll(Firsts(doc.errors.entries), Seconds(doc.errors.entries), text.codes)
    && ValidityText(doc) == Some(text.validity)
  }

  /** All the writer takes for granted about a document. */
  ghost predicate DocumentWritable(doc: Document) {
    ValidElementErrors(doc.errors) && DeviceWritable(doc.deviceNamespaces) && ValidityText(doc).Some?
  }

  method WriteDocument(doc: Document) returns (lines: Option<seq<Line>>, ghost text: Page)
    ensures DocumentWritable(doc) ==> lines.Some?
    ensures lines.Some? ==> DocumentText(doc, text) && lines.value == text.Lines()
  {
    text := Page([], [], [], [], [], []);
    var elements, starts := WriteNamespaces(doc.namespaces);
    var device, deviceStarts := WriteDeviceNamespaces(doc.deviceNamespaces);
    if device.None? {
      return None, text;
    }
    var codes := WriteElementErrors(doc.errors);
    if codes.None? {
      return None, text;
    }
    var validity := ValidityText(doc);
    if validity.None? {
      return None, text;
    }
    text := Page(elements, starts, device.value, deviceStarts, codes.value, validity.value);
    return Some(elements + device.value + codes.value + validity.value), text;
  }

  ghost function AllLines(texts: seq<Page>): seq<seq<Line>> {
    seq(|texts|, i requires 0 <= i < |texts| => texts[i].Lines())
  }

  /** The texts of all documents, document by document. */
  ghost predicate FirstDocumentTexts(docs: seq<Document>, texts: seq<Page>) {
    |texts| <= |docs| && forall i | 0 <= i < |texts| :: DocumentText(docs[i], texts[i])
  }

  ghost predicate AllDocumentTexts(docs: seq<Document>, texts: seq<Page>) {
    |texts| == |docs| && FirstDocumentTexts(docs, texts)
  }

  lemma OneMoreDocument(docs: seq<Document>, texts: seq<Page>, text: Page)
    requires |texts| < |docs| && FirstDocumentTexts(docs, texts) && DocumentText(docs[|texts|], text)
    ensures FirstDocumentTexts(docs, texts + [text])
  {
    var more := texts + [text];
    forall i | 0 <= i < |more| ensures DocumentText(docs[i], more[i]) {
      assert more[i] == if i < |texts| then texts[i] else text;
    }
  }

  lemma OneMoreText(texts: seq<Page>, text: Page)
    ensures Flatten(AllLines(texts + [text])) == Flatten(AllLines(texts)) + text.Lines()
  {
    assert AllLines(texts + [text]) == AllLines(texts) + [text.Lines()];
    FlattenOneMore(AllLines(texts), text.Lines());
  }

  lemma FlattenOneMore(parts: seq<seq<Line>>, part: seq<Line>)
    ensures Flatten(parts + [part]) == Flatten(parts) + part
  {
    FlattenAppend(parts, [part]);
    assert Flatten([part]) == part;
  }

  method WriteDocuments(docs: seq<Document>) returns (lines: Option<seq<Line>>, ghost texts: seq<Page>)
    ensures (forall d | d in docs :: DocumentWritable(d)) ==> lines.Some?
    ensures lines.Some? ==> AllDocumentTexts(docs, texts) && lines.value == Flatten(AllLines(texts))
  {
    var written: seq<Line> := [];
    texts := [];
    for k := 0 to |docs|
      invariant |texts| == k && FirstDocumentTexts(docs, texts) && written == Flatten(AllLines(texts))
    {
      ghost var text;
      var part;
      part, text := WriteDocument(docs[k]);
      if part.None? {
        assert docs[k] in docs;
        return None, texts;
      }
      OneMoreDocument(docs, texts, text);
      OneMoreText(texts, text);
      texts := texts + [text];
      written := written + part.value;
    }
    return Some(written), texts;
  }

  /**
   The writer's loops over a response.  If the response is accepted for any requests at any
   time, no type fault stops them.  Then every error code, namespace, element, device-signed
   item and validity line has its place, and the element lines, read from top to bottom, are
   the elements of the response: every claim once, in order.
   */
  method WriteDeviceResponse(response: Response, ghost requests: seq<DocRequest>, ghost now: int)
      returns (lines: Option<seq<Line>>, ghost own: seq<Line>, ghost texts: seq<Page>)
    ensures Acceptable(response, requests, now) ==> lines.Some?
    ensures lines.Some? ==>
              && AllDocumentTexts(response.documents, texts)
              && lines.value == own + Flatten(AllLines(texts))
              && Shown(Flatten(AllLines(texts))) == AllElements(response.documents)
    ensures lines.Some? && response.documentErrors.List? ==>
              var maps := response.documentErrors.items;
              && LinesOfAll(seq(|maps|, _ => []), maps, own)
              && Shown(lines.value) == AllElements(response.documents)
  {
    if Acceptable(response, requests, now) {
      AcceptedIsWritable(response, requests, now);
    }
    own, texts := [], [];
    var first := WriteDocumentErrors(response.documentErrors);
    if first.None? {
      return None, own, texts;
    }
    own := first.value;
    var rest;
    rest, texts := WriteDocuments(response.documents);
    if rest.None? {
      return None, own, texts;
    }
    AllShown(response.documents, texts);
    if response.documentErrors.List? {
      var maps := response.documentErrors.items;
      CodesShowNothing(seq(|maps|, _ => []), maps, own);
      ShownAppend(own, rest.value);
    }
    return Some(first.value + rest.value), own, texts;
  }

  // ------------------------------------------------ every claim, once and in order

  /** The elements of the element lines, from top to bottom. */
  function Shown(lines: seq<Line>): seq<Element> {
    if lines == [] then []
    else (if lines[0].ElementLine? then [lines[0].element] else []) + Shown(lines[1..])
  }

  /** The elements of all documents, namespace by namespace. */
  function AllElements(docs: seq<Document>): seq<Element> {
    if docs == [] then [] else ElementsOf(docs[0].namespaces) + AllElements(docs[1..])
  }

  function ElementsOf(namespaces: seq<(string, seq<Element>)>): seq<Element> {
    if namespaces == [] then [] else namespaces[0].1 + ElementsOf(namespaces[1..])
  }

  lemma {:induction false} ShownAppend(a: seq<Line>, b: seq<Line>)
    ensures Shown(a + b) == Shown(a) + Shown(b)
  {
    if a == [] {
      assert a + b == b;
    } else {
      var own := if a[0].ElementLine? then [a[0].element] else [];
      assert (a + b)[0] == a[0] && (a + b)[1..] == a[1..] + b;
      ShownAppend(a[1..], b);
      assert own + (Shown(a[1..]) + Shown(b)) == own + Shown(a[1..]) + Shown(b);
    }
  }

  lemma {:induction false} NothingShown(lines: seq<Line>)
    requires forall line | line in lines :: !line.ElementLine?
    ensures Shown(lines) == []
  {
    if lines != [] {
      NothingShown(lines[1..]);
    }
  }

  lemma {:induction false} ElementsShown(elements: seq<Element>, lines: seq<Line>)
    requires |lines| == |elements| && forall i | 0 <= i < |elements| :: lines[i] == ElementLine(elements[i])
    ensures Shown(lines) == elements
  {
    if elements != [] {
      ElementsShown(elements[1..], lines[1..]);
      assert elements == [elements[0]] + elements[1..];
    }
  }

  lemma {:induction false} CodesShowNothing(prefixes: seq<seq<Value>>, maps: seq<Value>, lines: seq<Line>)
    requires LinesOfAll(prefixes, maps, lines)
    ensures Shown(lines) == []
  {
    var parts: seq<seq<Line>> :|
      && |parts| == |maps| && lines == Flatten(parts)
      && forall i | 0 <= i < |maps| :: maps[i].Map? && LinesOf(prefixes[i], maps[i].entries, parts[i]);
    forall part, line | part in parts && line in part ensures !line.ElementLine? {
      var i :| 0 <= i < |parts| && parts[i] == part;
      assert LinesOf(prefixes[i], maps[i].entries, part);
      var j :| 0 <= j < |part| && part[j] == line;
    }
    FlattenShowsNothing(parts);
  }

  lemma {:induction false} FlattenShowsNothing(parts: seq<seq<Line>>)
    requires forall part, line | part in parts && line in part :: !line.ElementLine?
    ensures Shown(Flatten(parts)) == []
  {
    if parts != [] {
      assert parts[0] in parts;
      NothingShown(parts[0]);
      FlattenShowsNothing(parts[1..]);
      ShownAppend(parts[0], Flatten(parts[1..]));
    }
  }

  /** A layout from namespace `from` on, taken out of the whole. */
  lemma {:induction false} LaidOutShown(namespaces: seq<(string, seq<Element>)>, from: nat, starts: seq<nat>,
                                        lines: seq<Line>)
    requires LaidOut(namespaces, starts, lines) && from <= |namespaces|
    ensures starts[from] <= |lines| && Shown(lines[starts[from]..]) == ElementsOf(namespaces[from..])
    decreases |namespaces| - from
  {
    if from < |namespaces| {
      var start, next, elements := starts[from], starts[from + 1], namespaces[from].1;
      LaidOutShown(namespaces, from + 1, starts, lines);
      var own := lines[start + 1..next];
      assert lines[start..] == [lines[start]] + (own + lines[next..]);
      forall i | 0 <= i < |elements| ensures own[i] == ElementLine(elements[i]) {
        assert own[i] == lines[start + 1 + i];
      }
      ElementsShown(elements, own);
      ShownAppend(own, lines[next..]);
      ShownAppend([lines[start]], own + lines[next..]);
      assert namespaces[from..][1..] == namespaces[from + 1..];
    }
  }

  lemma DocumentShown(doc: Document, text: Page)
    requires DocumentText(doc, text)
    ensures Shown(text.Lines()) == ElementsOf(doc.namespaces)
  {
    LaidOutShown(doc.namespaces, 0, text.starts, text.elements);
    assert text.elements[0..] == text.elements && doc.namespaces[0..] == doc.namespaces;
    NothingShown(text.device);
    CodesShowNothing(Firsts(doc.errors.entries), Seconds(doc.errors.entries), text.codes);
    NothingShown(text.validity);
    ShownAppend(text.elements, text.device);
    ShownAppend(text.elements + text.device, text.codes);
    ShownAppend(text.elements + text.device + text.codes, text.validity);
  }

  lemma {:induction false} AllShown(docs: seq<Document>, texts: seq<Page>)
    requires AllDocumentTexts(docs, texts)
    ensures Shown(Flatten(AllLines(texts))) == AllElements(docs)
  {
    if docs != [] {
      DocumentShown(docs[0], texts[0]);
      AllDocumentsButOne(docs, texts);
      AllShown(docs[1..], texts[1..]);
      FirstLines(texts);
      ShownAppend(texts[0].Lines(), Flatten(AllLines(texts[1..])));
    }
  }

  lemma AllDocumentsButOne(docs: seq<Document>, texts: seq<Page>)
    requires AllDocumentTexts(docs, texts) && docs != []
    ensures AllDocumentTexts(docs[1..], texts[1..])
  {
  }

  lemma FirstLines(texts: seq<Page>)
    requires texts != []
    ensures Flatten(AllLines(texts)) == texts[0].Lines() + Flatten(AllLines(texts[1..]))
  {
    assert AllLines(texts)[1..] == AllLines(texts[1..]);
  }

  lemma AcceptedIsWritable(response: Response, requests: seq<DocRequest>, now: int)
    requires Acceptable(response, requests, now)
    ensures ValidDocumentErrors(response.documentErrors)
    ensures forall d | d in response.documents :: DocumentWritable(d)
    // Nothing device-signed is ever shown: validation leaves no such item to print.
    ensures forall d | d in response.documents :: !Truthy(d.deviceNamespaces)
  {
    forall d | d in response.documents ensures DocumentWritable(d) && !Truthy(d.deviceNamespaces) {
      SoundIsWritable(d, now);
    }
  }

  lemma SoundIsWritable(doc: Document, now: int)
    requires DocumentSound(doc, now)
    ensures DocumentWritable(doc) && !Truthy(doc.deviceNamespaces)
  {
  }
}
