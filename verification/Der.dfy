/**
 The strict DER recogniser of trust.py: one tag-length-value item with a single
 non-zero tag octet, a minimal definite length of at most 127 length octets, and
 constructed contents tiled exactly by items (X.690 sections 8.1.2, 8.1.3, 10.1).

 `ItemEnd` says what the recogniser answers; `Tlv`, `WellFormed` and `Encode` are
 an independent grammar.  The main results tie the two together; what they rest on follows them.
 */
module Der {
  import opened Common

  datatype DerError =
    | TruncatedHeader
    | UnsupportedTag
    | InvalidLength
    | NonMinimalLength
    | NonMinimalLongForm
    | TruncatedContents
    | NotOneItem

  // ---------------------------------------------------------------- the grammar

  datatype Tlv =
    | Primitive(tag: Byte, contents: seq<Byte>)
    | Constructed(tag: Byte, children: seq<Tlv>)

  /** Not zero, and not the escape (low five bits all set) to a longer tag. */
  predicate AllowedTag(tag: Byte) { tag != 0 && tag % 32 != 31 }

  /** Bit 0x20 of the tag octet. */
  predicate ConstructedTag(tag: Byte) { (tag / 32) % 2 == 1 }

  /** Base-256 digits, most significant first, with no leading zero. */
  function BigEndian(n: nat): (digits: seq<Byte>)
    ensures n > 0 ==> |digits| > 0 && digits[0] != 0
  {
    if n == 0 then [] else BigEndian(n / 256) + [n % 256]
  }

  function FromBigEndian(digits: seq<Byte>): nat {
    if digits == [] then 0
    else FromBigEndian(digits[..|digits| - 1]) * 256 + digits[|digits| - 1]
  }

  /** Lengths that fit in at most 127 length octets. */
  predicate EncodableLength(n: nat) { n < 128 || |BigEndian(n)| <= 127 }

  function EncodeLength(n: nat): seq<Byte>
    requires EncodableLength(n)
  {
    if n < 128 then [n] else [128 + |BigEndian(n)|] + BigEndian(n)
  }

  predicate WellFormed(t: Tlv)
    decreases t, 0
  {
    && AllowedTag(t.tag)
    && match t
       case Primitive(tag, contents) => !ConstructedTag(tag) && EncodableLength(|contents|)
       case Constructed(tag, children) =>
         && ConstructedTag(tag)
         && AllWellFormed(children)
         && EncodableLength(|EncodeAll(children)|)
  }

  predicate AllWellFormed(ts: seq<Tlv>)
    decreases ts, 0
  {
    ts == [] || (WellFormed(ts[0]) && AllWellFormed(ts[1..]))
  }

  /** Tag octet, length octets, contents octets. */
  function Frame(tag: Byte, contents: seq<Byte>): seq<Byte>
    requires EncodableLength(|contents|)
  {
    [tag] + EncodeLength(|contents|) + contents
  }

  function Encode(t: Tlv): seq<Byte>
    requires WellFormed(t)
    decreases t, 1
  {
    match t
    case Primitive(tag, contents) => Frame(tag, contents)
    case Constructed(tag, children) => Frame(tag, EncodeAll(children))
  }

  function EncodeAll(ts: seq<Tlv>): seq<Byte>
    requires AllWellFormed(ts)
    decreases ts, 1
  {
    if ts == [] then [] else Encode(ts[0]) + EncodeAll(ts[1..])
  }

  /** The masks of the source, bit by bit: 0x20 marks constructed contents, 0x1F the escape to a longer tag. */
  lemma TagBits(tag: Byte)
    ensures ConstructedTag(tag) <==> (tag as bv8) & 0x20 != 0
    ensures AllowedTag(tag) <==> tag != 0 && (tag as bv8) & 0x1F != 0x1F
  {
  }

  /** The first length octet: 0x80 announces a long form. */
  lemma LongFormBit(first: Byte)
    ensures first < 128 <==> (first as bv8) & 0x80 == 0
  {
  }

  // ------------------------------------------------------------- the recogniser

  /** Bounds of the contents of the item whose header starts at `offset`. */
  function Header(data: seq<Byte>, offset: nat, limit: nat): (r: Result<(nat, nat), DerError>)
    requires offset <= limit <= |data|
    ensures r.Ok? ==> offset + 2 <= r.value.0 <= r.value.1 <= limit
  {
    if offset + 2 > limit then Err(TruncatedHeader)
    else if !AllowedTag(data[offset]) then Err(UnsupportedTag)
    else
      var first := data[offset + 1];
      if first < 128 then
        if offset + 2 + first > limit then Err(TruncatedContents) else Ok((offset + 2, offset + 2 + first))
      else
        var size := first % 128;
        var start := offset + 2 + size;
        if size == 0 || start > limit then Err(InvalidLength)
        else if data[offset + 2] == 0 then Err(NonMinimalLength)
        else
          var length := FromBigEndian(data[offset + 2..start]);
          if length < 128 then Err(NonMinimalLongForm)
          else if start + length > limit then Err(TruncatedContents)
          else Ok((start, start + length))
  }

  /** The answer of the recogniser for the item at `offset`, reading below `limit` only. */
  function ItemEnd(data: seq<Byte>, offset: nat, limit: nat): (r: Result<nat, DerError>)
    requires offset <= limit <= |data|
    ensures r.Ok? ==> offset + 2 <= r.value <= limit
    decreases limit - offset, 0
  {
    var (start, end) :- Header(data, offset, limit);
    if ConstructedTag(data[offset]) then ItemsEnd(data, start, end) else Ok(end)
  }

  /** The answer of the loop over the children between `child` and `end`. */
  function ItemsEnd(data: seq<Byte>, child: nat, end: nat): (r: Result<nat, DerError>)
    requires child <= end <= |data|
    ensures r.Ok? ==> r.value == end
    decreases end - child, 1
  {
    if child == end then Ok(end)
    else
      var next :- ItemEnd(data, child, end);
      ItemsEnd(data, next, end)
  }

  method DerItemEnd(data: seq<Byte>, offset: nat, limit: nat) returns (r: Result<nat, DerError>)
    requires offset <= limit <= |data|
    ensures r == ItemEnd(data, offset, limit)
    decreases limit - offset
  {
    if offset + 2 > limit {
      return Err(TruncatedHeader);
    }
    var tag := data[offset];
    if tag == 0 || tag % 32 == 31 {
      return Err(UnsupportedTag);
    }
    var at := offset + 1;
    var firstLength := data[at];
    at := at + 1;
    var contentLength: nat;
    if firstLength >= 128 {
      var lengthSize := firstLength % 128;
      if lengthSize == 0 || at + lengthSize > limit {
        return Err(InvalidLength);
      }
      var lengthBytes := data[at..at + lengthSize];
      if lengthBytes[0] == 0 {
        return Err(NonMinimalLength);
      }
      contentLength := FromBigEndian(lengthBytes);
      if contentLength < 128 {
        return Err(NonMinimalLongForm);
      }
      at := at + lengthSize;
    } else {
      contentLength := firstLength;
    }
    var contentEnd := at + contentLength;
    if contentEnd > limit {
      assert Header(data, offset, limit) == Err(TruncatedContents);
      return Err(TruncatedContents);
    }
    assert Header(data, offset, limit) == Ok((at, contentEnd));
    if (tag / 32) % 2 == 1 {
      var child := at;
      while child < contentEnd
        invariant at <= child <= contentEnd
        invariant ItemEnd(data, offset, limit) == ItemsEnd(data, child, contentEnd)
        decreases contentEnd - child
      {
        var next := DerItemEnd(data, child, contentEnd);
        if next.Err? {
          return next;
        }
        child := next.value;
      }
      // The source now rejects child != contentEnd; no child can end past its limit.
      assert child == contentEnd;
    }
    return Ok(contentEnd);
  }

  /** A non-empty byte string that is exactly one item. */
  predicate ValidDer(data: seq<Byte>) {
    data != [] && ItemEnd(data, 0, |data|) == Ok(|data|)
  }

  method ValidateDerEncoding(data: seq<Byte>) returns (r: Result<(), DerError>)
    ensures r.Ok? <==> ValidDer(data)
    ensures r.Ok? <==> exists t :: WellFormed(t) && Encode(t) == data
  {
    DerExact(data);
    if data == [] {
      return Err(NotOneItem);
    }
    var end := DerItemEnd(data, 0, |data|);
    if end.Err? {
      return Err(end.error);
    }
    if end.value != |data| {
      return Err(NotOneItem);
    }
    return Ok(());
  }

  // ------------------------------------------------- what accepted bytes spell

  /** The tree that an accepted item spells. */
  function Parse(data: seq<Byte>, offset: nat, limit: nat): Tlv
    requires offset <= limit <= |data|
    requires ItemEnd(data, offset, limit).Ok?
    decreases limit - offset, 0
  {
    var (start, end) := Header(data, offset, limit).value;
    if ConstructedTag(data[offset]) then Constructed(data[offset], ParseAll(data, start, end))
    else Primitive(data[offset], data[start..end])
  }

  function ParseAll(data: seq<Byte>, child: nat, end: nat): seq<Tlv>
    requires child <= end <= |data|
    requires ItemsEnd(data, child, end).Ok?
    decreases end - child, 1
  {
    if child == end then []
    else [Parse(data, child, end)] + ParseAll(data, ItemEnd(data, child, end).value, end)
  }

  // ---------------------------------------------------------------- main results

  /** The recogniser accepts exactly the encodings of well-formed trees. */
  lemma DerExact(data: seq<Byte>)
    ensures ValidDer(data) <==> exists t :: WellFormed(t) && Encode(t) == data
  {
    if ValidDer(data) {
      ParseSound(data, 0, |data|, |data|);
      assert data[0..|data|] == data;
    }
    forall t | WellFormed(t) && Encode(t) == data ensures ValidDer(data) {
      PrintThenParse(t);
    }
  }

  /** Printing then parsing is the identity on trees. */
  lemma PrintThenParse(t: Tlv)
    requires WellFormed(t)
    ensures ValidDer(Encode(t)) && Parse(Encode(t), 0, |Encode(t)|) == t
  {
    var data := Encode(t);
    assert data[0..|data|] == data;
    ParseComplete(t, data, 0, |data|);
  }

  /** Parsing then printing is the identity on accepted byte strings. */
  lemma ParseThenPrint(data: seq<Byte>)
    requires ValidDer(data)
    ensures WellFormed(Parse(data, 0, |data|)) && Encode(Parse(data, 0, |data|)) == data
  {
    ParseSound(data, 0, |data|, |data|);
    assert data[0..|data|] == data;
  }

  /** An item is self-delimiting: a byte string starts with at most one encoding. */
  lemma PrefixFree(t: Tlv, u: Tlv, afterT: seq<Byte>, afterU: seq<Byte>)
    requires WellFormed(t) && WellFormed(u)
    requires Encode(t) + afterT == Encode(u) + afterU
    ensures t == u && afterT == afterU
  {
    var data := Encode(t) + afterT;
    assert data[0..|Encode(t)|] == Encode(t) && data[0..|Encode(u)|] == Encode(u);
    ParseComplete(t, data, 0, |data|);
    ParseComplete(u, data, 0, |data|);
    assert afterT == data[|Encode(t)|..] && afterU == data[|Encode(u)|..];
  }

  /** No accepted byte string is a proper prefix of another. */
  lemma NoProperPrefix(a: seq<Byte>, b: seq<Byte>)
    requires ValidDer(a) && ValidDer(b) && a <= b
    ensures a == b
  {
    ParseThenPrint(a);
    ParseThenPrint(b);
    PrefixFree(Parse(a, 0, |a|), Parse(b, 0, |b|), b[|a|..], []);
  }

  /**
   A successful answer depends only on the bytes of the item: the same bytes at any
   place of any buffer, under any limit at or past their end, get the same answer.
   */
  lemma ItemEndLocal(data: seq<Byte>, offset: nat, limit: nat, end: nat,
                     data': seq<Byte>, offset': nat, limit': nat, end': nat)
    requires offset <= limit <= |data| && offset' <= limit' <= |data'|
    requires ItemEnd(data, offset, limit) == Ok(end)
    requires end' - offset' == end - offset && end' <= limit'
    requires data'[offset'..end'] == data[offset..end]
    ensures ItemEnd(data', offset', limit') == Ok(end')
    ensures Parse(data', offset', limit') == Parse(data, offset, limit)
  {
    ParseSound(data, offset, limit, end);
    EncodedAt(Parse(data, offset, limit), data', offset', limit', end');
  }

  ghost predicate Agree(data: seq<Byte>, data': seq<Byte>, from: nat, to: nat) {
    to <= |data| && to <= |data'| && forall i | from <= i < to :: data[i] == data'[i]
  }

  /** Octets at or past the limit are never read: they change no answer, not even which error is raised. */
  lemma {:induction false} ReadsBelowLimit(data: seq<Byte>, data': seq<Byte>, offset: nat, limit: nat)
    requires offset <= limit && Agree(data, data', offset, limit)
    ensures ItemEnd(data, offset, limit) == ItemEnd(data', offset, limit)
    decreases limit - offset, 0
  {
    HeaderReadsBelow(data, data', offset, limit);
    if Header(data, offset, limit).Ok? {
      var (start, end) := Header(data, offset, limit).value;
      ChildrenReadBelow(data, data', start, end);
    }
  }

  /** The recogniser fails exactly when no item encoding starts at `offset` and ends by `limit`. */
  lemma FailsExactly(data: seq<Byte>, offset: nat, limit: nat)
    requires offset <= limit <= |data|
    ensures ItemEnd(data, offset, limit).Err? <==>
            !exists t :: WellFormed(t) && Encode(t) <= data[offset..limit]
  {
    if ItemEnd(data, offset, limit).Ok? {
      var end := ItemEnd(data, offset, limit).value;
      ParseSound(data, offset, limit, end);
      assert data[offset..end] == data[offset..limit][..end - offset];
      assert Encode(Parse(data, offset, limit)) <= data[offset..limit];
    }
    forall t | WellFormed(t) && Encode(t) <= data[offset..limit]
      ensures ItemEnd(data, offset, limit).Ok?
    {
      var end := offset + |Encode(t)|;
      assert data[offset..end] == data[offset..limit][..end - offset];
      EncodedAt(t, data, offset, limit, end);
    }
  }

  /** Wherever the encoding of a tree stands, the recogniser ends the item there and nowhere else. */
  lemma {:induction false} ParseComplete(t: Tlv, data: seq<Byte>, offset: nat, limit: nat)
    requires WellFormed(t)
    requires offset + |Encode(t)| <= limit <= |data|
    requires data[offset..offset + |Encode(t)|] == Encode(t)
    ensures ItemEnd(data, offset, limit) == Ok(offset + |Encode(t)|)
    ensures Parse(data, offset, limit) == t
    decreases t, 0
  {
    var start, end := HeaderOf(t, data, offset, limit);
    if t.Constructed? {
      ParseAllComplete(t.children, data, start, end);
    }
    TreeParsed(t, data, offset, limit, start, end);
  }

  lemma {:induction false} BigEndianUnique(digits: seq<Byte>)
    requires digits != [] ==> digits[0] != 0
    ensures BigEndian(FromBigEndian(digits)) == digits
    ensures digits != [] ==> FromBigEndian(digits) > 0
  {
    if digits != [] {
      var front, last := digits[..|digits| - 1], digits[|digits| - 1];
      BigEndianUnique(front);
      assert digits == front + [last];
      var n := FromBigEndian(digits);
      assert n / 256 == FromBigEndian(front) && n % 256 == last;
    }
  }

  // ---------------------------------------------------- length octets round trip

  lemma {:induction false} BigEndianRoundTrip(n: nat)
    ensures FromBigEndian(BigEndian(n)) == n
  {
    if n > 0 {
      BigEndianRoundTrip(n / 256);
      assert BigEndian(n)[..|BigEndian(n)| - 1] == BigEndian(n / 256);
    }
  }

  lemma LongOctets(data: seq<Byte>, offset: nat, start: nat)
    requires offset + 2 < start <= |data|
    requires data[offset + 1] == 128 + (start - offset - 2) && data[offset + 2] != 0
    requires FromBigEndian(data[offset + 2..start]) >= 128
    ensures var n := FromBigEndian(data[offset + 2..start]);
            EncodableLength(n) && data[offset..start] == [data[offset]] + EncodeLength(n)
  {
    var octets := data[offset + 2..start];
    BigEndianUnique(octets);
    assert EncodeLength(FromBigEndian(octets)) == [data[offset + 1]] + octets;
    assert data[offset..start] == [data[offset]] + ([data[offset + 1]] + octets);
  }

  lemma HeaderOctets(data: seq<Byte>, offset: nat, limit: nat)
    requires offset <= limit <= |data|
    requires Header(data, offset, limit).Ok?
    ensures var (start, end) := Header(data, offset, limit).value;
            && EncodableLength(end - start)
            && data[offset..start] == [data[offset]] + EncodeLength(end - start)
  {
    var (start, end) := Header(data, offset, limit).value;
    if data[offset + 1] >= 128 {
      LongOctets(data, offset, start);
    }
  }

  /** An accepted header and its contents are the tag, the minimal length octets and the contents. */
  lemma HeaderSound(data: seq<Byte>, offset: nat, limit: nat, start: nat, end: nat)
    requires offset <= limit <= |data|
    requires Header(data, offset, limit) == Ok((start, end))
    ensures AllowedTag(data[offset])
    ensures EncodableLength(|data[start..end]|)
    ensures data[offset..end] == Frame(data[offset], data[start..end])
  {
    HeaderOctets(data, offset, limit);
    assert data[offset..end] == data[offset..start] + data[start..end];
  }

  lemma HeaderShortForm(data: seq<Byte>, offset: nat, limit: nat, tag: Byte, n: nat)
    requires AllowedTag(tag) && n < 128
    requires offset + 2 + n <= limit <= |data|
    requires data[offset] == tag && data[offset + 1] == n
    ensures Header(data, offset, limit) == Ok((offset + 2, offset + 2 + n))
  {
  }

  lemma HeaderLongForm(data: seq<Byte>, offset: nat, limit: nat, tag: Byte, digits: seq<Byte>)
    requires AllowedTag(tag) && 0 < |digits| <= 127 && digits[0] != 0
    requires FromBigEndian(digits) >= 128
    requires offset + 2 + |digits| + FromBigEndian(digits) <= limit <= |data|
    requires data[offset] == tag && data[offset + 1] == 128 + |digits|
    requires data[offset + 2..offset + 2 + |digits|] == digits
    ensures Header(data, offset, limit) ==
            Ok((offset + 2 + |digits|, offset + 2 + |digits| + FromBigEndian(digits)))
  {
    assert data[offset + 2] == data[offset + 2..offset + 2 + |digits|][0];
    assert (128 + |digits|) % 128 == |digits|;
  }

  lemma LengthOctetsAt(data: seq<Byte>, offset: nat, tag: Byte, octets: seq<Byte>)
    requires octets != [] && offset + 1 + |octets| <= |data|
    requires data[offset..offset + 1 + |octets|] == [tag] + octets
    ensures data[offset] == tag && data[offset + 1] == octets[0]
    ensures data[offset + 2..offset + 1 + |octets|] == octets[1..]
  {
    var head := data[offset..offset + 1 + |octets|];
    assert data[offset] == head[0] && data[offset + 1] == head[1];
    assert data[offset + 2..offset + 1 + |octets|] == head[2..];
  }

  lemma HeaderFromOctets(data: seq<Byte>, offset: nat, limit: nat, tag: Byte, n: nat)
    requires AllowedTag(tag) && EncodableLength(n)
    requires offset + 1 + |EncodeLength(n)| + n <= limit <= |data|
    requires data[offset..offset + 1 + |EncodeLength(n)|] == [tag] + EncodeLength(n)
    ensures data[offset] == tag
    ensures Header(data, offset, limit) ==
            Ok((offset + 1 + |EncodeLength(n)|, offset + 1 + |EncodeLength(n)| + n))
  {
    var octets := EncodeLength(n);
    LengthOctetsAt(data, offset, tag, octets);
    if n < 128 {
      HeaderShortForm(data, offset, limit, tag, n);
    } else {
      BigEndianRoundTrip(n);
      HeaderLongForm(data, offset, limit, tag, BigEndian(n));
    }
  }

  lemma HeaderComplete(data: seq<Byte>, offset: nat, limit: nat, tag: Byte, contents: seq<Byte>)
      returns (start: nat, end: nat)
    requires AllowedTag(tag) && EncodableLength(|contents|)
    requires offset + |Frame(tag, contents)| <= limit <= |data|
    requires data[offset..offset + |Frame(tag, contents)|] == Frame(tag, contents)
    ensures data[offset] == tag
    ensures Header(data, offset, limit) == Ok((start, end)) && start <= end
    ensures end == offset + |Frame(tag, contents)| && data[start..end] == contents
  {
    var head := [tag] + EncodeLength(|contents|);
    start, end := offset + |head|, offset + |Frame(tag, contents)|;
    SplitAt(data, offset, end, head, contents);
    HeaderFromOctets(data, offset, limit, tag, |contents|);
  }

  // ------------------------------------------------------- parsing is exact

  lemma {:induction false} ParseSound(data: seq<Byte>, offset: nat, limit: nat, end: nat)
    requires offset <= limit <= |data|
    requires ItemEnd(data, offset, limit) == Ok(end)
    ensures WellFormed(Parse(data, offset, limit))
    ensures Encode(Parse(data, offset, limit)) == data[offset..end]
    decreases limit - offset, 0
  {
    var start := Header(data, offset, limit).value.0;
    HeaderSound(data, offset, limit, start, end);
    if ConstructedTag(data[offset]) {
      ParseAllSound(data, start, end);
    }
  }

  lemma {:induction false} ParseAllSound(data: seq<Byte>, child: nat, end: nat)
    requires child <= end <= |data|
    requires ItemsEnd(data, child, end).Ok?
    ensures AllWellFormed(ParseAll(data, child, end))
    ensures EncodeAll(ParseAll(data, child, end)) == data[child..end]
    decreases end - child, 1
  {
    if child < end {
      var next := ItemEnd(data, child, end).value;
      ParseSound(data, child, end, next);
      ParseAllSound(data, next, end);
      ConsSound(Parse(data, child, end), ParseAll(data, next, end), data, child, next, end);
    }
  }

  lemma ConsSound(first: Tlv, rest: seq<Tlv>, data: seq<Byte>, child: nat, next: nat, end: nat)
    requires child <= next <= end <= |data|
    requires WellFormed(first) && Encode(first) == data[child..next]
    requires AllWellFormed(rest) && EncodeAll(rest) == data[next..end]
    ensures AllWellFormed([first] + rest) && EncodeAll([first] + rest) == data[child..end]
  {
    var all := [first] + rest;
    assert all[0] == first && all[1..] == rest;
    assert data[child..end] == data[child..next] + data[next..end];
  }

  lemma EncodedAt(t: Tlv, data: seq<Byte>, offset: nat, limit: nat, end: nat)
    requires WellFormed(t) && offset <= end <= limit <= |data| && Encode(t) == data[offset..end]
    ensures ItemEnd(data, offset, limit) == Ok(end) && Parse(data, offset, limit) == t
    decreases t, 1
  {
    assert |Encode(t)| == end - offset;
    ParseComplete(t, data, offset, limit);
  }

  lemma HeaderOf(t: Tlv, data: seq<Byte>, offset: nat, limit: nat) returns (start: nat, end: nat)
    requires WellFormed(t)
    requires offset + |Encode(t)| <= limit <= |data|
    requires data[offset..offset + |Encode(t)|] == Encode(t)
    ensures offset < limit && data[offset] == t.tag
    ensures Header(data, offset, limit) == Ok((start, end)) && start <= end == offset + |Encode(t)|
    ensures t.Primitive? ==> data[start..end] == t.contents
    ensures t.Constructed? ==> data[start..end] == EncodeAll(t.children)
  {
    var contents := if t.Primitive? then t.contents else EncodeAll(t.children);
    assert Encode(t) == Frame(t.tag, contents);
    start, end := HeaderComplete(data, offset, limit, t.tag, contents);
  }

  lemma TreeParsed(t: Tlv, data: seq<Byte>, offset: nat, limit: nat, start: nat, end: nat)
    requires WellFormed(t) && offset < limit <= |data| && data[offset] == t.tag
    requires Header(data, offset, limit) == Ok((start, end))
    requires t.Primitive? ==> data[start..end] == t.contents
    requires t.Constructed? ==> ItemsEnd(data, start, end).Ok? && ParseAll(data, start, end) == t.children
    ensures ItemEnd(data, offset, limit) == Ok(end) && Parse(data, offset, limit) == t
  {
  }

  lemma {:induction false} ParseAllComplete(ts: seq<Tlv>, data: seq<Byte>, child: nat, end: nat)
    requires AllWellFormed(ts)
    requires child <= end <= |data|
    requires data[child..end] == EncodeAll(ts)
    ensures ItemsEnd(data, child, end).Ok?
    ensures ParseAll(data, child, end) == ts
    decreases ts, 1
  {
    if ts != [] {
      var next := HeadSplit(ts, data, child, end);
      EncodedAt(ts[0], data, child, end, next);
      ParseAllComplete(ts[1..], data, next, end);
      ConsParsed(ts, data, child, next, end);
    }
  }

  lemma HeadSplit(ts: seq<Tlv>, data: seq<Byte>, child: nat, end: nat) returns (next: nat)
    requires ts != [] && AllWellFormed(ts)
    requires child <= end <= |data| && data[child..end] == EncodeAll(ts)
    ensures next == child + |Encode(ts[0])| <= end
    ensures data[child..next] == Encode(ts[0]) && data[next..end] == EncodeAll(ts[1..])
  {
    SplitAt(data, child, end, Encode(ts[0]), EncodeAll(ts[1..]));
    next := child + |Encode(ts[0])|;
  }

  lemma ConsParsed(ts: seq<Tlv>, data: seq<Byte>, child: nat, next: nat, end: nat)
    requires ts != [] && child < end <= |data| && next <= end
    requires ItemEnd(data, child, end) == Ok(next) && Parse(data, child, end) == ts[0]
    requires ItemsEnd(data, next, end).Ok? && ParseAll(data, next, end) == ts[1..]
    ensures ItemsEnd(data, child, end).Ok? && ParseAll(data, child, end) == ts
  {
    assert ts == [ts[0]] + ts[1..];
  }

  lemma SplitAt(data: seq<Byte>, from: nat, to: nat, first: seq<Byte>, rest: seq<Byte>)
    requires from <= to <= |data| && data[from..to] == first + rest
    ensures from + |first| <= to
    ensures data[from..from + |first|] == first && data[from + |first|..to] == rest
  {
    assert data[from..from + |first|] == data[from..to][..|first|];
    assert data[from + |first|..to] == data[from..to][|first|..];
  }

  // ------------------------------------------------ reading below the limit

  lemma HeaderReadsBelow(data: seq<Byte>, data': seq<Byte>, offset: nat, limit: nat)
    requires offset <= limit && Agree(data, data', offset, limit)
    ensures Header(data, offset, limit) == Header(data', offset, limit)
  {
    if offset + 2 <= limit && data[offset + 1] >= 128 {
      var start := offset + 2 + data[offset + 1] % 128;
      if start <= limit {
        assert data[offset + 2..start] == data'[offset + 2..start];
      }
    }
  }

  lemma {:induction false} ChildrenReadBelow(data: seq<Byte>, data': seq<Byte>, child: nat, end: nat)
    requires child <= end && Agree(data, data', child, end)
    ensures ItemsEnd(data, child, end) == ItemsEnd(data', child, end)
    decreases end - child, 1
  {
    if child < end {
      ReadsBelowLimit(data, data', child, end);
      if ItemEnd(data, child, end).Ok? {
        ChildrenReadBelow(data, data', ItemEnd(data, child, end).value, end);
      }
    }
  }
}
