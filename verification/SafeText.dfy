/** The escaping of untrusted names and diagnostics before they reach a terminal (display.py). */
module SafeText {
  import opened Common
  import opened Values

  // ------------------------------------------------------------------- numerals

  function DigitChar(d: nat): (c: char)
    requires d < 16
    ensures c == "0123456789abcdef"[d]
    ensures ' ' < c <= '~' && c != '\\'
  {
    if d < 10 then (d + 0x30) as char else (d + 0x57) as char
  }

  function DigitValue(c: char): Option<nat> {
    if '0' <= c <= '9' then Some(c as int - 0x30)
    else if 'a' <= c <= 'f' then Some(c as int - 0x57)
    else None
  }

  lemma PrintableAppend(a: string, b: string)
    ensures Printable(a + b) <==> Printable(a) && Printable(b)
  {
    var s := a + b;
    if Printable(s) {
      forall i | 0 <= i < |a| ensures ' ' <= a[i] <= '~' { assert s[i] == a[i]; }
      forall i | 0 <= i < |b| ensures ' ' <= b[i] <= '~' { assert s[|a| + i] == b[i]; }
    }
  }

  /** n in the given base, without leading zeros. */
  function Numeral(n: nat, base: nat): (s: string)
    requires 2 <= base <= 16
    ensures |s| > 0 && Printable(s)
  {
    if n < base then [DigitChar(n)]
    else
      DigitsShrink(n, base);
      PrintableAppend(Numeral(n / base, base), [DigitChar(n % base)]);
      Numeral(n / base, base) + [DigitChar(n % base)]
  }

  lemma DigitsShrink(n: nat, base: nat)
    requires 2 <= base <= n
    ensures 0 <= n / base < n && 0 <= n % base < base && n == n / base * base + n % base
  {
  }

  /** The number that a numeral spells. */
  function FromNumeral(s: string, base: nat): Option<nat> {
    if s == "" then Some(0)
    else
      match (FromNumeral(s[..|s| - 1], base), DigitValue(s[|s| - 1]))
      case (Some(high), Some(low)) => if low < base then Some(high * base + low) else None
      case _ => None
  }

  /** The numeral of a number spells that number. */
  lemma {:induction false} NumeralReads(n: nat, base: nat)
    requires 2 <= base <= 16
    ensures FromNumeral(Numeral(n, base), base) == Some(n)
  {
    if n < base {
      OneDigitMore("", n, base);
      assert "" + [DigitChar(n)] == [DigitChar(n)];
    } else {
      DigitsShrink(n, base);
      NumeralReads(n / base, base);
      OneDigitMore(Numeral(n / base, base), n % base, base);
    }
  }

  lemma OneDigitMore(s: string, digit: nat, base: nat)
    requires digit < base <= 16
    ensures FromNumeral(s + [DigitChar(digit)], base) ==
            if FromNumeral(s, base).Some? then Some(FromNumeral(s, base).value * base + digit) else None
  {
    assert (s + [DigitChar(digit)])[..|s|] == s;
  }

  /** Only zero has a numeral that starts with a zero. */
  lemma {:induction false} NoLeadingZero(n: nat, base: nat)
    requires 2 <= base <= 16 && n > 0
    ensures Numeral(n, base)[0] != '0'
  {
    if n >= base {
      DigitsShrink(n, base);
      NoLeadingZero(n / base, base);
    }
  }

  /** The last `width` hexadecimal digits of n. */
  function Hex(n: nat, width: nat): (s: string)
    ensures |s| == width && Printable(s)
  {
    if width == 0 then ""
    else
      PrintableAppend(Hex(n / 16, width - 1), [DigitChar(n % 16)]);
      Hex(n / 16, width - 1) + [DigitChar(n % 16)]
  }

  function FromHex(s: string): Option<nat> {
    if s == "" then Some(0)
    else
      match (FromHex(s[..|s| - 1]), DigitValue(s[|s| - 1]))
      case (Some(high), Some(low)) => Some(high * 16 + low)
      case _ => None
  }

  function Power16(width: nat): nat { if width == 0 then 1 else 16 * Power16(width - 1) }

  lemma {:induction false} HexRoundTrip(n: nat, width: nat)
    requires n < Power16(width)
    ensures FromHex(Hex(n, width)) == Some(n)
  {
    if width > 0 {
      HexRoundTrip(n / 16, width - 1);
      assert Hex(n, width)[..width - 1] == Hex(n / 16, width - 1);
    }
  }

  // ------------------------------------------------------------------- escaping

  predicate Printable(s: string) { forall i | 0 <= i < |s| :: ' ' <= s[i] <= '~' }

  /** Python's unicode_escape codec on one character. */
  function EscapeChar(c: char): (s: string)
    ensures 0 < |s| <= 10 && Printable(s)
  {
    var n := c as int;
    if c == '\\' then "\\\\"
    else if n == 0x09 then "\\t"
    else if n == 0x0A then "\\n"
    else if n == 0x0D then "\\r"
    else if 0x20 <= n <= 0x7E then [c]
    else if n < 0x100 then "\\x" + Hex(n, 2)
    else if n < 0x10000 then "\\u" + Hex(n, 4)
    else "\\U" + Hex(n, 8)
  }

  function Escape(s: string): (r: string)
    ensures Printable(r)
    ensures |s| <= |r| <= 10 * |s|
  {
    if s == "" then ""
    else
      PrintableAppend(EscapeChar(s[0]), Escape(s[1..]));
      EscapeChar(s[0]) + Escape(s[1..])
  }

  predicate IsCodePoint(n: nat) { n < 0xD800 || 0xE000 <= n < 0x110000 }

  /** Reads the character that `width` hexadecimal digits after a two-character prefix spell. */
  function CodeAt(s: string, width: nat): Option<char> {
    if |s| < 2 + width then None
    else
      match FromHex(s[2..2 + width])
      case None => None
      case Some(n) => if IsCodePoint(n) then Some(n as char) else None
  }

  /** The first character an escaped text spells, and how much text spells it. */
  function ReadChar(s: string): Option<(char, nat)>
    requires s != ""
  {
    if s[0] != '\\' then Some((s[0], 1))
    else if |s| < 2 then None
    else if s[1] == '\\' then Some(('\\', 2))
    else if s[1] == 't' then Some(('\t', 2))
    else if s[1] == 'n' then Some(('\n', 2))
    else if s[1] == 'r' then Some(('\r', 2))
    else
      var width := if s[1] == 'x' then 2 else if s[1] == 'u' then 4 else if s[1] == 'U' then 8 else 0;
      if width == 0 || CodeAt(s, width).None? then None else Some((CodeAt(s, width).value, 2 + width))
  }

  function Unescape(s: string): Option<string>
    decreases |s|
  {
    if s == "" then Some("")
    else
      match ReadChar(s)
      case None => None
      case Some((c, size)) =>
        if size > |s| then None
        else
          match Unescape(s[size..])
          case None => None
          case Some(rest) => Some([c] + rest)
  }

  lemma CodeRoundTrip(n: nat, prefix: char, width: nat, rest: string)
    requires IsCodePoint(n) && n < Power16(width)
    requires (prefix == 'x' && width == 2) || (prefix == 'u' && width == 4) || (prefix == 'U' && width == 8)
    ensures CodeAt(['\\', prefix] + Hex(n, width) + rest, width) == Some(n as char)
    ensures ReadChar(['\\', prefix] + Hex(n, width) + rest) == Some((n as char, 2 + width))
  {
    var s := ['\\', prefix] + Hex(n, width) + rest;
    assert s[2..2 + width] == Hex(n, width);
    HexRoundTrip(n, width);
  }

  lemma ReadShort(c: char, rest: string)
    requires var n := c as int; c == '\\' || n == 0x09 || n == 0x0A || n == 0x0D || 0x20 <= n <= 0x7E
    ensures ReadChar(EscapeChar(c) + rest) == Some((c, |EscapeChar(c)|))
  {
    assert (EscapeChar(c) + rest)[0] == EscapeChar(c)[0];
  }

  lemma ReadCharEscaped(c: char, rest: string)
    ensures ReadChar(EscapeChar(c) + rest) == Some((c, |EscapeChar(c)|))
  {
    var n := c as int;
    var s := EscapeChar(c) + rest;
    assert Power16(2) == 0x100 && Power16(4) == 0x10000 && Power16(8) == 0x1_0000_0000;
    if c == '\\' || n == 0x09 || n == 0x0A || n == 0x0D || 0x20 <= n <= 0x7E {
      ReadShort(c, rest);
    } else if n < 0x100 {
      CodeRoundTrip(n, 'x', 2, rest);
      assert s == ['\\', 'x'] + Hex(n, 2) + rest;
    } else if n < 0x10000 {
      CodeRoundTrip(n, 'u', 4, rest);
      assert s == ['\\', 'u'] + Hex(n, 4) + rest;
    } else {
      CodeRoundTrip(n, 'U', 8, rest);
      assert s == ['\\', 'U'] + Hex(n, 8) + rest;
    }
  }

  /** Escaping loses nothing: the text can be read back. */
  lemma {:induction false} UnescapeEscape(s: string)
    ensures Unescape(Escape(s)) == Some(s)
  {
    if s != "" {
      var first, rest := EscapeChar(s[0]), Escape(s[1..]);
      ReadCharEscaped(s[0], rest);
      assert (first + rest)[|first|..] == rest;
      UnescapeEscape(s[1..]);
      assert [s[0]] + s[1..] == s;
    }
  }

  /** Two names never look the same once escaped. */
  lemma EscapeInjective(a: string, b: string)
    requires Escape(a) == Escape(b)
    ensures a == b
  {
    UnescapeEscape(a);
    UnescapeEscape(b);
  }

  // ------------------------------------------------------------- nested values

  function IntText(i: int): string {
    if -TWO_TO_64 <= i < TWO_TO_64 then (if i < 0 then "-" + Numeral(-i, 10) else Numeral(i, 10))
    else if i >= 0 then "integer 0x" + Numeral(i, 16)
    else "integer -0x" + Numeral(-i, 16)
  }

  /** The integer that a rendered integer spells: decimal, or hexadecimal behind the word "integer". */
  function ReadInt(text: string): Option<int> {
    if "integer 0x" <= text then FromNumeral(text[10..], 16)
    else if "integer -0x" <= text then Negative(FromNumeral(text[11..], 16))
    else if "-" <= text then Negative(FromNumeral(text[1..], 10))
    else FromNumeral(text, 10)
  }

  function Negative(n: Option<int>): Option<int> { if n.Some? then Some(-n.value) else None }

  lemma ReadDecimal(n: int)
    requires n >= 0
    ensures ReadInt(Numeral(n, 10)) == Some(n)
  {
    NumeralReads(n, 10);
    NumeralStarts(n, 10);
    assert Numeral(n, 10)[0] != 'i' && Numeral(n, 10)[0] != '-';
  }

  lemma ReadNegative(n: int)
    requires n >= 0
    ensures ReadInt("-" + Numeral(n, 10)) == Some(-n)
  {
    NumeralReads(n, 10);
    var text := "-" + Numeral(n, 10);
    assert text[0] == '-' && text[1..] == Numeral(n, 10);
  }

  lemma ReadHexadecimal(n: int)
    requires n >= 0
    ensures ReadInt("integer 0x" + Numeral(n, 16)) == Some(n)
    ensures ReadInt("integer -0x" + Numeral(n, 16)) == Some(-n)
  {
    NumeralReads(n, 16);
    var digits, plus, minus := Numeral(n, 16), "integer 0x" + Numeral(n, 16), "integer -0x" + Numeral(n, 16);
    assert plus[10..] == digits && minus[11..] == digits && minus[8] == '-';
  }

  /** Every integer can be read back from its text, so different integers never look the same. */
  lemma IntTextReads(i: int)
    ensures ReadInt(IntText(i)) == Some(i)
  {
    var n := if i < 0 then -i else i;
    ReadDecimal(n);
    ReadNegative(n);
    ReadHexadecimal(n);
  }

  lemma {:induction false} NumeralStarts(n: nat, base: nat)
    requires 2 <= base <= 10
    ensures '0' <= Numeral(n, base)[0] <= '9'
  {
    if n >= base {
      DigitsShrink(n, base);
      NumeralStarts(n / base, base);
    }
  }

  /** str() of a leaf; `show` stands for Python's own str() of the remaining types. */
  function AtomText(show: Value -> string, v: Value): string {
    match v
    case Int(i) => IntText(i)
    case Text(s) => s
    case Bool(flag) => if flag then "True" else "False"
    case Null => "None"
    case _ => show(v)
  }

  /** What the texts of the commonest leaves tell: which of them it is, and its value. */
  lemma AtomTextTells(show: Value -> string, v: Value)
    ensures v.Int? ==> ReadInt(AtomText(show, v)) == Some(v.i)
    ensures v.Text? ==> AtomText(show, v) == v.s
    ensures v.Bool? ==> AtomText(show, v) in {"True", "False"} && (v.flag <==> |AtomText(show, v)| == 4)
    ensures v.Null? ==> AtomText(show, v) == "None"
  {
    if v.Int? {
      IntTextReads(v.i);
    }
  }

  /** safe_text */
  function Safe(show: Value -> string, v: Value): string
    decreases v
  {
    match v
    case Tag(number, content) => "#6." + Numeral(number, 10) + "(" + Safe(show, content) + ")"
    case List(items) => "[" + SafeItems(show, items) + "]"
    case Map(entries) => "{" + SafeEntries(show, entries) + "}"
    case _ => Escape(AtomText(show, v))
  }

  function SafeItems(show: Value -> string, items: seq<Value>): string
    decreases items
  {
    if items == [] then ""
    else if |items| == 1 then Safe(show, items[0])
    else Safe(show, items[0]) + ", " + SafeItems(show, items[1..])
  }

  function SafeEntries(show: Value -> string, entries: seq<(Value, Value)>): string
    decreases entries
  {
    if entries == [] then ""
    else if |entries| == 1 then SafeEntry(show, entries[0])
    else SafeEntry(show, entries[0]) + ", " + SafeEntries(show, entries[1..])
  }

  function SafeEntry(show: Value -> string, entry: (Value, Value)): string
    decreases entry
  {
    Safe(show, entry.0) + ": " + Safe(show, entry.1)
  }

  /** Nodes, characters and digits of a value, each counted once. */
  function Weight(show: Value -> string, v: Value): nat
    decreases v
  {
    match v
    case Tag(number, content) => 1 + |Numeral(number, 10)| + Weight(show, content)
    case List(items) => 1 + WeightItems(show, items)
    case Map(entries) => 1 + WeightEntries(show, entries)
    case _ => 1 + |AtomText(show, v)|
  }

  function WeightItems(show: Value -> string, items: seq<Value>): nat
    decreases items
  {
    if items == [] then 0 else 1 + Weight(show, items[0]) + WeightItems(show, items[1..])
  }

  function WeightEntries(show: Value -> string, entries: seq<(Value, Value)>): nat
    decreases entries
  {
    if entries == [] then 0 else WeightEntry(show, entries[0]) + WeightEntries(show, entries[1..])
  }

  function WeightEntry(show: Value -> string, entry: (Value, Value)): nat
    decreases entry
  {
    1 + Weight(show, entry.0) + Weight(show, entry.1)
  }

  /**
   Every rendered value is plain printable ASCII, and its length is at most ten times the
   size of the value, however deep the nesting.
   */
  lemma {:induction false} SafePrintableAndLinear(show: Value -> string, v: Value)
    ensures Printable(Safe(show, v))
    ensures |Safe(show, v)| <= 10 * Weight(show, v)
    decreases v
  {
    match v {
      case Tag(number, content) =>
        SafePrintableAndLinear(show, content);
        TagPrintable(number, Safe(show, content));
      case List(items) =>
        ItemsPrintableAndLinear(show, items);
        JoinPrintable("[", SafeItems(show, items), "]");
      case Map(entries) =>
        EntriesPrintableAndLinear(show, entries);
        JoinPrintable("{", SafeEntries(show, entries), "}");
      case _ =>
        AtomPrintableAndLinear(AtomText(show, v));
    }
  }

  lemma TagPrintable(number: nat, content: string)
    requires Printable(content)
    ensures Printable("#6." + Numeral(number, 10) + "(" + content + ")")
  {
    JoinPrintable("#6.", Numeral(number, 10), "(");
    JoinPrintable("#6." + Numeral(number, 10) + "(", content, ")");
  }

  lemma AtomPrintableAndLinear(text: string)
    ensures Printable(Escape(text)) && |Escape(text)| <= 10 * (1 + |text|)
  {
  }

  lemma JoinPrintable(a: string, separator: string, b: string)
    requires Printable(a) && Printable(separator) && Printable(b)
    ensures Printable(a + separator + b)
  {
    PrintableAppend(a, separator);
    PrintableAppend(a + separator, b);
  }

  lemma {:induction false} ItemsPrintableAndLinear(show: Value -> string, items: seq<Value>)
    ensures Printable(SafeItems(show, items))
    ensures |SafeItems(show, items)| <= 10 * WeightItems(show, items)
    decreases items
  {
    if items != [] {
      SafePrintableAndLinear(show, items[0]);
      ItemsPrintableAndLinear(show, items[1..]);
      JoinPrintable(Safe(show, items[0]), ", ", SafeItems(show, items[1..]));
    }
  }

  lemma {:induction false} EntriesPrintableAndLinear(show: Value -> string, entries: seq<(Value, Value)>)
    ensures Printable(SafeEntries(show, entries))
    ensures |SafeEntries(show, entries)| <= 10 * WeightEntries(show, entries)
    decreases entries
  {
    if entries != [] {
      EntryPrintableAndLinear(show, entries[0]);
      EntriesPrintableAndLinear(show, entries[1..]);
      JoinPrintable(SafeEntry(show, entries[0]), ", ", SafeEntries(show, entries[1..]));
    }
  }

  lemma {:induction false} EntryPrintableAndLinear(show: Value -> string, entry: (Value, Value))
    ensures Printable(SafeEntry(show, entry))
    ensures |SafeEntry(show, entry)| + 8 <= 10 * WeightEntry(show, entry)
    decreases entry
  {
    SafePrintableAndLinear(show, entry.0);
    SafePrintableAndLinear(show, entry.1);
    JoinPrintable(Safe(show, entry.0), ": ", Safe(show, entry.1));
  }

  // --------------------------------------------------- nothing of a value is hidden

  /** The texts of a value's atoms, escaped, and the numbers of its tags, from left to right. */
  function Atoms(show: Value -> string, v: Value): seq<string>
    decreases v
  {
    match v
    case Tag(number, content) => [Numeral(number, 10)] + Atoms(show, content)
    case List(items) => ItemAtoms(show, items)
    case Map(entries) => EntryAtoms(show, entries)
    case _ => [Escape(AtomText(show, v))]
  }

  function ItemAtoms(show: Value -> string, items: seq<Value>): seq<string>
    decreases items
  {
    if items == [] then [] else Atoms(show, items[0]) + ItemAtoms(show, items[1..])
  }

  function EntryAtoms(show: Value -> string, entries: seq<(Value, Value)>): seq<string>
    decreases entries
  {
    if entries == [] then [] else PairAtoms(show, entries[0]) + EntryAtoms(show, entries[1..])
  }

  function PairAtoms(show: Value -> string, entry: (Value, Value)): seq<string>
    decreases entry
  {
    Atoms(show, entry.0) + Atoms(show, entry.1)
  }

  /** The atoms stand in the text one after another, whole and without overlap. */
  ghost predicate Threads(text: string, atoms: seq<string>)
    decreases |atoms|
  {
    atoms == [] || exists before, after :: text == before + atoms[0] + after && Threads(after, atoms[1..])
  }

  lemma HoldsBehind(prefix: string, text: string, atoms: seq<string>)
    requires Threads(text, atoms)
    ensures Threads(prefix + text, atoms)
  {
    if atoms != [] {
      var before, after :| text == before + atoms[0] + after && Threads(after, atoms[1..]);
      assert prefix + text == (prefix + before) + atoms[0] + after;
    }
  }

  lemma {:induction false} HoldsJoined(a: string, xs: seq<string>, b: string, ys: seq<string>)
    requires Threads(a, xs) && Threads(b, ys)
    ensures Threads(a + b, xs + ys)
    decreases |xs|
  {
    if xs == [] {
      HoldsBehind(a, b, ys);
      assert xs + ys == ys;
    } else {
      var before, after :| a == before + xs[0] + after && Threads(after, xs[1..]);
      HoldsJoined(after, xs[1..], b, ys);
      assert (xs + ys)[1..] == xs[1..] + ys;
      assert a + b == before + (xs + ys)[0] + (after + b);
    }
  }

  lemma HoldsAround(left: string, text: string, right: string, atoms: seq<string>)
    requires Threads(text, atoms)
    ensures Threads(left + text + right, atoms)
  {
    HoldsBehind(left, text, atoms);
    HoldsJoined(left + text, atoms, right, []);
    assert atoms + [] == atoms;
  }

  lemma HoldsBetween(a: string, xs: seq<string>, separator: string, b: string, ys: seq<string>)
    requires Threads(a, xs) && Threads(b, ys)
    ensures Threads(a + separator + b, xs + ys)
  {
    HoldsAround("", a, separator, xs);
    assert "" + a + separator == a + separator;
    HoldsJoined(a + separator, xs, b, ys);
  }

  lemma HoldsItself(text: string)
    ensures Threads(text, [text])
  {
    assert text == "" + [text][0] + "" && Threads("", [text][1..]);
  }

  /** However deep the nesting, a rendered value shows all its atoms, in order. */
  lemma {:induction false} NothingHidden(show: Value -> string, v: Value)
    ensures Threads(Safe(show, v), Atoms(show, v))
    decreases v
  {
    match v {
      case Tag(number, content) =>
        NothingHidden(show, content);
        TagHides(number, Safe(show, content), Atoms(show, content));
      case List(items) =>
        ItemsNotHidden(show, items);
        HoldsAround("[", SafeItems(show, items), "]", ItemAtoms(show, items));
      case Map(entries) =>
        EntriesNotHidden(show, entries);
        HoldsAround("{", SafeEntries(show, entries), "}", EntryAtoms(show, entries));
      case _ =>
        HoldsItself(Escape(AtomText(show, v)));
    }
  }

  lemma TagHides(number: nat, content: string, atoms: seq<string>)
    requires Threads(content, atoms)
    ensures Threads("#6." + Numeral(number, 10) + "(" + content + ")", [Numeral(number, 10)] + atoms)
  {
    HoldsItself(Numeral(number, 10));
    HoldsBehind("#6.", Numeral(number, 10), [Numeral(number, 10)]);
    HoldsBetween("#6." + Numeral(number, 10), [Numeral(number, 10)], "(", content, atoms);
    HoldsAround("", "#6." + Numeral(number, 10) + "(" + content, ")", [Numeral(number, 10)] + atoms);
    assert "" + ("#6." + Numeral(number, 10) + "(" + content) + ")" ==
           "#6." + Numeral(number, 10) + "(" + content + ")";
  }

  lemma {:induction false} ItemsNotHidden(show: Value -> string, items: seq<Value>)
    ensures Threads(SafeItems(show, items), ItemAtoms(show, items))
    decreases items
  {
    if items != [] {
      NothingHidden(show, items[0]);
      ItemsNotHidden(show, items[1..]);
      if |items| == 1 {
        assert ItemAtoms(show, items) == Atoms(show, items[0]);
      } else {
        HoldsBetween(Safe(show, items[0]), Atoms(show, items[0]), ", ",
                     SafeItems(show, items[1..]), ItemAtoms(show, items[1..]));
      }
    }
  }

  lemma {:induction false} EntriesNotHidden(show: Value -> string, entries: seq<(Value, Value)>)
    ensures Threads(SafeEntries(show, entries), EntryAtoms(show, entries))
    decreases entries
  {
    if entries != [] {
      EntryNotHidden(show, entries[0]);
      EntriesNotHidden(show, entries[1..]);
      if |entries| == 1 {
        assert EntryAtoms(show, entries) == PairAtoms(show, entries[0]);
      } else {
        HoldsBetween(SafeEntry(show, entries[0]), PairAtoms(show, entries[0]), ", ",
                     SafeEntries(show, entries[1..]), EntryAtoms(show, entries[1..]));
      }
    }
  }

  lemma {:induction false} EntryNotHidden(show: Value -> string, entry: (Value, Value))
    ensures Threads(SafeEntry(show, entry), PairAtoms(show, entry))
    decreases entry
  {
    NothingHidden(show, entry.0);
    NothingHidden(show, entry.1);
    HoldsBetween(Safe(show, entry.0), Atoms(show, entry.0), ": ", Safe(show, entry.1), Atoms(show, entry.1));
  }
}
