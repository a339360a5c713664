/**
 to_jsonable of display.py.  `Jsonable` says what a value becomes; the method follows the
 source's loops, with its early exit to an entry list when two rendered keys collide.
 */
module Rendering {
  import opened Common
  import opened Values
  import opened SafeText
  import opened JsonTree

  function KeyText(show: Value -> string, key: Value): string {
    if key.Text? then key.s else Safe(show, key)
  }

  function HexBytes(b: seq<Byte>): string { if b == [] then "" else Hex(b[0], 2) + HexBytes(b[1..]) }

  ghost function KeyTexts(show: Value -> string, entries: seq<(Value, Value)>): (keys: seq<string>)
    ensures |keys| == |entries|
    ensures forall i | 0 <= i < |entries| :: keys[i] == KeyText(show, entries[i].0)
  {
    seq(|entries|, i requires 0 <= i < |entries| => KeyText(show, entries[i].0))
  }

  ghost predicate HasRepeat(keys: seq<string>) { exists i, j :: 0 <= i < j < |keys| && keys[i] == keys[j] }

  /** Two different keys of the map render alike. */
  ghost predicate Collides(show: Value -> string, entries: seq<(Value, Value)>) {
    HasRepeat(KeyTexts(show, entries))
  }

  function BytesJson(b: seq<Byte>): Json { JObject([("hex", JString(HexBytes(b)))]) }

  function TagJson(number: nat, content: Json): Json { JObject([("tag", JInt(number)), ("value", content)]) }

  function SignedHex(i: int): string { if i >= 0 then Numeral(i, 16) else "-" + Numeral(-i, 16) }

  /** Integers beyond 64 bits are shown in hexadecimal. */
  function IntJson(i: int): Json {
    if -TWO_TO_64 <= i < TWO_TO_64 then JInt(i) else JObject([("integer_hex", JString(SignedHex(i)))])
  }

  ghost function Jsonable(show: Value -> string, v: Value): Json
    decreases v, 0
  {
    match v
    case Record(fields) => JObject(FieldsJson(show, fields))
    case Bytes(b) => BytesJson(b)
    case Date(_, iso) => JString(iso)
    case Tag(number, content) => TagJson(number, Jsonable(show, content))
    case Map(entries) => MapJson(show, entries)
    case List(items) => JArray(ItemsJson(show, items))
    case Int(i) => IntJson(i)
    case Text(s) => JString(s)
    case Bool(flag) => JBool(flag)
    case Null => JNull
    case Other(shown, _) => JOther(shown)
  }

  /** An object, or the entry list when an object would lose an entry. */
  ghost function MapJson(show: Value -> string, entries: seq<(Value, Value)>): Json
    decreases entries, 1
  {
    if Collides(show, entries) then JObject([("entries", JArray(EntryList(show, entries)))])
    else JObject(Members(show, entries))
  }

  /** The fields of a dataclass that are not excluded. */
  ghost function FieldsJson(show: Value -> string, fields: seq<Field>): seq<(string, Json)>
    decreases fields, 0
  {
    if fields == [] then []
    else FieldJson(show, fields[0]) + FieldsJson(show, fields[1..])
  }

  ghost function FieldJson(show: Value -> string, field: Field): seq<(string, Json)>
    decreases field, 0
  {
    if field.excluded then [] else [(field.name, Jsonable(show, field.value))]
  }

  ghost function ItemsJson(show: Value -> string, items: seq<Value>): (r: seq<Json>)
    ensures |r| == |items|
    decreases items, 0
  {
    if items == [] then [] else [Jsonable(show, items[0])] + ItemsJson(show, items[1..])
  }

  /** One member per entry, in order. */
  ghost function Members(show: Value -> string, entries: seq<(Value, Value)>): (r: seq<(string, Json)>)
    ensures |r| == |entries|
    decreases entries, 0
  {
    if entries == [] then []
    else [(KeyText(show, entries[0].0), EntryValue(show, entries[0]))] + Members(show, entries[1..])
  }

  ghost function EntryValue(show: Value -> string, entry: (Value, Value)): Json
    decreases entry, 0
  {
    Jsonable(show, entry.1)
  }

  /** One {key, value} object per entry, in order. */
  ghost function EntryList(show: Value -> string, entries: seq<(Value, Value)>): (r: seq<Json>)
    ensures |r| == |entries|
    decreases entries, 0
  {
    if entries == [] then [] else [EntryObject(show, entries[0])] + EntryList(show, entries[1..])
  }

  ghost function EntryObject(show: Value -> string, entry: (Value, Value)): Json
    decreases entry, 0
  {
    JObject([("key", Jsonable(show, entry.0)), ("value", Jsonable(show, entry.1))])
  }

  // ------------------------------------------------------------------ the loops

  method ToJsonable(show: Value -> string, v: Value) returns (j: Json)
    ensures j == Jsonable(show, v)
    decreases v, 1
  {
    match v {
      case Record(fields) =>
        var members := ConvertFields(show, fields);
        j := JObject(members);
      case Bytes(b) =>
        j := BytesJson(b);
      case Date(_, iso) =>
        j := JString(iso);
      case Tag(number, content) =>
        var inner := ToJsonable(show, content);
        j := TagJson(number, inner);
      case Map(entries) =>
        j := ConvertMap(show, entries);
      case List(items) =>
        var converted := ConvertItems(show, items);
        j := JArray(converted);
      case Int(i) =>
        j := IntJson(i);
      case Text(s) => j := JString(s);
      case Bool(flag) => j := JBool(flag);
      case Null => j := JNull;
      case Other(shown, _) => j := JOther(shown);
    }
  }

  method ConvertFields(show: Value -> string, fields: seq<Field>) returns (members: seq<(string, Json)>)
    ensures members == FieldsJson(show, fields)
    decreases fields, 1
  {
    members := [];
    for k := 0 to |fields|
      invariant members + FieldsJson(show, fields[k..]) == FieldsJson(show, fields)
    {
      FieldsFrom(show, fields, k);
      ghost var before, rest := members, FieldsJson(show, fields[k + 1..]);
      if !fields[k].excluded {
        var value := ConvertField(show, fields[k]);
        members := members + [(fields[k].name, value)];
      }
      assert members == before + FieldJson(show, fields[k]);
      Regroup(before, FieldJson(show, fields[k]), rest);
    }
  }

  lemma Regroup<T>(a: seq<T>, b: seq<T>, c: seq<T>)
    ensures a + (b + c) == (a + b) + c
  {
  }

  lemma FieldsFrom(show: Value -> string, fields: seq<Field>, k: nat)
    requires k < |fields|
    ensures FieldsJson(show, fields[k..]) == FieldJson(show, fields[k]) + FieldsJson(show, fields[k + 1..])
  {
    assert fields[k..][1..] == fields[k + 1..];
  }

  lemma ItemsFrom(show: Value -> string, items: seq<Value>, k: nat)
    requires k < |items|
    ensures ItemsJson(show, items[k..]) == [Jsonable(show, items[k])] + ItemsJson(show, items[k + 1..])
  {
    assert items[k..][1..] == items[k + 1..];
  }

  lemma EntriesFrom(show: Value -> string, entries: seq<(Value, Value)>, k: nat)
    requires k < |entries|
    ensures EntryList(show, entries[k..]) == [EntryObject(show, entries[k])] + EntryList(show, entries[k + 1..])
  {
    assert entries[k..][1..] == entries[k + 1..];
  }

  method ConvertField(show: Value -> string, field: Field) returns (j: Json)
    ensures j == Jsonable(show, field.value)
    decreases field, 1
  {
    j := ToJsonable(show, field.value);
  }

  method ConvertItems(show: Value -> string, items: seq<Value>) returns (converted: seq<Json>)
    ensures converted == ItemsJson(show, items)
    decreases items, 1
  {
    converted := [];
    for k := 0 to |items|
      invariant converted + ItemsJson(show, items[k..]) == ItemsJson(show, items)
    {
      ItemsFrom(show, items, k);
      ghost var before, rest := converted, ItemsJson(show, items[k + 1..]);
      var item := ToJsonable(show, items[k]);
      converted := converted + [item];
      Regroup(before, [item], rest);
    }
  }

  predicate Names(members: seq<(string, Json)>, name: string) {
    exists i | 0 <= i < |members| :: members[i].0 == name
  }

  method ConvertMap(show: Value -> string, entries: seq<(Value, Value)>) returns (j: Json)
    ensures j == MapJson(show, entries)
    decreases entries, 1
  {
    var converted: seq<(string, Json)> := [];
    ghost var keys := KeyTexts(show, entries);
    for k := 0 to |entries|
      invariant converted == Members(show, entries)[..k]
      invariant NamesAre(converted, keys[..k]) && !HasRepeat(keys[..k])
    {
      var jsonKey := KeyText(show, entries[k].0);
      if Names(converted, jsonKey) {
        var list := ConvertEntries(show, entries);
        return JObject([("entries", JArray(list))]);
      }
      NameIsNew(converted, keys, k);
      OneMoreMember(show, entries, k);
      var value := ConvertValue(show, entries[k]);
      converted := converted + [(jsonKey, value)];
    }
    assert keys[..|keys|] == keys;
    return JObject(converted);
  }

  lemma OneMoreMember(show: Value -> string, entries: seq<(Value, Value)>, k: nat)
    requires k < |entries|
    ensures Members(show, entries)[..k + 1] ==
            Members(show, entries)[..k] + [(KeyText(show, entries[k].0), EntryValue(show, entries[k]))]
  {
    MembersAt(show, entries, k);
    PrefixGrows(Members(show, entries), k);
  }

  ghost predicate NamesAre(members: seq<(string, Json)>, keys: seq<string>) {
    |members| == |keys| && forall i | 0 <= i < |keys| :: members[i].0 == keys[i]
  }

  lemma NameIsNew(members: seq<(string, Json)>, keys: seq<string>, k: nat)
    requires k < |keys| && NamesAre(members, keys[..k]) && !Names(members, keys[k]) && !HasRepeat(keys[..k])
    ensures !HasRepeat(keys[..k + 1])
    ensures forall value :: NamesAre(members + [(keys[k], value)], keys[..k + 1])
  {
    var front, more := keys[..k], keys[..k + 1];
    assert more == front + [keys[k]];
    forall i | 0 <= i < k ensures front[i] != keys[k] {
      assert members[i].0 == front[i];
    }
    forall i, j | 0 <= i < j < |more| ensures more[i] != more[j] {
      if j < k {
        assert front[i] != front[j];
      }
    }
  }

  method ConvertEntries(show: Value -> string, entries: seq<(Value, Value)>) returns (list: seq<Json>)
    ensures list == EntryList(show, entries)
    decreases entries, 0
  {
    list := [];
    for k := 0 to |entries|
      invariant list + EntryList(show, entries[k..]) == EntryList(show, entries)
    {
      EntriesFrom(show, entries, k);
      ghost var before, rest := list, EntryList(show, entries[k + 1..]);
      var entry := ConvertEntry(show, entries[k]);
      list := list + [entry];
      Regroup(before, [entry], rest);
    }
  }

  method ConvertEntry(show: Value -> string, entry: (Value, Value)) returns (j: Json)
    ensures j == EntryObject(show, entry)
    decreases entry, 1
  {
    var key := ToJsonable(show, entry.0);
    var value := ToJsonable(show, entry.1);
    return JObject([("key", key), ("value", value)]);
  }

  method ConvertValue(show: Value -> string, entry: (Value, Value)) returns (j: Json)
    ensures j == EntryValue(show, entry)
    decreases entry, 1
  {
    j := ToJsonable(show, entry.1);
  }

  // --------------------------------------------------------- nothing is dropped

  /** One map: a member per entry unless two rendered keys coincide, and then an entry per entry. */
  lemma MapKeepsEveryEntry(show: Value -> string, entries: seq<(Value, Value)>)
    ensures !Collides(show, entries) ==>
              var members := Members(show, entries);
              && Jsonable(show, Map(entries)) == JObject(members)
              && DistinctNames(members)
              && |members| == |entries|
              && forall i | 0 <= i < |entries| ::
                   members[i] == (KeyText(show, entries[i].0), Jsonable(show, entries[i].1))
    ensures Collides(show, entries) ==>
              var list := EntryList(show, entries);
              && Jsonable(show, Map(entries)) == JObject([("entries", JArray(list))])
              && |list| == |entries|
              && forall i | 0 <= i < |entries| ::
                   list[i] == JObject([("key", Jsonable(show, entries[i].0)), ("value", Jsonable(show, entries[i].1))])
  {
    if Collides(show, entries) {
      forall i | 0 <= i < |entries| ensures EntryList(show, entries)[i] == EntryObject(show, entries[i]) {
        EntryListAt(show, entries, i);
      }
    } else {
      var members, keys := Members(show, entries), KeyTexts(show, entries);
      forall i | 0 <= i < |entries| ensures members[i] == (keys[i], EntryValue(show, entries[i])) {
        MembersAt(show, entries, i);
      }
    }
  }

  lemma {:induction false} EntryListAt(show: Value -> string, entries: seq<(Value, Value)>, i: nat)
    requires i < |entries|
    ensures EntryList(show, entries)[i] == EntryObject(show, entries[i])
  {
    if i > 0 {
      EntryListAt(show, entries[1..], i - 1);
    }
  }

  lemma {:induction false} MembersAt(show: Value -> string, entries: seq<(Value, Value)>, i: nat)
    requires i < |entries|
    ensures Members(show, entries)[i] == (KeyText(show, entries[i].0), EntryValue(show, entries[i]))
  {
    if i > 0 {
      MembersAt(show, entries[1..], i - 1);
    }
  }

  // ------------------------------------------- bookkeeping at every depth

  /** What can be found in a JSON tree: a scalar, or the name of a member. */
  datatype Mark = Leaf(json: Json) | Name(text: string)

  /**
   What a value owes its JSON, counted with repetition: every scalar; every map key, as a
   member name or, when two rendered keys collide, with all that the key itself owes; every
   field name; and the fixed names of the encodings.  Excluded fields owe nothing.
   */
  ghost function Marks(show: Value -> string, v: Value): multiset<Mark>
    decreases v, 0
  {
    match v
    case Record(fields) => FieldsMarks(show, fields)
    case Bytes(b) => multiset{Name("hex"), Leaf(JString(HexBytes(b)))}
    case Date(_, iso) => multiset{Leaf(JString(iso))}
    case Tag(number, content) => multiset{Name("tag"), Leaf(JInt(number)), Name("value")} + Marks(show, content)
    case Map(entries) => MapMarks(show, entries)
    case List(items) => ItemsMarks(show, items)
    case Int(i) => IntMarks(i)
    case Text(s) => multiset{Leaf(JString(s))}
    case Bool(flag) => multiset{Leaf(JBool(flag))}
    case Null => multiset{Leaf(JNull)}
    case Other(shown, _) => multiset{Leaf(JOther(shown))}
  }

  ghost function IntMarks(i: int): multiset<Mark> {
    if -TWO_TO_64 <= i < TWO_TO_64 then multiset{Leaf(JInt(i))}
    else multiset{Name("integer_hex"), Leaf(JString(SignedHex(i)))}
  }

  ghost function FieldsMarks(show: Value -> string, fields: seq<Field>): multiset<Mark>
    decreases fields, 0
  {
    if fields == [] then multiset{} else FieldMarks(show, fields[0]) + FieldsMarks(show, fields[1..])
  }

  ghost function FieldMarks(show: Value -> string, field: Field): multiset<Mark>
    decreases field, 0
  {
    if field.excluded then multiset{} else multiset{Name(field.name)} + Marks(show, field.value)
  }

  ghost function ItemsMarks(show: Value -> string, items: seq<Value>): multiset<Mark>
    decreases items, 0
  {
    if items == [] then multiset{} else Marks(show, items[0]) + ItemsMarks(show, items[1..])
  }

  ghost function MapMarks(show: Value -> string, entries: seq<(Value, Value)>): multiset<Mark>
    decreases entries, 1
  {
    if Collides(show, entries) then multiset{Name("entries")} + PairsMarks(show, entries)
    else MembersMarks(show, entries)
  }

  /** Without a collision, a key is the name of its member. */
  ghost function MembersMarks(show: Value -> string, entries: seq<(Value, Value)>): multiset<Mark>
    decreases entries, 0
  {
    if entries == [] then multiset{}
    else multiset{Name(KeyText(show, entries[0].0))} + ValueMarks(show, entries[0]) + MembersMarks(show, entries[1..])
  }

  ghost function ValueMarks(show: Value -> string, entry: (Value, Value)): multiset<Mark>
    decreases entry, 0
  {
    Marks(show, entry.1)
  }

  /** After a collision, a key is a value of its own. */
  ghost function PairsMarks(show: Value -> string, entries: seq<(Value, Value)>): multiset<Mark>
    decreases entries, 0
  {
    if entries == [] then multiset{} else PairMarks(show, entries[0]) + PairsMarks(show, entries[1..])
  }

  ghost function PairMarks(show: Value -> string, entry: (Value, Value)): multiset<Mark>
    decreases entry, 0
  {
    multiset{Name("key"), Name("value")} + Marks(show, entry.0) + Marks(show, entry.1)
  }

  /** The scalars and member names of a JSON tree. */
  ghost function JsonMarks(j: Json): multiset<Mark>
    decreases j
  {
    match j
    case JArray(items) => JsonItemsMarks(items)
    case JObject(members) => JsonMembersMarks(members)
    case _ => multiset{Leaf(j)}
  }

  ghost function JsonItemsMarks(items: seq<Json>): multiset<Mark>
    decreases items
  {
    if items == [] then multiset{} else JsonMarks(items[0]) + JsonItemsMarks(items[1..])
  }

  ghost function JsonMembersMarks(members: seq<(string, Json)>): multiset<Mark>
    decreases members
  {
    if members == [] then multiset{} else JsonMemberMarks(members[0]) + JsonMembersMarks(members[1..])
  }

  ghost function JsonMemberMarks(member: (string, Json)): multiset<Mark>
    decreases member
  {
    multiset{Name(member.0)} + JsonMarks(member.1)
  }

  /** The JSON holds exactly what the value owes it, at every depth: nothing dropped, added or doubled. */
  lemma {:induction false} NothingDropped(show: Value -> string, v: Value)
    ensures JsonMarks(Jsonable(show, v)) == Marks(show, v)
    decreases v, 1
  {
    match v {
      case Record(fields) => FieldsKept(show, fields);
      case Tag(number, content) =>
        NothingDropped(show, content);
        TagKept(number, Jsonable(show, content));
      case Map(entries) => MapKept(show, entries);
      case List(items) => ItemsKept(show, items);
      case _ => ScalarKept(show, v);
    }
  }

  lemma ScalarKept(show: Value -> string, v: Value)
    requires !v.Record? && !v.Tag? && !v.Map? && !v.List?
    ensures JsonMarks(Jsonable(show, v)) == Marks(show, v)
  {
    match v {
      case Bytes(b) => BytesKept(b);
      case Int(i) => IntKept(i);
      case _ =>
    }
  }

  lemma TagKept(number: nat, content: Json)
    ensures JsonMarks(TagJson(number, content)) ==
            multiset{Name("tag"), Leaf(JInt(number)), Name("value")} + JsonMarks(content)
  {
    PairKept("tag", JInt(number), "value", content);
  }

  lemma BytesKept(b: seq<Byte>)
    ensures JsonMarks(BytesJson(b)) == multiset{Name("hex"), Leaf(JString(HexBytes(b)))}
  {
    SingleKept("hex", JString(HexBytes(b)));
  }

  lemma IntKept(i: int)
    ensures JsonMarks(IntJson(i)) == IntMarks(i)
  {
    SingleKept("integer_hex", JString(SignedHex(i)));
  }

  lemma SingleKept(name: string, j: Json)
    ensures JsonMarks(JObject([(name, j)])) == multiset{Name(name)} + JsonMarks(j)
  {
    var members := [(name, j)];
    assert members[1..] == [];
    assert JsonMembersMarks(members) == JsonMemberMarks(members[0]) + JsonMembersMarks([]);
  }

  lemma EntriesKept(list: seq<Json>)
    ensures JsonMarks(JObject([("entries", JArray(list))])) == multiset{Name("entries")} + JsonItemsMarks(list)
  {
    SingleKept("entries", JArray(list));
  }

  lemma PairKept(name: string, j: Json, name': string, j': Json)
    ensures JsonMarks(JObject([(name, j), (name', j')])) ==
            multiset{Name(name), Name(name')} + JsonMarks(j) + JsonMarks(j')
  {
    var members := [(name, j), (name', j')];
    assert members[1..] == [(name', j')];
    SingleKept(name', j');
    assert JsonMembersMarks(members) == JsonMemberMarks(members[0]) + JsonMembersMarks([(name', j')]);
    assert JsonMembersMarks([(name', j')]) == JsonMarks(JObject([(name', j')]));
  }

  lemma {:induction false} FieldsKept(show: Value -> string, fields: seq<Field>)
    ensures JsonMembersMarks(FieldsJson(show, fields)) == FieldsMarks(show, fields)
    decreases fields, 0
  {
    if fields != [] {
      FieldsKept(show, fields[1..]);
      if fields[0].excluded {
        assert FieldsJson(show, fields) == FieldsJson(show, fields[1..]);
      } else {
        NothingDropped(show, fields[0].value);
        assert FieldsJson(show, fields)[1..] == FieldsJson(show, fields[1..]);
      }
    }
  }

  lemma {:induction false} ItemsKept(show: Value -> string, items: seq<Value>)
    ensures JsonItemsMarks(ItemsJson(show, items)) == ItemsMarks(show, items)
    decreases items, 0
  {
    if items != [] {
      NothingDropped(show, items[0]);
      ItemsKept(show, items[1..]);
      assert ItemsJson(show, items)[1..] == ItemsJson(show, items[1..]);
    }
  }

  lemma {:induction false} MapKept(show: Value -> string, entries: seq<(Value, Value)>)
    ensures JsonMarks(MapJson(show, entries)) == MapMarks(show, entries)
    decreases entries, 2
  {
    if Collides(show, entries) {
      CollidingKept(show, entries);
    } else {
      MembersKept(show, entries);
    }
  }

  lemma {:induction false} CollidingKept(show: Value -> string, entries: seq<(Value, Value)>)
    ensures JsonMarks(JObject([("entries", JArray(EntryList(show, entries)))])) ==
            multiset{Name("entries")} + PairsMarks(show, entries)
    decreases entries, 1
  {
    PairsKept(show, entries);
    EntriesKept(EntryList(show, entries));
  }

  lemma {:induction false} MembersKept(show: Value -> string, entries: seq<(Value, Value)>)
    ensures JsonMembersMarks(Members(show, entries)) == MembersMarks(show, entries)
    decreases entries, 0
  {
    if entries != [] {
      EntryKept(show, entries[0]);
      MembersKept(show, entries[1..]);
      assert Members(show, entries)[1..] == Members(show, entries[1..]);
    }
  }

  lemma {:induction false} PairsKept(show: Value -> string, entries: seq<(Value, Value)>)
    ensures JsonItemsMarks(EntryList(show, entries)) == PairsMarks(show, entries)
    decreases entries, 0
  {
    if entries != [] {
      EntryKept(show, entries[0]);
      PairsKept(show, entries[1..]);
      assert EntryList(show, entries)[1..] == EntryList(show, entries[1..]);
    }
  }

  lemma {:induction false} EntryKept(show: Value -> string, entry: (Value, Value))
    ensures JsonMarks(EntryValue(show, entry)) == ValueMarks(show, entry)
    ensures JsonMarks(EntryObject(show, entry)) == PairMarks(show, entry)
    decreases entry, 0
  {
    NothingDropped(show, entry.0);
    NothingDropped(show, entry.1);
    PairKept("key", Jsonable(show, entry.0), "value", Jsonable(show, entry.1));
  }

  // ------------------------------------------------- no member is ever doubled

  /** Dataclasses do not name a field twice; at every depth. */
  ghost predicate ProperRecords(v: Value)
    decreases v
  {
    match v
    case Record(fields) =>
      && (forall i, j | 0 <= i < j < |fields| :: fields[i].name != fields[j].name)
      && forall f | f in fields :: ProperRecords(f.value)
    case List(items) => forall item | item in items :: ProperRecords(item)
    case Map(entries) => forall e | e in entries :: ProperEntry(e)
    case Tag(_, content) => ProperRecords(content)
    case _ => true
  }

  ghost predicate ProperEntry(entry: (Value, Value))
    decreases entry
  {
    ProperRecords(entry.0) && ProperRecords(entry.1)
  }

  /** json.dumps never emits a duplicate member, at any depth. */
  lemma {:induction false} NeverDoubled(show: Value -> string, v: Value)
    requires ProperRecords(v)
    ensures NoDuplicates(Jsonable(show, v))
    decreases v, 1
  {
    match v {
      case Record(fields) => FieldsNeverDoubled(show, fields);
      case Tag(number, content) =>
        NeverDoubled(show, content);
      case Map(entries) => MapNeverDoubled(show, entries);
      case List(items) => ItemsNeverDoubled(show, items);
      case Bytes(b) => SingleNeverDoubled("hex", JString(HexBytes(b)));
      case Int(i) => SingleNeverDoubled("integer_hex", JString(SignedHex(i)));
      case _ =>
    }
  }

  lemma SingleNeverDoubled(name: string, j: Json)
    requires NoDuplicates(j)
    ensures NoDuplicates(JObject([(name, j)]))
  {
  }

  lemma {:induction false} FieldsNeverDoubled(show: Value -> string, fields: seq<Field>)
    requires ProperRecords(Record(fields))
    ensures NoDuplicates(JObject(FieldsJson(show, fields)))
    decreases fields, 0
  {
    if fields != [] {
      ProperTail(fields);
      FieldsNeverDoubled(show, fields[1..]);
      if fields[0].excluded {
        assert FieldsJson(show, fields) == FieldsJson(show, fields[1..]);
      } else {
        NeverDoubled(show, fields[0].value);
        FirstFieldIsNew(show, fields);
      }
    }
  }

  lemma ProperTail(fields: seq<Field>)
    requires fields != [] && ProperRecords(Record(fields))
    ensures ProperRecords(Record(fields[1..])) && ProperRecords(fields[0].value)
  {
    var rest := fields[1..];
    assert fields == [fields[0]] + rest;
    forall i, j | 0 <= i < j < |rest| ensures rest[i].name != rest[j].name {
      assert fields[i + 1].name != fields[j + 1].name;
    }
  }

  lemma {:induction false} FieldNames(show: Value -> string, fields: seq<Field>, m: (string, Json))
    requires m in FieldsJson(show, fields)
    ensures exists i | 0 <= i < |fields| :: fields[i].name == m.0
  {
    if m !in FieldJson(show, fields[0]) {
      FieldNames(show, fields[1..], m);
      var i :| 0 <= i < |fields[1..]| && fields[1..][i].name == m.0;
      assert fields[i + 1].name == m.0;
    }
  }

  lemma FirstFieldIsNew(show: Value -> string, fields: seq<Field>)
    requires fields != [] && ProperRecords(Record(fields))
    ensures forall m | m in FieldsJson(show, fields[1..]) :: m.0 != fields[0].name
  {
    forall m | m in FieldsJson(show, fields[1..]) ensures m.0 != fields[0].name {
      FieldNames(show, fields[1..], m);
      var i :| 0 <= i < |fields[1..]| && fields[1..][i].name == m.0;
      assert fields[0].name != fields[i + 1].name;
    }
  }

  lemma {:induction false} ItemsNeverDoubled(show: Value -> string, items: seq<Value>)
    requires forall item | item in items :: ProperRecords(item)
    ensures forall j | j in ItemsJson(show, items) :: NoDuplicates(j)
    decreases items, 0
  {
    if items != [] {
      NeverDoubled(show, items[0]);
      ItemsNeverDoubled(show, items[1..]);
    }
  }

  lemma {:induction false} EntryNeverDoubled(show: Value -> string, entry: (Value, Value))
    requires ProperEntry(entry)
    ensures NoDuplicates(EntryObject(show, entry))
    decreases entry, 0
  {
    NeverDoubled(show, entry.0);
    NeverDoubled(show, entry.1);
  }

  lemma {:induction false} EntriesNeverDoubled(show: Value -> string, entries: seq<(Value, Value)>)
    requires forall e | e in entries :: ProperEntry(e)
    ensures forall j | j in EntryList(show, entries) :: NoDuplicates(j)
    ensures forall m | m in Members(show, entries) :: NoDuplicateMember(m)
    decreases entries, 0
  {
    if entries != [] {
      EntryNeverDoubled(show, entries[0]);
      assert EntryObject(show, entries[0]).members[1] in EntryObject(show, entries[0]).members;
      EntriesNeverDoubled(show, entries[1..]);
    }
  }

  lemma {:induction false} MapNeverDoubled(show: Value -> string, entries: seq<(Value, Value)>)
    requires forall e | e in entries :: ProperEntry(e)
    ensures NoDuplicates(MapJson(show, entries))
    decreases entries, 1
  {
    EntriesNeverDoubled(show, entries);
    MapKeepsEveryEntry(show, entries);
    if Collides(show, entries) {
      SingleNeverDoubled("entries", JArray(EntryList(show, entries)));
    }
  }

  // ------------------------------------------------- excluded fields never show

  /** The value with every excluded field blanked, except inside map keys. */
  ghost function Scrub(v: Value): Value
    decreases v
  {
    match v
    case Record(fields) => Record(ScrubFields(fields))
    case List(items) => List(ScrubItems(items))
    case Map(entries) => Map(ScrubEntries(entries))
    case Tag(number, content) => Tag(number, Scrub(content))
    case _ => v
  }

  ghost function ScrubFields(fields: seq<Field>): seq<Field>
    decreases fields
  {
    if fields == [] then []
    else
      var shown := if fields[0].excluded then Null else Scrub(fields[0].value);
      [Field(fields[0].name, fields[0].excluded, shown)] + ScrubFields(fields[1..])
  }

  ghost function ScrubItems(items: seq<Value>): seq<Value>
    decreases items
  {
    if items == [] then [] else [Scrub(items[0])] + ScrubItems(items[1..])
  }

  ghost function ScrubEntries(entries: seq<(Value, Value)>): (r: seq<(Value, Value)>)
    ensures |r| == |entries|
    ensures forall i | 0 <= i < |r| :: r[i].0 == entries[i].0
    decreases entries
  {
    if entries == [] then [] else [ScrubEntry(entries[0])] + ScrubEntries(entries[1..])
  }

  ghost function ScrubEntry(entry: (Value, Value)): (r: (Value, Value))
    ensures r.0 == entry.0
    decreases entry
  {
    (entry.0, Scrub(entry.1))
  }

  /** The output does not depend on excluded fields: blanking them all changes nothing. */
  lemma {:induction false} ExcludedNeverShows(show: Value -> string, v: Value)
    ensures Jsonable(show, Scrub(v)) == Jsonable(show, v)
    decreases v
  {
    match v {
      case Record(fields) => ExcludedFieldsNeverShow(show, fields);
      case List(items) => ScrubbedItems(show, items);
      case Map(entries) => ScrubbedMap(show, entries);
      case Tag(number, content) => ExcludedNeverShows(show, content);
      case _ =>
    }
  }

  lemma {:induction false} ExcludedFieldsNeverShow(show: Value -> string, fields: seq<Field>)
    ensures FieldsJson(show, ScrubFields(fields)) == FieldsJson(show, fields)
    decreases fields
  {
    if fields != [] {
      ExcludedNeverShows(show, fields[0].value);
      ExcludedFieldsNeverShow(show, fields[1..]);
      assert ScrubFields(fields)[1..] == ScrubFields(fields[1..]);
    }
  }

  lemma {:induction false} ScrubbedItems(show: Value -> string, items: seq<Value>)
    ensures ItemsJson(show, ScrubItems(items)) == ItemsJson(show, items)
    decreases items
  {
    if items != [] {
      ExcludedNeverShows(show, items[0]);
      ScrubbedItems(show, items[1..]);
      assert ScrubItems(items)[1..] == ScrubItems(items[1..]);
    }
  }

  lemma {:induction false} ScrubbedEntry(show: Value -> string, entry: (Value, Value))
    ensures EntryValue(show, ScrubEntry(entry)) == EntryValue(show, entry)
    ensures EntryObject(show, ScrubEntry(entry)) == EntryObject(show, entry)
    decreases entry
  {
    ExcludedNeverShows(show, entry.1);
  }

  lemma {:induction false} ScrubbedEntries(show: Value -> string, entries: seq<(Value, Value)>)
    ensures Members(show, ScrubEntries(entries)) == Members(show, entries)
    ensures EntryList(show, ScrubEntries(entries)) == EntryList(show, entries)
    decreases entries, 0
  {
    if entries != [] {
      ScrubbedEntry(show, entries[0]);
      ScrubbedEntries(show, entries[1..]);
      assert ScrubEntries(entries)[1..] == ScrubEntries(entries[1..]);
    }
  }

  lemma {:induction false} ScrubbedMap(show: Value -> string, entries: seq<(Value, Value)>)
    ensures MapJson(show, ScrubEntries(entries)) == MapJson(show, entries)
    decreases entries, 1
  {
    ScrubbedEntries(show, entries);
    assert KeyTexts(show, ScrubEntries(entries)) == KeyTexts(show, entries);
  }

  // ------------------------------------------------ what can be read back

  /** The octets that a hexadecimal text spells, two digits each. */
  function FromHexBytes(s: string): Option<seq<nat>> {
    if s == "" then Some([])
    else if |s| == 1 then None
    else
      match (FromHex(s[..2]), FromHexBytes(s[2..]))
      case (Some(first), Some(rest)) => Some([first] + rest)
      case _ => None
  }

  /** The hexadecimal text of a byte string spells exactly that byte string. */
  lemma {:induction false} HexBytesRead(b: seq<Byte>)
    ensures FromHexBytes(HexBytes(b)) == Some(b)
  {
    if b != [] {
      var s := HexBytes(b);
      assert Power16(2) == 256;
      HexRoundTrip(b[0], 2);
      HexBytesRead(b[1..]);
      assert s[..2] == Hex(b[0], 2) && s[2..] == HexBytes(b[1..]);
      assert [b[0]] + b[1..] == b;
    }
  }

  /** The hexadecimal text of a large integer spells that integer, sign included. */
  lemma SignedHexReads(i: int)
    ensures i >= 0 ==> FromNumeral(SignedHex(i), 16) == Some(i) && SignedHex(i)[0] != '-'
    ensures i < 0 ==> SignedHex(i)[0] == '-' && FromNumeral(SignedHex(i)[1..], 16) == Some(-i)
  {
    var n := if i < 0 then -i else i;
    NumeralReads(n, 16);
    if i < 0 {
      assert SignedHex(i)[1..] == Numeral(n, 16);
    } else if SignedHex(i)[0] == '-' {
      NotSigned(n);
    }
  }

  lemma {:induction false} NotSigned(n: nat)
    ensures Numeral(n, 16)[0] != '-'
  {
    if n >= 16 {
      NotSigned(n / 16);
    }
  }

  // --------------------------------------------------------------- order is kept

  /** A list becomes an array of the same length whose items are those of the list, in order. */
  lemma ListKeepsOrder(show: Value -> string, items: seq<Value>)
    ensures Jsonable(show, List(items)).JArray?
    ensures var converted := Jsonable(show, List(items)).items;
            |converted| == |items| && forall i | 0 <= i < |items| :: converted[i] == Jsonable(show, items[i])
  {
    forall i | 0 <= i < |items| ensures ItemsJson(show, items)[i] == Jsonable(show, items[i]) {
      ItemsAt(show, items, i);
    }
  }

  lemma {:induction false} ItemsAt(show: Value -> string, items: seq<Value>, i: nat)
    requires i < |items|
    ensures ItemsJson(show, items)[i] == Jsonable(show, items[i])
  {
    if i > 0 {
      ItemsAt(show, items[1..], i - 1);
    }
  }

  /** The fields that are shown, in order. */
  function ShownFields(fields: seq<Field>): seq<Field> {
    if fields == [] then []
    else (if fields[0].excluded then [] else [fields[0]]) + ShownFields(fields[1..])
  }

  /** A dataclass becomes an object with one member per field that is not excluded, in order. */
  lemma RecordKeepsOrder(show: Value -> string, fields: seq<Field>)
    ensures Jsonable(show, Record(fields)).JObject?
    ensures var members, shown := Jsonable(show, Record(fields)).members, ShownFields(fields);
            && |members| == |shown|
            && forall i | 0 <= i < |shown| :: members[i] == (shown[i].name, Jsonable(show, shown[i].value))
  {
    FieldsAt(show, fields);
  }

  lemma {:induction false} FieldsAt(show: Value -> string, fields: seq<Field>)
    ensures |FieldsJson(show, fields)| == |ShownFields(fields)|
    ensures forall i | 0 <= i < |ShownFields(fields)| ::
              FieldsJson(show, fields)[i] ==
              (ShownFields(fields)[i].name, Jsonable(show, ShownFields(fields)[i].value))
  {
    if fields != [] {
      FieldsAt(show, fields[1..]);
      var rest, shown := FieldsJson(show, fields[1..]), ShownFields(fields[1..]);
      if fields[0].excluded {
        assert FieldsJson(show, fields) == [] + rest && ShownFields(fields) == [] + shown;
      } else {
        var own := (fields[0].name, Jsonable(show, fields[0].value));
        assert FieldsJson(show, fields) == [own] + rest && ShownFields(fields) == [fields[0]] + shown;
        MatchOneMore(show, own, rest, fields[0], shown);
      }
    }
  }

  lemma MatchOneMore(show: Value -> string, own: (string, Json), rest: seq<(string, Json)>, field: Field,
                     shown: seq<Field>)
    requires own == (field.name, Jsonable(show, field.value)) && |rest| == |shown|
    requires forall i | 0 <= i < |shown| :: rest[i] == (shown[i].name, Jsonable(show, shown[i].value))
    ensures forall i | 0 <= i < |shown| + 1 ::
              ([own] + rest)[i] == (([field] + shown)[i].name, Jsonable(show, ([field] + shown)[i].value))
  {
  }

  // ------------------------------------------------------- which keys can coincide

  /** Maps whose keys are all texts, or all integers, as CBOR maps are in practice. */
  ghost predicate PlainKeys(entries: seq<(Value, Value)>) {
    || (forall e | e in entries :: e.0.Text?)
    || (forall e | e in entries :: e.0.Int?)
  }

  lemma KeyTextTells(show: Value -> string, a: Value, b: Value)
    requires (a.Text? && b.Text?) || (a.Int? && b.Int?)
    requires KeyText(show, a) == KeyText(show, b)
    ensures a == b
  {
    if a.Int? {
      EscapeInjective(IntText(a.i), IntText(b.i));
      IntTextReads(a.i);
      IntTextReads(b.i);
    }
  }

  /** Such a map is always an object, with a text key as the member's name unchanged. */
  lemma PlainMapIsObject(show: Value -> string, entries: seq<(Value, Value)>)
    requires PlainKeys(entries) && DistinctKeys(entries)
    ensures Jsonable(show, Map(entries)).JObject?
    ensures var members := Jsonable(show, Map(entries)).members;
            && |members| == |entries|
            && forall i | 0 <= i < |entries| ::
                 && members[i].1 == Jsonable(show, entries[i].1)
                 && (entries[i].0.Text? ==> members[i].0 == entries[i].0.s)
                 && (entries[i].0.Int? ==> Unescape(members[i].0) == Some(IntText(entries[i].0.i)))
  {
    var keys := KeyTexts(show, entries);
    forall i, j | 0 <= i < j < |keys| ensures keys[i] != keys[j] {
      assert entries[i] in entries && entries[j] in entries && entries[i].0 != entries[j].0;
      if keys[i] == keys[j] {
        KeyTextTells(show, entries[i].0, entries[j].0);
      }
    }
    MapKeepsEveryEntry(show, entries);
    forall i | 0 <= i < |entries| && entries[i].0.Int?
      ensures Unescape(KeyText(show, entries[i].0)) == Some(IntText(entries[i].0.i))
    {
      UnescapeEscape(IntText(entries[i].0.i));
    }
  }
}
