/** Decoded CBOR values, as the Python objects that the parser, validator and renderer meet. */
module Values {
  import opened Common

  /** CBOR integers that are not bignums lie between -TWO_TO_64 and TWO_TO_64 - 1. */
  const TWO_TO_64 := 0x1_0000_0000_0000_0000

  /** A point in time; `aware` says whether it carries a UTC offset. */
  datatype Instant = Instant(micros: int, aware: bool)

  /** One field of a Python dataclass; `excluded` is its json_exclude mark. */
  datatype Field = Field(name: string, excluded: bool, value: Value)

  /**
   A Python dict is the ordered list of its entries.  Bool and Int are different
   constructors, as `type(x) is int` demands; bignums stay tags, as decode_cbor_item keeps them.
   */
  datatype Value =
    | Int(i: int)
    | Text(s: string)
    | Bytes(b: seq<Byte>)
    | List(items: seq<Value>)
    | Map(entries: seq<(Value, Value)>)
    | Tag(number: nat, content: Value)
    | Bool(flag: bool)
    | Null
    | Date(at: Instant, iso: string)
    | Other(shown: string, truth: bool) // floats, simple values: only their str() and bool() are known
    | Record(fields: seq<Field>)        // a dataclass instance; never decoded from CBOR

  /** dict.get: the value of `key`, if any. */
  function Lookup<K(==), V>(entries: seq<(K, V)>, key: K): Option<V> {
    if entries == [] then None
    else if entries[0].0 == key then Some(entries[0].1)
    else Lookup(entries[1..], key)
  }

  lemma {:induction false} LookupMeans<K, V>(entries: seq<(K, V)>, key: K)
    ensures Lookup(entries, key).None? <==> forall i | 0 <= i < |entries| :: entries[i].0 != key
    ensures Lookup(entries, key).Some? ==> (key, Lookup(entries, key).value) in entries
  {
    if entries != [] && entries[0].0 != key {
      LookupMeans(entries[1..], key);
      if Lookup(entries, key).None? {
        assert forall i | 0 < i < |entries| :: entries[i] == entries[1..][i - 1];
      } else {
        assert (key, Lookup(entries, key).value) in entries[1..];
      }
    }
  }

  /** Where a lookup succeeds, an entry stands. */
  lemma LookupIndex<K, V>(entries: seq<(K, V)>, key: K)
    requires Lookup(entries, key).Some?
    ensures exists k | 0 <= k < |entries| :: entries[k] == (key, Lookup(entries, key).value)
  {
    LookupMeans(entries, key);
  }

  /** dict.get(name, default) on a decoded map. */
  function Get(entries: seq<(Value, Value)>, name: string, default: Value := Null): Value {
    var found := Lookup(entries, Text(name));
    if found.Some? then found.value else default
  }

  /** No key occurs twice, as in every dict. */
  ghost predicate DistinctKeys(entries: seq<(Value, Value)>) {
    forall i, j | 0 <= i < j < |entries| :: entries[i].0 != entries[j].0
  }

  /** Python truth of a value, as `x or {}` and `if x` use it. */
  predicate Truthy(v: Value) {
    match v
    case Int(i) => i != 0
    case Text(s) => s != ""
    case Bytes(b) => b != []
    case List(items) => items != []
    case Map(entries) => entries != []
    case Bool(flag) => flag
    case Null => false
    case Other(_, truth) => truth
    case _ => true
  }

  /** Whether a value can be used as a dict key. */
  predicate Hashable(v: Value) {
    match v
    case List(_) => false
    case Map(_) => false
    case Record(_) => false
    case Tag(_, content) => Hashable(content)
    case _ => true
  }
}
