/** JSON as an ordered tree: an object is the list of its members, duplicates and all. */
module JsonTree {
  import opened Common

  datatype Json =
    | JNull
    | JBool(flag: bool)
    | JInt(i: int)
    | JConstant                         // NaN or an infinity
    | JOther(shown: string)             // any other number
    | JString(s: string)
    | JArray(items: seq<Json>)
    | JObject(members: seq<(string, Json)>)

  predicate DistinctNames(members: seq<(string, Json)>) {
    forall i, j | 0 <= i < j < |members| :: members[i].0 != members[j].0
  }

  /** No object at any depth names a member twice. */
  predicate NoDuplicates(json: Json)
    decreases json
  {
    match json
    case JArray(items) => forall item | item in items :: NoDuplicates(item)
    case JObject(members) => DistinctNames(members) && forall m | m in members :: NoDuplicateMember(m)
    case _ => true
  }

  predicate NoDuplicateMember(member: (string, Json))
    decreases member
  {
    NoDuplicates(member.1)
  }

  // ------------------------------------------------- what holds at every place

  /** The value at a place of the tree: which item or member to enter, at each depth. */
  function At(json: Json, path: seq<nat>): Option<Json>
    decreases path
  {
    if path == [] then Some(json)
    else
      match json
      case JArray(items) => if path[0] < |items| then At(items[path[0]], path[1..]) else None
      case JObject(members) => if path[0] < |members| then At(members[path[0]].1, path[1..]) else None
      case _ => None
  }

  lemma AtStep(json: Json, first: nat, rest: seq<nat>)
    ensures json.JArray? && first < |json.items| ==> At(json, [first] + rest) == At(json.items[first], rest)
    ensures json.JObject? && first < |json.members| ==> At(json, [first] + rest) == At(json.members[first].1, rest)
  {
    assert ([first] + rest)[1..] == rest;
  }

  /** A predicate on trees that holds of the value at every place. */
  ghost predicate Everywhere(json: Json, p: Json -> bool) {
    forall path | At(json, path).Some? :: p(At(json, path).value)
  }

  /** Everywhere means: here, and everywhere in each item or member. */
  lemma EverywhereInside(json: Json, p: Json -> bool)
    ensures Everywhere(json, p) <==>
            && p(json)
            && (json.JArray? ==> forall i | 0 <= i < |json.items| :: Everywhere(json.items[i], p))
            && (json.JObject? ==> forall i | 0 <= i < |json.members| :: Everywhere(json.members[i].1, p))
  {
    assert At(json, []) == Some(json);
    if Everywhere(json, p) {
      forall i, path | json.JArray? && 0 <= i < |json.items| && At(json.items[i], path).Some?
        ensures p(At(json.items[i], path).value)
      {
        AtStep(json, i, path);
      }
      forall i, path | json.JObject? && 0 <= i < |json.members| && At(json.members[i].1, path).Some?
        ensures p(At(json.members[i].1, path).value)
      {
        AtStep(json, i, path);
      }
    } else {
      var path :| At(json, path).Some? && !p(At(json, path).value);
      if path != [] {
        AtStep(json, path[0], path[1..]);
        assert path == [path[0]] + path[1..];
      }
    }
  }

  predicate NamesDistinct(json: Json) { json.JObject? ==> DistinctNames(json.members) }

  /** No duplicates means exactly that: at no place of the tree does an object name a member twice. */
  lemma {:induction false} NoDuplicatesExactly(json: Json)
    ensures NoDuplicates(json) <==> Everywhere(json, NamesDistinct)
    decreases json
  {
    EverywhereInside(json, NamesDistinct);
    match json
    case JArray(items) =>
      forall i | 0 <= i < |items| ensures NoDuplicates(items[i]) <==> Everywhere(items[i], NamesDistinct) {
        NoDuplicatesExactly(items[i]);
      }
    case JObject(members) =>
      forall i | 0 <= i < |members|
        ensures NoDuplicateMember(members[i]) <==> Everywhere(members[i].1, NamesDistinct)
      {
        NoDuplicatesExactly(members[i].1);
      }
    case _ =>
  }
}
