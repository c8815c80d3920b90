/** An already-parsed JSON value, as a JSON library hands it to the program.
    An object keeps its members in document order; its keys are values so
    that a key which is not a string can be represented and rejected. */
module JsonValue {
  import opened Wrappers

  datatype Json =
    | JNull
    | JBool(b: bool)
    | JNumber(n: int)
    | JString(s: string)
    | JArray(items: seq<Json>)
    | JObject(members: seq<Member>)

  datatype Member = Member(key: Json, value: Json)

  /** The keys of an object are pairwise distinct, as in a dictionary. */
  predicate DistinctKeys(members: seq<Member>)
  {
    forall i, j :: 0 <= i < j < |members| ==> members[i].key != members[j].key
  }

  /** Dictionary lookup `obj[key]`, or None when `key not in obj`. */
  function Get(members: seq<Member>, key: string): (r: Option<Json>)
    ensures r.None? <==> forall i :: 0 <= i < |members| ==> members[i].key != JString(key)
    ensures r.Some? ==> exists i :: 0 <= i < |members| && members[i] == Member(JString(key), r.value)
  {
    if members == [] then None
    else if members[0].key == JString(key) then Some(members[0].value)
    else Get(members[1..], key)
  }
}
