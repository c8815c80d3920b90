/** Schema validation of the parsed input (`load_nodes` after `json.load`):
    a non-empty object mapping non-empty host names to objects that carry a
    non-empty string `ip` and a `role` of "control" or "worker". The first
    violation, in document order, is reported; otherwise the data comes back
    unchanged. */
module Loader {
  import opened Wrappers
  import opened JsonValue
  import opened Nodes

  /** The distinct `ValueError`s `load_nodes` raises. */
  datatype SchemaError =
    | NotNonEmptyObject
    | InvalidHostnameKey(key: Json)
    | ValueNotObject(host: string)
    | MissingIpOrRole(host: string)
    | InvalidIp(host: string)
    | InvalidRole(host: string)

  predicate ValidKey(key: Json)
  {
    key.JString? && key.s != ""
  }

  predicate ValidRole(role: Json)
  {
    role == JString("control") || role == JString("worker")
  }

  /** Both `ip` and `role` are present. */
  predicate HasIpAndRole(v: seq<Member>)
  {
    Get(v, "ip").Some? && Get(v, "role").Some?
  }

  /** The `ip` is a non-empty string. */
  predicate ValidIp(v: seq<Member>)
    requires HasIpAndRole(v)
  {
    Get(v, "ip").value.JString? && Get(v, "ip").value.s != ""
  }

  /** Everything one entry must satisfy, stated declaratively. */
  predicate ValidEntry(m: Member)
  {
    && ValidKey(m.key)
    && m.value.JObject?
    && HasIpAndRole(m.value.members)
    && ValidIp(m.value.members)
    && ValidRole(Get(m.value.members, "role").value)
  }

  /** What the input as a whole must satisfy. */
  predicate ValidNodes(data: Json)
  {
    && data.JObject?
    && |data.members| > 0
    && forall i :: 0 <= i < |data.members| ==> ValidEntry(data.members[i])
  }

  /** The checks of one entry, in the order the loop body makes them: no
      error exactly for a valid entry; otherwise the first check that fails
      decides the error, and every error after the key check names the
      host. */
  function EntryError(m: Member): (r: Option<SchemaError>)
    ensures r.None? <==> ValidEntry(m)
    ensures r == Some(InvalidHostnameKey(m.key)) <==> !ValidKey(m.key)
    ensures ValidKey(m.key) ==>
              (r == Some(ValueNotObject(m.key.s)) <==> !m.value.JObject?)
    ensures ValidKey(m.key) && m.value.JObject? ==>
              (r == Some(MissingIpOrRole(m.key.s)) <==> !HasIpAndRole(m.value.members))
    ensures ValidKey(m.key) && m.value.JObject? && HasIpAndRole(m.value.members) ==>
              (r == Some(InvalidIp(m.key.s)) <==> !ValidIp(m.value.members))
    ensures ValidKey(m.key) && m.value.JObject? && HasIpAndRole(m.value.members) && ValidIp(m.value.members) ==>
              (r == Some(InvalidRole(m.key.s)) <==> !ValidRole(Get(m.value.members, "role").value))
    ensures r.Some? && ValidKey(m.key) ==> !r.value.NotNonEmptyObject? && !r.value.InvalidHostnameKey?
                                            && r.value.host == m.key.s
    ensures r.Some? ==> r.value != NotNonEmptyObject
  {
    if !ValidKey(m.key) then Some(InvalidHostnameKey(m.key))
    else if !m.value.JObject? then Some(ValueNotObject(m.key.s))
    else if !HasIpAndRole(m.value.members) then Some(MissingIpOrRole(m.key.s))
    else if !ValidIp(m.value.members) then Some(InvalidIp(m.key.s))
    else if !ValidRole(Get(m.value.members, "role").value) then Some(InvalidRole(m.key.s))
    else None
  }

  /** `load_nodes` from the parsed value on: succeeds exactly on valid input
      and then returns it unchanged; otherwise reports the error of the first
      bad entry, every entry before it being valid. */
  method LoadNodes(data: Json) returns (r: Result<Json, SchemaError>)
    ensures r.Ok? <==> ValidNodes(data)
    ensures r.Ok? ==> r.value == data
    ensures r == Err(NotNonEmptyObject) <==> !(data.JObject? && |data.members| > 0)
    ensures r.Err? && data.JObject? && |data.members| > 0 ==>
              exists i :: 0 <= i < |data.members| && EntryError(data.members[i]) == Some(r.error)
                          && forall j :: 0 <= j < i ==> ValidEntry(data.members[j])
  {
    if !data.JObject? || |data.members| == 0 {
      return Err(NotNonEmptyObject);
    }
    var i := 0;
    while i < |data.members|
      invariant 0 <= i <= |data.members|
      invariant forall j :: 0 <= j < i ==> ValidEntry(data.members[j])
    {
      var e := EntryError(data.members[i]);
      if e.Some? {
        return Err(e.value);
      }
      i := i + 1;
    }
    return Ok(data);
  }

  /** Reads the role as `render_inventory` does: "control" is a control
      host, anything else a worker. */
  function RoleOf(role: Json): (r: Role)
    ensures ValidRole(role) ==> JString(RoleName(r)) == role
  {
    if role == JString("control") then Control else Worker
  }

  /** The validated object as typed host records, in document order. */
  function NodesOf(data: Json): (hosts: seq<Host>)
    requires ValidNodes(data)
    ensures |hosts| == |data.members|
    ensures forall i :: 0 <= i < |hosts| ==>
              && data.members[i].key == JString(hosts[i].name)
              && hosts[i].name != ""
              && Get(data.members[i].value.members, "ip") == Some(JString(hosts[i].ip))
              && hosts[i].ip != ""
              && Get(data.members[i].value.members, "role") == Some(JString(RoleName(hosts[i].role)))
  {
    seq(|data.members|, i requires 0 <= i < |data.members| =>
      var v := data.members[i].value.members;
      Host(data.members[i].key.s, Get(v, "ip").value.s, RoleOf(Get(v, "role").value)))
  }

  /** Distinct keys give distinct host names. */
  lemma NodesOfDistinct(data: Json)
    requires ValidNodes(data) && DistinctKeys(data.members)
    ensures DistinctNames(NodesOf(data))
  {
    var hosts := NodesOf(data);
    forall i, j | 0 <= i < j < |hosts| ensures hosts[i].name != hosts[j].name {
      assert data.members[i].key != data.members[j].key;
    }
  }
}
