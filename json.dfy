/** The few JSON values the signalling messages carry. Objects map member
    names to values; `JOther` stands for numbers, booleans and arrays, which
    no message of the protocol produces. */
module Json {
  import opened Wrappers

  datatype Json = JNull | JString(s: string) | JObject(members: map<string, Json>) | JOther

  /** JavaScript `j.key` followed by a `== null` test: `None` when `j` is not
      an object, when it has no such member, or when the member is `null`. */
  function Member(j: Json, key: string): (r: Option<Json>)
    ensures r.Some? ==> j.JObject? && key in j.members && r.value == j.members[key] && r.value != JNull
    ensures r.None? ==> !j.JObject? || key !in j.members || j.members[key] == JNull
  {
    if j.JObject? && key in j.members && j.members[key] != JNull then Some(j.members[key]) else None
  }
}
