/** Configuration values as they come out of the YAML/JSON loader, with Python's
    truthiness and `dict.get`. */
module Json {
  import opened Basics

  /** A configuration value. Objects keep their entries in insertion order, as
      Python dicts do; floats are not modelled. */
  datatype Json =
    | JNull
    | JBool(b: bool)
    | JInt(i: int)
    | JStr(s: string)
    | JList(items: seq<Json>)
    | JObject(entries: seq<(string, Json)>)

  /** Python's `bool(v)`: None, False, 0 and empty containers are falsy. */
  function Truthy(v: Json): (b: bool)
    ensures !b <==> v in {JNull, JBool(false), JInt(0), JStr(""), JList([]), JObject([])}
  {
    match v
    case JNull => false
    case JBool(b) => b
    case JInt(i) => i != 0
    case JStr(s) => s != ""
    case JList(items) => items != []
    case JObject(entries) => entries != []
  }

  /** Index of the first entry whose key is `k`, if any. */
  function Find(entries: seq<(string, Json)>, k: string): (r: Option<nat>)
    ensures r.Some? ==> r.value < |entries| && entries[r.value].0 == k
                        && forall j :: 0 <= j < r.value ==> entries[j].0 != k
    ensures r.None? <==> forall j :: 0 <= j < |entries| ==> entries[j].0 != k
  {
    if entries == [] then None
    else if entries[0].0 == k then Some(0)
    else match Find(entries[1..], k)
      case None => None
      case Some(i) => Some(i + 1)
  }

  /** Python's `d.get(k, default)` on a dict. */
  function GetOr(entries: seq<(string, Json)>, k: string, default: Json): (r: Json)
    ensures (forall j :: 0 <= j < |entries| ==> entries[j].0 != k) ==> r == default
    ensures (exists j :: 0 <= j < |entries| && entries[j].0 == k) ==>
              exists j :: 0 <= j < |entries| && entries[j] == (k, r)
  {
    match Find(entries, k)
    case None => default
    case Some(i) => entries[i].1
  }
}
