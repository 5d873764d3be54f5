/** The shape of the values that `jsonSerialize` hands to `json_encode`: an
    associative array is an ordered list of key/value pairs. String escaping
    is not part of the model. */
module Json {
  import opened Wrappers

  datatype Json =
    | JNull
    | JBool(b: bool)
    | JInt(i: int)
    | JString(s: string)
    | JArray(items: seq<Json>)
    | JObject(fields: seq<(string, Json)>)

  /** The keys of an object, in order. */
  function Keys(fields: seq<(string, Json)>): (ks: seq<string>)
    ensures |ks| == |fields|
    ensures forall i :: 0 <= i < |fields| ==> ks[i] == fields[i].0
  {
    if |fields| == 0 then [] else [fields[0].0] + Keys(fields[1..])
  }

  /** The value bound to the first occurrence of `key`. */
  function Get(fields: seq<(string, Json)>, key: string): (r: Option<Json>)
  {
    if |fields| == 0 then None
    else if fields[0].0 == key then Some(fields[0].1)
    else Get(fields[1..], key)
  }

  /** `Get` finds the value at the first position holding `key`. */
  lemma {:induction false} GetFirst(fields: seq<(string, Json)>, key: string, i: nat)
    requires i < |fields| && fields[i].0 == key
    requires forall j :: 0 <= j < i ==> fields[j].0 != key
    ensures Get(fields, key) == Some(fields[i].1)
  {
    if i > 0 {
      GetFirst(fields[1..], key, i - 1);
    }
  }

  function GetString(fields: seq<(string, Json)>, key: string): Option<string> {
    match Get(fields, key)
    case Some(JString(s)) => Some(s)
    case _ => None
  }

  function GetBool(fields: seq<(string, Json)>, key: string): Option<bool> {
    match Get(fields, key)
    case Some(JBool(b)) => Some(b)
    case _ => None
  }

  function GetInt(fields: seq<(string, Json)>, key: string): Option<int> {
    match Get(fields, key)
    case Some(JInt(i)) => Some(i)
    case _ => None
  }
}
