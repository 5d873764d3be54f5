/** The checker's answer for one page (BacklinkData.php): the fetched
    response paired with the backlinks found in it. The pairing is not
    checked: a failed response may carry backlinks and a successful one may
    carry none. */
module BacklinkDataValue {
  import opened Wrappers
  import opened Json
  import opened BacklinkValue
  import opened HttpResponseValue

  datatype BacklinkData = BacklinkData(response: HttpResponse, backlinks: seq<Backlink>)
  {
    function GetResponse(): HttpResponse { response }

    function GetBacklinks(): seq<Backlink> { backlinks }

    /** `jsonSerialize` as `json_encode` expands it: the response object and
        the list of backlink objects, each serialised by its own class. */
    function ToJson(): (j: Json)
      ensures j.JObject? && Keys(j.fields) == ["response", "backlinks"]
      ensures j.fields[0].1 == response.ToJson()
      ensures j.fields[1].1.JArray? && |j.fields[1].1.items| == |backlinks|
      ensures forall i :: 0 <= i < |backlinks| ==> j.fields[1].1.items[i] == backlinks[i].ToJson()
    {
      JObject([("response", response.ToJson()), ("backlinks", BacklinksToJson(backlinks))])
    }
  }

  function BacklinksToJson(bs: seq<Backlink>): (j: Json)
    ensures j.JArray? && |j.items| == |bs|
    ensures forall i :: 0 <= i < |bs| ==> j.items[i] == bs[i].ToJson()
  {
    JArray(seq(|bs|, i requires 0 <= i < |bs| => bs[i].ToJson()))
  }

  function BacklinksFromJson(items: seq<Json>): Option<seq<Backlink>> {
    if |items| == 0 then Some([])
    else
      var b :- BacklinkValue.FromJson(items[0]);
      var rest :- BacklinksFromJson(items[1..]);
      Some([b] + rest)
  }

  function FromJson(j: Json): Option<BacklinkData> {
    if !j.JObject? then None
    else
      var responseJson :- Get(j.fields, "response");
      var response :- HttpResponseValue.FromJson(responseJson);
      var backlinksJson :- Get(j.fields, "backlinks");
      var backlinks :- if backlinksJson.JArray? then BacklinksFromJson(backlinksJson.items) else None;
      Some(BacklinkData(response, backlinks))
  }

  /** The getters return the constructor arguments; the backlink list keeps
      its length and order, and may be empty or disagree with the response's
      success flag. */
  lemma Getters(response: HttpResponse, backlinks: seq<Backlink>)
    ensures var d := BacklinkData(response, backlinks);
            && d.GetResponse() == response
            && |d.GetBacklinks()| == |backlinks|
            && forall i :: 0 <= i < |backlinks| ==> d.GetBacklinks()[i] == backlinks[i]
  {
  }

  lemma {:induction false} BacklinksRoundTrip(bs: seq<Backlink>)
    ensures BacklinksFromJson(BacklinksToJson(bs).items) == Some(bs)
  {
    if |bs| > 0 {
      var items := BacklinksToJson(bs).items;
      assert items[1..] == BacklinksToJson(bs[1..]).items;
      BacklinkValue.JsonRoundTrip(bs[0]);
      BacklinksRoundTrip(bs[1..]);
      assert bs == [bs[0]] + bs[1..];
    }
  }

  /** Serialising and reading back gives the same response and the same
      backlinks in the same order. */
  lemma {:induction false} JsonRoundTrip(d: BacklinkData)
    ensures FromJson(d.ToJson()) == Some(d)
  {
    var fs := d.ToJson().fields;
    GetFirst(fs, "response", 0);
    GetFirst(fs, "backlinks", 1);
    HttpResponseValue.JsonRoundTrip(d.response);
    BacklinksRoundTrip(d.backlinks);
  }
}
