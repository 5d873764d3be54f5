/** The outcome of fetching a page (HttpResponse.php): URL, status code,
    headers, body, success flag and optional screenshot bytes. Serialisation
    turns a non-empty screenshot into a base64 `data:` URI. */
module HttpResponseValue {
  import opened Wrappers
  import opened Json
  import Base64

  /** The PHP values the constructor's untyped `$success` may receive
      (floats are not modelled). */
  datatype PhpValue =
    | PhpNull
    | PhpBool(b: bool)
    | PhpInt(i: int)
    | PhpString(s: string)
    | PhpArray(items: seq<PhpValue>)

  /** PHP `boolval`: null, false, 0, "", "0" and the empty array are false,
      every other value is true. */
  function BoolVal(v: PhpValue): (b: bool)
    ensures !b <==> v in {PhpNull, PhpBool(false), PhpInt(0), PhpString(""), PhpString("0"), PhpArray([])}
  {
    match v
    case PhpNull => false
    case PhpBool(b) => b
    case PhpInt(i) => i != 0
    case PhpString(s) => s != "" && s != "0"
    case PhpArray(items) => |items| > 0
  }

  /** Header name to its values, in the order the server sent them. */
  type Headers = seq<(string, seq<string>)>

  datatype HttpResponse = HttpResponse(
    url: string,
    statusCode: int,
    headers: Headers,
    response: string,
    success: bool,
    screenshot: seq<Base64.byte>)
  {
    function GetUrl(): string { url }

    function GetStatusCode(): int { statusCode }

    function GetHeaders(): Headers { headers }

    function GetResponse(): string { response }

    /** `getSuccess`; the checker calls it as `isSuccess`. */
    function GetSuccess(): bool { success }

    function GetScreenshot(): seq<Base64.byte> { screenshot }

    /** `jsonSerialize`: the six properties in declaration order, the
        screenshot replaced by its data URI when it is non-empty. */
    function ToJson(): (j: Json)
      ensures j.JObject? && Keys(j.fields) == ["url", "statusCode", "headers", "response", "success", "screenshot"]
    {
      JObject([("url", JString(url)), ("statusCode", JInt(statusCode)), ("headers", HeadersToJson(headers)),
               ("response", JString(response)), ("success", JBool(success)),
               ("screenshot", JString(ScreenshotToJson(screenshot)))])
    }
  }

  /** The constructor: every argument is stored as given except `$success`,
      which is coerced with `boolval`. */
  function NewHttpResponse(url: string, statusCode: int, headers: Headers, response: string,
                           success: PhpValue, screenshot: seq<Base64.byte>): (r: HttpResponse)
    ensures r.GetUrl() == url && r.GetStatusCode() == statusCode && r.GetHeaders() == headers
    ensures r.GetResponse() == response && r.GetScreenshot() == screenshot
    ensures r.GetSuccess() <==> success != PhpNull && success != PhpBool(false) && success != PhpInt(0)
                                && success != PhpString("") && success != PhpString("0") && success != PhpArray([])
  {
    HttpResponse(url, statusCode, headers, response, BoolVal(success), screenshot)
  }

  const DataUriPrefix: string := "data:image/jpeg;base64,"

  /** The serialised screenshot: empty for no screenshot, otherwise the
      JPEG data URI carrying the base64 of the bytes. */
  function ScreenshotToJson(shot: seq<Base64.byte>): (s: string)
    ensures |s| == 0 <==> |shot| == 0
    ensures |shot| > 0 ==> |s| >= |DataUriPrefix| && s[..|DataUriPrefix|] == DataUriPrefix
  {
    if |shot| > 0 then DataUriPrefix + Base64.Encode(shot) else []
  }

  /** What a client does with the field: strip the prefix and decode. */
  function ScreenshotFromJson(s: string): Option<seq<Base64.byte>> {
    if |s| == 0 then Some([])
    else if |s| >= |DataUriPrefix| && s[..|DataUriPrefix|] == DataUriPrefix then
      Base64.Decode(s[|DataUriPrefix|..])
    else None
  }

  /** A non-empty screenshot is serialised as exactly the prefix followed by
      the base64 of its bytes. */
  lemma ScreenshotDataUri(shot: seq<Base64.byte>)
    requires |shot| > 0
    ensures ScreenshotToJson(shot) == DataUriPrefix + Base64.Encode(shot)
  {
  }

  /** Stripping the prefix and decoding recovers the screenshot bytes. */
  lemma ScreenshotRoundTrip(shot: seq<Base64.byte>)
    ensures ScreenshotFromJson(ScreenshotToJson(shot)) == Some(shot)
  {
    if |shot| > 0 {
      var s := ScreenshotToJson(shot);
      assert s[|DataUriPrefix|..] == Base64.Encode(shot);
      Base64.DecodeEncode(shot);
    }
  }

  function HeaderValuesToJson(values: seq<string>): (j: Json)
    ensures j.JArray? && |j.items| == |values|
  {
    JArray(seq(|values|, i requires 0 <= i < |values| => JString(values[i])))
  }

  /** Headers become an object from header name to the array of its values.
      `json_encode` writes an empty PHP array as the empty JSON array, so
      a response without headers has `"headers": []`. */
  function HeadersToJson(headers: Headers): (j: Json)
    ensures |headers| == 0 <==> j == JArray([])
    ensures |headers| > 0 ==> j.JObject? && |j.fields| == |headers|
    ensures |headers| > 0 ==> forall i :: 0 <= i < |headers| ==> j.fields[i].0 == headers[i].0
  {
    if |headers| == 0 then JArray([]) else JObject(HeaderFields(headers))
  }

  /** The name/values pairs of a non-empty header map. */
  function HeaderFields(headers: Headers): (fs: seq<(string, Json)>)
    ensures |fs| == |headers|
  {
    seq(|headers|, i requires 0 <= i < |headers| => (headers[i].0, HeaderValuesToJson(headers[i].1)))
  }

  function HeaderValuesFromJson(items: seq<Json>): Option<seq<string>> {
    if |items| == 0 then Some([])
    else if !items[0].JString? then None
    else
      var rest :- HeaderValuesFromJson(items[1..]);
      Some([items[0].s] + rest)
  }

  /** Reads headers back: the empty array, or an object of value arrays. */
  function HeadersFromJson(j: Json): Option<Headers> {
    match j
    case JArray(items) => if |items| == 0 then Some([]) else None
    case JObject(fields) => HeaderFieldsFromJson(fields)
    case _ => None
  }

  function HeaderFieldsFromJson(fields: seq<(string, Json)>): Option<Headers> {
    if |fields| == 0 then Some([])
    else if !fields[0].1.JArray? then None
    else
      var values :- HeaderValuesFromJson(fields[0].1.items);
      var rest :- HeaderFieldsFromJson(fields[1..]);
      Some([(fields[0].0, values)] + rest)
  }

  lemma {:induction false} HeaderValuesRoundTrip(values: seq<string>)
    ensures HeaderValuesFromJson(HeaderValuesToJson(values).items) == Some(values)
  {
    if |values| > 0 {
      var items := HeaderValuesToJson(values).items;
      assert items[1..] == HeaderValuesToJson(values[1..]).items;
      HeaderValuesRoundTrip(values[1..]);
      assert values == [values[0]] + values[1..];
    }
  }

  /** Headers read back the same whether they were written as the empty
      array or as an object. */
  lemma HeadersRoundTrip(headers: Headers)
    ensures HeadersFromJson(HeadersToJson(headers)) == Some(headers)
  {
    if |headers| > 0 {
      HeaderFieldsRoundTrip(headers);
    }
  }

  lemma {:induction false} HeaderFieldsRoundTrip(headers: Headers)
    ensures HeaderFieldsFromJson(HeaderFields(headers)) == Some(headers)
  {
    if |headers| > 0 {
      var fields := HeaderFields(headers);
      assert fields[1..] == HeaderFields(headers[1..]);
      HeaderValuesRoundTrip(headers[0].1);
      HeaderFieldsRoundTrip(headers[1..]);
      assert headers == [headers[0]] + headers[1..];
    }
  }

  /** Reading a serialised response back, the way a client of the JSON
      would: `None` unless all six keys carry values of the right kinds. */
  function FromJson(j: Json): Option<HttpResponse> {
    if !j.JObject? then None
    else
      var url :- GetString(j.fields, "url");
      var statusCode :- GetInt(j.fields, "statusCode");
      var headersJson :- Get(j.fields, "headers");
      var headers :- HeadersFromJson(headersJson);
      var response :- GetString(j.fields, "response");
      var success :- GetBool(j.fields, "success");
      var shotText :- GetString(j.fields, "screenshot");
      var screenshot :- ScreenshotFromJson(shotText);
      Some(HttpResponse(url, statusCode, headers, response, success, screenshot))
  }

  /** Serialisation leaves url, statusCode, headers, response and success
      as stored and changes only the screenshot field, which is empty exactly
      when there is no screenshot. */
  lemma {:induction false} SerializedFields(r: HttpResponse)
    ensures var fs := r.ToJson().fields;
            && GetString(fs, "url") == Some(r.url)
            && GetInt(fs, "statusCode") == Some(r.statusCode)
            && Get(fs, "headers") == Some(HeadersToJson(r.headers))
            && GetString(fs, "response") == Some(r.response)
            && GetBool(fs, "success") == Some(r.success)
            && GetString(fs, "screenshot").Some?
            && (GetString(fs, "screenshot").value == "" <==> r.screenshot == [])
  {
    var fs := r.ToJson().fields;
    GetFirst(fs, "url", 0);
    GetFirst(fs, "statusCode", 1);
    GetFirst(fs, "headers", 2);
    GetFirst(fs, "response", 3);
    GetFirst(fs, "success", 4);
    GetFirst(fs, "screenshot", 5);
  }

  /** Without a screenshot the serialised form is the six stored fields
      verbatim, with an empty screenshot. */
  lemma NoScreenshotJson(url: string, statusCode: int, headers: Headers, response: string, success: bool)
    ensures HttpResponse(url, statusCode, headers, response, success, []).ToJson()
            == JObject([("url", JString(url)), ("statusCode", JInt(statusCode)), ("headers", HeadersToJson(headers)),
                        ("response", JString(response)), ("success", JBool(success)), ("screenshot", JString(""))])
  {
  }

  /** The round trip of the serialisation tests: reading the JSON back,
      stripping the data-URI prefix and base64-decoding gives back the
      original response, screenshot bytes included. */
  lemma {:induction false} JsonRoundTrip(r: HttpResponse)
    ensures FromJson(r.ToJson()) == Some(r)
  {
    SerializedFields(r);
    var fs := r.ToJson().fields;
    GetFirst(fs, "screenshot", 5);
    HeadersRoundTrip(r.headers);
    ScreenshotRoundTrip(r.screenshot);
  }
}
