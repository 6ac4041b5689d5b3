/** The success/failure decision of `shorten_url`. The HTTP POST to the Trimd
    endpoint is abstracted into the reply it produced. */
module TrimdApi {
  import opened Wrappers

  /** A decoded JSON value, as `json.loads` yields it. Integers and floats are
      both numbers: Python compares `0 == 0.0` as equal. */
  datatype Json =
    | JNull
    | JBool(b: bool)
    | JNumber(n: real)
    | JString(s: string)
    | JArray(items: seq<Json>)
    | JObject(fields: map<string, Json>)

  /** What the POST produced: either the request itself failed (connection,
      timeout, ...), or a response arrived with a status code and a body that
      decodes as JSON (`Some`) or does not (`None`). */
  datatype Reply =
    | RequestFailed
    | Received(status: int, body: Option<Json>)

  /** `raise_for_status` raises for 4xx client and 5xx server errors. */
  predicate RaisesForStatus(status: int) {
    400 <= status < 600
  }

  /** Python's `value == 0`: true for the integer 0, the float 0.0 and `False`
      (a `bool` is an `int`); false for `None`, strings and containers. */
  predicate PyEqualsZero(v: Json) {
    v == JNumber(0.0) || v == JBool(false)
  }

  /** The body passes the check `result.get("error") == 0 and "shorturl" in result`. */
  ghost predicate IsSuccessBody(fields: map<string, Json>) {
    && "error" in fields
    && PyEqualsZero(fields["error"])
    && "shorturl" in fields
  }

  /** `shorten_url`: the `shorturl` value of a successful reply, `None` for
      every other reply and for every exception the function catches. A body
      that is not a JSON object has no `.get`, and the resulting exception is
      caught as well. */
  function ShortenUrl(reply: Reply): (r: Option<Json>)
    ensures r.Some? <==>
      reply.Received? && !RaisesForStatus(reply.status)
      && reply.body.Some? && reply.body.value.JObject?
      && IsSuccessBody(reply.body.value.fields)
    ensures r.Some? ==> r.value == reply.body.value.fields["shorturl"]
  {
    match reply
    case RequestFailed => None
    case Received(status, body) =>
      if RaisesForStatus(status) then None
      else match body
        case None => None
        case Some(JObject(fields)) =>
          if "error" in fields && PyEqualsZero(fields["error"]) && "shorturl" in fields
          then Some(fields["shorturl"])
          else None
        case Some(_) => None
  }

  /** The declared result type is `str | None`: a string `shorturl` is the
      shortened URL; any other value is no usable result. */
  function AsShortUrl(v: Option<Json>): (url: Option<string>)
    ensures url.Some? <==> v.Some? && v.value.JString?
    ensures url.Some? ==> v == Some(JString(url.value))
  {
    match v
    case Some(JString(s)) => Some(s)
    case _ => None
  }

  /** Python equality makes `"error": false` and `"error": 0.0` count as
      success, while `"error": "0"` and a missing or `null` error do not. */
  lemma ErrorFieldEquality(short: Json)
    ensures ShortenUrl(Received(200, Some(JObject(map["error" := JBool(false), "shorturl" := short])))) == Some(short)
    ensures ShortenUrl(Received(200, Some(JObject(map["error" := JNumber(0.0), "shorturl" := short])))) == Some(short)
    ensures ShortenUrl(Received(200, Some(JObject(map["error" := JString("0"), "shorturl" := short])))) == None
    ensures ShortenUrl(Received(200, Some(JObject(map["error" := JNull, "shorturl" := short])))) == None
    ensures ShortenUrl(Received(200, Some(JObject(map["shorturl" := short])))) == None
  {
  }
}
