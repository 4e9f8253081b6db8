/**
 * The request handler of the webhook server (webhook.js), recast as a pure
 * decision function from an abstract request to a status code and a
 * JSON-like body. The branches are taken in the source's order:
 * OPTIONS, then `GET /health`, then 404, then 401, then the body.
 *
 * `JSON.parse` is not modelled: the request says what it produced (a value
 * or a failure). The JavaScript semantics of `json.url || json.link ||
 * json.text` and of calling `.match` on whatever that yields are modelled
 * over that value.
 */
module Webhook {

  import opened Wrappers
  import opened JsString
  import XLink

  /** A value `JSON.parse` can produce. */
  datatype Json =
    | JNull
    | JBool(b: bool)
    | JNumber(n: real)
    | JString(s: string)
    | JArray(items: seq<Json>)
    | JObject(fields: map<string, Json>)

  /** The outcome of `JSON.parse(body)`. */
  datatype Parsed = ParseError | Parsed(value: Json)

  /** A JavaScript value that a property read on a parsed body can give:
      `undefined`, a JSON value, or `String.prototype.link` (the method a
      string inherits under the name `link`). */
  datatype JsValue = Undefined | Value(json: Json) | StringLinkMethod

  datatype Request = Request(
    httpMethod: string,
    url: string,
    authorization: Option<string>,
    body: string,
    parsed: Parsed)

  /** A response body: nothing, or a flat JSON object in key order. */
  datatype Body = Empty | Fields(pairs: seq<(string, string)>)

  datatype Response = Response(status: int, body: Body)

  const NoLinkMessage := "No valid X/Twitter link found"

  /** JavaScript truthiness. */
  predicate Truthy(v: JsValue)
  {
    match v
    case Undefined => false
    case StringLinkMethod => true
    case Value(j) =>
      match j
      case JNull => false
      case JBool(b) => b
      case JNumber(n) => n != 0.0
      case JString(s) => s != ""
      case JArray(_) => true
      case JObject(_) => true
  }

  /** `a || b`. */
  function Or(a: JsValue, b: JsValue): JsValue
  {
    if Truthy(a) then a else b
  }

  /** `v[name]` for a parsed value that is not `null` (reading a property
      of `null` throws). Only objects have own properties; of the names read
      here a prototype supplies one, `link` on strings. */
  function Get(v: Json, name: string): JsValue
    requires v != JNull
  {
    match v
    case JObject(f) => if name in f then Value(f[name]) else Undefined
    case JString(_) => if name == "link" then StringLinkMethod else Undefined
    case _ => Undefined
  }

  /** The value of `link` after the inner try/catch: `json.url || json.link
      || json.text` when parsing succeeded and the reads did not throw,
      and `body.trim()` otherwise. */
  function Candidate(body: string, parsed: Parsed): JsValue
  {
    if parsed.Parsed? && parsed.value != JNull then
      var v := parsed.value;
      Or(Or(Get(v, "url"), Get(v, "link")), Get(v, "text"))
    else
      Value(JString(Trim(body)))
  }

  function NotFound(): Response { Response(404, Fields([("error", "Not found")])) }
  function Unauthorized(): Response { Response(401, Fields([("error", "Unauthorized")])) }

  /** The request is a POST to a path that starts with `/x`. */
  predicate IsPostX(req: Request)
  {
    req.httpMethod == "POST" && StartsWith(req.url, "/x")
  }

  /** `!auth || auth !== "Bearer " + key` is false. */
  predicate AuthOk(req: Request, apiKey: string)
  {
    apiKey == "" || (req.authorization.Some? && req.authorization.value != ""
                     && req.authorization.value == "Bearer " + apiKey)
  }

  /** The handler gets as far as reading the body. */
  predicate ReachesBody(req: Request, apiKey: string)
  {
    && req.httpMethod != "OPTIONS"
    && !(req.httpMethod == "GET" && req.url == "/health")
    && IsPostX(req)
    && AuthOk(req, apiKey)
  }

  /** What happens once the body is read: extract the link from the
      candidate, answer 400 or 202, or 500 when `.match` throws because the
      candidate is not a string. `matchError` gives the message of the
      TypeError the JavaScript engine raises for a given value. */
  function HandleBody(link: JsValue, matchError: JsValue -> string): Response
  {
    match link
    case Value(JString(text)) =>
      (match XLink.Extract(text)
       case None => Response(400, Fields([("error", NoLinkMessage)]))
       case Some(x) => Response(202, Fields([("status", "processing"), ("link", x)])))
    case _ => Response(500, Fields([("error", matchError(link))]))
  }

  /** The request listener. `apiKey` is the configured WEBHOOK_API_KEY
      (empty when unset). */
  function Handle(req: Request, apiKey: string, matchError: JsValue -> string): Response
  {
    if req.httpMethod == "OPTIONS" then Response(200, Empty)
    else if req.httpMethod == "GET" && req.url == "/health" then Response(200, Fields([("status", "ok")]))
    else if req.httpMethod != "POST" || !StartsWith(req.url, "/x") then NotFound()
    else if apiKey != "" && (req.authorization.None? || req.authorization.value == ""
                             || req.authorization.value != "Bearer " + apiKey) then Unauthorized()
    else HandleBody(Candidate(req.body, req.parsed), matchError)
  }

  // ------------------------------------------------------------------
  // Properties of the decision table

  /** OPTIONS is answered 200 with an empty body, whatever the path, the
      credentials or the body. */
  lemma {:induction false} OptionsAlwaysOk(req: Request, apiKey: string, matchError: JsValue -> string)
    requires req.httpMethod == "OPTIONS"
    ensures Handle(req, apiKey, matchError) == Response(200, Empty)
  {
  }

  /** `GET /health` is answered 200 `{status: "ok"}`, whatever the
      credentials or the body. */
  lemma {:induction false} HealthAlwaysOk(req: Request, apiKey: string, matchError: JsValue -> string)
    requires req.httpMethod == "GET" && req.url == "/health"
    ensures Handle(req, apiKey, matchError) == Response(200, Fields([("status", "ok")]))
  {
  }

  /** 404 exactly for a request that is neither OPTIONS, nor `GET /health`,
      nor a POST whose path starts with `/x`. */
  lemma {:induction false} NotFoundIff(req: Request, apiKey: string, matchError: JsValue -> string)
    ensures Handle(req, apiKey, matchError).status == 404
      <==> req.httpMethod != "OPTIONS" && !(req.httpMethod == "GET" && req.url == "/health") && !IsPostX(req)
    ensures Handle(req, apiKey, matchError).status == 404 ==> Handle(req, apiKey, matchError) == NotFound()
  {
  }

  /** The path test is a prefix test: `POST /xyz` is routed like `POST /x`. */
  lemma {:induction false} PrefixRouting(req: Request, apiKey: string, matchError: JsValue -> string)
    requires req.httpMethod == "POST" && req.url == "/xyz"
    ensures Handle(req, apiKey, matchError) == Handle(req.(url := "/x"), apiKey, matchError)
  {
  }

  /** 401 exactly for a POST to `/x…` when a key is configured and the
      Authorization header is missing or is not `Bearer <key>`. */
  lemma {:induction false} UnauthorizedIff(req: Request, apiKey: string, matchError: JsValue -> string)
    ensures Handle(req, apiKey, matchError).status == 401
      <==> IsPostX(req) && apiKey != "" && req.authorization != Some("Bearer " + apiKey)
    ensures Handle(req, apiKey, matchError).status == 401 ==> Handle(req, apiKey, matchError) == Unauthorized()
  {
  }

  /** The body is looked at only once routing and authentication have let
      the request through: until then the answer does not depend on it. */
  lemma {:induction false} BodyIgnoredUntilAuthorized(req: Request, apiKey: string, matchError: JsValue -> string,
                                   body: string, parsed: Parsed)
    requires !ReachesBody(req, apiKey)
    ensures Handle(req.(body := body, parsed := parsed), apiKey, matchError) == Handle(req, apiKey, matchError)
    ensures Handle(req, apiKey, matchError).status in {200, 401, 404}
  {
  }

  /** An empty key turns the check off: the Authorization header is then
      irrelevant. */
  lemma {:induction false} EmptyKeyDisablesAuth(req: Request, matchError: JsValue -> string, auth: Option<string>)
    ensures Handle(req.(authorization := auth), "", matchError) == Handle(req, "", matchError)
  {
  }

  /** Once the body is read, the outcome is decided by the candidate text
      alone: 202 with the extracted link when the candidate is a string
      holding a link, 400 when it is a string holding none, 500 when it is
      not a string. */
  lemma {:induction false} BodyOutcome(req: Request, apiKey: string, matchError: JsValue -> string)
    requires ReachesBody(req, apiKey)
    ensures var r := Handle(req, apiKey, matchError);
      var c := Candidate(req.body, req.parsed);
      && (r.status == 202 <==> c.Value? && c.json.JString? && XLink.ContainsLink(c.json.s))
      && (r.status == 400 <==> c.Value? && c.json.JString? && !XLink.ContainsLink(c.json.s))
      && (r.status == 500 <==> !(c.Value? && c.json.JString?))
      && (r.status == 400 ==> r.body == Fields([("error", NoLinkMessage)]))
      && (r.status == 500 ==> r.body == Fields([("error", matchError(c))]))
  {
    var c := Candidate(req.body, req.parsed);
    if c.Value? && c.json.JString? {
      XLink.ExtractNoneIff(c.json.s);
    }
  }

  /** A 202 carries `{status: "processing", link}` where `link` is the
      leftmost, and there the longest, link inside the candidate text. */
  lemma {:induction false} AcceptedLink(req: Request, apiKey: string, matchError: JsValue -> string)
    requires Handle(req, apiKey, matchError).status == 202
    ensures var c := Candidate(req.body, req.parsed);
      && ReachesBody(req, apiKey) && c.Value? && c.json.JString?
      && exists i, j :: XLink.LeftmostLongest(c.json.s, i, j)
           && Handle(req, apiKey, matchError).body == Fields([("status", "processing"), ("link", c.json.s[i..j])])
  {
    var c := Candidate(req.body, req.parsed);
    XLink.ExtractSome(c.json.s);
  }

  /** A JSON object with no truthy `url`, `link` or `text` is never
      accepted: its `text` (falsy) reaches `.match`, which answers 400 for
      the empty string and throws (500) for every other falsy value. */
  lemma {:induction false} NoTruthyFieldNeverAccepted(req: Request, apiKey: string, matchError: JsValue -> string,
                                                      fields: map<string, Json>)
    requires ReachesBody(req, apiKey) && req.parsed == Parsed(JObject(fields))
    requires forall name :: name in fields && name in {"url", "link", "text"} ==> !Truthy(Value(fields[name]))
    ensures Handle(req, apiKey, matchError).status != 202
    ensures Handle(req, apiKey, matchError).status == 400 <==> "text" in fields && fields["text"] == JString("")
    ensures Handle(req, apiKey, matchError).status == 500 <==> !("text" in fields && fields["text"] == JString(""))
  {
    var c := Candidate(req.body, req.parsed);
    if "text" in fields && fields["text"] == JString("") {
      assert c == Value(JString(""));
      XLink.ExtractNoneIff("");
    }
  }

  /** A body that is not JSON, or is the JSON `null`, is searched as
      trimmed text; trimming never changes the outcome, so the request is
      accepted exactly when the raw body holds a link, and the link sent
      back is the one found in the raw body. */
  lemma {:induction false} PlainTextBody(req: Request, apiKey: string, matchError: JsValue -> string)
    requires ReachesBody(req, apiKey)
    requires req.parsed == ParseError || req.parsed == Parsed(JNull)
    ensures Handle(req, apiKey, matchError).status in {202, 400}
    ensures Handle(req, apiKey, matchError).status == 202 <==> XLink.ContainsLink(req.body)
    ensures Handle(req, apiKey, matchError).status == 202 ==>
      XLink.Extract(req.body).Some? &&
      Handle(req, apiKey, matchError).body == Fields([("status", "processing"), ("link", XLink.Extract(req.body).value)])
  {
    var t := Trim(req.body);
    assert Handle(req, apiKey, matchError) == HandleBody(Value(JString(t)), matchError);
    XLink.ExtractTrimmedIff(req.body);
  }

  /** The status codes the handler can answer. */
  lemma {:induction false} StatusCodes(req: Request, apiKey: string, matchError: JsValue -> string)
    ensures Handle(req, apiKey, matchError).status in {200, 202, 400, 401, 404, 500}
  {
  }
}
