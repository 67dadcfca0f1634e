/** What the `forbidden` page handler (src/pages/forbidden.rs) sends: the
    `forbidden` endpoint of the library is called, and the 403 response
    carries its content only when the endpoint produced some and declared a
    media type that parses.

    The endpoint call, MIME parsing (`Mime::from_str`) and the choice of a
    response encoding (`get_response_encoding`) are foreign code; the call is
    given by what it leaves behind, the other two as function parameters. */
module Forbidden {
  import opened Wrappers
  import opened Bytes
  import opened Cookies
  import Response

  /** What an endpoint call leaves behind: its result (an error when the
      library lacks the symbol), the response headers and cookies it filled
      in, and the status variable it was handed. */
  datatype EndpointCall = EndpointCall(
    content: Result<Option<seq<byte>>, string>,
    headers: map<string, string>,
    cookies: map<string, SetCookie>,
    status: nat)

  /** `Mime::from_str` followed by `to_string` and `type_().to_string()`:
      the full media type and its general type, or `None` when the text does
      not parse. */
  type MimeParser = string -> Option<(string, string)>

  /** `get_response_encoding`: the response encoding chosen for content of a
      media type and general type under the given request headers, or
      `None`. */
  type EncodingChooser = (seq<byte>, string, string, map<string, string>) -> Option<string>

  /** The headers after an encoding was chosen: `Content-Encoding` and
      `Vary: Accept-Encoding` are added only when there is one. */
  function WithEncoding(h: map<string, string>, encoding: Option<string>): (r: map<string, string>)
    ensures encoding.None? ==> r == h
    ensures encoding.Some? ==>
      && r.Keys == h.Keys + {"Content-Encoding", "Vary"}
      && r["Content-Encoding"] == encoding.value && r["Vary"] == "Accept-Encoding"
      && forall k :: k in h && k != "Content-Encoding" && k != "Vary" ==> r[k] == h[k]
  {
    match encoding
    case None => h
    case Some(e) => h["Content-Encoding" := e]["Vary" := "Accept-Encoding"]
  }

  /** The content is sent: the endpoint returned content and a `content-type`
      (exactly that key) whose value parses. */
  predicate SendsBody(call: EndpointCall, parseMime: MimeParser) {
    && call.content.Ok? && call.content.value.Some?
    && "content-type" in call.headers
    && parseMime(call.headers["content-type"]).Some?
  }

  /** The arguments `forbidden` hands to `send_response` (forbidden.rs:26-57);
      the encoding is chosen under the headers of the request being denied. */
  function ForbiddenResponse(call: EndpointCall, requestHeaders: map<string, string>,
                             parseMime: MimeParser, choose: EncodingChooser): (r: Response.Outgoing)
    ensures r.status == 403
    ensures r.cookies == Some(call.cookies)
    ensures r.content.Some? <==> SendsBody(call, parseMime)
    ensures SendsBody(call, parseMime) ==>
      var (mimeType, generalType) := parseMime(call.headers["content-type"]).value;
      && r.content == call.content.value
      && r.resourceType == Some(Response.Dynamic)
      && r.headers == Some(WithEncoding(call.headers, choose(call.content.value.value, mimeType, generalType, requestHeaders)))
    ensures call.content.Ok? && call.content.value.Some? && "content-type" in call.headers
            && parseMime(call.headers["content-type"]).None? ==>
      r.headers == Some(call.headers - {"content-type"}) && r.resourceType.None?
    ensures call.content.Err? || call.content.value.None? || "content-type" !in call.headers ==>
      r.headers == Some(call.headers) && r.resourceType.None?
  {
    if call.content.Ok? && call.content.value.Some? && "content-type" in call.headers then
      var c := call.content.value.value;
      match parseMime(call.headers["content-type"])
      case None =>
        Response.Outgoing(403, Some(call.headers - {"content-type"}), None, Some(call.cookies), None)
      case Some((mimeType, generalType)) =>
        var h := WithEncoding(call.headers, choose(c, mimeType, generalType, requestHeaders));
        Response.Outgoing(403, Some(h), Some(c), Some(call.cookies), Some(Response.Dynamic))
    else
      Response.Outgoing(403, Some(call.headers), None, Some(call.cookies), None)
  }

  /** The status the endpoint leaves in its variable is never sent: two calls
      that differ only in it give the same response. */
  lemma StatusIgnored(call: EndpointCall, status: nat, requestHeaders: map<string, string>,
                      parseMime: MimeParser, choose: EncodingChooser)
    ensures ForbiddenResponse(call.(status := status), requestHeaders, parseMime, choose)
         == ForbiddenResponse(call, requestHeaders, parseMime, choose)
  {
  }

  /** Serialised, the answer always opens with the 403 status line and carries
      a line for every cookie the endpoint set, rendered by `cookieLine`. */
  lemma ForbiddenOnTheWire(call: EndpointCall, requestHeaders: map<string, string>,
                           parseMime: MimeParser, choose: EncodingChooser,
                           cfg: Response.ServerConfig, env: Response.Environment,
                           headerOrder: seq<string>, cookieOrder: seq<string>, cookieLine: Response.CookieRenderer)
    requires Response.Enumerates(ForbiddenResponse(call, requestHeaders, parseMime, choose), cfg, headerOrder, cookieOrder)
    ensures var r := Response.SendResponse(ForbiddenResponse(call, requestHeaders, parseMime, choose),
                                           cfg, env, headerOrder, cookieOrder, cookieLine);
      && r.Ok?
      && r.value.lines[0] == Response.StatusLine(403, "Forbidden")
      && forall n :: n in call.cookies ==> cookieLine(n, call.cookies[n]) in r.value.lines
  {
    assert Response.ReasonPhrase(403) == Some("Forbidden");
  }
}
