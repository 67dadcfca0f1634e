/** Serialisation of an HTTP/1.1 response by `send_response`
    (src/util.rs:64-325): the status line of section 4 of RFC 9112 with the
    reason phrases of section 15 of RFC 9110, the Date and Server lines, the
    cookies, the merged header map, the ETag lines of static resources, the
    content preparation and the `Content-Length` framing.

    The head is kept as a sequence of lines; `Wire` gives the bytes written to
    the stream, each line terminated by CRLF and the head by an empty line.
    The clock, the crate version, compression and ETag hashing are supplied
    from outside in an `Environment`. */
module Response {
  import opened Wrappers
  import opened Errors
  import opened Text
  import opened Bytes
  import opened Cookies

  datatype ResourceType = Static | Dynamic

  /** The configuration fields the serialiser reads. */
  datatype ServerConfig = ServerConfig(
    enableServerHeader: bool,
    globalHeaders: Option<map<string, string>>,
    cacheMaxAge: nat)

  /** What the serialiser takes from outside the model: the formatted current
      date, the crate version, and the foreign codecs, each `None` on failure. */
  datatype Environment = Environment(
    date: string,
    version: string,
    gzip: seq<byte> -> Option<seq<byte>>,
    brotli: seq<byte> -> Option<seq<byte>>,
    etag: seq<byte> -> Option<string>)

  /** The arguments of one `send_response` call. */
  datatype Outgoing = Outgoing(
    status: nat,
    headers: Option<map<string, string>>,
    content: Option<seq<byte>>,
    cookies: Option<map<string, SetCookie>>,
    resourceType: Option<ResourceType>)

  /** A serialised response: the head lines, without their CRLF, and the body. */
  datatype HttpResponse = HttpResponse(lines: seq<string>, body: seq<byte>)

  /* ---------------------------------------------------------------------
     Status line
     --------------------------------------------------------------------- */

  /** The reason phrase of each status code the server knows (util.rs:74-137). */
  function ReasonPhrase(status: nat): (r: Option<string>)
    ensures r.Some? ==> 100 <= status <= 511
  {
    match status
    case 100 => Some("Continue")
    case 101 => Some("Switching Protocols")
    case 102 => Some("Processing")
    case 103 => Some("Early Hints")
    case 200 => Some("OK")
    case 201 => Some("Created")
    case 202 => Some("Accepted")
    case 203 => Some("Non-Authoritative Information")
    case 204 => Some("No Content")
    case 205 => Some("Reset Content")
    case 206 => Some("Partial Content")
    case 207 => Some("Multi-Status")
    case 208 => Some("Already Reported")
    case 226 => Some("IM Used")
    case 300 => Some("Multiple Choices")
    case 301 => Some("Moved Permanently")
    case 302 => Some("Found")
    case 303 => Some("See Other")
    case 304 => Some("Not Modified")
    case 307 => Some("Temporary Redirect")
    case 308 => Some("Permanent Redirect")
    case 400 => Some("Bad Request")
    case 401 => Some("Unauthorized")
    case 402 => Some("Payment Required")
    case 403 => Some("Forbidden")
    case 404 => Some("Not Found")
    case 405 => Some("Method Not Allowed")
    case 406 => Some("Not Acceptable")
    case 407 => Some("Proxy Authentication Required")
    case 408 => Some("Request Timeout")
    case 409 => Some("Conflict")
    case 410 => Some("Gone")
    case 411 => Some("Length Required")
    case 412 => Some("Precondition Failed")
    case 413 => Some("Content Too Large")
    case 414 => Some("URI Too Long")
    case 415 => Some("Unsupported Media Type")
    case 416 => Some("Range Not Satisfiable")
    case 417 => Some("Expectation Failed")
    case 418 => Some("I'm a teapot")
    case 421 => Some("Misdirected Request")
    case 422 => Some("Unprocessable Content")
    case 423 => Some("Locked")
    case 424 => Some("Failed Dependency")
    case 425 => Some("Too Early")
    case 426 => Some("Upgrade Required")
    case 428 => Some("Precondition Required")
    case 429 => Some("Too Many Requests")
    case 431 => Some("Request Header Fields Too Large")
    case 451 => Some("Unavailable For Legal Reasons")
    case 500 => Some("Internal Server Error")
    case 501 => Some("Not Implemented")
    case 502 => Some("Bad Gateway")
    case 503 => Some("Service Unavailable")
    case 504 => Some("Gateway Timeout")
    case 505 => Some("HTTP Version Not Supported")
    case 506 => Some("Variant Also Negotiates")
    case 507 => Some("Insufficient Storage")
    case 508 => Some("Loop Detected")
    case 510 => Some("Not Extended")
    case 511 => Some("Network Authentication Required")
    case _ => None
  }

  function StatusLine(status: nat, reason: string): string {
    "HTTP/1.1 " + Decimal(status) + " " + reason
  }

  /** A client's reading of a status line: the `status-code` and
      `reason-phrase` of section 4 of RFC 9112. */
  function ParseStatusLine(line: string): Option<(nat, string)> {
    if !StartsWith(line, "HTTP/1.1 ") then None
    else
      match SplitOnce(line[9..], ' ')
      case None => None
      case Some((code, reason)) =>
        match ParseUnsigned(code, 0xFFFF)
        case None => None
        case Some(n) => Some((n, reason))
  }

  /** Every status line the server writes reads back as its code and phrase. */
  lemma StatusLineRoundTrip(status: nat, reason: string)
    requires status <= 0xFFFF
    ensures ParseStatusLine(StatusLine(status, reason)) == Some((status, reason))
  {
    var d := Decimal(status);
    var line := StatusLine(status, reason);
    assert line == "HTTP/1.1 " + (d + [' '] + reason);
    assert line[9..] == d + [' '] + reason;
    DecimalIsDigits(status);
    assert ' ' !in d;
    SplitOnceFirst(d, ' ', reason);
    ParseDecimal(status, 0xFFFF);
  }

  /* ---------------------------------------------------------------------
     Header lines
     --------------------------------------------------------------------- */

  /** The headers added to every response that has a header map; without a
      configured set, `Connection: close` (util.rs:150-157). */
  function GlobalHeaders(cfg: ServerConfig): map<string, string> {
    cfg.globalHeaders.GetOr(map["Connection" := "close"])
  }

  /** `h.extend(global)`: every global header keeps its global value, and a
      local header survives only where no global header has its name. */
  function MergeHeaders(local: map<string, string>, global: map<string, string>): (r: map<string, string>)
    ensures r.Keys == local.Keys + global.Keys
    ensures forall k :: k in global ==> r[k] == global[k]
    ensures forall k :: k in local && k !in global ==> r[k] == local[k]
  {
    local + global
  }

  function HeaderLine(name: string, value: string): string {
    name + ": " + value
  }

  /** One rendered line per map entry, in the map's iteration order `order`. */
  function Render<V>(m: map<string, V>, order: seq<string>, line: (string, V) -> string): (r: seq<string>)
    requires IsOrdering(order, m.Keys)
    ensures |r| == |m.Keys|
    ensures forall k :: k in m ==> line(k, m[k]) in r
    ensures forall i :: 0 <= i < |r| ==> exists k :: k in m && r[i] == line(k, m[k])
  {
    OrderingSize(order, m.Keys);
    var r := seq(|order|, i requires 0 <= i < |order| => line(order[i], m[order[i]]));
    forall k | k in m
      ensures line(k, m[k]) in r
    {
      var i :| 0 <= i < |order| && order[i] == k;
      assert r[i] == line(k, m[k]);
    }
    r
  }

  /** `{k}: {v}` for each header (util.rs:208-210, 298-300). */
  function HeaderLines(h: map<string, string>, order: seq<string>): seq<string>
    requires IsOrdering(order, h.Keys)
  {
    Render(h, order, HeaderLine)
  }

  /** How a cookie becomes its `Set-Cookie` line: `SetCookieLineAsWritten`
      for the server as written, `SetCookieLine` for the corrected one. */
  type CookieRenderer = (string, SetCookie) -> string

  /** One `Set-Cookie` line per cookie (util.rs:159-200). */
  function CookieLines(cookies: map<string, SetCookie>, order: seq<string>, cookieLine: CookieRenderer): seq<string>
    requires IsOrdering(order, cookies.Keys)
  {
    Render(cookies, order, cookieLine)
  }

  /** Renderers that agree on every entry render a map to the same lines. */
  lemma RenderAgrees<V>(m: map<string, V>, order: seq<string>, f: (string, V) -> string, g: (string, V) -> string)
    requires IsOrdering(order, m.Keys)
    requires forall k :: k in m ==> f(k, m[k]) == g(k, m[k])
    ensures Render(m, order, f) == Render(m, order, g)
  {
    var a, b := Render(m, order, f), Render(m, order, g);
    OrderingSize(order, m.Keys);
    forall i | 0 <= i < |order|
      ensures a[i] == b[i]
    {
      assert order[i] in m;
    }
  }

  /** An ordering lists each key once, so it is as long as the key set is large. */
  lemma OrderingSize<K>(order: seq<K>, keys: set<K>)
    requires IsOrdering(order, keys)
    ensures |order| == |keys|
    decreases |order|
  {
    if |order| > 0 {
      var k := order[|order| - 1];
      var init := order[..|order| - 1];
      assert forall i :: 0 <= i < |init| ==> init[i] != k;
      assert IsOrdering(init, keys - {k});
      OrderingSize(init, keys - {k});
    } else {
      assert forall k :: k in keys ==> k in order;
      assert keys == {};
    }
  }

  /** Status, Date and, when enabled, Server (util.rs:138-148). */
  function Preamble(status: nat, reason: string, cfg: ServerConfig, env: Environment): seq<string> {
    [StatusLine(status, reason), "Date: " + env.date]
    + (if cfg.enableServerHeader then ["Server: Drain " + env.version] else [])
  }

  /** The ETag and caching lines of a static resource whose ETag could be
      computed (util.rs:216-233). */
  function EtagLines(content: seq<byte>, rt: Option<ResourceType>, cfg: ServerConfig, env: Environment): (r: seq<string>)
    ensures |r| == 0 || |r| == 2
    ensures |r| == 2 <==> rt == Some(Static) && env.etag(content).Some?
  {
    if rt == Some(Static) then
      match env.etag(content)
      case Some(e) => ["ETag: " + e, "Cache-Control: max-age=" + Decimal(cfg.cacheMaxAge)]
      case None => []
    else []
  }

  /* ---------------------------------------------------------------------
     Content
     --------------------------------------------------------------------- */

  /** Valid UTF-8 content is stripped of surrounding ASCII whitespace; other
      bytes are sent as they are (util.rs:212-214, 265-267). */
  function PreparedContent(c: seq<byte>): (r: seq<byte>)
    ensures !IsUtf8(c) ==> r == c
    ensures IsUtf8(c) ==> IsUtf8(r)
    ensures IsUtf8(c) && |r| > 0 ==> !IsAsciiWhitespace(r[0]) && !IsAsciiWhitespace(r[|r| - 1])
  {
    if IsUtf8(c) then
      TrimAsciiKeepsUtf8(c);
      TrimAscii(c)
    else c
  }

  /** The body after the response's `Content-Encoding` header picked a
      compressor (util.rs:236-254): a failed compression, or any other value,
      leaves the bytes as they are. */
  function Compress(t: seq<byte>, encoding: Option<string>, env: Environment): (r: seq<byte>)
    ensures encoding != Some("gzip") && encoding != Some("br") ==> r == t
    ensures r == t || (encoding == Some("gzip") && env.gzip(t) == Some(r))
                   || (encoding == Some("br") && env.brotli(t) == Some(r))
  {
    if encoding == Some("gzip") then env.gzip(t).GetOr(t)
    else if encoding == Some("br") then env.brotli(t).GetOr(t)
    else t
  }

  function Lookup<K, V>(m: map<K, V>, k: K): (r: Option<V>)
    ensures r.Some? <==> k in m
    ensures r.Some? ==> r.value == m[k]
  {
    if k in m then Some(m[k]) else None
  }

  function ContentLengthLine(n: nat): string {
    "Content-Length: " + Decimal(n)
  }

  /* ---------------------------------------------------------------------
     The response
     --------------------------------------------------------------------- */

  /** The iteration orders of the maps that will be written. */
  predicate Enumerates(out: Outgoing, cfg: ServerConfig, headerOrder: seq<string>, cookieOrder: seq<string>) {
    && (out.headers.Some? ==> IsOrdering(headerOrder, MergeHeaders(out.headers.value, GlobalHeaders(cfg)).Keys))
    && (out.cookies.Some? ==> IsOrdering(cookieOrder, out.cookies.value.Keys))
  }

  /** `send_response` up to the write: the head lines and body bytes, or
      `InvalidStatusCode` for a code outside the table, before anything is
      written.  `headerOrder` and `cookieOrder` are the iteration orders of the
      merged header map and of the cookie map.  With `cookieLine` set to
      `SetCookieLineAsWritten` this is the server as written; with
      `SetCookieLine` it is the corrected server. */
  function SendResponse(out: Outgoing, cfg: ServerConfig, env: Environment,
                        headerOrder: seq<string>, cookieOrder: seq<string>, cookieLine: CookieRenderer): (r: Result<HttpResponse, ServerError>)
    requires Enumerates(out, cfg, headerOrder, cookieOrder)
    ensures r.Err? <==> ReasonPhrase(out.status).None?
    ensures r.Err? ==> r.error == InvalidStatusCode(out.status)
    ensures r.Ok? ==>
      && |r.value.lines| >= 2
      && r.value.lines[0] == StatusLine(out.status, ReasonPhrase(out.status).value)
      && r.value.lines[1] == "Date: " + env.date
    ensures r.Ok? && out.content.None? ==> r.value.body == []
    ensures r.Ok? && out.content.Some? ==>
      r.value.lines[|r.value.lines| - 1] == ContentLengthLine(|r.value.body|)
    ensures r.Ok? && out.cookies.Some? ==>
      forall n :: n in out.cookies.value ==> cookieLine(n, out.cookies.value[n]) in r.value.lines
    ensures r.Ok? && out.headers.Some? ==>
      var merged := MergeHeaders(out.headers.value, GlobalHeaders(cfg));
      forall k :: k in merged ==> HeaderLine(k, merged[k]) in r.value.lines
  {
    match ReasonPhrase(out.status)
    case None => Err(InvalidStatusCode(out.status))
    case Some(reason) =>
      var head := Preamble(out.status, reason, cfg, env)
        + (if out.cookies.Some? then CookieLines(out.cookies.value, cookieOrder, cookieLine) else []);
      match (out.headers, out.content)
      case (Some(h), Some(c)) =>
        var merged := MergeHeaders(h, GlobalHeaders(cfg));
        var t := PreparedContent(c);
        var body := Compress(t, Lookup(merged, "Content-Encoding"), env);
        Ok(HttpResponse(head + HeaderLines(merged, headerOrder) + EtagLines(t, out.resourceType, cfg, env)
                        + [ContentLengthLine(|body|)], body))
      case (None, Some(c)) =>
        var t := PreparedContent(c);
        Ok(HttpResponse(head + EtagLines(t, out.resourceType, cfg, env) + [ContentLengthLine(|t|)], t))
      case (Some(h), None) =>
        var merged := MergeHeaders(h, GlobalHeaders(cfg));
        Ok(HttpResponse(head + HeaderLines(merged, headerOrder), []))
      case (None, None) =>
        Ok(HttpResponse(head, []))
  }

  /* ---------------------------------------------------------------------
     The bytes on the wire
     --------------------------------------------------------------------- */

  /** Each line followed by CRLF. */
  function Terminated(lines: seq<string>): string
    decreases |lines|
  {
    if |lines| == 0 then "" else lines[0] + "\r\n" + Terminated(lines[1..])
  }

  /** The head: the terminated lines and the empty line that ends them. */
  function Head(r: HttpResponse): string {
    Terminated(r.lines) + "\r\n"
  }

  /** What `send_response` writes to the stream. */
  function Wire(r: HttpResponse): seq<byte> {
    Utf8Encode(Head(r)) + r.body
  }

  lemma {:induction false} TerminatedSnoc(lines: seq<string>, last: string)
    ensures Terminated(lines + [last]) == Terminated(lines) + last + "\r\n"
    decreases |lines|
  {
    if |lines| > 0 {
      assert (lines + [last])[1..] == lines[1..] + [last];
      TerminatedSnoc(lines[1..], last);
    } else {
      assert lines + [last] == [last];
    }
  }

  /** A largest `usize` value (64-bit targets). */
  const UsizeMax: nat := 0xFFFF_FFFF_FFFF_FFFF

  /** The head of a response with content ends with the `Content-Length` line
      and the empty line, and the number it gives is the number of body bytes
      that follow the head on the wire. */
  lemma ContentLengthFrames(out: Outgoing, cfg: ServerConfig, env: Environment,
                            headerOrder: seq<string>, cookieOrder: seq<string>, cookieLine: CookieRenderer)
    requires Enumerates(out, cfg, headerOrder, cookieOrder)
    requires SendResponse(out, cfg, env, headerOrder, cookieOrder, cookieLine).Ok?
    requires out.content.Some?
    requires |SendResponse(out, cfg, env, headerOrder, cookieOrder, cookieLine).value.body| <= UsizeMax
    ensures var r := SendResponse(out, cfg, env, headerOrder, cookieOrder, cookieLine).value;
      exists n: nat ::
        && EndsWith(Head(r), "Content-Length: " + Decimal(n) + "\r\n\r\n")
        && ParseUnsigned(Decimal(n), UsizeMax) == Some(n)
        && Wire(r)[|Utf8Encode(Head(r))|..] == r.body
        && |Wire(r)| - |Utf8Encode(Head(r))| == n
  {
    Framed(SendResponse(out, cfg, env, headerOrder, cookieOrder, cookieLine).value);
  }

  /** A response whose last line gives the length of its body is framed by
      that line. */
  lemma Framed(r: HttpResponse)
    requires |r.lines| > 0 && r.lines[|r.lines| - 1] == ContentLengthLine(|r.body|)
    requires |r.body| <= UsizeMax
    ensures exists n: nat ::
        && EndsWith(Head(r), "Content-Length: " + Decimal(n) + "\r\n\r\n")
        && ParseUnsigned(Decimal(n), UsizeMax) == Some(n)
        && Wire(r)[|Utf8Encode(Head(r))|..] == r.body
        && |Wire(r)| - |Utf8Encode(Head(r))| == n
  {
    var n := |r.body|;
    HeadEndsWithLength(r);
    ParseDecimal(n, UsizeMax);
  }

  /** The head of such a response ends with the length line and the empty line. */
  lemma HeadEndsWithLength(r: HttpResponse)
    requires |r.lines| > 0 && r.lines[|r.lines| - 1] == ContentLengthLine(|r.body|)
    ensures EndsWith(Head(r), "Content-Length: " + Decimal(|r.body|) + "\r\n\r\n")
  {
    var n := |r.body|;
    var init := r.lines[..|r.lines| - 1];
    assert r.lines == init + [ContentLengthLine(n)];
    TerminatedSnoc(init, ContentLengthLine(n));
    var suffix := "Content-Length: " + Decimal(n) + "\r\n\r\n";
    assert Head(r) == Terminated(init) + suffix;
    assert Head(r)[|Head(r)| - |suffix|..] == suffix;
  }

  /** A response without content ends its head with the empty line, carries
      nothing after it, and its head holds only the status, Date, Server,
      cookie and header lines. */
  lemma NoContentNoLength(out: Outgoing, cfg: ServerConfig, env: Environment,
                          headerOrder: seq<string>, cookieOrder: seq<string>, cookieLine: CookieRenderer)
    requires Enumerates(out, cfg, headerOrder, cookieOrder)
    requires SendResponse(out, cfg, env, headerOrder, cookieOrder, cookieLine).Ok?
    requires out.content.None?
    ensures var r := SendResponse(out, cfg, env, headerOrder, cookieOrder, cookieLine).value;
      && Wire(r) == Utf8Encode(Terminated(r.lines) + "\r\n")
      && |r.lines| == 2 + (if cfg.enableServerHeader then 1 else 0)
                        + (if out.cookies.Some? then |out.cookies.value.Keys| else 0)
                        + (if out.headers.Some? then |MergeHeaders(out.headers.value, GlobalHeaders(cfg)).Keys| else 0)
  {
  }

  /** Content sent without a header map carries neither local nor global
      headers: the head holds status, Date, Server, cookies, ETag lines and
      the `Content-Length` line only. */
  lemma BareContentHasNoHeaders(out: Outgoing, cfg: ServerConfig, env: Environment,
                                headerOrder: seq<string>, cookieOrder: seq<string>, cookieLine: CookieRenderer)
    requires Enumerates(out, cfg, headerOrder, cookieOrder)
    requires SendResponse(out, cfg, env, headerOrder, cookieOrder, cookieLine).Ok?
    requires out.headers.None? && out.content.Some?
    ensures var r := SendResponse(out, cfg, env, headerOrder, cookieOrder, cookieLine).value;
      && r.body == PreparedContent(out.content.value)
      && |r.lines| == 3 + (if cfg.enableServerHeader then 1 else 0)
                        + (if out.cookies.Some? then |out.cookies.value.Keys| else 0)
                        + |EtagLines(r.body, out.resourceType, cfg, env)|
  {
  }

  /** With a header map, a global header always wins over a local one of the
      same name, and without configured globals `Connection: close` is sent. */
  lemma GlobalHeadersWin(out: Outgoing, cfg: ServerConfig, env: Environment,
                         headerOrder: seq<string>, cookieOrder: seq<string>, cookieLine: CookieRenderer)
    requires Enumerates(out, cfg, headerOrder, cookieOrder)
    requires SendResponse(out, cfg, env, headerOrder, cookieOrder, cookieLine).Ok?
    requires out.headers.Some?
    ensures var r := SendResponse(out, cfg, env, headerOrder, cookieOrder, cookieLine).value;
      && (forall k :: k in GlobalHeaders(cfg) ==> HeaderLine(k, GlobalHeaders(cfg)[k]) in r.lines)
      && (cfg.globalHeaders.None? ==> HeaderLine("Connection", "close") in r.lines)
  {
    var r := SendResponse(out, cfg, env, headerOrder, cookieOrder, cookieLine).value;
    var global := GlobalHeaders(cfg);
    var merged := MergeHeaders(out.headers.value, global);
    assert forall k :: k in merged ==> HeaderLine(k, merged[k]) in r.lines;
    forall k | k in global
      ensures HeaderLine(k, global[k]) in r.lines
    {
      assert k in merged && merged[k] == global[k];
    }
    if cfg.globalHeaders.None? {
      assert "Connection" in global && global["Connection"] == "close";
    }
  }

  /** The body of a response with a header map is the prepared content,
      compressed only when the merged `Content-Encoding` is `gzip` or `br`
      and the compressor succeeds. */
  lemma BodyEncoding(out: Outgoing, cfg: ServerConfig, env: Environment,
                     headerOrder: seq<string>, cookieOrder: seq<string>, cookieLine: CookieRenderer)
    requires Enumerates(out, cfg, headerOrder, cookieOrder)
    requires SendResponse(out, cfg, env, headerOrder, cookieOrder, cookieLine).Ok?
    requires out.headers.Some? && out.content.Some?
    ensures var r := SendResponse(out, cfg, env, headerOrder, cookieOrder, cookieLine).value;
      var merged := MergeHeaders(out.headers.value, GlobalHeaders(cfg));
      var t := PreparedContent(out.content.value);
      && ("Content-Encoding" !in merged ==> r.body == t)
      && (Lookup(merged, "Content-Encoding") == Some("gzip") && env.gzip(t).Some? ==>
            r.body == env.gzip(t).value)
      && (Lookup(merged, "Content-Encoding") == Some("br") && env.brotli(t).Some? ==>
            r.body == env.brotli(t).value)
      && (env.gzip(t).None? && env.brotli(t).None? ==> r.body == t)
  {
  }

  /* ---------------------------------------------------------------------
     Cookie lines as written and corrected
     --------------------------------------------------------------------- */

  /** Without a secure cookie the server as written and the corrected server
      send the same response. */
  lemma CorrectionNeedsSecureCookie(out: Outgoing, cfg: ServerConfig, env: Environment,
                                    headerOrder: seq<string>, cookieOrder: seq<string>)
    requires Enumerates(out, cfg, headerOrder, cookieOrder)
    requires out.cookies.Some? ==> forall n :: n in out.cookies.value ==> !out.cookies.value[n].secure
    ensures SendResponse(out, cfg, env, headerOrder, cookieOrder, SetCookieLineAsWritten)
         == SendResponse(out, cfg, env, headerOrder, cookieOrder, SetCookieLine)
  {
    if out.cookies.Some? {
      var m := out.cookies.value;
      forall n | n in m
        ensures SetCookieLineAsWritten(n, m[n]) == SetCookieLine(n, m[n])
      {
        AsWrittenWithoutSecure(n, m[n]);
      }
      RenderAgrees(m, cookieOrder, SetCookieLineAsWritten, SetCookieLine);
    }
  }

  /** As written, a secure cookie `id` with value `v` goes out as
      `Set-Cookie: id=vSecure`, which a client reads as the value `vSecure`
      without the `Secure` flag. */
  lemma SecureCookieAsWritten(out: Outgoing, cfg: ServerConfig, env: Environment,
                              headerOrder: seq<string>, cookieOrder: seq<string>)
    requires Enumerates(out, cfg, headerOrder, cookieOrder)
    requires ReasonPhrase(out.status).Some?
    requires out.cookies.Some? && "id" in out.cookies.value
    requires out.cookies.value["id"] == Plain("v").(secure := true)
    ensures var r := SendResponse(out, cfg, env, headerOrder, cookieOrder, SetCookieLineAsWritten);
      && r.Ok?
      && "Set-Cookie: " + ("id" + "=" + "vSecure") in r.value.lines
      && ParseSetCookieLine("Set-Cookie: " + ("id" + "=" + "vSecure")) == Some(("id", Plain("vSecure")))
  {
    SecureRunsIntoPreviousField();
  }

  /** Corrected, every well-formed cookie has a line in the head that a
      client reads back as exactly that cookie. */
  lemma CorrectedCookiesReadBack(out: Outgoing, cfg: ServerConfig, env: Environment,
                                 headerOrder: seq<string>, cookieOrder: seq<string>)
    requires Enumerates(out, cfg, headerOrder, cookieOrder)
    requires SendResponse(out, cfg, env, headerOrder, cookieOrder, SetCookieLine).Ok?
    requires out.cookies.Some?
    requires forall n :: n in out.cookies.value ==> WellFormed(n, out.cookies.value[n])
    ensures var r := SendResponse(out, cfg, env, headerOrder, cookieOrder, SetCookieLine).value;
      forall n :: n in out.cookies.value ==>
        exists line :: line in r.lines && ParseSetCookieLine(line) == Some((n, out.cookies.value[n]))
  {
    var r := SendResponse(out, cfg, env, headerOrder, cookieOrder, SetCookieLine).value;
    var m := out.cookies.value;
    forall n | n in m
      ensures exists line :: line in r.lines && ParseSetCookieLine(line) == Some((n, m[n]))
    {
      CookieRoundTrip(n, m[n]);
      assert SetCookieLine(n, m[n]) in r.lines;
    }
  }
}
