# drain request and response core, in Dafny

This project models the request-handling core of drain, a small HTTP/1.1
web server written in Rust. It covers:

- **Request parsing** (`Requests`): the request-line match, the query
  string split, the header capture, and how the `Request` value is built.
  It also covers resource normalisation, index-file resolution, the
  `OPTIONS` answer, and access-control deny routing.
- **Body decoding** (`Receive`): what `receive_request` does once the head
  has been read:
  - the `Content-Length` check;
  - content decoding (gzip or brotli) against the configured encodings;
  - `application/x-www-form-urlencoded` and `multipart/form-data` bodies.
- **Response serialisation** (`Response`, `Cookies`): the status line, date,
  server, `Set-Cookie` and header lines; the etag lines; content trimming
  and compression; and `Content-Length` framing.
- **The CGI bridge** (`Cgi`):
  - the access-control answer;
  - index-file resolution;
  - the walk that finds `SCRIPT_FILENAME` and `PATH_INFO`;
  - the CGI environment;
  - exit-status handling;
  - reading the script's header block and `Status` field into a response.
- **The endpoint symbol** (`Endpoints`): `/` and `\` become `::`.
- **The 403 page** (`Forbidden`): the response the `forbidden` page sends.

Shared vocabulary lives in `Wrappers` (`Option`, `Result`), `Errors`
(`ServerError`), `Text` (splitting, trimming, ASCII case, decimal numerals),
`Bytes` (UTF-8 encoding, strict and lossy decoding) and `Paths`.

Everything the server gets from outside is a parameter:

- the file system is a pair of predicates;
- the CGI child process is a function from environment, file name and body
  to exit status and output;
- gzip, brotli, etag generation, MIME parsing and encoding choice are
  functions that may fail;
- the date is a string;
- the walk order of each `HashMap` is an explicit `order` sequence. This
  order must enumerate the map's keys, so every statement holds for every
  order the map could produce.

Some behaviour of the source is easy to miss, and the model keeps it:

- The request-line pattern stops the path at `?`, so `parse_from_string`
  never sees a query string and `params` is always `None`.
  `Requests.ParseFromString` states this.
- Global response headers overwrite a page's own headers of the same name
  (`Response.GlobalHeadersWin`).
- A body with `Content-Length: 0` is not decoded at all, whatever its
  content type.
- `SCRIPT_NAME` is the bare path segment of the script, without a leading
  slash.

Three places where the source does not do what it evidently means are under
"## Findings". For each one the model has both versions:

- **`Set-Cookie` line.** `Response.SendResponse` takes the cookie-line
  renderer as a parameter. `Cookies.SetCookieLineAsWritten` gives the server
  as written; `Cookies.SetCookieLine` gives the corrected one.
- **CGI `Status` field.** `Cgi.HandleCgi` takes an `OutputReading`.
  `AsWritten` keeps the panic on a short `Status` field; `Corrected` reads
  such output as a bad gateway.
- **Denied request.** `Requests.CheckAccessAsWritten` keeps serving the
  resource after sending the deny page. `Requests.CheckAccess` stops there.

## Model

| member | source | states |
|---|---|---|
| `Requests.MatchMethod` | src/requests.rs:60-66 | A match yields one of the nine method names and a path with no `?` and no whitespace |
| `Requests.MatchRequestLine` | src/requests.rs:60-66 | A line `METHOD path…` with a known method matches, giving exactly that method and that path |
| `Requests.CollectPairsSpec` | src/requests.rs:83-88 | Query pairs are accepted exactly when every piece has `=` and no key repeats; the map then holds every pair |
| `Requests.ParseQueryParams` | src/requests.rs:79-91 | A resource without `?` comes back unchanged with no parameters; the path returned is the text before the first `?`; parameters, when present, are non-empty |
| `Requests.QueryRoundTrip` | src/requests.rs:79-91 | Splitting `path?k1=v1&…` gives back the path and the map from each key to its value |
| `Requests.DuplicateQueryKeyRejected` | src/requests.rs:85-87 | A query naming the same key twice is an invalid request |
| `Requests.ParseHeaders` | src/requests.rs:93-104 | Header parsing never fails; every key is a lower-case name-character run, and every value is trimmed |
| `Requests.CapturesNamed` | src/requests.rs:94-101 | Every capture the header pattern makes starts with a run of name characters |
| `Requests.ParseHeadersOf` | src/requests.rs:97-103 | The header map holds the captures in order, with later duplicates overwriting earlier ones |
| `Requests.ParseHeadBlock` | src/requests.rs:93-104 | A request line followed by well-formed `Name: value` lines parses to the map of lower-cased names to values |
| `Requests.BuildRequest` | src/requests.rs:106-138 | Building succeeds exactly for the nine method names. It keeps resource, headers and, for GET, HEAD and POST, the parameters. TRACE keeps the raw request bytes. Bodies start absent |
| `Requests.ParseFromString` | src/requests.rs:59-77 | Parsing succeeds exactly when the request line matches. The request carries that method, the matched path and the parsed headers; GET, HEAD and POST parameters are always absent |
| `Requests.ParseRequestHead` | src/requests.rs:59-77 | A request head of known method, path, version and well-formed headers parses to that method, that path and those headers |
| `Requests.ParsedHead` | src/requests.rs:59-77 | The parsed request is assembled from the request-line match and the header map |
| `Requests.NormalizeResource` | src/requests.rs:384-386 | The result is the resource with all its leading slashes removed, and nothing else |
| `Requests.NormalizeIdempotent` | src/requests.rs:384-386 | Normalising twice is the same as normalising once |
| `Requests.ResolveResourcePath` | src/requests.rs:261-276 | A resource that is not a directory is served as is. For a directory: the first present index file, with the earlier ones absent; the listing flag is set exactly when no index file is present |
| `Requests.AllowedMethods` | src/requests.rs:375-378 | The list starts GET, HEAD, POST, OPTIONS and holds TRACE exactly when tracing is enabled |
| `Requests.OptionsAnswer` | src/requests.rs:374-382 | The OPTIONS answer is `204 No Content`, has no body, and carries an `Allow` line listing the allowed methods unless a global header replaces it |
| `Requests.DeniedPage` | src/requests.rs:197 | Deny action 404 selects the `not_found` page; every other deny action selects `forbidden` |
| `Requests.PageResponse` | src/requests.rs:225-259 | The page is sent with the deny status, its cookies and a dynamic resource type. It carries content exactly when the page produced content with a parseable type; otherwise the bad type header is removed. An encoding is chosen without request headers |
| `Requests.DenialAgreesWithForbiddenPage` | src/requests.rs:225-259 | The denial answer and the 403 page differ only in resource type when no body is sent. When a body is sent they agree whenever the encoding choice does not depend on request headers, which holds for the empty map the denial path passes |
| `Requests.CheckAccessAsWritten` | src/requests.rs:190-202 | Allowed or unguarded resources proceed with no denial. A denied one gets the deny page with the deny status and still proceeds whenever that status has a reason phrase |
| `Requests.DeniedResourceStillServed` | src/requests.rs:190-202 | A resource denied with deny action 403 gets a 403 denial, and handling then proceeds to serve it anyway |
| `Requests.CheckAccess` | src/requests.rs:190-202 | Handling proceeds exactly when access is allowed or unguarded; a denial is sent exactly when it does not, and it is the deny page |
| `Requests.CheckAccessSameDenial` | src/requests.rs:190-202 | The corrected check sends the same denial as the code as written |
| `Receive.DeclaredLength` | src/util.rs:358-372 | A missing `content-length` counts as 0; a parsed length never exceeds the `usize` maximum |
| `Receive.DecodeContent` | src/util.rs:387-416 | No encoding keeps the bytes. An encoding absent from the configured list is unsupported. Success means gzip or brotli decoded the bytes; the only errors are unsupported encoding and decompression failure |
| `Receive.ConfiguredEncoding` | src/util.rs:388-404 | A configured gzip or br encoding yields the decoder's output, or a decompression error when it fails |
| `Receive.OtherEncodingRefused` | src/util.rs:405-413 | Any encoding other than gzip and br is unsupported, whether or not it is configured |
| `Receive.UrlRoundTrip` | src/util.rs:431 | Percent-decoding a percent-encoded string gives the string back |
| `Receive.PercentDecodeEncode` | src/util.rs:431 | Percent-decoding the percent-encoding of any byte sequence gives it back |
| `Receive.CollectFields` | src/util.rs:426-438 | Collection only fails as a malformed payload; earlier fields are kept, and at most one field is added per piece |
| `Receive.UrlEncodedRoundTrip` | src/util.rs:423-439 | A form of distinct names with encoded values decodes to exactly those names, each mapped to its value |
| `Receive.DuplicateFieldRejected` | src/util.rs:435-437 | A form naming the same field twice is a malformed payload |
| `Receive.NoEqualsRejected` | src/util.rs:427-429 | A piece without `=` makes the whole form malformed |
| `Receive.EmptyPieceRejected` | src/util.rs:426-429 | An empty piece between `&&`, and an empty body, are malformed payloads |
| `Receive.PartHeaderLineMatches` | src/util.rs:46-48 | A line is a part header exactly when some split point gives an alphanumeric-and-dash name, `:`, an optional space and a non-empty value of allowed bytes |
| `Receive.PartHeaders` | src/util.rs:469-481 | Header collection stops at the first line that is not a part header, and fails only as a malformed payload |
| `Receive.ParsePart` | src/util.rs:461-510 | A parsed part has a `content-disposition` header and a single-line value; any failure is a malformed payload |
| `Receive.CollectParts` | src/util.rs:457-512 | Parts are collected into the map without dropping earlier ones; failure is a malformed payload |
| `Receive.MultipartValuesSingleLine` | src/util.rs:482-509 | Every multipart value holds no CRLF: only the first line of a part's data is kept |
| `Receive.CloseDelimiterStops` | src/util.rs:458-460 | A piece that trims to `--` ends collection and keeps what was collected |
| `Receive.MultipartRoundTrip` | src/util.rs:441-513 | A body built from plain fields and a boundary they do not contain parses to those fields, the later of two same-named ones winning |
| `Receive.EnterFieldsKeys` | src/util.rs:499 | The field map's names are the earlier names plus every field's name |
| `Receive.EnterFieldsLast` | src/util.rs:499 | A field's name maps to its own value when no later field reuses the name |
| `Receive.DecodeBody` | src/util.rs:420-519 | No content type is unsupported; a type that is neither urlencoded nor has a `;` is malformed. Urlencoded results need the urlencoded prefix; multipart results need a `multipart/form-data` type before the `;` |
| `Receive.OtherMediaTypeUnsupported` | src/util.rs:446-448 | A type with parameters whose name is not `multipart/form-data` is an unsupported media type |
| `Receive.BareJsonMalformed` | src/util.rs:442-444 | `application/json` without parameters is reported as a malformed payload, not as unsupported |
| `Receive.PrefixNeedsSemicolon` | src/util.rs:423 | `application/x-www-form-urlencoded` without a trailing `;` is not read as a form |
| `Receive.MultipartBodyDecodes` | src/util.rs:441-513 | A well-formed multipart body under its content type decodes to the form-data map of its fields |
| `Receive.WithBody` | src/util.rs:520 | Attaching a body keeps method, resource and headers and sets only the data |
| `Receive.ReceiveBody` | src/util.rs:354-522 | Requests without a body pass through. A bad length is an invalid request; a zero length keeps the request. A length over the limit is too large. A changed request has a valid length and the decoded body attached |
| `Receive.PostedFormRoundTrip` | src/util.rs:327-522 | A POST whose length is its form's size and whose type is urlencoded arrives with exactly the form's fields |
| `Receive.PlainBodyDecoded` | src/util.rs:354-522 | With no content encoding and a valid length, the request gets exactly the decoded body |
| `Response.ReasonPhrase` | src/util.rs:74-137 | Only codes from 100 to 511 have a reason phrase |
| `Response.StatusLineRoundTrip` | src/util.rs:138-139 | The status line reads back as its status and reason |
| `Response.MergeHeaders` | src/util.rs:204-206 | The merged headers hold both key sets; a global header's value wins over a local one |
| `Response.Render` | src/util.rs:208-210 | One line is rendered per map entry, and every line comes from an entry |
| `Response.EtagLines` | src/util.rs:216-232 | Etag lines are added, two of them, exactly for static content whose etag could be generated |
| `Response.PreparedContent` | src/util.rs:212-214 | UTF-8 content is trimmed of ASCII whitespace at both ends and stays UTF-8; other content is unchanged |
| `Response.Compress` | src/util.rs:236-254 | Only gzip and br compress; when compression fails, the content is sent uncompressed |
| `Response.SendResponse` | src/util.rs:64-325 | Serialisation fails exactly for a status with no reason phrase. The lines start with the status line and `Date`; every cookie and every merged header has its line. A response with content ends with the `Content-Length` line; one without content has an empty body |
| `Response.ContentLengthFrames` | src/util.rs:256-293 | The head ends in `Content-Length: n` and a blank line, and exactly n body bytes follow it |
| `Response.NoContentNoLength` | src/util.rs:295-310 | Without content the response is its lines and a blank line, with no `Content-Length`; the line count is fixed by the server flag, the cookies and the merged headers |
| `Response.BareContentHasNoHeaders` | src/util.rs:264-294 | Content without local headers sends no header lines, not even the global ones, only cookies, etag and length |
| `Response.GlobalHeadersWin` | src/util.rs:150-157 | Every global header is sent with its global value; with none configured, `Connection: close` is sent |
| `Response.BodyEncoding` | src/util.rs:236-254 | The body is compressed by the `Content-Encoding` the merged headers name, and is left as prepared otherwise |
| `Response.CorrectionNeedsSecureCookie` | src/util.rs:159-200 | Without secure cookies, the server as written and the corrected one send the same response |
| `Response.SecureCookieAsWritten` | src/util.rs:181-183 | As written, a secure cookie `id=v` goes out as `id=vSecure` and reads back with that value and no `Secure` flag |
| `Response.CorrectedCookiesReadBack` | src/util.rs:159-200 | With the corrected cookie lines, every well-formed cookie can be read back from some line of the response |
| `Cookies.SetCookieLine` | src/util.rs:159-200 | The corrected line is `Set-Cookie: name=value` followed by the attributes in the source's order |
| `Cookies.AsWrittenWithoutSecure` | src/util.rs:159-200 | For a cookie without `Secure`, the line as written equals the corrected line |
| `Cookies.SecureRunsIntoPreviousField` | src/util.rs:181-183 | As written, `Secure` is appended with no `; ` and runs into the value before it |
| `Cookies.BarePairRead` | src/util.rs:162 | A cookie with no attributes reads back as its name and value |
| `Cookies.CookieRoundTrip` | src/util.rs:159-200 | Every well-formed cookie line reads back as the cookie's name and all its attributes |
| `Forbidden.WithEncoding` | src/pages/forbidden.rs:49-52 | A chosen encoding adds `Content-Encoding` and `Vary: Accept-Encoding` and keeps every other header |
| `Forbidden.ForbiddenResponse` | src/pages/forbidden.rs:26-57 | The page is always 403 with its cookies. It carries content exactly when it has content with a parseable type; then it is dynamic and encoded by the request's headers. An unparseable type is dropped |
| `Forbidden.StatusIgnored` | src/pages/forbidden.rs:26-57 | The status the page's endpoint sets does not change the response |
| `Forbidden.ForbiddenOnTheWire` | src/pages/forbidden.rs:26-57 | Sending the forbidden page always succeeds with a `403 Forbidden` status line and every cookie's line |
| `Endpoints.EndpointSymbol` | src/endpoints.rs:64 | The symbol has no `/` or `\`, and is one character longer per separator replaced |
| `Endpoints.SymbolAppend` | src/endpoints.rs:64 | Replacement works character by character: the symbol of a concatenation is the concatenation of symbols |
| `Endpoints.SeparatorFreeUnchanged` | src/endpoints.rs:64 | A name without separators is its own symbol |
| `Endpoints.SymbolIdempotent` | src/endpoints.rs:64 | Replacing twice is the same as replacing once |
| `Endpoints.SegmentsJoined` | src/endpoints.rs:64 | Separator-free segments joined by `/` become the same segments joined by `::` |
| `Endpoints.ReplaceSeparators` | src/endpoints.rs:64 | The loop computes the endpoint symbol |
| `Cgi.DenyAnswerFor` | src/cgi.rs:48-67 | Without a library, the bare deny status is sent. With one, 403 gives the forbidden page and any other status the not-found page |
| `Cgi.DenyPagesCompared` | src/cgi.rs:48-67 | The CGI path and static request handling agree on 403 and 404, but for any other deny action CGI shows not-found where static handling shows forbidden |
| `Cgi.FirstIndexFile` | src/cgi.rs:79-84 | The index chosen is a present file and every earlier index is absent; none is chosen only when all are absent |
| `Cgi.FirstIndexAt` | src/cgi.rs:79-84 | The first present index file is the one chosen |
| `Cgi.ResolveIndex` | src/cgi.rs:77-115 | A non-directory runs as is. A directory runs its index file only when that is a file. The other outcomes are a listing (when allowed) or unavailable, with the endpoint flag set only for a library endpoint |
| `Cgi.IndexFileRuns` | src/cgi.rs:77-115 | A directory whose first present index is a regular file runs that index |
| `Cgi.FindScript` | src/cgi.rs:126-132 | The walk stops at the first path prefix that is a file, or at the end of the path; every shorter prefix is not a file |
| `Cgi.ExtraPath` | src/cgi.rs:135-138 | `PATH_INFO` is the remaining segments, each preceded by `/` |
| `Cgi.SplitSegments` | src/cgi.rs:125-138 | `SCRIPT_NAME` is the last walked segment. `SCRIPT_FILENAME` and `PATH_INFO` together give back the whole path; the script file is a file whenever segments remain |
| `Cgi.SlashedSplit` | src/cgi.rs:125-138 | Splitting the slashed path at any position and rejoining gives it back |
| `Cgi.SplitScript` | src/cgi.rs:125-138 | The split of a resource at `/`: script file plus extra path is the document root plus the whole resource |
| `Cgi.FixedEnv` | src/cgi.rs:143-162 | The fixed variables are exactly the CGI/1.1 names the server sets |
| `Cgi.HeaderVar` | src/cgi.rs:163-165 | A header's variable is `HTTP_` followed by the upper-cased, underscored name |
| `Cgi.BuildEnv` | src/cgi.rs:163-180 | No `HTTP_CONTENT_TYPE` or `HTTP_CONTENT_LENGTH` is passed. With a body, `CONTENT_TYPE` is its type and `CONTENT_LENGTH` its decimal length |
| `Cgi.WithContent` | src/cgi.rs:174-180 | The content variables are added exactly when there is a body, and every other variable is unchanged |
| `Cgi.BaseVariableKept` | src/cgi.rs:143-180 | A fixed variable that is not a header or content variable keeps its value |
| `Cgi.ContentVariables` | src/cgi.rs:174-180 | `CONTENT_TYPE` and `CONTENT_LENGTH` are present exactly when there is a body |
| `Cgi.HeaderVariablesPresent` | src/cgi.rs:163-165 | Each request header is passed under its `HTTP_` name with its value, the last one in walk order winning |
| `Cgi.EnvironmentNames` | src/cgi.rs:143-180 | Every variable is a fixed one, a header's variable or a content variable |
| `Cgi.ScriptEnv` | src/cgi.rs:143-180 | The script's environment never carries the content headers as `HTTP_` variables |
| `Cgi.FixedVariablesKept` | src/cgi.rs:143-162 | Every fixed variable reaches the script with its value |
| `Cgi.ScriptContentVariables` | src/cgi.rs:174-180 | The script gets content variables exactly when the request has a body |
| `Cgi.ExitOutcome` | src/cgi.rs:207-225 | A successful exit goes on to read the output. A failure with stderr output is a bad gateway; a failure without is unavailable, flagged as an endpoint exactly when it is a library endpoint |
| `Cgi.FieldPairs` | src/cgi.rs:231-238 | Header lines are read exactly when each has a colon, one pair per line |
| `Cgi.ParseHead` | src/cgi.rs:227-238 | Output without a blank line has no head; otherwise the content is everything after the first blank line |
| `Cgi.FieldLineReads` | src/cgi.rs:231-238 | A well-formed `name: value` line reads back as its lower-case name and trimmed value |
| `Cgi.OutputRoundTrip` | src/cgi.rs:227-238 | Script output made of header lines, a blank line and content parses to those headers and that content |
| `Cgi.ReadStatusAsWritten` | src/cgi.rs:242 | Slicing the first three bytes panics exactly when the value is shorter than three bytes or byte 3 is inside a character; a read code is at most 999 |
| `Cgi.ReadStatus` | src/cgi.rs:240-249 | The corrected reading agrees with the slice wherever the slice reads a code, and gives none elsewhere |
| `Cgi.ReadStatusOfNumeral` | src/cgi.rs:240-249 | A status field starting with a three-digit code reads as that code |
| `Cgi.ShortStatusPanics` | src/cgi.rs:242 | As written, a `Status` field shorter than three bytes panics; corrected, it is a bad gateway |
| `Cgi.TwoDigitStatus` | src/cgi.rs:242 | As written, `Status: 20` panics; corrected, it is a bad gateway |
| `Cgi.SplitCharacterPanics` | src/cgi.rs:242 | As written, a status whose third byte falls inside a character panics; corrected, it reads as none |
| `Cgi.ReplyOf` | src/cgi.rs:250-259 | The reply drops the `status` field, is 302 when `location` is set, and carries content only when there is some |
| `Cgi.ReadOutputAsWritten` | src/cgi.rs:227-259 | Output without a head is rejected; a panic happens only for a `Status` field the slice cannot cut |
| `Cgi.ReadOutput` | src/cgi.rs:227-259 | Output is served exactly when it has a head and any status field reads as a code. The reply's headers are the head without `status`; its status is 302 for `location`, else the code, else 200. Otherwise a bad gateway |
| `Cgi.ReadOutputCorrected` | src/cgi.rs:227-259 | The corrected reading never panics and serves exactly the output that is served |
| `Cgi.ReadingsAgree` | src/cgi.rs:227-259 | Wherever the code as written does not panic, it serves or rejects just as the corrected reading does |
| `Cgi.ReadOutputBy` | src/cgi.rs:227-259 | Only the reading as written panics, on exactly the output that makes the slice panic; otherwise both readings agree |
| `Cgi.PlainOutputServed` | src/cgi.rs:227-259 | Output without a `Status` field is served with its headers and content, as 302 with `location` and 200 otherwise |
| `Cgi.StatusOutputServed` | src/cgi.rs:240-259 | Output whose `Status` starts with a three-digit code is served with that code unless `location` is set |
| `Cgi.MalformedOutputRejected` | src/cgi.rs:227-238 | Output with no blank line, or one that starts with a blank line, is a bad gateway |
| `Cgi.Execute` | src/cgi.rs:182-262 | When the script exits with success, the reply is its output read as `ReadOutput` does. A panic happens only as written, and only for a short status. A failed exit is unavailable exactly when stderr is empty |
| `Cgi.RunScript` | src/cgi.rs:70-262 | A resource past access control is never reported denied. Listings happen only where allowed. A served reply is dynamic, has a known status and needs CGI configured. Errors are bad gateway or, as written only, a panic |
| `Cgi.HandleCgi` | src/cgi.rs:33-262 | A denied resource gets the deny answer, or an error only when a bare deny status has no reason phrase. Only a denied resource is reported denied. With the corrected reading every error is a bad gateway |

## Left out

- Sockets, the TLS layer, and reading lines from the stream are left out. The model starts from the head text and a body `buffer`.
- `Receive.ReceiveBody`: `read_buf` may return fewer bytes than `Content-Length` announces. The model takes whatever bytes were read as a free `buffer` parameter and does not relate its size to the declared length.
- `Receive.DeclaredLength`: the `usize` parse is modelled as a decimal numeral bounded by the 64-bit `usize` maximum. The model does not check that `status` fits a `u16`; statuses are natural numbers checked against the reason-phrase table.
- `HashMap` walk order is not modelled as a particular order. Every operation that walks a map takes an explicit `order` that enumerates its keys, and every statement holds for all such orders.
- `Text.ToLower` and `Text.ToUpper` fold only ASCII letters. Rust's `to_lowercase` and `to_uppercase` follow Unicode, so names with non-ASCII letters are not modelled faithfully.
- `Cgi.FieldPair`: lower-cases field names with ASCII folding only, where the source uses Unicode `to_lowercase`. Non-ASCII field names are not modelled.
- `Cgi.HandleCgi`: does not produce the I/O errors of spawning the script, writing its input and waiting for it (src/cgi.rs:188, 194, 202, 205). The script runner is a total function.
- `Cgi.HandleCgi`: does not model failures while sending the `index_of`, `forbidden` or `not_found` pages (src/cgi.rs:53-60, 88-89, 104-105). Those pages are reported as actions the caller takes.
- `Cgi.DenyAnswerFor`: only says which page is sent. What the `not_found` page itself sends is left out; that page is not part of this model.
- The `index_of` directory listing, file serving, cache headers and `handle_not_found` are left out. They are outside the modelled core.
- gzip and brotli compression and decompression, etag generation, MIME parsing and `get_response_encoding` are parameters, not models.
- The date comes from the clock and the server version from the build. Both are parameters (`env.date`, the server-line flag).
- Logging to stderr, `panic!` on stream errors and the `flush` result are left out. `Errors.ServerError.TaskPanicked` stands only for the panic of the status slice.
- Dynamic endpoint libraries are not modelled. A page's output is a parameter `page: string -> EndpointCall`.

## Findings

| source | as written | input that shows it | evidently intended | confidence | as-written member | corrected member |
|---|---|---|---|---|---|---|
| src/util.rs:181-183 | The `Secure` attribute is appended as `Secure`, without the `; ` separator every other attribute gets | a cookie `id` with value `v` and `secure` set is sent as `Set-Cookie: id=vSecure` and reads back as value `vSecure` without `Secure` | `; Secure`, so the cookie keeps its value and its flag | not executed | `Response.SecureCookieAsWritten` | `Response.CorrectedCookiesReadBack` |
| src/requests.rs:190-202 | After sending the deny page, `check_access_control` returns `Ok(())`, so the caller goes on to serve the denied resource | any resource the access-control list denies with deny action 403 | stop handling the request once the deny page is sent | not executed | `Requests.DeniedResourceStillServed` | `Requests.CheckAccessSameDenial` |
| src/cgi.rs:242 | The `Status` field is sliced `[..3]` without a length or character-boundary check | a script printing `Status: 20` and a blank line panics the connection's task | read such output as a bad gateway, like other malformed output | not executed | `Cgi.TwoDigitStatus` | `Cgi.ReadOutputCorrected` |
