/** The pure decisions of `handle_cgi` (src/cgi.rs), the bridge to a CGI/1.1
    script (RFC 3875): routing of a denied resource, the directory index, the
    split of the path into the script and the extra path, the meta-variables
    handed to the script, the reading of the script's exit, and the parsing
    of its output into the response.

    The file system, the configuration's predicates, the endpoint library and
    the script process itself are supplied from outside. */
module Cgi {
  import opened Wrappers
  import opened Errors
  import opened Text
  import opened Bytes
  import opened Paths
  import Response
  import Requests

  /** What `handle_cgi` reports to its caller (cgi.rs:26-31). */
  datatype CgiStatus =
    | Available
    | Unavailable(notFoundGuaranteed: bool, presentInEndpoints: bool)
    | Denied
    | IndexOf

  /** The configuration fields `handle_cgi` reads.  `showIndexOf` is the
      configuration's `should_display_index_of`; `hasLibrary` says whether an
      endpoint library is loaded; `cgiConfigured` whether a CGI server is
      configured; `chroot` whether the server runs in a changed root. */
  datatype CgiConfig = CgiConfig(
    accessControl: Option<Requests.AccessControl>,
    documentRoot: string,
    indices: seq<string>,
    showIndexOf: string -> bool,
    endpoints: Option<seq<string>>,
    hasLibrary: bool,
    cgiConfigured: bool,
    chroot: bool,
    serverName: string,
    serverPort: nat,
    version: string)

  /** The root the script paths start from: empty once the server has
      changed its root directory (cgi.rs:71-74). */
  function DocumentRoot(cfg: CgiConfig): string {
    if cfg.chroot then "" else cfg.documentRoot
  }

  /** The request body handed to the script (cgi.rs:21-24). */
  datatype CgiData = CgiData(data: seq<byte>, contentType: string)

  /* ---------------------------------------------------------------------
     Denied resources
     --------------------------------------------------------------------- */

  /** The answer to a denied resource (cgi.rs:48-67): with a library, the
      `forbidden` page for 403 and the `not_found` page for anything else;
      without one, a bare response with the deny status. */
  datatype DenyAnswer = ForbiddenPage | NotFoundPage | BareStatus(status: nat)

  function DenyAnswerFor(denyAction: nat, hasLibrary: bool): (r: DenyAnswer)
    ensures r.BareStatus? <==> !hasLibrary
    ensures r.BareStatus? ==> r.status == denyAction
    ensures r == ForbiddenPage <==> hasLibrary && denyAction == 403
  {
    if hasLibrary then (if denyAction == 403 then ForbiddenPage else NotFoundPage)
    else BareStatus(denyAction)
  }

  /** The page the request handlers render for the same denial
      (requests.rs:197) agrees with this one for 403 and 404 only: any other
      status renders `forbidden` there and `not_found` here. */
  lemma DenyPagesCompared(denyAction: nat)
    ensures DenyAnswerFor(denyAction, true) == ForbiddenPage <==> Requests.DeniedPage(denyAction) == "forbidden" && denyAction == 403
    ensures denyAction == 404 ==> DenyAnswerFor(denyAction, true) == NotFoundPage && Requests.DeniedPage(denyAction) == "not_found"
    ensures denyAction != 403 && denyAction != 404 ==>
      DenyAnswerFor(denyAction, true) == NotFoundPage && Requests.DeniedPage(denyAction) == "forbidden"
  {
  }

  /* ---------------------------------------------------------------------
     Directory index
     --------------------------------------------------------------------- */

  /** The position of the first index name that is a file inside `dir`. */
  function FirstIndexFile(indices: seq<string>, dir: string, isFile: string -> bool, from: nat): (r: Option<nat>)
    requires from <= |indices|
    ensures r.Some? ==> from <= r.value < |indices| && isFile(dir + "/" + indices[r.value])
    ensures r.Some? ==> forall j :: from <= j < r.value ==> !isFile(dir + "/" + indices[j])
    ensures r.None? ==> forall j :: from <= j < |indices| ==> !isFile(dir + "/" + indices[j])
    decreases |indices| - from
  {
    if from == |indices| then None
    else if isFile(dir + "/" + indices[from]) then Some(from)
    else FirstIndexFile(indices, dir, isFile, from + 1)
  }

  /** The search stops at the first file: an index name that is a file, with
      none before it, is the one found. */
  lemma {:induction false} FirstIndexAt(indices: seq<string>, dir: string, isFile: string -> bool, from: nat, k: nat)
    requires from <= k < |indices| && isFile(dir + "/" + indices[k])
    requires forall j :: from <= j < k ==> !isFile(dir + "/" + indices[j])
    ensures FirstIndexFile(indices, dir, isFile, from) == Some(k)
    decreases k - from
  {
    if from < k {
      FirstIndexAt(indices, dir, isFile, from + 1, k);
    }
  }

  /** Where the resource leads: a script to run, or a status reached before
      any script is run. */
  datatype Resolution = Script(resource: string) | Stop(status: CgiStatus)

  /** The listing or the not-found outcome for a directory without a script. */
  function ListingOr(cfg: CgiConfig, trimmed: string): CgiStatus {
    if cfg.showIndexOf(trimmed) then IndexOf else Unavailable(true, false)
  }

  /** The name tried in place of a directory: the resource without its
      trailing slashes, a slash and the first index name that is a file in
      the directory, or the empty name when none is. */
  function IndexCandidate(resource: string, cfg: CgiConfig, dir: string, isFile: string -> bool): string {
    match FirstIndexFile(cfg.indices, dir, isFile, 0)
    case Some(k) => TrimEndMatches(resource, '/') + "/" + cfg.indices[k]
    case None => ""
  }

  /** The directory step of `handle_cgi` (cgi.rs:77-115): a directory is
      replaced by its first index file; with none, or when that is not a
      file, the resource is a configured endpoint, a listing or not found. */
  function ResolveIndex(resource: string, cfg: CgiConfig, fs: FileSystem): (r: Resolution)
    ensures var dir := DocumentRoot(cfg) + "/" + TrimStartMatches(resource, '/');
      var candidate := IndexCandidate(resource, cfg, dir, fs.isFile);
      && (!fs.isDir(dir) ==> r == Script(resource))
      && (fs.isDir(dir) && r.Script? ==>
            && r.resource == candidate
            && fs.isFile(DocumentRoot(cfg) + "/" + candidate)
            && !fs.isDir(DocumentRoot(cfg) + "/" + candidate))
      && (r == Stop(Unavailable(false, true)) ==>
            fs.isDir(dir) && IsLibraryEndpoint(cfg, TrimStartMatches(candidate, '/')))
      && (r == Stop(IndexOf) ==> fs.isDir(dir) && cfg.showIndexOf(TrimStartMatches(resource, '/')))
      && (r.Stop? ==> r.status in {IndexOf, Unavailable(true, false), Unavailable(false, true)})
  {
    var trimmed := TrimStartMatches(resource, '/');
    var dir := DocumentRoot(cfg) + "/" + trimmed;
    if !fs.isDir(dir) then Script(resource)
    else
      var tmp := IndexCandidate(resource, cfg, dir, fs.isFile);
      var path := DocumentRoot(cfg) + "/" + tmp;
      if fs.isDir(path) then Stop(ListingOr(cfg, trimmed))
      else if !fs.isFile(path) then
        if IsLibraryEndpoint(cfg, TrimStartMatches(tmp, '/')) then Stop(Unavailable(false, true))
        else Stop(ListingOr(cfg, trimmed))
      else Script(tmp)
  }

  /** The first index file of a directory is run when it is a file and not a
      directory: the resource without its trailing slashes, a slash, and the
      index name. */
  lemma IndexFileRuns(resource: string, cfg: CgiConfig, fs: FileSystem, k: nat)
    requires var dir := DocumentRoot(cfg) + "/" + TrimStartMatches(resource, '/');
      && fs.isDir(dir)
      && k < |cfg.indices| && fs.isFile(dir + "/" + cfg.indices[k])
      && (forall j :: 0 <= j < k ==> !fs.isFile(dir + "/" + cfg.indices[j]))
    requires var path := DocumentRoot(cfg) + "/" + TrimEndMatches(resource, '/') + "/" + cfg.indices[k];
      fs.isFile(path) && !fs.isDir(path)
    ensures ResolveIndex(resource, cfg, fs) == Script(TrimEndMatches(resource, '/') + "/" + cfg.indices[k])
  {
    var dir := DocumentRoot(cfg) + "/" + TrimStartMatches(resource, '/');
    var tmp := TrimEndMatches(resource, '/') + "/" + cfg.indices[k];
    FirstIndexAt(cfg.indices, dir, fs.isFile, 0, k);
    AppendRegroup3(DocumentRoot(cfg) + "/", TrimEndMatches(resource, '/'), "/", cfg.indices[k]);
    IndexScript(resource, cfg, fs, tmp);
  }

  /** A directory whose candidate is a file and not a directory runs the
      candidate. */
  lemma IndexScript(resource: string, cfg: CgiConfig, fs: FileSystem, tmp: string)
    requires var dir := DocumentRoot(cfg) + "/" + TrimStartMatches(resource, '/');
      fs.isDir(dir) && IndexCandidate(resource, cfg, dir, fs.isFile) == tmp
    requires fs.isFile(DocumentRoot(cfg) + "/" + tmp) && !fs.isDir(DocumentRoot(cfg) + "/" + tmp)
    ensures ResolveIndex(resource, cfg, fs) == Script(tmp)
  {
  }

  /* ---------------------------------------------------------------------
     Script and extra path
     --------------------------------------------------------------------- */

  /** Each part preceded by a slash, in order. */
  function Slashed(parts: seq<string>): string
    decreases |parts|
  {
    if |parts| == 0 then "" else Slashed(parts[..|parts| - 1]) + "/" + parts[|parts| - 1]
  }

  /** The slashed form of a concatenation is the concatenation of the slashed
      forms. */
  lemma {:induction false} SlashedAppend(a: seq<string>, b: seq<string>)
    ensures Slashed(a + b) == Slashed(a) + Slashed(b)
    decreases |b|
  {
    if |b| == 0 {
      assert a + b == a;
    } else {
      var b' := b[..|b| - 1];
      assert (a + b)[..|a + b| - 1] == a + b';
      SlashedAppend(a, b');
    }
  }

  /** The split of the path (cgi.rs:125-138), on its `/`-separated segments:
      starting at the document root, the segments after the first are
      appended one at a time while the name built so far is not a file; the
      segments left over are the extra path.  The script name is the last
      segment taken (or the first, empty segment of an absolute path when
      none is). */
  method SplitSegments(root: string, segs: seq<string>, isFile: string -> bool)
    returns (scriptFilename: string, scriptName: string, pathInfo: string, filePos: nat)
    requires |segs| >= 1
    ensures 1 <= filePos <= |segs|
    ensures scriptName == segs[filePos - 1]
    ensures scriptFilename == root + Slashed(segs[1..filePos])
    ensures pathInfo == Slashed(segs[filePos..])
    ensures scriptFilename + pathInfo == root + Slashed(segs[1..])
    ensures forall k :: 1 <= k < filePos ==> !isFile(root + Slashed(segs[1..k]))
    ensures filePos < |segs| ==> isFile(scriptFilename)
  {
    scriptFilename, filePos := FindScript(root, segs, isFile);
    scriptName := segs[filePos - 1];
    pathInfo := ExtraPath(segs, filePos);
    SlashedSplit(segs, filePos);
  }

  /** Cutting the segments after the first at `p` cuts their slashed form. */
  lemma SlashedSplit(segs: seq<string>, p: nat)
    requires 1 <= p <= |segs|
    ensures Slashed(segs[1..p]) + Slashed(segs[p..]) == Slashed(segs[1..])
  {
    SlashedAppend(segs[1..p], segs[p..]);
    assert segs[1..p] + segs[p..] == segs[1..];
  }

  /** The first loop of the split: the shortest prefix of the segments after
      the first that names a file, or all of them. */
  method FindScript(root: string, segs: seq<string>, isFile: string -> bool)
    returns (scriptFilename: string, filePos: nat)
    requires |segs| >= 1
    ensures 1 <= filePos <= |segs|
    ensures scriptFilename == root + Slashed(segs[1..filePos])
    ensures forall k :: 1 <= k < filePos ==> !isFile(root + Slashed(segs[1..k]))
    ensures filePos < |segs| ==> isFile(scriptFilename)
  {
    scriptFilename := root;
    filePos := 1;
    while !isFile(scriptFilename) && filePos < |segs|
      invariant 1 <= filePos <= |segs|
      invariant scriptFilename == root + Slashed(segs[1..filePos])
      invariant forall k :: 1 <= k < filePos ==> !isFile(root + Slashed(segs[1..k]))
      decreases |segs| - filePos
    {
      assert segs[1..filePos + 1][..filePos - 1] == segs[1..filePos];
      scriptFilename := scriptFilename + "/" + segs[filePos];
      filePos := filePos + 1;
    }
  }

  /** The second loop of the split: the segments from `from` on, each
      preceded by a slash. */
  method ExtraPath(segs: seq<string>, from: nat) returns (pathInfo: string)
    requires from <= |segs|
    ensures pathInfo == Slashed(segs[from..])
  {
    pathInfo := "";
    var i := from;
    while i < |segs|
      invariant from <= i <= |segs|
      invariant pathInfo == Slashed(segs[from..i])
    {
      assert segs[from..i + 1][..i - from] == segs[from..i];
      pathInfo := pathInfo + "/" + segs[i];
      i := i + 1;
    }
    assert segs[from..i] == segs[from..];
  }

  /** The split applied to the resource's segments. */
  method SplitScript(root: string, resource: string, isFile: string -> bool)
    returns (scriptFilename: string, scriptName: string, pathInfo: string, filePos: nat)
    ensures var segs := Split(resource, '/');
      && 1 <= filePos <= |segs|
      && scriptName == segs[filePos - 1]
      && scriptFilename + pathInfo == root + Slashed(segs[1..])
      && pathInfo == Slashed(segs[filePos..])
      && (filePos < |segs| ==> isFile(scriptFilename))
  {
    scriptFilename, scriptName, pathInfo, filePos := SplitSegments(root, Split(resource, '/'), isFile);
  }

  /* ---------------------------------------------------------------------
     Meta-variables
     --------------------------------------------------------------------- */

  /** What the server knows about the connection. */
  datatype Connection = Connection(
    serverAddr: string, serverName: string, serverPort: nat, version: string,
    remoteAddr: string, remotePort: nat, https: bool)

  /** What the request and the split contribute. */
  datatype ScriptRequest = ScriptRequest(
    documentRoot: string, requestUri: string, requestMethod: string, queryString: string,
    scriptName: string, scriptFilename: string, pathInfo: string)

  /** The names set before the request headers are added (cgi.rs:143-161). */
  const FixedNames: set<string> := {
    "GATEWAY_INTERFACE", "SERVER_ADDR", "SERVER_NAME", "SERVER_PORT", "SERVER_PROTOCOL",
    "SERVER_SOFTWARE", "DOCUMENT_ROOT", "REQUEST_URI", "REQUEST_METHOD", "QUERY_STRING",
    "HTTPS", "REMOTE_ADDR", "REMOTE_PORT", "SCRIPT_NAME", "SCRIPT_FILENAME",
    "REDIRECT_STATUS", "PATH_INFO"}

  /** The seventeen fixed meta-variables. */
  function FixedEnv(c: Connection, q: ScriptRequest): (r: map<string, string>)
    ensures r.Keys == FixedNames
  {
    map[
      "GATEWAY_INTERFACE" := "CGI/1.1",
      "SERVER_ADDR" := c.serverAddr,
      "SERVER_NAME" := c.serverName,
      "SERVER_PORT" := Decimal(c.serverPort),
      "SERVER_PROTOCOL" := "HTTP/1.1",
      "SERVER_SOFTWARE" := "Drain " + c.version,
      "DOCUMENT_ROOT" := q.documentRoot,
      "REQUEST_URI" := q.requestUri,
      "REQUEST_METHOD" := q.requestMethod,
      "QUERY_STRING" := q.queryString,
      "HTTPS" := if c.https then "1" else "",
      "REMOTE_ADDR" := c.remoteAddr,
      "REMOTE_PORT" := Decimal(c.remotePort),
      "SCRIPT_NAME" := q.scriptName,
      "SCRIPT_FILENAME" := q.scriptFilename,
      "REDIRECT_STATUS" := "1",
      "PATH_INFO" := q.pathInfo]
  }

  /** `k.replace('-', "_")`. */
  function Underscored(k: string): (r: string)
    ensures |r| == |k|
    ensures forall i :: 0 <= i < |k| ==> r[i] == (if k[i] == '-' then '_' else k[i])
  {
    seq(|k|, i requires 0 <= i < |k| => if k[i] == '-' then '_' else k[i])
  }

  const HttpPrefix: string := "HTTP_"

  /** The shape of a header variable's name as far as it matters here: an
      `H` first and an underscore fifth. */
  predicate HasHttpPrefix(s: string) {
    |s| >= 5 && s[0] == 'H' && s[4] == '_'
  }

  /** The meta-variable a request header becomes: `HTTP_` and the name with
      dashes turned into underscores, upper-cased. */
  function HeaderVar(k: string): (r: string)
    ensures |r| == |k| + 5 && r[..5] == HttpPrefix && HasHttpPrefix(r)
  {
    var r := ToUpper(HttpPrefix + Underscored(k));
    assert forall i :: 0 <= i < 5 ==> r[i] == HttpPrefix[i];
    r
  }

  /** No fixed name, and neither content variable, looks like a header
      variable: `HTTPS` differs from one in its fifth character. */
  lemma ReservedNoPrefix(name: string)
    requires name in FixedNames || name == "CONTENT_TYPE" || name == "CONTENT_LENGTH"
    ensures !HasHttpPrefix(name)
  {
  }

  /** Hence no fixed name looks like a header variable. */
  lemma FixedNamesPlain()
    ensures forall name :: name in FixedNames ==> !HasHttpPrefix(name)
    ensures "CONTENT_TYPE" !in FixedNames && "CONTENT_LENGTH" !in FixedNames
  {
    forall name | name in FixedNames
      ensures !HasHttpPrefix(name)
    {
      ReservedNoPrefix(name);
    }
  }

  /** The header variables in the order the header map is walked. */
  function HeaderPairs(headers: map<string, string>, order: seq<string>): (r: seq<(string, string)>)
    requires forall i :: 0 <= i < |order| ==> order[i] in headers
    ensures |r| == |order|
    ensures forall i :: 0 <= i < |order| ==> r[i] == (HeaderVar(order[i]), headers[order[i]])
  {
    seq(|order|, i requires 0 <= i < |order| => (HeaderVar(order[i]), headers[order[i]]))
  }

  const ContentHeaderVars: set<string> := {"HTTP_CONTENT_TYPE", "HTTP_CONTENT_LENGTH"}

  /** The environment of the script (cgi.rs:143-180) built on the variables
      `base`: extended by one variable per request header in `order` (the
      walk of the header map, a later header overwriting an earlier one with
      the same variable), without the two variables RFC 3875 gives names of
      their own, and with `CONTENT_TYPE` and `CONTENT_LENGTH` when there is a
      body. */
  function BuildEnv(base: map<string, string>, headers: map<string, string>, order: seq<string>,
                    data: Option<CgiData>): (r: map<string, string>)
    requires IsOrdering(order, headers.Keys)
    ensures ContentHeaderVars !! r.Keys
    ensures data.Some? ==> && "CONTENT_TYPE" in r && r["CONTENT_TYPE"] == data.value.contentType
                           && "CONTENT_LENGTH" in r && r["CONTENT_LENGTH"] == Decimal(|data.value.data|)
  {
    WithContent((base + ToMap(HeaderPairs(headers, order))) - ContentHeaderVars, data)
  }

  /** `e` with the content variables of a body added. */
  function WithContent(e: map<string, string>, data: Option<CgiData>): (r: map<string, string>)
    ensures r.Keys == e.Keys + (if data.Some? then {"CONTENT_TYPE", "CONTENT_LENGTH"} else {})
    ensures forall k :: k in e && k != "CONTENT_TYPE" && k != "CONTENT_LENGTH" ==> r[k] == e[k]
    ensures data.Some? ==> r["CONTENT_TYPE"] == data.value.contentType
                           && r["CONTENT_LENGTH"] == Decimal(|data.value.data|)
  {
    match data
    case None => e
    case Some(d) => e["CONTENT_TYPE" := d.contentType]["CONTENT_LENGTH" := Decimal(|d.data|)]
  }

  /** A variable of `base` that is neither a header variable nor a content
      variable keeps its value. */
  lemma {:induction false} BaseVariableKept(base: map<string, string>, headers: map<string, string>, order: seq<string>,
                                            data: Option<CgiData>, name: string)
    requires IsOrdering(order, headers.Keys)
    requires name in base && !HasHttpPrefix(name) && name != "CONTENT_TYPE" && name != "CONTENT_LENGTH"
    ensures var r := BuildEnv(base, headers, order, data);
      name in r && r[name] == base[name]
  {
    PlainNameNotFromHeaders(headers, order, name);
    var e := (base + ToMap(HeaderPairs(headers, order))) - ContentHeaderVars;
    assert name in e && e[name] == base[name];
  }

  /** A name not shaped like a header variable is none of the header pairs'. */
  lemma PlainNameNotFromHeaders(headers: map<string, string>, order: seq<string>, name: string)
    requires forall j :: 0 <= j < |order| ==> order[j] in headers
    requires !HasHttpPrefix(name)
    ensures name !in ToMap(HeaderPairs(headers, order))
  {
    var ps := HeaderPairs(headers, order);
    assert forall j :: 0 <= j < |ps| ==> ps[j].0 != name;
  }

  /** The content variables are present exactly when there is a body, when
      the base has none of its own. */
  lemma {:induction false} ContentVariables(base: map<string, string>, headers: map<string, string>, order: seq<string>,
                                            data: Option<CgiData>)
    requires IsOrdering(order, headers.Keys)
    requires "CONTENT_TYPE" !in base && "CONTENT_LENGTH" !in base
    ensures var r := BuildEnv(base, headers, order, data);
      ("CONTENT_TYPE" in r <==> data.Some?) && ("CONTENT_LENGTH" in r <==> data.Some?)
  {
    var ps := HeaderPairs(headers, order);
    ReservedNoPrefix("CONTENT_TYPE");
    ReservedNoPrefix("CONTENT_LENGTH");
    assert "CONTENT_TYPE" !in ToMap(ps) && "CONTENT_LENGTH" !in ToMap(ps);
  }

  /** The header pairs map a header's variable to the value of the last
      header in the walk with that variable. */
  lemma HeaderPairWins(headers: map<string, string>, order: seq<string>, i: nat)
    requires forall j :: 0 <= j < |order| ==> order[j] in headers
    requires i < |order|
    requires forall j :: i < j < |order| ==> HeaderVar(order[j]) != HeaderVar(order[i])
    ensures var m := ToMap(HeaderPairs(headers, order));
      HeaderVar(order[i]) in m && m[HeaderVar(order[i])] == headers[order[i]]
  {
    var ps := HeaderPairs(headers, order);
    assert forall j :: i < j < |ps| ==> ps[j].0 != ps[i].0;
  }

  /** Every request header has its variable, except the two content headers,
      and its value is the one of the last header in the walk that maps to the
      same variable. */
  lemma {:induction false} HeaderVariablesPresent(base: map<string, string>, headers: map<string, string>, order: seq<string>,
                                                  data: Option<CgiData>, i: nat)
    requires IsOrdering(order, headers.Keys)
    requires i < |order| && HeaderVar(order[i]) !in ContentHeaderVars
    requires forall j :: i < j < |order| ==> HeaderVar(order[j]) != HeaderVar(order[i])
    ensures var r := BuildEnv(base, headers, order, data);
      HeaderVar(order[i]) in r && r[HeaderVar(order[i])] == headers[order[i]]
  {
    HeaderPairWins(headers, order, i);
    ReservedNoPrefix("CONTENT_TYPE");
    ReservedNoPrefix("CONTENT_LENGTH");
    var v := HeaderVar(order[i]);
    var m := ToMap(HeaderPairs(headers, order));
    var e := (base + m) - ContentHeaderVars;
    assert v in e && e[v] == headers[order[i]];
    assert v != "CONTENT_TYPE" && v != "CONTENT_LENGTH";
  }

  /** Nothing else is passed: each variable is from the base, a header's or a
      content variable. */
  lemma {:induction false} EnvironmentNames(base: map<string, string>, headers: map<string, string>, order: seq<string>,
                                            data: Option<CgiData>, name: string)
    requires IsOrdering(order, headers.Keys)
    requires name in BuildEnv(base, headers, order, data)
    ensures || name in base
            || (exists k :: k in headers && HeaderVar(k) == name)
            || (data.Some? && (name == "CONTENT_TYPE" || name == "CONTENT_LENGTH"))
  {
    var ps := HeaderPairs(headers, order);
    if name !in base && !(data.Some? && (name == "CONTENT_TYPE" || name == "CONTENT_LENGTH")) {
      var i :| 0 <= i < |ps| && ps[i].0 == name;
      assert order[i] in headers && HeaderVar(order[i]) == name;
    }
  }

  /** The environment `handle_cgi` passes, built on the fixed variables. */
  function ScriptEnv(c: Connection, q: ScriptRequest, headers: map<string, string>, order: seq<string>,
                     data: Option<CgiData>): (r: map<string, string>)
    requires IsOrdering(order, headers.Keys)
    ensures ContentHeaderVars !! r.Keys
  {
    BuildEnv(FixedEnv(c, q), headers, order, data)
  }

  /** Request headers never displace a fixed variable. */
  lemma FixedVariablesKept(c: Connection, q: ScriptRequest, headers: map<string, string>, order: seq<string>,
                           data: Option<CgiData>, name: string)
    requires IsOrdering(order, headers.Keys)
    requires name in FixedNames
    ensures var r := ScriptEnv(c, q, headers, order, data);
      name in r && r[name] == FixedEnv(c, q)[name]
  {
    FixedNamesPlain();
    BaseVariableKept(FixedEnv(c, q), headers, order, data, name);
  }

  /** The script sees the content variables exactly when there is a body. */
  lemma ScriptContentVariables(c: Connection, q: ScriptRequest, headers: map<string, string>, order: seq<string>,
                               data: Option<CgiData>)
    requires IsOrdering(order, headers.Keys)
    ensures var r := ScriptEnv(c, q, headers, order, data);
      ("CONTENT_TYPE" in r <==> data.Some?) && ("CONTENT_LENGTH" in r <==> data.Some?)
  {
    FixedNamesPlain();
    ContentVariables(FixedEnv(c, q), headers, order, data);
  }

  /* ---------------------------------------------------------------------
     Exit of the script
     --------------------------------------------------------------------- */

  /** The resource is a configured endpoint the library can serve. */
  predicate IsLibraryEndpoint(cfg: CgiConfig, name: string) {
    cfg.endpoints.Some? && cfg.hasLibrary && name in cfg.endpoints.value
  }

  /** What the exit of the script decides (cgi.rs:207-225): `None` when its
      output is to be read, otherwise the outcome of the request.  Output on
      the error stream of a script that succeeded is only logged. */
  function ExitOutcome(stderrEmpty: bool, success: bool, resourceTrimmed: string, cfg: CgiConfig):
    (r: Option<Result<CgiStatus, ServerError>>)
    ensures r.None? <==> success
    ensures !success && !stderrEmpty ==> r == Some(Err(BadGateway))
    ensures !success && stderrEmpty ==>
      r.Some? && r.value.Ok? && r.value.value.Unavailable?
      && (r.value.value.presentInEndpoints <==> IsLibraryEndpoint(cfg, resourceTrimmed))
      && (r.value.value.notFoundGuaranteed <==> !IsLibraryEndpoint(cfg, resourceTrimmed))
  {
    if success then None
    else if !stderrEmpty then Some(Err(BadGateway))
    else if IsLibraryEndpoint(cfg, resourceTrimmed) then Some(Ok(Unavailable(false, true)))
    else Some(Ok(Unavailable(true, false)))
  }

  /* ---------------------------------------------------------------------
     Output of the script
     --------------------------------------------------------------------- */

  /** The blank line that ends the script's header section. */
  const BlankLine: seq<byte> := [13, 10, 13, 10]

  const Colon: byte := 58

  /** A header line of the script's output as a name and a value: the text
      around the first colon, decoded lossily and trimmed, the name
      lower-cased (`ToLower` maps ASCII letters only, where the source
      applies the full Unicode mapping). */
  function FieldPair(field: seq<byte>): (string, string)
    requires Colon in field
  {
    var (name, value) := SplitOnce(field, Colon).value;
    (ToLower(Trim(Utf8DecodeLossy(name))), Trim(Utf8DecodeLossy(value)))
  }

  /** The header lines as pairs, or `None` when one has no colon
      (cgi.rs:231-238). */
  function FieldPairs(fields: seq<seq<byte>>): (r: Option<seq<(string, string)>>)
    ensures r.Some? <==> forall i :: 0 <= i < |fields| ==> Colon in fields[i]
    ensures r.Some? ==> |r.value| == |fields|
  {
    if forall i :: 0 <= i < |fields| ==> Colon in fields[i] then
      Some(seq(|fields|, i requires 0 <= i < |fields| && Colon in fields[i] => FieldPair(fields[i])))
    else None
  }

  /** The header section split off the output and read into a map (a later
      line overwrites an earlier one with the same name), with the content
      that follows the blank line; `None` when there is no blank line or a
      header line without a colon (cgi.rs:227-238). */
  function ParseHead(stdout: seq<byte>): (r: Option<(map<string, string>, seq<byte>)>)
    ensures !Contains(stdout, BlankLine) ==> r.None?
    ensures r.Some? ==> exists head :: stdout == head + BlankLine + r.value.1 && !Contains(head, BlankLine)
  {
    match SplitOnceAt(stdout, BlankLine)
    case None => None
    case Some((head, content)) =>
      match FieldPairs(SplitAt(head, CRLF))
      case None => None
      case Some(ps) => Some((ToMap(ps), content))
  }

  /** The reading of a `Status` header value (cgi.rs:240-249) as written:
      `&raw[0..3]` (cgi.rs:242) panics when the value is shorter than three
      bytes or when byte 3 falls inside a character; otherwise the three
      bytes are parsed as a `u16`. */
  datatype StatusRead = Code(n: nat) | Unparsable | SlicePanic

  function ReadStatusAsWritten(raw: string): (r: StatusRead)
    ensures r.SlicePanic? <==> !(3 <= |Utf8Encode(raw)| && IsCharBoundary(Utf8Encode(raw), 3))
    ensures r.Code? ==> r.n <= 999
  {
    var b := Utf8Encode(raw);
    if |b| < 3 || !IsCharBoundary(b, 3) then SlicePanic
    else
      match AsciiText(b[..3])
      case None => Unparsable
      case Some(p) =>
        match ParseUnsigned(p, 0xFFFF)
        case Some(n) => assert n <= 999 by { StatusDigits(p, n); } Code(n)
        case None => Unparsable
  }

  /** Three characters parse to at most 999. */
  lemma StatusDigits(p: string, n: nat)
    requires |p| == 3 && ParseUnsigned(p, 0xFFFF) == Some(n)
    ensures n <= 999
  {
    var digits := if p[0] == '+' then p[1..] else p;
    assert |digits| <= 3;
    DigitsBound(digits);
  }

  /** A string of at most three digits has a value below 1000. */
  lemma {:induction false} DigitsBound(s: string)
    requires AllDigits(s) && |s| <= 3
    ensures DigitsValue(s) < Pow10(|s|)
    decreases |s|
  {
    if |s| > 0 {
      assert AllDigits(s[..|s| - 1]);
      DigitsBound(s[..|s| - 1]);
    }
  }

  function Pow10(k: nat): nat {
    if k == 0 then 1 else 10 * Pow10(k - 1)
  }

  /** The reading the `else` branch evidently intends for every value that
      cannot be read: no status, so the script's answer is a bad gateway.
      Only the three leading bytes are read, as before. */
  function ReadStatus(raw: string): (r: Option<nat>)
    ensures ReadStatusAsWritten(raw).Code? ==> r == Some(ReadStatusAsWritten(raw).n)
    ensures !ReadStatusAsWritten(raw).Code? ==> r.None?
  {
    match ReadStatusAsWritten(raw)
    case Code(n) => Some(n)
    case _ => None
  }

  /** The response a parsed output becomes (cgi.rs:250-259): the `status`
      header removed, 302 whenever a `location` header is present, no
      content when the content is empty, always marked dynamic. */
  function ReplyOf(h: map<string, string>, content: seq<byte>, status: nat): (r: Response.Outgoing)
    ensures r.headers.Some? && r.headers.value == h - {"status"}
    ensures r.status == (if "location" in h then 302 else status)
    ensures r.content.None? <==> |content| == 0
    ensures r.content.Some? ==> r.content.value == content
    ensures r.cookies.None? && r.resourceType == Some(Response.Dynamic)
  {
    var headers := h - {"status"};
    Response.Outgoing(if "location" in headers then 302 else status, Some(headers),
                      if |content| == 0 then None else Some(content), None, Some(Response.Dynamic))
  }

  /** What reading the output comes to as written: a response, a bad
      gateway, or a panic of the connection's task. */
  datatype Reading = Reply(out: Response.Outgoing) | Rejected | Panicked

  function ReadOutputAsWritten(stdout: seq<byte>): (r: Reading)
    ensures ParseHead(stdout).None? ==> r == Rejected
    ensures r.Panicked? ==> var h := ParseHead(stdout).value.0;
      "status" in h && ReadStatusAsWritten(h["status"]) == SlicePanic
  {
    match ParseHead(stdout)
    case None => Rejected
    case Some((h, content)) =>
      if "status" in h then
        match ReadStatusAsWritten(h["status"])
        case Code(n) => Reply(ReplyOf(h, content, n))
        case Unparsable => Rejected
        case SlicePanic => Panicked
      else Reply(ReplyOf(h, content, 200))
  }

  /** The reading with the corrected status step: a malformed status is a bad
      gateway like any other malformed output. */
  function ReadOutput(stdout: seq<byte>): (r: Result<Response.Outgoing, ServerError>)
    ensures r.Err? ==> r.error == BadGateway
    ensures r.Ok? <==> (ParseHead(stdout).Some? &&
      var h := ParseHead(stdout).value.0; ("status" in h ==> ReadStatus(h["status"]).Some?))
    ensures r.Ok? ==> var (h, content) := ParseHead(stdout).value;
      && r.value.headers == Some(h - {"status"})
      && r.value.status == (if "location" in h then 302 else if "status" in h then ReadStatus(h["status"]).value else 200)
  {
    match ParseHead(stdout)
    case None => Err(BadGateway)
    case Some((h, content)) =>
      if "status" in h then
        match ReadStatus(h["status"])
        case Some(n) => Ok(ReplyOf(h, content, n))
        case None => Err(BadGateway)
      else Ok(ReplyOf(h, content, 200))
  }

  /** The corrected reading in the shape of the one as written: a reply or
      a rejection, never a panic. */
  function ReadOutputCorrected(stdout: seq<byte>): (r: Reading)
    ensures !r.Panicked?
    ensures r.Reply? <==> ReadOutput(stdout).Ok?
    ensures r.Reply? ==> r.out == ReadOutput(stdout).value
  {
    match ReadOutput(stdout)
    case Ok(out) => Reply(out)
    case Err(_) => Rejected
  }


  /** Where the reading as written does not panic, the corrected reading
      gives the same answer. */
  lemma ReadingsAgree(stdout: seq<byte>)
    requires !ReadOutputAsWritten(stdout).Panicked?
    ensures ReadOutputAsWritten(stdout).Reply? ==> ReadOutput(stdout) == Ok(ReadOutputAsWritten(stdout).out)
    ensures ReadOutputAsWritten(stdout).Rejected? ==> ReadOutput(stdout) == Err(BadGateway)
    ensures ReadOutputCorrected(stdout) == ReadOutputAsWritten(stdout)
  {
    match ParseHead(stdout)
    case None =>
    case Some((h, content)) =>
      if "status" in h {
        var st := ReadStatusAsWritten(h["status"]);
        assert st.Code? ==> ReadStatus(h["status"]) == Some(st.n);
      }
  }

  /** Which reading of the output `handle_cgi` uses: the one as written or
      the corrected one. */
  datatype OutputReading = AsWritten | Corrected

  function ReadOutputBy(how: OutputReading, stdout: seq<byte>): (r: Reading)
    ensures how == Corrected ==> !r.Panicked?
    ensures r.Panicked? <==> how == AsWritten && ReadOutputAsWritten(stdout).Panicked?
    ensures !r.Panicked? ==> r == ReadOutputCorrected(stdout)
  {
    if how == AsWritten then
      var r := ReadOutputAsWritten(stdout);
      if r.Panicked? then r
      else ReadingsAgree(stdout); r
    else ReadOutputCorrected(stdout)
  }

  /* ---------------------------------------------------------------------
     Well-formed script output
     --------------------------------------------------------------------- */

  /** A header line as a script writes it: name, colon, value. */
  function FieldLine(f: (string, string)): seq<byte> {
    Utf8Encode(f.0) + [Colon] + Utf8Encode(f.1)
  }

  /** The header lines of a list of fields. */
  function FieldLines(fs: seq<(string, string)>): (r: seq<seq<byte>>)
    ensures |r| == |fs| && forall i :: 0 <= i < |fs| ==> r[i] == FieldLine(fs[i])
  {
    seq(|fs|, i requires 0 <= i < |fs| => FieldLine(fs[i]))
  }

  /** A script's output: its header lines, the blank line, the content. */
  function ScriptOutput(fs: seq<(string, string)>, content: seq<byte>): seq<byte> {
    Join(FieldLines(fs), CRLF) + BlankLine + content
  }

  /** No colon and no carriage return in a field name; no carriage return
      in a value. */
  predicate PlainName(name: string) {
    forall i :: 0 <= i < |name| ==> name[i] != ':' && name[i] != '\r'
  }

  predicate PlainValue(value: string) {
    forall i :: 0 <= i < |value| ==> value[i] != '\r'
  }

  /** A field the reading gives back unchanged: plain text with nothing to
      trim, and a lower-case name. */
  predicate WellFormedField(f: (string, string)) {
    && PlainName(f.0) && PlainValue(f.1)
    && Trim(f.0) == f.0 && ToLower(f.0) == f.0 && Trim(f.1) == f.1
  }

  /** A header line of plain text splits at the colon after the name and
      holds no carriage return. */
  lemma FieldLineSplits(name: string, value: string)
    requires PlainName(name) && PlainValue(value)
    ensures 13 !in FieldLine((name, value))
    ensures SplitOnce(FieldLine((name, value)), Colon) == Some((Utf8Encode(name), Utf8Encode(value)))
  {
    AsciiByteAbsent(name, Colon);
    AsciiByteAbsent(name, 13);
    AsciiByteAbsent(value, 13);
    SplitOnceFirst(Utf8Encode(name), Colon, Utf8Encode(value));
  }

  /** A well-formed header line holds no carriage return and reads back as
      its field. */
  lemma FieldLineReads(f: (string, string))
    requires WellFormedField(f)
    ensures 13 !in FieldLine(f) && Colon in FieldLine(f)
    ensures FieldPair(FieldLine(f)) == f
  {
    FieldLineSplits(f.0, f.1);
    LossyOfEncode(f.0);
    LossyOfEncode(f.1);
  }

  /** Every carriage return is followed by one more byte and then by a byte
      that is not a carriage return. */
  predicate CrFollowed(h: seq<byte>) {
    forall j :: 0 <= j < |h| && h[j] == 13 ==> j + 2 < |h| && h[j + 2] != 13
  }

  /** In lines joined by CRLF, where no line is empty or holds a carriage
      return, every carriage return is followed by a line feed and then by
      something other than a carriage return. */
  lemma {:induction false} NoBlankLineInside(lines: seq<seq<byte>>)
    requires forall i :: 0 <= i < |lines| ==> |lines[i]| > 0 && 13 !in lines[i]
    ensures CrFollowed(Join(lines, CRLF))
    decreases |lines|
  {
    if |lines| > 1 {
      var rest := Join(lines[1..], CRLF);
      var h := lines[0] + CRLF + rest;
      assert Join(lines, CRLF) == h;
      NoBlankLineInside(lines[1..]);
      JoinStartsWith(lines[1..]);
      forall j | 0 <= j < |h| && h[j] == 13
        ensures j + 2 < |h| && h[j + 2] != 13
      {
        var n := |lines[0]|;
        if j == n {
          assert h[j + 2] == rest[0];
        } else if j > n + 1 {
          assert h[j] == rest[j - n - 2];
          assert h[j + 2] == rest[j - n];
        }
      }
    }
  }

  /** Joined lines start with the first line. */
  lemma JoinStartsWith(lines: seq<seq<byte>>)
    requires |lines| > 0
    ensures |Join(lines, CRLF)| >= |lines[0]| && Join(lines, CRLF)[..|lines[0]|] == lines[0]
  {
  }

  /** The output splits at the blank line after the header lines. */
  lemma HeadSplits(lines: seq<seq<byte>>, content: seq<byte>)
    requires forall i :: 0 <= i < |lines| ==> |lines[i]| > 0 && 13 !in lines[i]
    ensures SplitOnceAt(Join(lines, CRLF) + BlankLine + content, BlankLine) == Some((Join(lines, CRLF), content))
  {
    var h := Join(lines, CRLF);
    var s := h + BlankLine + content;
    NoBlankLineInside(lines);
    forall j: nat | j < |h|
      ensures !IsAt(s, BlankLine, j)
    {
      if j + 4 <= |s| && s[j] == 13 {
        assert h[j] == 13;
        assert j + 2 < |h|;
        assert s[j + 2] == h[j + 2];
        assert s[j..j + 4][2] == s[j + 2];
      } else if j + 4 <= |s| {
        assert s[j..j + 4][0] == s[j];
      }
    }
    SplitOnceAtFirst(h, BlankLine, content);
  }

  /** Reading undoes writing: the output of well-formed fields reads back as
      the map of those fields, a later field winning over an earlier one with
      the same name, and the content after the blank line. */
  lemma OutputRoundTrip(fs: seq<(string, string)>, content: seq<byte>)
    requires |fs| >= 1
    requires forall i :: 0 <= i < |fs| ==> WellFormedField(fs[i])
    ensures ParseHead(ScriptOutput(fs, content)) == Some((ToMap(fs), content))
  {
    var lines := FieldLines(fs);
    forall i | 0 <= i < |lines|
      ensures |lines[i]| > 0 && 13 !in lines[i] && Colon in lines[i] && FieldPair(lines[i]) == fs[i]
    {
      FieldLineReads(fs[i]);
    }
    HeadSplits(lines, content);
    SplitAtJoin(lines, CRLF);
    FieldPairsOfLines(fs);
  }

  /** The header lines of well-formed fields read back as the fields. */
  lemma FieldPairsOfLines(fs: seq<(string, string)>)
    requires forall i :: 0 <= i < |fs| ==> WellFormedField(fs[i])
    ensures FieldPairs(FieldLines(fs)) == Some(fs)
  {
    var lines := FieldLines(fs);
    forall i | 0 <= i < |lines|
      ensures Colon in lines[i] && FieldPair(lines[i]) == fs[i]
    {
      FieldLineReads(fs[i]);
    }
    var ps := seq(|lines|, i requires 0 <= i < |lines| && Colon in lines[i] => FieldPair(lines[i]));
    assert FieldPairs(lines) == Some(ps);
    assert forall i :: 0 <= i < |fs| ==> ps[i] == fs[i];
    assert ps == fs;
  }

  /** Output without a `Status` header is answered with 200, or with 302
      when it names a `location`. */
  lemma PlainOutputServed(fs: seq<(string, string)>, content: seq<byte>)
    requires |fs| >= 1
    requires forall i :: 0 <= i < |fs| ==> WellFormedField(fs[i]) && fs[i].0 != "status"
    ensures ReadOutput(ScriptOutput(fs, content)) == Ok(ReplyOf(ToMap(fs), content, 200))
    ensures ReadOutput(ScriptOutput(fs, content)).value.status == (if "location" in ToMap(fs) then 302 else 200)
  {
    OutputRoundTrip(fs, content);
  }

  /** Output whose header section is empty, or that has no blank line at
      all, is a bad gateway. */
  lemma MalformedOutputRejected(stdout: seq<byte>, content: seq<byte>)
    ensures ReadOutput(BlankLine + content) == Err(BadGateway)
    ensures !Contains(stdout, BlankLine) ==> ReadOutput(stdout) == Err(BadGateway)
  {
    var none: seq<byte> := [];
    assert none + BlankLine + content == BlankLine + content;
    SplitOnceAtFirst(none, BlankLine, content);
    SplitAtAbsent(none, CRLF);
  }

  /* ---------------------------------------------------------------------
     The status a script sets
     --------------------------------------------------------------------- */

  /** A numeral with a leading character that is not part of a multi-byte
      sequence after it. */
  lemma ThreeDigitEncoding(n: nat, rest: string)
    requires 100 <= n <= 999
    requires |rest| == 0 || rest[0] as int < 0x80
    ensures var b := Utf8Encode(Decimal(n) + rest);
      && 3 <= |b| && IsCharBoundary(b, 3) && b[..3] == Utf8Encode(Decimal(n))
      && forall i :: 0 <= i < 3 ==> b[i] < 0x80
  {
    var d := Decimal(n);
    ThreeDigits(n);
    EncodeAscii(d);
    Utf8EncodeAppend(d, rest);
    if |rest| > 0 {
      assert Utf8Encode(rest) == EncodeChar(rest[0]) + Utf8Encode(rest[1..]);
    }
  }

  /** A number from 100 to 999 has three ASCII digits. */
  lemma ThreeDigits(n: nat)
    requires 100 <= n <= 999
    ensures |Decimal(n)| == 3 && IsAscii(Decimal(n))
  {
    var d := Decimal(n);
    assert d == Decimal(n / 10) + [DigitChar(n % 10)];
    assert Decimal(n / 10) == Decimal(n / 100) + [DigitChar((n / 10) % 10)];
    assert forall i :: 0 <= i < |d| ==> IsDigit(d[i]);
  }

  /** A `Status` value that starts with a three-digit code reads as that
      code, whatever reason phrase follows it. */
  lemma ReadStatusOfNumeral(n: nat, rest: string)
    requires 100 <= n <= 999
    requires |rest| == 0 || rest[0] as int < 0x80
    ensures ReadStatus(Decimal(n) + rest) == Some(n)
  {
    var b := Utf8Encode(Decimal(n) + rest);
    ThreeDigitEncoding(n, rest);
    assert forall i :: 0 <= i < |b[..3]| ==> b[..3][i] < 0x80;
    var p := AsciiText(b[..3]).value;
    DecodeEncode(p);
    DecodeEncode(Decimal(n));
    assert p == Decimal(n);
    ParseDecimal(n, 0xFFFF);
  }

  /** A script that sets its status is answered with it, unless it also
      names a `location`. */
  lemma StatusOutputServed(fs: seq<(string, string)>, content: seq<byte>, n: nat, rest: string)
    requires |fs| >= 1
    requires forall i :: 0 <= i < |fs| ==> WellFormedField(fs[i])
    requires 100 <= n <= 999 && (|rest| == 0 || rest[0] as int < 0x80)
    requires "status" in ToMap(fs) && ToMap(fs)["status"] == Decimal(n) + rest
    ensures ReadOutput(ScriptOutput(fs, content)) == Ok(ReplyOf(ToMap(fs), content, n))
    ensures "location" !in ToMap(fs) ==> ReadOutput(ScriptOutput(fs, content)).value.status == n
  {
    OutputRoundTrip(fs, content);
    ReadStatusOfNumeral(n, rest);
    ReadWithStatus(ScriptOutput(fs, content), ToMap(fs), content, n);
  }

  /** Reading an output whose header section gives a readable status. */
  lemma ReadWithStatus(stdout: seq<byte>, h: map<string, string>, content: seq<byte>, n: nat)
    requires ParseHead(stdout) == Some((h, content))
    requires "status" in h && ReadStatus(h["status"]) == Some(n)
    ensures ReadOutput(stdout) == Ok(ReplyOf(h, content, n))
  {
  }

  /** As written, a `Status` header shorter than three bytes panics the
      connection's task instead of giving a bad gateway; the corrected
      reading rejects it. */
  lemma ShortStatusPanics(v: string, content: seq<byte>)
    requires PlainValue(v) && Trim(v) == v && |Utf8Encode(v)| < 3
    ensures ReadOutputAsWritten(ScriptOutput([("status", v)], content)) == Panicked
    ensures ReadOutput(ScriptOutput([("status", v)], content)) == Err(BadGateway)
  {
    StatusOnlyHead(v, content);
    assert ReadStatusAsWritten(v) == SlicePanic;
    assert ReadStatus(v).None?;
  }

  /** The head of an output whose only field is a plain `Status`. */
  lemma StatusOnlyHead(v: string, content: seq<byte>)
    requires PlainValue(v) && Trim(v) == v
    ensures ParseHead(ScriptOutput([("status", v)], content)) == Some((map["status" := v], content))
  {
    var f := ("status", v);
    StatusNameWellFormed();
    OutputRoundTrip([f], content);
    assert ToMap([f]) == map["status" := v];
  }

  /** `status` is a plain, trimmed, lower-case name. */
  lemma StatusNameWellFormed()
    ensures PlainName("status") && Trim("status") == "status" && ToLower("status") == "status"
  {
    LowerWordWellFormed("status");
  }

  /** A word of lower-case letters is a plain, trimmed, lower-case name. */
  lemma LowerWordWellFormed(s: string)
    requires |s| > 0 && forall i :: 0 <= i < |s| ==> 'a' <= s[i] <= 'z'
    ensures PlainName(s) && Trim(s) == s && ToLower(s) == s
  {
    TrimKept(s);
    ToLowerKept(s);
  }

  /** A script writing `Status: 20` panics the task as written and gets a
      bad gateway once corrected. */
  lemma TwoDigitStatus(content: seq<byte>)
    ensures ReadOutputAsWritten(ScriptOutput([("status", "20")], content)) == Panicked
    ensures ReadOutput(ScriptOutput([("status", "20")], content)) == Err(BadGateway)
  {
    DigitRunPlain("20");
    ShortStatusPanics("20", content);
  }

  /** A run of digits is a plain value with nothing to trim, one byte per
      digit. */
  lemma DigitRunPlain(s: string)
    requires |s| > 0 && forall i :: 0 <= i < |s| ==> '0' <= s[i] <= '9'
    ensures PlainValue(s) && Trim(s) == s && |Utf8Encode(s)| == |s|
  {
    TrimKept(s);
    EncodeAscii(s);
  }

  /** As written, a three-byte cut inside a character panics as well: `12é`
      is four bytes, the fourth a continuation byte. */
  lemma SplitCharacterPanics()
    ensures ReadStatusAsWritten("12\U{e9}") == SlicePanic
    ensures ReadStatus("12\U{e9}") == None
  {
    var s := "12\U{e9}";
    assert Utf8Encode(s) == EncodeChar('1') + EncodeChar('2') + EncodeChar('\U{e9}');
    assert EncodeChar('\U{e9}') == [0xC3, 0xA9];
  }

  /* ---------------------------------------------------------------------
     The whole exchange
     --------------------------------------------------------------------- */

  /** The arguments of `handle_cgi` that come from the request and the
      connection (cgi.rs:33-42); `headerOrder` is the walk of the header
      map. */
  datatype CgiRequest = CgiRequest(
    headers: map<string, string>, headerOrder: seq<string>, resource: string,
    requestMethod: string, queryString: string, data: Option<CgiData>,
    localIp: string, remoteIp: string, remotePort: nat, https: bool)

  /** What running the script leaves: its output, whether it wrote to its
      error stream, whether it exited successfully. */
  datatype ProcessResult = ProcessResult(stdout: seq<byte>, stderrEmpty: bool, success: bool)

  /** The CGI server run on a script with an environment and a body. */
  type ScriptRunner = (map<string, string>, string, Option<CgiData>) -> ProcessResult

  /** What the caller is left to do or has been sent: a denial page or bare
      status, a directory listing, the script's response, or nothing. */
  datatype CgiAction = DenyWith(answer: DenyAnswer) | ListDirectory | Respond(out: Response.Outgoing) | NoAction

  /** The access control of the configuration refuses the resource. */
  predicate Denies(cfg: CgiConfig, trimmed: string) {
    cfg.accessControl.Some? && !cfg.accessControl.value.isAllowed(trimmed)
  }

  /** `handle_cgi` (cgi.rs:33-262) over the pieces above: denial, the
      directory step, the split, the environment, the run, its exit and its
      output.  A response whose status has no reason phrase cannot be sent
      and is a bad gateway.  With `how == AsWritten` this is the handler as
      written, whose task panics on a short `Status` value; with
      `how == Corrected` it is the corrected handler, whose only error is a
      bad gateway. */
  method HandleCgi(req: CgiRequest, cfg: CgiConfig, fs: FileSystem, run: ScriptRunner, how: OutputReading)
    returns (r: Result<(CgiStatus, CgiAction), ServerError>)
    requires IsOrdering(req.headerOrder, req.headers.Keys)
    ensures r.Err? ==> r.error == BadGateway || r.error == TaskPanicked
    ensures r.Err? && r.error == TaskPanicked ==> how == AsWritten
    ensures how == Corrected && r.Err? ==> r.error == BadGateway
    ensures var trimmed := TrimStartMatches(req.resource, '/');
      Denies(cfg, trimmed) ==>
        var answer := DenyAnswerFor(cfg.accessControl.value.denyAction, cfg.hasLibrary);
        && (r.Err? <==> answer.BareStatus? && Response.ReasonPhrase(answer.status).None?)
        && (r.Ok? ==> r.value == (Denied, DenyWith(answer)))
    ensures r.Ok? && r.value.0 == Denied ==> Denies(cfg, TrimStartMatches(req.resource, '/'))
    ensures r.Ok? && r.value.0 == Available ==>
      && r.value.1.Respond? && Response.ReasonPhrase(r.value.1.out.status).Some?
      && r.value.1.out.resourceType == Some(Response.Dynamic)
      && cfg.cgiConfigured
    ensures r.Ok? && r.value.0 == IndexOf ==>
      r.value.1 == ListDirectory && cfg.showIndexOf(TrimStartMatches(req.resource, '/'))
  {
    var trimmed := TrimStartMatches(req.resource, '/');
    if Denies(cfg, trimmed) {
      var answer := DenyAnswerFor(cfg.accessControl.value.denyAction, cfg.hasLibrary);
      if answer.BareStatus? && Response.ReasonPhrase(answer.status).None? {
        return Err(BadGateway);
      }
      return Ok((Denied, DenyWith(answer)));
    }
    r := RunScript(req, cfg, fs, run, how);
  }

  /** The part of `handle_cgi` after the access check: the directory step,
      the split, the environment, the run, its exit and its output. */
  method RunScript(req: CgiRequest, cfg: CgiConfig, fs: FileSystem, run: ScriptRunner, how: OutputReading)
    returns (r: Result<(CgiStatus, CgiAction), ServerError>)
    requires IsOrdering(req.headerOrder, req.headers.Keys)
    ensures r.Err? ==> r.error == BadGateway || r.error == TaskPanicked
    ensures r.Err? && r.error == TaskPanicked ==> how == AsWritten
    ensures r.Ok? ==> r.value.0 != Denied
    ensures r.Ok? && r.value.0 == Available ==>
      && r.value.1.Respond? && Response.ReasonPhrase(r.value.1.out.status).Some?
      && r.value.1.out.resourceType == Some(Response.Dynamic)
      && cfg.cgiConfigured
    ensures r.Ok? && r.value.0 == IndexOf ==>
      r.value.1 == ListDirectory && cfg.showIndexOf(TrimStartMatches(req.resource, '/'))
  {
    var trimmed := TrimStartMatches(req.resource, '/');
    var root := DocumentRoot(cfg);
    var resolved := ResolveIndex(req.resource, cfg, fs);
    if resolved.Stop? {
      return Ok((resolved.status, if resolved.status == IndexOf then ListDirectory else NoAction));
    }
    var resource := resolved.resource;
    var filename, name, pathInfo, _ := SplitScript(root, resource, fs.isFile);
    var conn := Connection(req.localIp, cfg.serverName, cfg.serverPort, cfg.version,
                           req.remoteIp, req.remotePort, req.https);
    var q := ScriptRequest(root, resource, req.requestMethod, req.queryString, name, filename, pathInfo);
    var env := ScriptEnv(conn, q, req.headers, req.headerOrder, req.data);
    r := Execute(cfg, run, how, env, filename, req.data, trimmed);
  }

  /** Running the script with its environment, then its exit and its output
      (cgi.rs:182-262); the script is run only when a CGI interpreter is
      configured. */
  method Execute(cfg: CgiConfig, run: ScriptRunner, how: OutputReading, env: map<string, string>, filename: string,
                 data: Option<CgiData>, trimmed: string)
    returns (r: Result<(CgiStatus, CgiAction), ServerError>)
    ensures r.Err? ==> r.error == BadGateway || r.error == TaskPanicked
    ensures r.Err? && r.error == TaskPanicked <==>
      && how == AsWritten && cfg.cgiConfigured && run(env, filename, data).success
      && ReadOutputAsWritten(run(env, filename, data).stdout).Panicked?
    ensures r.Ok? ==> r.value.0 != Denied && r.value.0 != IndexOf
    ensures r.Ok? && r.value.0 == Available ==>
      && r.value.1.Respond? && Response.ReasonPhrase(r.value.1.out.status).Some?
      && r.value.1.out.resourceType == Some(Response.Dynamic)
      && cfg.cgiConfigured
    ensures r.Ok? && r.value.0 == Available ==>
      var p := run(env, filename, data);
      p.success && ReadOutput(p.stdout) == Ok(r.value.1.out)
    ensures cfg.cgiConfigured && !run(env, filename, data).success ==>
      var p := run(env, filename, data);
      (r.Ok? <==> p.stderrEmpty) && (r.Ok? ==> r.value.0.Unavailable? && r.value.1 == NoAction)
  {
    if !cfg.cgiConfigured {
      return Err(BadGateway);
    }
    var p := run(env, filename, data);
    var exit := ExitOutcome(p.stderrEmpty, p.success, trimmed, cfg);
    if exit.Some? {
      match exit.value
      case Ok(status) => return Ok((status, NoAction));
      case Err(e) => return Err(e);
    }
    var reading := ReadOutputBy(how, p.stdout);
    if reading.Panicked? {
      return Err(TaskPanicked);
    }
    if reading.Rejected? {
      return Err(BadGateway);
    }
    var out := reading.out;
    if Response.ReasonPhrase(out.status).None? {
      return Err(BadGateway);
    }
    return Ok((Available, Respond(out)));
  }
}
