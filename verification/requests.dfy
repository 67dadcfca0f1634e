/** The request head and the pure decisions of the request handlers
    (src/requests.rs): the method and path taken from the request line, the
    query string, the header map, the `Request` variant built from them, the
    resource normalisation, the directory index probe and the `Allow` list of
    an OPTIONS answer, and the answer to a request the access control denies. */
module Requests {
  import opened Wrappers
  import opened Errors
  import opened Text
  import opened Bytes
  import opened Paths
  import Response
  import Forbidden

  /** One `multipart/form-data` field (the `drain_common` record). */
  datatype FormDataValue = FormDataValue(
    filename: Option<string>,
    headers: map<string, string>,
    value: seq<byte>)

  /** A decoded request body (the `drain_common` enum). */
  datatype RequestBody =
    | XWWWFormUrlEncoded(fields: map<string, string>)
    | FormData(parts: map<string, FormDataValue>)

  /** A parsed request (requests.rs:21-56). */
  datatype Request =
    | Get(resource: string, params: Option<map<string, string>>, headers: map<string, string>)
    | Head(resource: string, params: Option<map<string, string>>, headers: map<string, string>)
    | Post(resource: string, params: Option<map<string, string>>, headers: map<string, string>,
           data: Option<RequestBody>)
    | Put(resource: string, headers: map<string, string>, data: Option<RequestBody>)
    | Delete
    | Connect
    | Options(resource: string, headers: map<string, string>)
    | Trace(raw: seq<byte>)
    | Patch(resource: string, headers: map<string, string>, data: Option<RequestBody>)

  /** The alternatives of the method group, in the order the regex lists them. */
  const Methods: seq<string> := ["GET", "HEAD", "POST", "PUT", "DELETE", "CONNECT", "OPTIONS", "TRACE", "PATCH"]

  /** The method name a request was built from. */
  function MethodName(r: Request): (m: string)
    ensures m in Methods
  {
    match r
    case Get(_, _, _) => "GET"
    case Head(_, _, _) => "HEAD"
    case Post(_, _, _, _) => "POST"
    case Put(_, _, _) => "PUT"
    case Delete => "DELETE"
    case Connect => "CONNECT"
    case Options(_, _) => "OPTIONS"
    case Trace(_) => "TRACE"
    case Patch(_, _, _) => "PATCH"
  }

  /** The variants that carry a resource and a header map. */
  predicate HasResource(r: Request) {
    !(r.Delete? || r.Connect? || r.Trace?)
  }

  /* ---------------------------------------------------------------------
     The request line
     --------------------------------------------------------------------- */

  predicate NotWhitespace(c: char) {
    !IsWhitespace(c)
  }

  /** The class `[^?\s]` of the path group. */
  predicate IsPathChar(c: char) {
    c != '?' && !IsWhitespace(c)
  }

  /** The method regex `^(GET|HEAD|…|PATCH)\s+([^?\s]*)` of requests.rs:60-62,
      giving the method and the path.  No alternative holds white space and
      each must be followed by `\s`, so the regex matches exactly when the text
      before the first white-space character is a method name and some white
      space follows it; the greedy `\s+` then takes all of that white space
      and the path group the longest run of path characters after it. */
  function MatchMethod(s: string): (r: Option<(string, string)>)
    ensures r.Some? ==> r.value.0 in Methods
    ensures r.Some? ==> forall i :: 0 <= i < |r.value.1| ==> IsPathChar(r.value.1[i])
  {
    var m := RunLength(s, 0, NotWhitespace);
    var w := RunLength(s, m, IsWhitespace);
    if s[..m] in Methods && w > 0 then
      var p := RunLength(s, m + w, IsPathChar);
      RunLengthStops(s, m + w, IsPathChar);
      Some((s[..m], s[m + w..m + w + p]))
    else None
  }

  /** A method name is a word of upper-case letters. */
  lemma MethodIsUpperWord(m: string)
    requires m in Methods
    ensures forall i :: 0 <= i < |m| ==> 'A' <= m[i] <= 'Z'
  {
  }

  /** Upper-case letters are not white space. */
  lemma UpperWordNoWhitespace(m: string)
    requires forall i :: 0 <= i < |m| ==> 'A' <= m[i] <= 'Z'
    ensures forall i :: 0 <= i < |m| ==> NotWhitespace(m[i])
  {
  }

  /** A request line `method SP path …` is matched with that method and path. */
  lemma MatchRequestLine(m: string, path: string, rest: string)
    requires m in Methods
    requires forall i :: 0 <= i < |path| ==> IsPathChar(path[i])
    requires |rest| > 0 && !IsPathChar(rest[0]) && (|path| > 0 || !IsWhitespace(rest[0]))
    ensures MatchMethod(m + " " + path + rest) == Some((m, path))
  {
    var s := m + " " + path + rest;
    var start := |m| + 1;
    RequestLineLayout(m, path, rest);
    MethodIsUpperWord(m);
    UpperWordNoWhitespace(m);
    RunLengthOver(s, 0, m, NotWhitespace);
    RunLengthOver(s, |m|, " ", IsWhitespace);
    RunLengthOver(s, start, path, IsPathChar);
  }

  /** Where the method, the space, the path and the rest sit in a request
      line. */
  lemma RequestLineLayout(m: string, path: string, rest: string)
    requires |rest| > 0
    ensures var s, start := m + " " + path + rest, |m| + 1;
      && s[..|m|] == m && s[|m|..start] == " " && s[start..start + |path|] == path
      && s[|m|] == ' ' && s[start + |path|] == rest[0]
      && s[start] == if |path| > 0 then path[0] else rest[0]
  {
    var s := m + " " + path + rest;
    var start := |m| + 1;
    assert s[..|m|] == m && s[|m|..start] == " " && s[start..start + |path|] == path;
  }

  /* ---------------------------------------------------------------------
     The query string
     --------------------------------------------------------------------- */

  /** The key of a `key=value` piece: the text before its first `=`. */
  function KeyOf(p: string): string
    requires '=' in p
  {
    SplitOnce(p, '=').value.0
  }

  /** The value of a `key=value` piece: the text after its first `=`. */
  function ValueOf(p: string): string
    requires '=' in p
  {
    SplitOnce(p, '=').value.1
  }

  /** Every piece holds an `=`. */
  predicate AllPairs(ps: seq<string>) {
    forall i :: 0 <= i < |ps| ==> '=' in ps[i]
  }

  /** The key and value of every piece. */
  function Pairs(ps: seq<string>): (r: seq<(string, string)>)
    requires AllPairs(ps)
    ensures |r| == |ps|
    decreases |ps|
  {
    if |ps| == 0 then []
    else
      var init := ps[..|ps| - 1];
      assert forall i :: 0 <= i < |init| ==> init[i] == ps[i];
      Pairs(init) + [(KeyOf(ps[|ps| - 1]), ValueOf(ps[|ps| - 1]))]
  }

  /** Entry `i` of the pairs is the key and value of piece `i`. */
  lemma {:induction false} PairAt(ps: seq<string>, i: nat)
    requires AllPairs(ps) && i < |ps|
    ensures Pairs(ps)[i] == (KeyOf(ps[i]), ValueOf(ps[i]))
    decreases |ps|
  {
    var init := ps[..|ps| - 1];
    var last := (KeyOf(ps[|ps| - 1]), ValueOf(ps[|ps| - 1]));
    assert AllPairs(init) by {
      forall j | 0 <= j < |init| ensures '=' in init[j] { assert init[j] == ps[j]; }
    }
    assert Pairs(ps) == Pairs(init) + [last];
    if i < |init| {
      PairAt(init, i);
      assert init[i] == ps[i];
    } else {
      assert i == |ps| - 1;
    }
  }

  /** No two pieces share a key. */
  predicate DistinctKeys(ps: seq<string>)
    requires AllPairs(ps)
  {
    forall i, j :: 0 <= i < j < |ps| ==> KeyOf(ps[i]) != KeyOf(ps[j])
  }

  /** The pieces inserted one by one into a map (requests.rs:83-88): a piece
      without `=`, or a key seen before, is an `InvalidRequest`. */
  function CollectPairs(ps: seq<string>): (r: Result<map<string, string>, ServerError>)
    ensures r.Err? ==> r.error == InvalidRequest
    decreases |ps|
  {
    if |ps| == 0 then Ok(map[])
    else
      match CollectPairs(ps[..|ps| - 1])
      case Err(e) => Err(e)
      case Ok(m) =>
        match SplitOnce(ps[|ps| - 1], '=')
        case None => Err(InvalidRequest)
        case Some((k, v)) => if k in m then Err(InvalidRequest) else Ok(m[k := v])
  }

  /** The pieces are accepted exactly when each is a pair and no key repeats,
      and then the map holds every pair. */
  lemma {:induction false} CollectPairsSpec(ps: seq<string>)
    ensures CollectPairs(ps).Ok? <==> AllPairs(ps) && DistinctKeys(ps)
    ensures CollectPairs(ps).Ok? ==> CollectPairs(ps).value == ToMap(Pairs(ps))
    decreases |ps|
  {
    if |ps| > 0 {
      var init := ps[..|ps| - 1];
      var last := ps[|ps| - 1];
      CollectPairsSpec(init);
      PairsInit(ps);
      match CollectPairs(init)
      case Err(_) =>
      case Ok(m) =>
        if '=' !in last {
          assert !AllPairs(ps);
        } else if KeyOf(last) in m {
          DuplicateLast(ps);
        } else {
          FreshLast(ps);
        }
    }
  }

  /** What holds of the pieces holds of all but the last. */
  lemma PairsInit(ps: seq<string>)
    requires |ps| > 0
    ensures AllPairs(ps) ==> AllPairs(ps[..|ps| - 1])
    ensures AllPairs(ps) && DistinctKeys(ps) ==> DistinctKeys(ps[..|ps| - 1])
    ensures AllPairs(ps) ==> Pairs(ps) == Pairs(ps[..|ps| - 1]) + [(KeyOf(ps[|ps| - 1]), ValueOf(ps[|ps| - 1]))]
  {
    var init := ps[..|ps| - 1];
    assert forall i :: 0 <= i < |init| ==> init[i] == ps[i];
    if AllPairs(ps) {
      PairsSnoc(ps);
    }
  }

  /** The pairs of the pieces: those of all but the last, then the last. */
  lemma PairsSnoc(ps: seq<string>)
    requires |ps| > 0 && AllPairs(ps) && AllPairs(ps[..|ps| - 1])
    ensures Pairs(ps) == Pairs(ps[..|ps| - 1]) + [(KeyOf(ps[|ps| - 1]), ValueOf(ps[|ps| - 1]))]
  {
  }

  /** A pair appended to pairs. */
  lemma AllPairsSnoc(ps: seq<string>)
    requires |ps| > 0 && AllPairs(ps[..|ps| - 1]) && '=' in ps[|ps| - 1]
    ensures AllPairs(ps)
  {
    var init := ps[..|ps| - 1];
    forall i | 0 <= i < |ps| ensures '=' in ps[i] {
      if i < |init| { assert ps[i] == init[i]; }
    }
  }

  /** A last key already in the map repeats an earlier one. */
  lemma DuplicateLast(ps: seq<string>)
    requires |ps| > 0 && AllPairs(ps[..|ps| - 1]) && '=' in ps[|ps| - 1]
    requires KeyOf(ps[|ps| - 1]) in ToMap(Pairs(ps[..|ps| - 1]))
    ensures AllPairs(ps) && !DistinctKeys(ps)
  {
    var init := ps[..|ps| - 1];
    AllPairsSnoc(ps);
    var i := ToMapKeyAt(Pairs(init), KeyOf(ps[|ps| - 1]));
    PairAt(init, i);
    assert init[i] == ps[i];
    assert KeyOf(ps[i]) == KeyOf(ps[|ps| - 1]);
  }

  /** A last key not in the map keeps the keys distinct and adds one entry. */
  lemma FreshLast(ps: seq<string>)
    requires |ps| > 0 && AllPairs(ps[..|ps| - 1]) && DistinctKeys(ps[..|ps| - 1]) && '=' in ps[|ps| - 1]
    requires KeyOf(ps[|ps| - 1]) !in ToMap(Pairs(ps[..|ps| - 1]))
    ensures AllPairs(ps) && DistinctKeys(ps)
    ensures ToMap(Pairs(ps)) == ToMap(Pairs(ps[..|ps| - 1]))[KeyOf(ps[|ps| - 1]) := ValueOf(ps[|ps| - 1])]
  {
    AllPairsSnoc(ps);
    FreshLastDistinct(ps);
    PairsInit(ps);
    ToMapSnoc(Pairs(ps[..|ps| - 1]), KeyOf(ps[|ps| - 1]), ValueOf(ps[|ps| - 1]));
  }

  /** A last key not among the earlier ones keeps the keys distinct. */
  lemma FreshLastDistinct(ps: seq<string>)
    requires |ps| > 0 && AllPairs(ps) && DistinctKeys(ps[..|ps| - 1])
    requires KeyOf(ps[|ps| - 1]) !in ToMap(Pairs(ps[..|ps| - 1]))
    ensures DistinctKeys(ps)
  {
    LastKeyFresh(ps);
    DistinctSnoc(ps);
  }

  /** A key missing from the map of the earlier pieces is none of their keys. */
  lemma LastKeyFresh(ps: seq<string>)
    requires |ps| > 0 && AllPairs(ps)
    requires KeyOf(ps[|ps| - 1]) !in ToMap(Pairs(ps[..|ps| - 1]))
    ensures forall i :: 0 <= i < |ps| - 1 ==> KeyOf(ps[i]) != KeyOf(ps[|ps| - 1])
  {
    var init := ps[..|ps| - 1];
    PairsInit(ps);
    forall i | 0 <= i < |ps| - 1
      ensures KeyOf(ps[i]) != KeyOf(ps[|ps| - 1])
    {
      EarlierKeyInMap(init, i);
      assert init[i] == ps[i];
    }
  }

  /** The key of each piece is in the map of the pieces. */
  lemma EarlierKeyInMap(ps: seq<string>, i: nat)
    requires AllPairs(ps) && i < |ps|
    ensures KeyOf(ps[i]) in ToMap(Pairs(ps))
  {
    PairAt(ps, i);
    ToMapHasKey(Pairs(ps), i);
  }

  /** Distinct keys followed by a fresh one are distinct. */
  lemma DistinctSnoc(ps: seq<string>)
    requires |ps| > 0 && AllPairs(ps) && DistinctKeys(ps[..|ps| - 1])
    requires forall i :: 0 <= i < |ps| - 1 ==> KeyOf(ps[i]) != KeyOf(ps[|ps| - 1])
    ensures DistinctKeys(ps)
  {
    var init := ps[..|ps| - 1];
    forall i, j | 0 <= i < j < |ps| - 1
      ensures KeyOf(ps[i]) != KeyOf(ps[j])
    {
      assert init[i] == ps[i] && init[j] == ps[j];
    }
  }

  /** `parse_query_params` (requests.rs:79-91): the path is everything before
      the first `?`; the non-empty `&`-pieces after it become the parameters,
      `None` when there are none. */
  function ParseQueryParams(resource: string): (r: Result<(string, Option<map<string, string>>), ServerError>)
    ensures '?' !in resource ==> r == Ok((resource, None))
    ensures r.Ok? ==> '?' !in r.value.0 && (r.value.0 == resource || StartsWith(resource, r.value.0 + "?"))
    ensures r.Ok? && r.value.1.Some? ==> |r.value.1.value| > 0
  {
    var (path, query) := match SplitOnce(resource, '?') case Some(pq) => pq case None => (resource, "");
    assert '?' !in resource ==> query == "" && Split(query, '&') == [""] by {
      if '?' !in resource {
        SplitJoin([""], '&');
      }
    }
    var params :- CollectPairs(NonEmpty(Split(query, '&')));
    assert resource != path ==> StartsWith(resource, path + "?") by {
      if resource != path {
        assert (path + "?")[..|path| + 1] == resource[..|path| + 1];
      }
    }
    Ok((path, if |params| == 0 then None else Some(params)))
  }

  /** The `key=value` pieces of the given pairs. */
  function QueryPieces(keys: seq<string>, values: seq<string>): (r: seq<string>)
    requires |keys| == |values|
  {
    seq(|keys|, i requires 0 <= i < |keys| => keys[i] + "=" + values[i])
  }

  /** The query text of the given pairs. */
  function QueryText(keys: seq<string>, values: seq<string>): string
    requires |keys| == |values|
  {
    Join(QueryPieces(keys, values), "&")
  }

  /** The given keys paired with the given values. */
  function Zip(keys: seq<string>, values: seq<string>): seq<(string, string)>
    requires |keys| == |values|
  {
    seq(|keys|, i requires 0 <= i < |keys| => (keys[i], values[i]))
  }

  /** Each piece of well-formed pairs reads back as its key and value. */
  lemma ReadPieces(keys: seq<string>, values: seq<string>)
    requires |keys| == |values|
    requires forall i :: 0 <= i < |keys| ==> '=' !in keys[i] && '&' !in keys[i] && '&' !in values[i]
    ensures var ps := QueryPieces(keys, values);
      && AllPairs(ps)
      && (forall i :: 0 <= i < |ps| ==> '&' !in ps[i] && |ps[i]| > 0)
      && Pairs(ps) == Zip(keys, values)
  {
    var ps := QueryPieces(keys, values);
    forall i | 0 <= i < |ps|
      ensures '=' in ps[i] && '&' !in ps[i] && |ps[i]| > 0
      ensures KeyOf(ps[i]) == keys[i] && ValueOf(ps[i]) == values[i]
    {
      SplitOnceFirst(keys[i], '=', values[i]);
      assert ps[i][|keys[i]|] == '=';
    }
    forall i | 0 <= i < |ps|
      ensures Pairs(ps)[i] == Zip(keys, values)[i]
    {
      PairAt(ps, i);
    }
  }

  /** The `&`-pieces of a query text are the pieces it was joined from. */
  lemma SplitQuery(keys: seq<string>, values: seq<string>)
    requires |keys| == |values|
    requires forall i :: 0 <= i < |keys| ==> '=' !in keys[i] && '&' !in keys[i] && '&' !in values[i]
    ensures NonEmpty(Split(QueryText(keys, values), '&')) == QueryPieces(keys, values)
  {
    var ps := QueryPieces(keys, values);
    ReadPieces(keys, values);
    if |ps| == 0 {
      assert Split(QueryText(keys, values), '&') == [""] by {
        SplitJoin([""], '&');
      }
    } else {
      SplitJoin(ps, '&');
    }
  }

  /** Distinct keys make distinct pieces' keys. */
  lemma DistinctPieces(keys: seq<string>, values: seq<string>)
    requires |keys| == |values|
    requires forall i :: 0 <= i < |keys| ==> '=' !in keys[i] && '&' !in keys[i] && '&' !in values[i]
    requires forall i, j :: 0 <= i < j < |keys| ==> keys[i] != keys[j]
    ensures AllPairs(QueryPieces(keys, values)) && DistinctKeys(QueryPieces(keys, values))
  {
    var ps := QueryPieces(keys, values);
    ReadPieces(keys, values);
    forall i | 0 <= i < |ps|
      ensures KeyOf(ps[i]) == keys[i]
    {
      PairAt(ps, i);
    }
  }

  /** The query of distinct keys is collected into the map of its pairs. */
  lemma CollectQuery(keys: seq<string>, values: seq<string>)
    requires |keys| == |values| > 0
    requires forall i :: 0 <= i < |keys| ==> '=' !in keys[i] && '&' !in keys[i] && '&' !in values[i]
    requires forall i, j :: 0 <= i < j < |keys| ==> keys[i] != keys[j]
    ensures CollectPairs(NonEmpty(Split(QueryText(keys, values), '&'))) == Ok(ToMap(Zip(keys, values)))
    ensures |ToMap(Zip(keys, values))| != 0
  {
    var ps := QueryPieces(keys, values);
    SplitQuery(keys, values);
    DistinctPieces(keys, values);
    ReadPieces(keys, values);
    CollectPairsSpec(ps);
    assert Zip(keys, values)[0].0 in ToMap(Zip(keys, values));
  }

  /** A path and a query of distinct keys read back as that path and the map
      of those pairs. */
  lemma QueryRoundTrip(path: string, keys: seq<string>, values: seq<string>)
    requires '?' !in path
    requires |keys| == |values| > 0
    requires forall i :: 0 <= i < |keys| ==> '=' !in keys[i] && '&' !in keys[i] && '&' !in values[i]
    requires forall i, j :: 0 <= i < j < |keys| ==> keys[i] != keys[j]
    ensures ParseQueryParams(path + "?" + QueryText(keys, values)) == Ok((path, Some(ToMap(Zip(keys, values)))))
  {
    SplitOnceFirst(path, '?', QueryText(keys, values));
    CollectQuery(keys, values);
  }

  /** With distinct keys every pair is in the parameter map. */
  lemma ZipLookup(keys: seq<string>, values: seq<string>)
    requires |keys| == |values|
    requires forall i, j :: 0 <= i < j < |keys| ==> keys[i] != keys[j]
    ensures ToMap(Zip(keys, values)).Keys == (set i | 0 <= i < |keys| :: keys[i])
    ensures forall i :: 0 <= i < |keys| ==> ToMap(Zip(keys, values))[keys[i]] == values[i]
  {
    var z := Zip(keys, values);
    assert forall i :: 0 <= i < |z| ==> z[i].0 == keys[i];
    assert (set i | 0 <= i < |z| :: z[i].0) == (set i | 0 <= i < |keys| :: keys[i]);
    forall i | 0 <= i < |keys|
      ensures ToMap(z)[keys[i]] == values[i]
    {
      ZipValue(keys, values, i);
    }
  }

  lemma ZipValue(keys: seq<string>, values: seq<string>, i: nat)
    requires |keys| == |values| && i < |keys|
    requires forall i, j :: 0 <= i < j < |keys| ==> keys[i] != keys[j]
    ensures keys[i] in ToMap(Zip(keys, values)) && ToMap(Zip(keys, values))[keys[i]] == values[i]
  {
    var z := Zip(keys, values);
    assert forall j :: i < j < |z| ==> z[j].0 != z[i].0;
  }

  /** A key given twice makes the request invalid. */
  lemma DuplicateQueryKeyRejected(path: string, key: string, v1: string, v2: string)
    requires '?' !in path && '=' !in key && '&' !in key && '&' !in v1 && '&' !in v2
    ensures ParseQueryParams(path + "?" + QueryText([key, key], [v1, v2])) == Err(InvalidRequest)
  {
    var ps := QueryPieces([key, key], [v1, v2]);
    SplitOnceFirst(path, '?', QueryText([key, key], [v1, v2]));
    ReadPieces([key, key], [v1, v2]);
    SplitJoin(ps, '&');
    assert NonEmpty(ps) == ps;
    CollectPairsSpec(ps);
    assert Pairs(ps)[0].0 == Pairs(ps)[1].0;
  }

  /* ---------------------------------------------------------------------
     Header lines
     --------------------------------------------------------------------- */

  predicate IsAsciiAlnum(c: char) {
    'a' <= c <= 'z' || 'A' <= c <= 'Z' || '0' <= c <= '9'
  }

  /** The class `[[:alnum:]-_]` of the header-name group. */
  predicate IsNameChar(c: char) {
    IsAsciiAlnum(c) || c == '-' || c == '_'
  }

  /** `.`: any character but a line feed. */
  predicate NotNewline(c: char) {
    c != '\n'
  }

  /** A non-empty run of name characters: what the name group matches. */
  predicate IsNameRun(s: string) {
    |s| > 0 && forall i :: 0 <= i < |s| ==> IsNameChar(s[i])
  }

  /** `^` under the `m` flag: the start of the text or just after a line feed. */
  predicate AtLineStart(t: string, i: nat)
    requires i <= |t|
  {
    i == 0 || t[i - 1] == '\n'
  }

  datatype Capture = Capture(name: string, value: string, end: nat)

  /** The header regex `([[:alnum:]-_]+):\s*(.*)` tried at `i`: the name is
      the whole run of name characters there and must be followed by `:`;
      the greedy `\s*`, which may cross line ends, then `.*` to the next line
      feed.  `end` is where the match stops. */
  function HeaderMatchAt(t: string, i: nat): (r: Option<Capture>)
    requires i <= |t|
    ensures r.Some? ==> i < r.value.end <= |t|
    ensures r.Some? ==> IsNameRun(r.value.name)
  {
    var n := RunLength(t, i, IsNameChar);
    RunLengthStops(t, i, IsNameChar);
    if n == 0 || i + n == |t| || t[i + n] != ':' then None
    else
      var w := RunLength(t, i + n + 1, IsWhitespace);
      var v := RunLength(t, i + n + 1 + w, NotNewline);
      Some(Capture(t[i..i + n], t[i + n + 1 + w..i + n + 1 + w + v], i + n + 1 + w + v))
  }

  /** `captures_iter` from position `i`: the leftmost match at a line start,
      then the search resumes where that match ended. */
  function HeaderCaptures(t: string, i: nat): (r: seq<(string, string)>)
    requires i <= |t|
    decreases |t| - i
  {
    if i == |t| then []
    else if AtLineStart(t, i) && HeaderMatchAt(t, i).Some? then
      var c := HeaderMatchAt(t, i).value;
      [(c.name, c.value)] + HeaderCaptures(t, c.end)
    else HeaderCaptures(t, i + 1)
  }

  /** Every captured name is a non-empty run of name characters. */
  lemma {:induction false} CapturesNamed(t: string, i: nat)
    requires i <= |t|
    ensures forall j :: 0 <= j < |HeaderCaptures(t, i)| ==> IsNameRun(HeaderCaptures(t, i)[j].0)
    decreases |t| - i
  {
    if i < |t| {
      if AtLineStart(t, i) && HeaderMatchAt(t, i).Some? {
        var c := HeaderMatchAt(t, i).value;
        var rest := HeaderCaptures(t, c.end);
        CapturesAtMatch(t, i, c, rest);
        CapturesNamed(t, c.end);
        var r := HeaderCaptures(t, i);
        forall j | 0 <= j < |r|
          ensures IsNameRun(r[j].0)
        {
          if j > 0 {
            assert r[j] == rest[j - 1];
          }
        }
      } else {
        assert HeaderCaptures(t, i) == HeaderCaptures(t, i + 1);
        CapturesNamed(t, i + 1);
      }
    }
  }

  /** A string without white space is its own trim. */
  lemma TrimNoWhitespace(s: string)
    requires forall i :: 0 <= i < |s| ==> !IsWhitespace(s[i])
    ensures Trim(s) == s
  {
    TrimStartByKept(s, IsWhitespace);
    TrimEndByKept(s, IsWhitespace);
  }

  /** Name characters are not white space. */
  lemma NameCharsNoWhitespace(s: string)
    requires forall i :: 0 <= i < |s| ==> IsNameChar(s[i])
    ensures forall i :: 0 <= i < |s| ==> !IsWhitespace(s[i])
  {
  }

  /** Lower-casing keeps the header-name alphabet. */
  lemma LowerNameChars(s: string)
    requires forall i :: 0 <= i < |s| ==> IsNameChar(s[i])
    ensures forall i :: 0 <= i < |ToLower(s)| ==> IsNameChar(ToLower(s)[i])
  {
  }

  /** A captured name becomes a header key. */
  lemma CapturedNameIsKey(s: string)
    requires IsNameRun(s)
    ensures Trim(s) == s && IsHeaderKey(ToLower(Trim(s)))
  {
    NameCharsNoWhitespace(s);
    TrimNoWhitespace(s);
    LowerNameChars(s);
    ToLowerIdempotent(s);
  }

  /** A header name as it appears in the map. */
  predicate IsHeaderKey(k: string) {
    && |k| > 0
    && (forall i :: 0 <= i < |k| ==> IsNameChar(k[i]))
    && ToLower(k) == k
  }

  /** `parse_headers` (requests.rs:93-104): every match of the header regex
      over the whole request text, the name trimmed and lower-cased and the
      value trimmed, inserted in order so that a later header with the same
      lower-cased name overwrites an earlier one.  It never fails. */
  function ParseHeaders(t: string): (r: Result<map<string, string>, ServerError>)
    ensures r.Ok?
    ensures forall k :: k in r.value ==> IsHeaderKey(k) && Trim(r.value[k]) == r.value[k]
  {
    var ps := HeaderEntries(HeaderCaptures(t, 0));
    var m := ToMap(ps);
    ToMapProvenance(ps);
    CapturesNamed(t, 0);
    forall k | k in m
      ensures IsHeaderKey(k) && Trim(m[k]) == m[k]
    {
      var i :| 0 <= i < |ps| && ps[i] == (k, m[k]);
      var caps := HeaderCaptures(t, 0);
      assert |caps| == |ps| && IsNameRun(caps[i].0);
      CapturedNameIsKey(caps[i].0);
      TrimByIdempotent(caps[i].1, IsWhitespace);
    }
    Ok(m)
  }

  /** The map entries of the captures: the name trimmed and lower-cased, the
      value trimmed. */
  function HeaderEntries(caps: seq<(string, string)>): seq<(string, string)> {
    seq(|caps|, i requires 0 <= i < |caps| => (ToLower(Trim(caps[i].0)), Trim(caps[i].1)))
  }

  /* ---------------------------------------------------------------------
     Reading back a well-formed head
     --------------------------------------------------------------------- */

  /** A header the server reads back unchanged: a name of the name alphabet
      and a one-line value without surrounding white space. */
  predicate WellFormedHeader(h: (string, string)) {
    && |h.0| > 0 && (forall i :: 0 <= i < |h.0| ==> IsNameChar(h.0[i]))
    && |h.1| > 0 && !IsWhitespace(h.1[0]) && !IsWhitespace(h.1[|h.1| - 1])
    && '\n' !in h.1
  }

  function HeaderText(h: (string, string)): string {
    h.0 + ": " + h.1 + "\r\n"
  }

  /** The header lines of a request head, each ended by CRLF. */
  function HeaderBlock(hs: seq<(string, string)>): string
    decreases |hs|
  {
    if |hs| == 0 then "" else HeaderText(hs[0]) + HeaderBlock(hs[1..])
  }

  /** The headers with their names lower-cased. */
  function Lowered(hs: seq<(string, string)>): seq<(string, string)> {
    seq(|hs|, i requires 0 <= i < |hs| => (ToLower(hs[i].0), hs[i].1))
  }

  /** The value each line captures: `.*` stops at the line feed and keeps the
      carriage return. */
  function Captured(hs: seq<(string, string)>): seq<(string, string)> {
    seq(|hs|, i requires 0 <= i < |hs| => (hs[i].0, hs[i].1 + "\r"))
  }

  /** The captures of a block: the first line's, then the rest. */
  lemma CapturedCons(hs: seq<(string, string)>)
    requires |hs| > 0
    ensures Captured(hs) == [(hs[0].0, hs[0].1 + "\r")] + Captured(hs[1..])
  {
    var a := Captured(hs);
    var b := [(hs[0].0, hs[0].1 + "\r")] + Captured(hs[1..]);
    assert |a| == |b|;
    forall i | 0 <= i < |a|
      ensures a[i] == b[i]
    {
      if i > 0 {
        assert b[i] == Captured(hs[1..])[i - 1];
      }
    }
  }

  /** Positions where no match starts contribute nothing. */
  lemma {:induction false} SkipNoMatch(t: string, i: nat, j: nat)
    requires i <= j <= |t|
    requires forall k :: i <= k < j ==> !(AtLineStart(t, k) && HeaderMatchAt(t, k).Some?)
    ensures HeaderCaptures(t, i) == HeaderCaptures(t, j)
    decreases j - i
  {
    if i < j {
      SkipNoMatch(t, i + 1, j);
    }
  }

  /** Where the parts of a header line sit in the text. */
  lemma LineLayout(t: string, p: nat, h: (string, string))
    requires p + |HeaderText(h)| <= |t| && t[p..p + |HeaderText(h)|] == HeaderText(h)
    ensures var n, v := |h.0|, |h.1|;
      && t[p..p + n] == h.0 && t[p + n] == ':' && t[p + n + 1..p + n + 2] == " "
      && t[p + n + 2..p + n + 3 + v] == h.1 + "\r" && t[p + n + 3 + v] == '\n'
  {
    var line := HeaderText(h);
    var n := |h.0|;
    var v := |h.1|;
    HeaderTextParts(h);
    SliceOfSlice(t, p, line, 0, n);
    SliceOfSlice(t, p, line, n + 1, n + 2);
    SliceOfSlice(t, p, line, n + 2, n + 3 + v);
    assert t[p + n] == line[n] && t[p + n + 3 + v] == line[n + 3 + v];
  }

  /** The parts of a header line: the name, the colon, the space, the value
      with its carriage return, and the line feed. */
  lemma HeaderTextParts(h: (string, string))
    ensures var line, n, v := HeaderText(h), |h.0|, |h.1|;
      && |line| == n + v + 4
      && line[0..n] == h.0 && line[n] == ':' && line[n + 1..n + 2] == " "
      && line[n + 2..n + 3 + v] == h.1 + "\r" && line[n + 3 + v] == '\n'
  {
    var n := |h.0|;
    var v := |h.1|;
    assert HeaderText(h) == h.0 + ": " + (h.1 + "\r") + "\n";
  }

  /** A well-formed value and the carriage return after it hold no line feed. */
  lemma ValueNoNewline(h: (string, string))
    requires WellFormedHeader(h)
    ensures forall j :: 0 <= j < |h.1 + "\r"| ==> NotNewline((h.1 + "\r")[j])
  {
    var value := h.1 + "\r";
    forall j | 0 <= j < |value|
      ensures NotNewline(value[j])
    {
      if j < |h.1| {
        assert value[j] == h.1[j];
        assert h.1[j] in h.1;
      }
    }
  }

  /** One well-formed header line is matched as a whole, ending at its line feed. */
  lemma LineMatch(t: string, p: nat, h: (string, string))
    requires WellFormedHeader(h)
    requires p + |HeaderText(h)| <= |t| && t[p..p + |HeaderText(h)|] == HeaderText(h)
    ensures HeaderMatchAt(t, p) == Some(Capture(h.0, h.1 + "\r", p + |HeaderText(h)| - 1))
  {
    LineRuns(t, p, h);
    MatchFromRuns(t, p, h.0, 1, h.1 + "\r");
  }

  /** The three runs of a header line: its name up to the colon, the one
      space, and its value with the carriage return. */
  lemma LineRuns(t: string, p: nat, h: (string, string))
    requires WellFormedHeader(h)
    requires p + |HeaderText(h)| <= |t| && t[p..p + |HeaderText(h)|] == HeaderText(h)
    ensures MatchRuns(t, p, h.0, 1, h.1 + "\r")
    ensures p + |h.0| + 1 + 1 + |h.1 + "\r"| == p + |HeaderText(h)| - 1
  {
    var n, v := |h.0|, |h.1| + 1;
    assert |HeaderText(h)| == n + 2 + v + 1;
    LineLayout(t, p, h);
    NameRun(t, p, h);
    SpaceRun(t, p, h);
    ValueRun(t, p, h);
  }

  /** The text at `i` is a name run of `name`, a colon, a white-space run of
      length `w`, then a run of `value` up to a line feed. */
  predicate MatchRuns(t: string, i: nat, name: string, w: nat, value: string) {
    && |name| > 0 && i + |name| < |t| && t[i..i + |name|] == name && t[i + |name|] == ':'
    && i + |name| + 1 + w + |value| <= |t| && t[i + |name| + 1 + w..i + |name| + 1 + w + |value|] == value
    && RunLength(t, i, IsNameChar) == |name|
    && RunLength(t, i + |name| + 1, IsWhitespace) == w
    && RunLength(t, i + |name| + 1 + w, NotNewline) == |value|
  }

  /** The match at `i` given the three runs it consists of: the name, the
      white space after the colon, and the value. */
  lemma MatchFromRuns(t: string, i: nat, name: string, w: nat, value: string)
    requires MatchRuns(t, i, name, w, value)
    ensures HeaderMatchAt(t, i) == Some(Capture(name, value, i + |name| + 1 + w + |value|))
  {
  }

  /** The name characters of a header line run up to its colon. */
  lemma NameRun(t: string, p: nat, h: (string, string))
    requires WellFormedHeader(h)
    requires p + |HeaderText(h)| <= |t| && t[p..p + |HeaderText(h)|] == HeaderText(h)
    ensures RunLength(t, p, IsNameChar) == |h.0|
  {
    LineLayout(t, p, h);
    RunLengthOver(t, p, h.0, IsNameChar);
  }

  /** The white space after the colon is the single space written. */
  lemma SpaceRun(t: string, p: nat, h: (string, string))
    requires WellFormedHeader(h)
    requires p + |HeaderText(h)| <= |t| && t[p..p + |HeaderText(h)|] == HeaderText(h)
    ensures RunLength(t, p + |h.0| + 1, IsWhitespace) == 1
  {
    var n := |h.0|;
    LineLayout(t, p, h);
    assert t[p + n + 2] == h.1[0] by {
      assert t[p + n + 2] == t[p + n + 2..p + n + 3 + |h.1|][0];
    }
    RunLengthOver(t, p + n + 1, " ", IsWhitespace);
  }

  /** The value runs, with its carriage return, up to the line feed. */
  lemma ValueRun(t: string, p: nat, h: (string, string))
    requires WellFormedHeader(h)
    requires p + |HeaderText(h)| <= |t| && t[p..p + |HeaderText(h)|] == HeaderText(h)
    ensures p + |h.0| + 3 + |h.1| <= |t|
    ensures RunLength(t, p + |h.0| + 2, NotNewline) == |h.1| + 1
  {
    LineLayout(t, p, h);
    ValueNoNewline(h);
    RunLengthOver(t, p + |h.0| + 2, h.1 + "\r", NotNewline);
  }

  /** The empty line that ends the head captures nothing. */
  lemma EmptyLineCapturesNothing(t: string, p: nat)
    requires p <= |t| && t[p..] == "\r\n"
    ensures HeaderCaptures(t, p) == []
  {
    assert t[p] == '\r' && t[p + 1] == '\n' && |t| == p + 2;
    RunLengthIs(t, p, IsNameChar, 0);
    RunLengthIs(t, p + 1, IsNameChar, 0);
    SkipNoMatch(t, p, p + 2);
  }

  /** The first header line of a block, and what follows it. */
  lemma FirstLine(t: string, p: nat, hs: seq<(string, string)>)
    requires |hs| > 0
    requires p <= |t| && t[p..] == HeaderBlock(hs) + "\r\n"
    ensures var e := p + |HeaderText(hs[0])|;
      && e <= |t| && t[p..e] == HeaderText(hs[0])
      && t[e - 1] == '\n' && t[e..] == HeaderBlock(hs[1..]) + "\r\n"
  {
    var line := HeaderText(hs[0]);
    var rest := HeaderBlock(hs[1..]) + "\r\n";
    assert t[p..] == line + rest;
    assert t[p..p + |line|] == (line + rest)[..|line|] == line;
    assert t[p + |line| - 1] == line[|line| - 1];
    assert t[p + |line|..] == (line + rest)[|line|..] == rest;
  }

  /** A header block followed by the empty line is captured line by line. */
  lemma {:induction false} BlockCaptures(t: string, p: nat, hs: seq<(string, string)>)
    requires forall i :: 0 <= i < |hs| ==> WellFormedHeader(hs[i])
    requires p <= |t| && t[p..] == HeaderBlock(hs) + "\r\n"
    requires AtLineStart(t, p)
    ensures HeaderCaptures(t, p) == Captured(hs)
    decreases |hs|
  {
    if |hs| == 0 {
      EmptyLineCapturesNothing(t, p);
    } else {
      var e := p + |HeaderText(hs[0])|;
      BlockStep(t, p, hs);
      assert forall i :: 0 <= i < |hs[1..]| ==> hs[1..][i] == hs[i + 1];
      BlockCaptures(t, e, hs[1..]);
      CapturedCons(hs);
    }
  }

  /** The first line of a block is captured and the scan goes on at the
      start of the next line, on the rest of the block. */
  lemma BlockStep(t: string, p: nat, hs: seq<(string, string)>)
    requires |hs| > 0 && forall i :: 0 <= i < |hs| ==> WellFormedHeader(hs[i])
    requires p <= |t| && t[p..] == HeaderBlock(hs) + "\r\n"
    requires AtLineStart(t, p)
    ensures var e := p + |HeaderText(hs[0])|;
      && e <= |t| && t[e..] == HeaderBlock(hs[1..]) + "\r\n" && AtLineStart(t, e)
      && HeaderCaptures(t, p) == [(hs[0].0, hs[0].1 + "\r")] + HeaderCaptures(t, e)
  {
    FirstLine(t, p, hs);
    LineCaptured(t, p, hs[0]);
  }

  /** A well-formed line at a line start is captured, and the scan goes on
      after its line feed. */
  lemma LineCaptured(t: string, p: nat, h: (string, string))
    requires WellFormedHeader(h)
    requires p + |HeaderText(h)| <= |t| && t[p..p + |HeaderText(h)|] == HeaderText(h)
    requires AtLineStart(t, p)
    ensures HeaderCaptures(t, p) == [(h.0, h.1 + "\r")] + HeaderCaptures(t, p + |HeaderText(h)|)
  {
    var e := p + |HeaderText(h)|;
    LineMatch(t, p, h);
    CarriageReturnBeforeEnd(t, p, e, h);
    MatchedLine(t, p, h.0, h.1 + "\r", e);
  }

  /** A header line ends in a carriage return and a line feed. */
  lemma CarriageReturnBeforeEnd(t: string, p: nat, e: nat, h: (string, string))
    requires e == p + |HeaderText(h)| <= |t| && t[p..e] == HeaderText(h)
    ensures p + 1 < e && t[e - 2] == '\r'
  {
    var line := HeaderText(h);
    assert t[e - 2] == line[|line| - 2] == '\r';
  }

  /** A match at a line start that stops on a line feed after a carriage
      return contributes its capture, and the scan goes on after that line
      feed: the position of the line feed is not a line start. */
  lemma MatchedLine(t: string, p: nat, name: string, value: string, e: nat)
    requires p + 1 < e <= |t| && AtLineStart(t, p) && t[e - 2] == '\r'
    requires HeaderMatchAt(t, p) == Some(Capture(name, value, e - 1))
    ensures HeaderCaptures(t, p) == [(name, value)] + HeaderCaptures(t, e)
  {
    assert !AtLineStart(t, e - 1);
    SkipNoMatch(t, e - 1, e);
    CapturesAtMatch(t, p, Capture(name, value, e - 1), HeaderCaptures(t, e));
  }

  /** Where a match starts at a line start, the captures are its own and
      those after its end. */
  lemma CapturesAtMatch(t: string, i: nat, c: Capture, rest: seq<(string, string)>)
    requires i < |t| && AtLineStart(t, i) && HeaderMatchAt(t, i) == Some(c)
    requires HeaderCaptures(t, c.end) == rest
    ensures HeaderCaptures(t, i) == [(c.name, c.value)] + rest
  {
  }

  /** Trimming a captured value gives the value written. */
  lemma TrimCapturedValue(v: string)
    requires |v| > 0 && !IsWhitespace(v[0]) && !IsWhitespace(v[|v| - 1])
    ensures Trim(v + "\r") == v
  {
    var s := v + "\r";
    assert s[0] == v[0];
    TrimStartByKept(s, IsWhitespace);
    assert IsWhitespace(s[|s| - 1]) && s[..|s| - 1] == v;
    assert TrimEndBy(s, IsWhitespace) == TrimEndBy(v, IsWhitespace);
    TrimEndByKept(v, IsWhitespace);
  }

  /** A request line without `:` captures nothing: no match starts on it. */
  lemma RequestLineCapturesNothing(t: string, line: string)
    requires ':' !in line && '\n' !in line
    requires |line| + 2 <= |t| && t[..|line| + 2] == line + "\r\n"
    ensures HeaderCaptures(t, 0) == HeaderCaptures(t, |line| + 2)
  {
    var p := |line| + 2;
    assert t[|line|] == '\r' && t[|line| + 1] == '\n';
    forall k | 0 <= k < p
      ensures !(AtLineStart(t, k) && HeaderMatchAt(t, k).Some?)
    {
      if k == 0 {
        var n := RunLength(t, 0, IsNameChar);
        RunLengthStops(t, 0, IsNameChar);
        assert n <= |line|;
        if n < |line| {
          assert t[n] == line[n];
          assert line[n] in line;
        }
      } else if k <= |line| {
        assert t[k - 1] == line[k - 1];
        assert line[k - 1] in line;
      }
    }
    SkipNoMatch(t, 0, p);
  }

  /** The entries of well-formed captured lines are the headers, names lower-cased. */
  lemma EntriesOfCaptured(hs: seq<(string, string)>)
    requires forall i :: 0 <= i < |hs| ==> WellFormedHeader(hs[i])
    ensures HeaderEntries(Captured(hs)) == Lowered(hs)
  {
    var caps := Captured(hs);
    var a := HeaderEntries(caps);
    assert |a| == |Lowered(hs)|;
    forall i | 0 <= i < |hs|
      ensures a[i] == Lowered(hs)[i]
    {
      assert caps[i] == (hs[i].0, hs[i].1 + "\r");
      EntryOfCaptured(hs[i]);
    }
  }

  /** The entry of one well-formed captured line. */
  lemma EntryOfCaptured(h: (string, string))
    requires WellFormedHeader(h)
    ensures (ToLower(Trim(h.0)), Trim(h.1 + "\r")) == (ToLower(h.0), h.1)
  {
    CapturedNameIsKey(h.0);
    TrimCapturedValue(h.1);
  }

  /** A head made of a request line without `:` and well-formed header lines
      yields exactly those headers, names lower-cased, a later header winning
      over an earlier one with the same lower-cased name. */
  lemma ParseHeadBlock(line: string, hs: seq<(string, string)>)
    requires ':' !in line && '\n' !in line
    requires forall i :: 0 <= i < |hs| ==> WellFormedHeader(hs[i])
    ensures ParseHeaders(line + "\r\n" + HeaderBlock(hs) + "\r\n") == Ok(ToMap(Lowered(hs)))
  {
    var t := line + "\r\n" + HeaderBlock(hs) + "\r\n";
    HeadCaptures(t, line, hs);
    ParseHeadersOf(t);
    EntriesOfCaptured(hs);
  }

  /** A head is captured header line by header line. */
  lemma HeadCaptures(t: string, line: string, hs: seq<(string, string)>)
    requires ':' !in line && '\n' !in line
    requires forall i :: 0 <= i < |hs| ==> WellFormedHeader(hs[i])
    requires t == line + "\r\n" + HeaderBlock(hs) + "\r\n"
    ensures HeaderCaptures(t, 0) == Captured(hs)
  {
    var head := line + "\r\n";
    var block := HeaderBlock(hs) + "\r\n";
    var p := |head|;
    assert t == head + block;
    assert t[..p] == head && t[p..] == block;
    RequestLineCapturesNothing(t, line);
    BlockCaptures(t, p, hs);
  }

  /** The header map is the map of the entries of the captures. */
  lemma ParseHeadersOf(t: string)
    ensures ParseHeaders(t) == Ok(ToMap(HeaderEntries(HeaderCaptures(t, 0))))
  {
  }

  /* ---------------------------------------------------------------------
     Building the request
     --------------------------------------------------------------------- */

  /** `build_request` (requests.rs:106-138): the variant the method names.
      TRACE keeps the whole request text as bytes, DELETE and CONNECT keep
      nothing, the body-carrying methods start without a body, and PUT,
      PATCH and OPTIONS have no parameters. */
  function BuildRequest(verb: string, resource: string, params: Option<map<string, string>>,
                        headers: map<string, string>, text: string): (r: Result<Request, ServerError>)
    ensures r.Ok? <==> verb in Methods
    ensures r.Err? ==> r.error == InvalidRequest
    ensures r.Ok? ==> MethodName(r.value) == verb
    ensures r.Ok? && r.value.Trace? ==> r.value.raw == Utf8Encode(text)
    ensures r.Ok? && (r.value.Post? || r.value.Put? || r.value.Patch?) ==> r.value.data.None?
    ensures r.Ok? && HasResource(r.value) ==> r.value.resource == resource && r.value.headers == headers
    ensures r.Ok? && (r.value.Get? || r.value.Head? || r.value.Post?) ==> r.value.params == params
  {
    if verb == "TRACE" then Ok(Trace(Utf8Encode(text)))
    else if verb == "GET" then Ok(Get(resource, params, headers))
    else if verb == "HEAD" then Ok(Head(resource, params, headers))
    else if verb == "POST" then Ok(Post(resource, params, headers, None))
    else if verb == "PUT" then Ok(Put(resource, headers, None))
    else if verb == "DELETE" then Ok(Delete)
    else if verb == "CONNECT" then Ok(Connect)
    else if verb == "OPTIONS" then Ok(Options(resource, headers))
    else if verb == "PATCH" then Ok(Patch(resource, headers, None))
    else Err(InvalidRequest)
  }

  /** `Request::parse_from_string` (requests.rs:59-77). */
  function ParseFromString(text: string): (r: Result<Request, ServerError>)
    ensures r.Ok? <==> MatchMethod(text).Some?
    ensures r.Err? ==> r.error == InvalidRequest
    ensures r.Ok? ==> MethodName(r.value) == MatchMethod(text).value.0
    ensures r.Ok? && HasResource(r.value) ==>
      && r.value.resource == MatchMethod(text).value.1
      && '?' !in r.value.resource
      && r.value.headers == ParseHeaders(text).value
    ensures r.Ok? && (r.value.Get? || r.value.Head? || r.value.Post?) ==> r.value.params.None?
  {
    match MatchMethod(text)
    case None => Err(InvalidRequest)
    case Some((m, path)) => RequestOf(m, path, text)
  }

  /** The request built from a matched method and path: the path is its own
      trim and has no query, so the method alone picks the variant. */
  function RequestOf(m: string, path: string, text: string): (r: Result<Request, ServerError>)
    requires m in Methods
    requires forall i :: 0 <= i < |path| ==> IsPathChar(path[i])
    ensures r.Ok? && MethodName(r.value) == m
    ensures HasResource(r.value) ==>
      && r.value.resource == path
      && r.value.headers == ParseHeaders(text).value
    ensures r.value.Get? || r.value.Head? || r.value.Post? ==> r.value.params.None?
  {
    MethodIsUpperWord(m);
    assert ToUpper(m) == m;
    var verb := ToUpper(m);
    forall i | 0 <= i < |path|
      ensures !IsWhitespace(path[i]) && path[i] != '?'
    {
      assert IsPathChar(path[i]);
    }
    TrimNoWhitespace(path);
    var resource := Trim(path);
    assert '?' !in resource;
    match ParseQueryParams(resource)
    case Err(e) => Err(e)
    case Ok((resourcePath, params)) =>
      match ParseHeaders(text)
      case Err(e) => Err(e)
      case Ok(headers) =>
        BuildRequest(verb, resourcePath, params, headers, text)
  }

  /** A request line and well-formed header lines are read back as the method,
      the path and those headers. */
  lemma ParseRequestHead(m: string, path: string, version: string, hs: seq<(string, string)>)
    requires m in Methods
    requires |path| > 0 && forall i :: 0 <= i < |path| ==> IsPathChar(path[i])
    requires ':' !in path && ':' !in version && '\n' !in version
    requires forall i :: 0 <= i < |hs| ==> WellFormedHeader(hs[i])
    ensures var r := ParseFromString(m + " " + path + " " + version + "\r\n" + HeaderBlock(hs) + "\r\n");
      && r.Ok? && MethodName(r.value) == m
      && (HasResource(r.value) ==> r.value.resource == path && r.value.headers == ToMap(Lowered(hs)))
  {
    var text := m + " " + path + " " + version + "\r\n" + HeaderBlock(hs) + "\r\n";
    HeadLineMatched(m, path, version, hs, text);
    HeadHeadersParsed(m, path, version, hs, text);
    ParsedHead(text, m, path, ToMap(Lowered(hs)));
  }

  /** The request line of such a head is matched. */
  lemma HeadLineMatched(m: string, path: string, version: string, hs: seq<(string, string)>, text: string)
    requires m in Methods
    requires |path| > 0 && forall i :: 0 <= i < |path| ==> IsPathChar(path[i])
    requires text == m + " " + path + " " + version + "\r\n" + HeaderBlock(hs) + "\r\n"
    ensures MatchMethod(text) == Some((m, path))
  {
    var rest := " " + version + "\r\n" + HeaderBlock(hs) + "\r\n";
    AppendRegroup(m + " " + path, " ", version, "\r\n", HeaderBlock(hs), "\r\n");
    MatchRequestLine(m, path, rest);
  }

  /** The headers of such a head are parsed. */
  lemma HeadHeadersParsed(m: string, path: string, version: string, hs: seq<(string, string)>, text: string)
    requires m in Methods
    requires forall i :: 0 <= i < |path| ==> IsPathChar(path[i])
    requires ':' !in path && ':' !in version && '\n' !in version
    requires forall i :: 0 <= i < |hs| ==> WellFormedHeader(hs[i])
    requires text == m + " " + path + " " + version + "\r\n" + HeaderBlock(hs) + "\r\n"
    ensures ParseHeaders(text) == Ok(ToMap(Lowered(hs)))
  {
    var line := m + " " + path + " " + version;
    RequestLineClean(m, path, version);
    ParseHeadBlock(line, hs);
  }

  /** A text whose request line is matched and whose headers are parsed. */
  lemma ParsedHead(text: string, m: string, path: string, headers: map<string, string>)
    requires MatchMethod(text) == Some((m, path)) && ParseHeaders(text) == Ok(headers)
    ensures var r := ParseFromString(text);
      && r.Ok? && MethodName(r.value) == m
      && (HasResource(r.value) ==> r.value.resource == path && r.value.headers == headers)
  {
  }

  /** A request line of a method, a path without `:` and a one-line version
      holds neither a colon nor a line feed. */
  lemma RequestLineClean(m: string, path: string, version: string)
    requires m in Methods
    requires forall i :: 0 <= i < |path| ==> IsPathChar(path[i])
    requires ':' !in path && ':' !in version && '\n' !in version
    ensures var line := m + " " + path + " " + version; ':' !in line && '\n' !in line
  {
    MethodIsUpperWord(m);
  }

  /* ---------------------------------------------------------------------
     Handler decisions
     --------------------------------------------------------------------- */

  /** `normalize_resource` (requests.rs:384-386): every leading `/` goes and
      nothing else changes. */
  function NormalizeResource(resource: string): (r: string)
    ensures |r| <= |resource| && r == resource[|resource| - |r|..]
    ensures forall i :: 0 <= i < |resource| - |r| ==> resource[i] == '/'
    ensures |r| > 0 ==> r[0] != '/'
  {
    TrimStartMatches(resource, '/')
  }

  /** Normalising twice is normalising once. */
  lemma NormalizeIdempotent(resource: string)
    ensures NormalizeResource(NormalizeResource(resource)) == NormalizeResource(resource)
  {
    var r := NormalizeResource(resource);
    TrimStartByKept(r, y => y == '/');
  }

  /** The index files probed in a directory, in order (requests.rs:266). */
  const IndexFiles: seq<string> := ["index.html", "index"]

  /** `resolve_resource_path` (requests.rs:261-276): in a directory the first
      index file that exists is served instead; the flag says whether the
      result is still a directory to list. */
  function ResolveResourcePath(resource: string, documentRoot: string, fs: FileSystem): (r: (string, bool))
    ensures var path := PathJoin(documentRoot, resource);
      && (!fs.isDir(path) ==> r == (resource, false))
      && (r.1 <==> fs.isDir(path) && forall i :: 0 <= i < |IndexFiles| ==> !fs.present(PathJoin(path, IndexFiles[i])))
      && (fs.isDir(path) && !r.1 ==>
            exists i :: 0 <= i < |IndexFiles|
              && r.0 == resource + "/" + IndexFiles[i]
              && fs.present(PathJoin(path, IndexFiles[i]))
              && forall j :: 0 <= j < i ==> !fs.present(PathJoin(path, IndexFiles[j])))
  {
    var path := PathJoin(documentRoot, resource);
    if fs.isDir(path) then
      if fs.present(PathJoin(path, IndexFiles[0])) then (resource + "/" + IndexFiles[0], false)
      else if fs.present(PathJoin(path, IndexFiles[1])) then (resource + "/" + IndexFiles[1], false)
      else (resource, true)
    else (resource, false)
  }

  /** The methods an OPTIONS answer lists (requests.rs:375-378). */
  function AllowedMethods(enableTrace: bool): (r: seq<string>)
    ensures "TRACE" in r <==> enableTrace
    ensures forall i :: 0 <= i < |r| ==> r[i] in Methods
    ensures |r| >= 4 && r[..4] == ["GET", "HEAD", "POST", "OPTIONS"]
  {
    ["GET", "HEAD", "POST", "OPTIONS"] + (if enableTrace then ["TRACE"] else [])
  }

  /** `handle_options` (requests.rs:374-382): the arguments it passes to
      `send_response`. */
  function HandleOptions(enableTrace: bool): Response.Outgoing {
    Response.Outgoing(204, Some(map["Allow" := Join(AllowedMethods(enableTrace), ", ")]), None, None, None)
  }

  /** An OPTIONS answer is a `204 No Content` with no body whose head carries
      an `Allow` line; that line lists the allowed methods unless a global
      header of the same name replaces it. */
  lemma OptionsAnswer(enableTrace: bool, cfg: Response.ServerConfig, env: Response.Environment,
                      headerOrder: seq<string>, cookieOrder: seq<string>, cookieLine: Response.CookieRenderer)
    requires Response.Enumerates(HandleOptions(enableTrace), cfg, headerOrder, cookieOrder)
    ensures var r := Response.SendResponse(HandleOptions(enableTrace), cfg, env, headerOrder, cookieOrder, cookieLine);
      var merged := Response.MergeHeaders(map["Allow" := Join(AllowedMethods(enableTrace), ", ")], Response.GlobalHeaders(cfg));
      && r.Ok?
      && r.value.lines[0] == Response.StatusLine(204, "No Content")
      && r.value.body == []
      && "Allow" in merged
      && Response.HeaderLine("Allow", merged["Allow"]) in r.value.lines
      && ("Allow" !in Response.GlobalHeaders(cfg) ==> merged["Allow"] == Join(AllowedMethods(enableTrace), ", "))
  {
    assert Response.ReasonPhrase(204) == Some("No Content");
  }

  /* ---------------------------------------------------------------------
     Access control
     --------------------------------------------------------------------- */

  /** The access-control configuration: which resources are allowed (the
      configuration's `is_access_allowed`) and the status a denied request is
      answered with. */
  datatype AccessControl = AccessControl(isAllowed: string -> bool, denyAction: nat)

  /** The endpoint page rendered for a denial (requests.rs:197): `not_found`
      for 404 and `forbidden` for every other status. */
  function DeniedPage(denyAction: nat): (page: string)
    ensures page == "not_found" <==> denyAction == 404
    ensures page == "forbidden" <==> denyAction != 404
  {
    if denyAction == 404 then "not_found" else "forbidden"
  }

  /** `process_and_send_response` (requests.rs:225-259): the endpoint's content
      is sent only under a `content-type` that parses; one that does not is
      removed; an encoding, chosen under empty request headers
      (requests.rs:388-397), adds its two headers; the status is the caller's. */
  function PageResponse(status: nat, call: Forbidden.EndpointCall,
                        parseMime: Forbidden.MimeParser, choose: Forbidden.EncodingChooser): (r: Response.Outgoing)
    ensures r.status == status && r.cookies == Some(call.cookies)
    ensures r.resourceType == Some(Response.Dynamic)
    ensures r.content.Some? <==> Forbidden.SendsBody(call, parseMime)
    ensures Forbidden.SendsBody(call, parseMime) ==>
      var (mimeType, generalType) := parseMime(call.headers["content-type"]).value;
      && r.content == call.content.value
      && r.headers == Some(Forbidden.WithEncoding(call.headers, choose(call.content.value.value, mimeType, generalType, map[])))
    ensures call.content.Ok? && call.content.value.Some? && "content-type" in call.headers
            && parseMime(call.headers["content-type"]).None? ==>
      r.headers == Some(call.headers - {"content-type"})
    ensures call.content.Err? || call.content.value.None? || "content-type" !in call.headers ==>
      r.headers == Some(call.headers)
  {
    match (call.content, Response.Lookup(call.headers, "content-type"))
    case (Ok(Some(c)), Some(ct)) =>
      (match parseMime(ct)
       case Some((mimeType, generalType)) =>
         var h := Forbidden.WithEncoding(call.headers, choose(c, mimeType, generalType, map[]));
         Response.Outgoing(status, Some(h), Some(c), Some(call.cookies), Some(Response.Dynamic))
       case None =>
         Response.Outgoing(status, Some(call.headers - {"content-type"}), None, Some(call.cookies), Some(Response.Dynamic)))
    case _ =>
      Response.Outgoing(status, Some(call.headers), None, Some(call.cookies), Some(Response.Dynamic))
  }

  /** The encoding chosen for the endpoint's content does not depend on
      whether the request headers or no headers are consulted. */
  predicate EncodingIgnoresRequest(call: Forbidden.EndpointCall, requestHeaders: map<string, string>,
                                   parseMime: Forbidden.MimeParser, choose: Forbidden.EncodingChooser)
  {
    Forbidden.SendsBody(call, parseMime) ==>
      var (mimeType, generalType) := parseMime(call.headers["content-type"]).value;
      var c := call.content.value.value;
      choose(c, mimeType, generalType, requestHeaders) == choose(c, mimeType, generalType, map[])
  }

  /** The 403 answer built here and the one the `forbidden` page handler
      builds for a request with headers `requestHeaders`: without a body they
      differ only in the resource type they pass along; with one, they are
      the same exactly when the two encoding choices leave the same headers,
      which they do when the choice ignores the request headers (as it does
      for a request without headers). */
  lemma DenialAgreesWithForbiddenPage(call: Forbidden.EndpointCall, requestHeaders: map<string, string>,
                                      parseMime: Forbidden.MimeParser, choose: Forbidden.EncodingChooser)
    ensures var mine := PageResponse(403, call, parseMime, choose);
      var theirs := Forbidden.ForbiddenResponse(call, requestHeaders, parseMime, choose);
      && (!Forbidden.SendsBody(call, parseMime) ==> mine == theirs.(resourceType := Some(Response.Dynamic)))
      && (Forbidden.SendsBody(call, parseMime) ==> (mine == theirs <==> mine.headers == theirs.headers))
      && (EncodingIgnoresRequest(call, requestHeaders, parseMime, choose) ==> mine.headers == theirs.headers)
      && EncodingIgnoresRequest(call, map[], parseMime, choose)
  {
  }

  /** The outcome of the access check: the denial answer sent, if any, and
      whether the handler goes on to resolve and serve the resource. */
  datatype AccessCheck = AccessCheck(denial: Option<Response.Outgoing>, proceeds: bool)

  /** `check_access_control` as written (requests.rs:190-202): a denied
      resource is answered with the denial page, and then, unless sending
      that answer failed, `Ok(())` lets `handle_common` go on to serve the
      resource anyway.  `page` is what the named endpoint leaves behind. */
  function CheckAccessAsWritten(ac: Option<AccessControl>, resource: string,
                                page: string -> Forbidden.EndpointCall,
                                parseMime: Forbidden.MimeParser, choose: Forbidden.EncodingChooser): (r: AccessCheck)
    ensures ac.None? || ac.value.isAllowed(resource) ==> r == AccessCheck(None, true)
    ensures ac.Some? && !ac.value.isAllowed(resource) ==>
      r.denial.Some? && r.denial.value.status == ac.value.denyAction
      && (r.proceeds <==> Response.ReasonPhrase(ac.value.denyAction).Some?)
  {
    match ac
    case None => AccessCheck(None, true)
    case Some(control) =>
      if control.isAllowed(resource) then AccessCheck(None, true)
      else
        var status := control.denyAction;
        var out := PageResponse(status, page(DeniedPage(status)), parseMime, choose);
        AccessCheck(Some(out), Response.ReasonPhrase(status).Some?)
  }

  /** A resource denied with 403 gets the forbidden page and is then served
      all the same. */
  lemma DeniedResourceStillServed(ac: AccessControl, resource: string,
                                  page: string -> Forbidden.EndpointCall,
                                  parseMime: Forbidden.MimeParser, choose: Forbidden.EncodingChooser)
    requires !ac.isAllowed(resource) && ac.denyAction == 403
    ensures var r := CheckAccessAsWritten(Some(ac), resource, page, parseMime, choose);
      r.denial.Some? && r.denial.value.status == 403 && r.proceeds
  {
    assert Response.ReasonPhrase(403).Some?;
  }

  /** `check_access_control` as evidently intended: a denied request is
      answered with the denial page and goes no further. */
  function CheckAccess(ac: Option<AccessControl>, resource: string,
                       page: string -> Forbidden.EndpointCall,
                       parseMime: Forbidden.MimeParser, choose: Forbidden.EncodingChooser): (r: AccessCheck)
    ensures r.proceeds <==> ac.None? || ac.value.isAllowed(resource)
    ensures r.denial.Some? <==> !r.proceeds
    ensures r.denial.Some? ==>
      r.denial.value == PageResponse(ac.value.denyAction, page(DeniedPage(ac.value.denyAction)), parseMime, choose)
  {
    match ac
    case None => AccessCheck(None, true)
    case Some(control) =>
      if control.isAllowed(resource) then AccessCheck(None, true)
      else
        var status := control.denyAction;
        AccessCheck(Some(PageResponse(status, page(DeniedPage(status)), parseMime, choose)), false)
  }

  /** The corrected check sends the same denial as the one written and differs
      only in stopping there. */
  lemma CheckAccessSameDenial(ac: Option<AccessControl>, resource: string,
                              page: string -> Forbidden.EndpointCall,
                              parseMime: Forbidden.MimeParser, choose: Forbidden.EncodingChooser)
    ensures CheckAccess(ac, resource, page, parseMime, choose).denial ==
            CheckAccessAsWritten(ac, resource, page, parseMime, choose).denial
  {
  }
}
