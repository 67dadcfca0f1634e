/** The body of a POST, PUT or PATCH request as `receive_request` decodes it
    (src/util.rs:358-516): the `Content-Length` gate, the `Content-Encoding`
    gate, and the two body formats, `application/x-www-form-urlencoded` and
    `multipart/form-data`.

    The bytes the single buffered read delivers are a parameter, and so are
    the gzip and brotli decompressors. */
module Receive {
  import opened Wrappers
  import opened Errors
  import opened Text
  import opened Bytes
  import opened Requests
  import Response

  /** The configuration fields the decoder reads. */
  datatype BodyConfig = BodyConfig(
    maxContentLength: nat,
    supportedEncodings: Option<seq<string>>)

  /** The foreign decompressors, each `None` on failure. */
  datatype Decoders = Decoders(
    gunzip: seq<byte> -> Option<seq<byte>>,
    unbrotli: seq<byte> -> Option<seq<byte>>)

  /** The byte of an ASCII character. */
  function Ascii(c: char): (b: byte)
    requires c as int < 0x80
    ensures b == c as int
  {
    c as int
  }

  /* ---------------------------------------------------------------------
     Content-Length
     --------------------------------------------------------------------- */

  /** `headers.get("content-length").unwrap_or("0").parse::<usize>()`. */
  function DeclaredLength(headers: map<string, string>): (r: Option<nat>)
    ensures "content-length" !in headers ==> r == Some(0)
    ensures r.Some? ==> r.value <= Response.UsizeMax
  {
    var text := if "content-length" in headers then headers["content-length"] else "0";
    assert "0"[0] == '0';
    ParseUnsigned(text, Response.UsizeMax)
  }

  /* ---------------------------------------------------------------------
     Content-Encoding
     --------------------------------------------------------------------- */

  /** The payload after the `Content-Encoding` gate: the buffer itself when
      no encoding is declared; its gzip or brotli decompression when that
      encoding is declared and configured; an error otherwise. */
  function DecodeContent(encoding: Option<string>, supported: Option<seq<string>>,
                         buffer: seq<byte>, dec: Decoders): (r: Result<seq<byte>, ServerError>)
    ensures encoding.None? ==> r == Ok(buffer)
    ensures encoding.Some? && (supported.None? || encoding.value !in supported.value) ==>
      r == Err(UnsupportedEncoding)
    ensures encoding.Some? && r.Ok? ==>
      || (encoding.value == "gzip" && dec.gunzip(buffer) == Some(r.value))
      || (encoding.value == "br" && dec.unbrotli(buffer) == Some(r.value))
    ensures r.Err? ==> r.error == UnsupportedEncoding || r.error == DecompressionError
  {
    match (encoding, supported)
    case (Some(ce), Some(list)) =>
      if ce !in list then Err(UnsupportedEncoding)
      else if ce == "gzip" then
        (match dec.gunzip(buffer) case None => Err(DecompressionError) case Some(p) => Ok(p))
      else if ce == "br" then
        (match dec.unbrotli(buffer) case None => Err(DecompressionError) case Some(p) => Ok(p))
      else Err(UnsupportedEncoding)
    case (Some(_), None) => Err(UnsupportedEncoding)
    case (None, _) => Ok(buffer)
  }

  /** A configured encoding is undone by its decompressor, and a failing
      decompressor is reported as such. */
  lemma ConfiguredEncoding(ce: string, list: seq<string>, buffer: seq<byte>, dec: Decoders)
    requires ce in list && (ce == "gzip" || ce == "br")
    ensures var d := if ce == "gzip" then dec.gunzip(buffer) else dec.unbrotli(buffer);
      DecodeContent(Some(ce), Some(list), buffer, dec) ==
        (if d.Some? then Ok(d.value) else Err(DecompressionError))
  {
  }

  /** Any other configured encoding, `identity` or `deflate` say, is refused. */
  lemma OtherEncodingRefused(ce: string, list: seq<string>, buffer: seq<byte>, dec: Decoders)
    requires ce != "gzip" && ce != "br"
    ensures DecodeContent(Some(ce), Some(list), buffer, dec) == Err(UnsupportedEncoding)
  {
  }

  /* ---------------------------------------------------------------------
     Percent-decoding (the `urlencoding` crate)
     --------------------------------------------------------------------- */

  predicate IsHexDigit(b: byte) {
    48 <= b <= 57 || 65 <= b <= 70 || 97 <= b <= 102
  }

  function HexValue(b: byte): (v: nat)
    requires IsHexDigit(b)
    ensures v < 16
  {
    if b <= 57 then b - 48 else if b <= 70 then b - 55 else b - 87
  }

  /** `urlencoding::decode_binary`: each `%` followed by two hex digits
      becomes the byte they spell; every other byte, a `%` without two hex
      digits after it included, is kept.  A `+` stays a `+`. */
  function PercentDecode(b: seq<byte>): (r: seq<byte>)
    ensures |r| <= |b|
    ensures 37 !in b ==> r == b
    decreases |b|
  {
    if |b| == 0 then []
    else if b[0] == 37 && |b| >= 3 && IsHexDigit(b[1]) && IsHexDigit(b[2]) then
      [16 * HexValue(b[1]) + HexValue(b[2])] + PercentDecode(b[3..])
    else
      [b[0]] + PercentDecode(b[1..])
  }

  /** `urlencoding::decode`: the percent-decoded bytes as a string, `None`
      when they are not UTF-8. */
  function UrlDecode(s: string): (r: Option<string>)
    ensures '%' !in s ==> r == Some(s)
  {
    var b := Utf8Encode(s);
    if '%' !in s then
      NoPercentEncoded(s);
      DecodeEncode(s);
      Utf8Decode(PercentDecode(b))
    else Utf8Decode(PercentDecode(b))
  }

  /** The encoding of a string without `%` holds no `%` byte. */
  lemma {:induction false} NoPercentEncoded(s: string)
    requires '%' !in s
    ensures 37 !in Utf8Encode(s)
    decreases |s|
  {
    if |s| > 0 {
      NoPercentEncoded(s[1..]);
      var e := EncodeChar(s[0]);
      assert s[0] != '%';
      assert 37 !in e;
    }
  }

  /* The client side: percent-encoding (section 2.1 of RFC 3986). */

  /** The unreserved characters of section 2.3 of RFC 3986. */
  predicate IsUnreserved(b: byte) {
    48 <= b <= 57 || 65 <= b <= 90 || 97 <= b <= 122 || b == 45 || b == 46 || b == 95 || b == 126
  }

  /** The upper-case hex digit of `d`. */
  function HexDigit(d: nat): (b: byte)
    requires d < 16
    ensures IsHexDigit(b) && HexValue(b) == d
  {
    if d < 10 then 48 + d else 55 + d
  }

  /** One byte as it travels: itself when unreserved, `%XX` otherwise. */
  function EncodeByte(b: byte): (r: seq<byte>)
    ensures forall i :: 0 <= i < |r| ==> r[i] < 0x80 && r[i] != 38 && r[i] != 61
  {
    if IsUnreserved(b) then [b] else [37, HexDigit(b / 16), HexDigit(b % 16)]
  }

  function PercentEncode(b: seq<byte>): (r: seq<byte>)
    ensures forall i :: 0 <= i < |r| ==> r[i] < 0x80 && r[i] != 38 && r[i] != 61
    decreases |b|
  {
    if |b| == 0 then [] else
      var head := EncodeByte(b[0]);
      var rest := PercentEncode(b[1..]);
      assert forall i :: |head| <= i < |head| + |rest| ==> (head + rest)[i] == rest[i - |head|];
      head + rest
  }

  /** A string percent-encoded for a form body; it has no `&` and no `=`. */
  function UrlEncode(s: string): (r: string)
    ensures IsAscii(r) && '&' !in r && '=' !in r
    ensures Utf8Encode(r) == PercentEncode(Utf8Encode(s))
  {
    var e := PercentEncode(Utf8Encode(s));
    var r := seq(|e|, i requires 0 <= i < |e| => e[i] as char);
    assert forall i :: 0 <= i < |r| ==> r[i] as int == e[i];
    EncodeAscii(r);
    r
  }

  /** Decoding undoes encoding, byte by byte. */
  lemma {:induction false} PercentDecodeEncode(b: seq<byte>)
    ensures PercentDecode(PercentEncode(b)) == b
    decreases |b|
  {
    if |b| > 0 {
      var rest := b[1..];
      PercentDecodeEncode(rest);
      assert PercentEncode(b) == EncodeByte(b[0]) + PercentEncode(rest);
      DecodeEncodedByte(b[0], PercentEncode(rest));
      assert b == [b[0]] + rest;
    }
  }

  /** The decoder reads one encoded byte back and goes on with the rest. */
  lemma DecodeEncodedByte(b: byte, rest: seq<byte>)
    ensures PercentDecode(EncodeByte(b) + rest) == [b] + PercentDecode(rest)
  {
    var s := EncodeByte(b) + rest;
    if IsUnreserved(b) {
      assert s[1..] == rest;
    } else {
      assert s[3..] == rest;
      assert 16 * (b / 16) + b % 16 == b;
    }
  }

  /** `urlencoding::decode` reads back what the client encoded. */
  lemma UrlRoundTrip(s: string)
    ensures UrlDecode(UrlEncode(s)) == Some(s)
  {
    PercentDecodeEncode(Utf8Encode(s));
    DecodeEncode(s);
  }

  /* ---------------------------------------------------------------------
     application/x-www-form-urlencoded
     --------------------------------------------------------------------- */

  /** The content type that selects the form decoder; the `;` is part of it. */
  const UrlEncodedPrefix: string := "application/x-www-form-urlencoded;"

  /** The fields of the `&`-separated pieces, inserted into `acc` left to
      right: each piece needs an `=`, both halves must decode, and a name may
      not come twice. */
  function CollectFields(pieces: seq<string>, acc: map<string, string>): (r: Result<map<string, string>, ServerError>)
    ensures r.Err? ==> r.error == MalformedPayload
    ensures r.Ok? ==> acc.Keys <= r.value.Keys && |r.value| <= |acc| + |pieces|
    ensures r.Ok? ==> forall k :: k in acc ==> r.value[k] == acc[k]
    decreases |pieces|
  {
    if |pieces| == 0 then Ok(acc)
    else match SplitOnce(pieces[0], '=')
      case None => Err(MalformedPayload)
      case Some((k, v)) =>
        match (UrlDecode(k), UrlDecode(v))
        case (Some(name), Some(value)) =>
          if name in acc then Err(MalformedPayload)
          else
            var acc' := acc[name := value];
            assert forall k :: k in acc ==> k in acc' && acc'[k] == acc[k];
            CollectFields(pieces[1..], acc')
        case _ => Err(MalformedPayload)
  }

  /** The form fields of a payload, read as lossy UTF-8 and split on `&`. */
  function ParseUrlEncoded(payload: seq<byte>): (r: Result<map<string, string>, ServerError>)
    ensures r.Err? ==> r.error == MalformedPayload
  {
    CollectFields(Split(Utf8DecodeLossy(payload), '&'), map[])
  }

  /** Each string percent-encoded. */
  function Encoded(xs: seq<string>): (r: seq<string>)
    ensures |r| == |xs| && forall i :: 0 <= i < |xs| ==> r[i] == UrlEncode(xs[i])
  {
    seq(|xs|, i requires 0 <= i < |xs| => UrlEncode(xs[i]))
  }

  /** The `name=value` pieces of a form body, both halves percent-encoded. */
  function FormPieces(names: seq<string>, values: seq<string>): seq<string>
    requires |names| == |values|
  {
    QueryPieces(Encoded(names), Encoded(values))
  }

  /** The form body: its pieces joined with `&`. */
  function FormText(names: seq<string>, values: seq<string>): string
    requires |names| == |values|
  {
    Join(FormPieces(names, values), "&")
  }

  /** The first field of a form, and the form of the remaining fields. */
  lemma FormPiecesCons(names: seq<string>, values: seq<string>)
    requires |names| == |values| > 0
    ensures FormPieces(names, values) ==
      [UrlEncode(names[0]) + "=" + UrlEncode(values[0])] + FormPieces(names[1..], values[1..])
  {
    var ps := FormPieces(names, values);
    var qs := FormPieces(names[1..], values[1..]);
    assert |ps| == |qs| + 1;
    forall i | 0 < i < |ps|
      ensures ps[i] == qs[i - 1]
    {
    }
  }

  /** An encoded piece inserts its decoded field unless the name is taken. */
  lemma FieldPiece(n: string, v: string, rest: seq<string>, acc: map<string, string>)
    ensures CollectFields([UrlEncode(n) + "=" + UrlEncode(v)] + rest, acc) ==
      (if n in acc then Err(MalformedPayload) else CollectFields(rest, acc[n := v]))
  {
    var pieces := [UrlEncode(n) + "=" + UrlEncode(v)] + rest;
    assert pieces[1..] == rest;
    SplitOnceFirst(UrlEncode(n), '=', UrlEncode(v));
    UrlRoundTrip(n);
    UrlRoundTrip(v);
  }

  /** A piece without `=` makes the whole payload malformed, wherever it is. */
  lemma {:induction false} NoEqualsRejected(pieces: seq<string>, acc: map<string, string>, k: nat)
    requires k < |pieces| && '=' !in pieces[k]
    ensures CollectFields(pieces, acc) == Err(MalformedPayload)
    decreases k
  {
    var next := CollectFirst(pieces, acc);
    if k > 0 && next.Some? {
      assert pieces[1..][k - 1] == pieces[k];
      NoEqualsRejected(pieces[1..], next.value, k - 1);
    }
  }

  /** The first piece either makes the payload malformed or leaves the rest
      to be read into a larger map. */
  lemma CollectFirst(pieces: seq<string>, acc: map<string, string>) returns (next: Option<map<string, string>>)
    requires |pieces| > 0
    ensures next.None? ==> CollectFields(pieces, acc) == Err(MalformedPayload)
    ensures next.Some? ==> CollectFields(pieces, acc) == CollectFields(pieces[1..], next.value)
    ensures '=' !in pieces[0] ==> next.None?
  {
    next := None;
    match SplitOnce(pieces[0], '=')
    case None =>
    case Some((a, b)) =>
      match (UrlDecode(a), UrlDecode(b))
      case (Some(n), Some(v)) =>
        if n !in acc {
          next := Some(acc[n := v]);
        }
      case _ =>
  }

  /** The pieces of an encoded form are its fields, inserted in order. */
  lemma {:induction false} CollectEncoded(names: seq<string>, values: seq<string>, acc: map<string, string>)
    requires |names| == |values|
    requires forall i, j :: 0 <= i < j < |names| ==> names[i] != names[j]
    requires forall i :: 0 <= i < |names| ==> names[i] !in acc
    ensures var r := CollectFields(FormPieces(names, values), acc);
      && r.Ok?
      && (forall k :: k in r.value <==> k in acc || k in names)
      && (forall k :: k in acc ==> r.value[k] == acc[k])
      && (forall i :: 0 <= i < |names| ==> r.value[names[i]] == values[i])
    decreases |names|
  {
    if |names| > 0 {
      var ns, vs, acc' := names[1..], values[1..], acc[names[0] := values[0]];
      FormPiecesCons(names, values);
      FieldPiece(names[0], values[0], FormPieces(ns, vs), acc);
      TailFresh(names, values[0], acc);
      CollectEncoded(ns, vs, acc');
      FieldsOfCons(names, values, acc, CollectFields(FormPieces(ns, vs), acc').value);
    } else {
      assert FormPieces(names, values) == [];
    }
  }

  /** The names after the first are distinct and not yet in the map once the
      first is inserted. */
  lemma TailFresh(names: seq<string>, v: string, acc: map<string, string>)
    requires |names| > 0
    requires forall i, j :: 0 <= i < j < |names| ==> names[i] != names[j]
    requires forall i :: 0 <= i < |names| ==> names[i] !in acc
    ensures forall i, j :: 0 <= i < j < |names[1..]| ==> names[1..][i] != names[1..][j]
    ensures forall i :: 0 <= i < |names[1..]| ==> names[1..][i] !in acc[names[0] := v]
  {
    var ns := names[1..];
    assert forall i :: 0 <= i < |ns| ==> ns[i] == names[i + 1];
  }

  /** The fields read after the first one, with the first one inserted
      before them, are the fields of all the names. */
  lemma FieldsOfCons(names: seq<string>, values: seq<string>, acc: map<string, string>, r: map<string, string>)
    requires |names| == |values| > 0
    requires forall i :: 0 <= i < |names| ==> names[i] !in acc
    requires var acc' := acc[names[0] := values[0]];
      && (forall k :: k in r <==> k in acc' || k in names[1..])
      && (forall k :: k in acc' ==> r[k] == acc'[k])
      && (forall i :: 0 <= i < |names[1..]| ==> r[names[1..][i]] == values[1..][i])
    ensures forall k :: k in r <==> k in acc || k in names
    ensures forall k :: k in acc ==> r[k] == acc[k]
    ensures forall i :: 0 <= i < |names| ==> r[names[i]] == values[i]
  {
    assert forall k :: k in names <==> k == names[0] || k in names[1..];
    assert forall i :: 0 < i < |names| ==> names[i] == names[1..][i - 1] && values[i] == values[1..][i - 1];
  }

  /** The form body splits into its pieces. */
  lemma SplitForm(names: seq<string>, values: seq<string>)
    requires |names| == |values| > 0
    ensures Split(Utf8DecodeLossy(Utf8Encode(FormText(names, values))), '&') == FormPieces(names, values)
  {
    LossyOfEncode(FormText(names, values));
    ReadPieces(Encoded(names), Encoded(values));
    SplitJoin(FormPieces(names, values), '&');
  }

  /** A form body read back: exactly its fields, when the names are
      distinct. */
  lemma UrlEncodedRoundTrip(names: seq<string>, values: seq<string>)
    requires |names| == |values| > 0
    requires forall i, j :: 0 <= i < j < |names| ==> names[i] != names[j]
    ensures var r := ParseUrlEncoded(Utf8Encode(FormText(names, values)));
      && r.Ok?
      && (forall k :: k in r.value <==> k in names)
      && (forall i :: 0 <= i < |names| ==> r.value[names[i]] == values[i])
  {
    SplitForm(names, values);
    CollectEncoded(names, values, map[]);
  }

  /** A name given twice makes the payload malformed. */
  lemma DuplicateFieldRejected(name: string, v1: string, v2: string)
    ensures ParseUrlEncoded(Utf8Encode(FormText([name, name], [v1, v2]))) == Err(MalformedPayload)
  {
    SplitForm([name, name], [v1, v2]);
    FormPiecesCons([name, name], [v1, v2]);
    FormPiecesCons([name], [v2]);
    var last := FormPieces([name], [v2]);
    FieldPiece(name, v1, last, map[]);
    FieldPiece(name, v2, FormPieces([], []), map[name := v1]);
  }

  /** An empty payload, or one with an empty piece, is malformed: every
      piece needs its `=`. */
  lemma EmptyPieceRejected(a: string, b: string)
    requires '&' !in a
    ensures ParseUrlEncoded(Utf8Encode(a + "&&" + b)) == Err(MalformedPayload)
    ensures ParseUrlEncoded([]) == Err(MalformedPayload)
  {
    var t := a + "&&" + b;
    LossyOfEncode(t);
    assert t == a + ['&'] + ("&" + b);
    SplitCons(a, '&', "&" + b);
    assert "&" + b == [] + ['&'] + b;
    SplitCons([], '&', b);
    NoEqualsRejected(Split(t, '&'), map[], 1);
    var empty: string := [];
    assert Split(empty, '&') == [[]] by {
      ContainsSingle(empty, '&');
    }
  }

  /* ---------------------------------------------------------------------
     multipart/form-data
     --------------------------------------------------------------------- */

  /** `[[:alnum:]]`. */
  predicate IsAlnumByte(b: byte) {
    48 <= b <= 57 || 65 <= b <= 90 || 97 <= b <= 122
  }

  /** The value class of the part-header pattern (util.rs:47-49): printable
      ASCII, the space included, except the backslash. */
  predicate IsValueByte(b: byte) {
    32 <= b <= 126 && b != 92
  }

  /** The name group `[[:alnum:]]+(([-_])[[:alnum:]]+)*`: alphanumeric runs
      joined by single hyphens or underscores. */
  predicate IsPartHeaderName(n: seq<byte>) {
    && |n| > 0 && IsAlnumByte(n[0]) && IsAlnumByte(n[|n| - 1])
    && (forall i :: 0 <= i < |n| ==> IsAlnumByte(n[i]) || n[i] == 45 || n[i] == 95)
    && (forall i :: 0 <= i < |n| - 1 && !IsAlnumByte(n[i]) ==> IsAlnumByte(n[i + 1]))
  }

  /** `HEADERS_REGEX.is_match(line)`: a name, `:` and one or more value
      bytes up to the end.  The optional space after the colon is itself a
      value byte, so it needs no case of its own; the name holds no `:`, so
      the colon of the match is the first one. */
  predicate IsPartHeaderLine(line: seq<byte>) {
    match SplitOnce(line, 58)
    case None => false
    case Some((name, value)) =>
      IsPartHeaderName(name) && |value| > 0 && forall i :: 0 <= i < |value| ==> IsValueByte(value[i])
  }

  /** The pattern as the regex reads it: some colon splits the line into a
      name and a non-empty run of value bytes. */
  predicate MatchesAt(line: seq<byte>, p: nat) {
    && p + 1 < |line| && line[p] == 58 && IsPartHeaderName(line[..p])
    && forall i :: p < i < |line| ==> IsValueByte(line[i])
  }

  /** A colon that ends a valid name is the first colon of the line. */
  lemma MatchAtMeansLine(line: seq<byte>, p: nat)
    requires MatchesAt(line, p)
    ensures IsPartHeaderLine(line)
  {
    assert forall i :: 0 <= i < p ==> line[..p][i] != 58;
    assert line == line[..p] + [58] + line[p + 1..];
    SplitOnceFirst(line[..p], 58, line[p + 1..]);
    var value := line[p + 1..];
    assert forall i :: 0 <= i < |value| ==> value[i] == line[p + 1 + i];
  }

  lemma LineMeansMatchAt(line: seq<byte>)
    requires IsPartHeaderLine(line)
    ensures MatchesAt(line, |SplitOnce(line, 58).value.0|)
  {
    var (name, value) := SplitOnce(line, 58).value;
    var p := |name|;
    assert line[..p] == name;
    assert forall i :: p < i < |line| ==> line[i] == value[i - p - 1];
  }

  /** The first-colon reading agrees with the regex. */
  lemma PartHeaderLineMatches(line: seq<byte>)
    ensures IsPartHeaderLine(line) <==> exists p: nat :: MatchesAt(line, p)
  {
    if IsPartHeaderLine(line) {
      LineMeansMatchAt(line);
    }
    if p: nat :| MatchesAt(line, p) {
      MatchAtMeansLine(line, p);
    }
  }

  /** The part headers from line `i` on, while they match the pattern: the
      index of the first line that does not, and the headers read, each name
      trimmed and lower-cased and each value trimmed.  A matching line with
      no line after it makes the payload malformed. */
  function PartHeaders(lines: seq<seq<byte>>, i: nat, hs: map<string, string>):
    (r: Result<(nat, map<string, string>), ServerError>)
    requires i < |lines|
    ensures r.Err? ==> r.error == MalformedPayload
    ensures r.Ok? ==> i <= r.value.0 < |lines| && !IsPartHeaderLine(lines[r.value.0])
    decreases |lines| - i
  {
    if !IsPartHeaderLine(lines[i]) then Ok((i, hs))
    else if i + 1 >= |lines| then Err(MalformedPayload)
    else match SplitOnce(lines[i], 58)
      case None => Err(MalformedPayload)
      case Some((n, v)) =>
        PartHeaders(lines, i + 1, hs[ToLower(Utf8DecodeLossy(TrimAscii(n))) := Utf8DecodeLossy(TrimAscii(v))])
  }

  /** The `=`-separated value of a `Content-Disposition` parameter, quotes
      trimmed. */
  function ParamValue(param: string): (r: Option<string>)
    ensures r.None? <==> '=' !in param
  {
    match SplitOnce(param, '=')
    case None => None
    case Some((_, v)) => Some(TrimMatches(v, '"'))
  }

  /** One part between two delimiters: the line after the delimiter is
      skipped, the header lines follow, then a line that must be blank, then
      the single line that is the value.  The `Content-Disposition` header
      must read `form-data; name=...`, with an optional third parameter that
      is the file name. */
  function ParsePart(field: seq<byte>): (r: Result<(string, FormDataValue), ServerError>)
    ensures r.Err? ==> r.error == MalformedPayload
    ensures r.Ok? ==> !Contains(r.value.1.value, CRLF)
    ensures r.Ok? ==> "content-disposition" in r.value.1.headers
  {
    var lines := SplitAt(field, CRLF)[1..];
    SplitAtPieces(field, CRLF);
    assert forall l :: l in lines ==> !Contains(l, CRLF);
    PartOfLines(lines)
  }

  /** The part read from its lines: the headers, the blank line, then the
      value on the single line after it. */
  function PartOfLines(lines: seq<seq<byte>>): (r: Result<(string, FormDataValue), ServerError>)
    ensures r.Err? ==> r.error == MalformedPayload
    ensures r.Ok? ==> r.value.1.value in lines
    ensures r.Ok? ==> "content-disposition" in r.value.1.headers
  {
    if |lines| == 0 then Err(MalformedPayload)
    else match PartHeaders(lines, 0, map[])
      case Err(e) => Err(e)
      case Ok((j, hs)) => PartAfterHeaders(lines, j, hs)
  }

  /** The part once its headers `hs` are read and line `j` ends them: the
      disposition must be `form-data` with a name, line `j` must be blank
      and the value is the line after it. */
  function PartAfterHeaders(lines: seq<seq<byte>>, j: nat, hs: map<string, string>):
    (r: Result<(string, FormDataValue), ServerError>)
    ensures r.Err? ==> r.error == MalformedPayload
    ensures r.Ok? ==> j + 1 < |lines| && r.value.1.value == lines[j + 1]
    ensures r.Ok? ==> r.value.1.headers == hs && "content-disposition" in hs
  {
    if "content-disposition" !in hs || j + 1 >= |lines| then Err(MalformedPayload)
    else
      var disp := Split(hs["content-disposition"], ';');
      if |disp| < 2 || TrimStart(disp[0]) != "form-data" || |TrimAscii(lines[j])| != 0 then Err(MalformedPayload)
      else match ParamValue(disp[1])
        case None => Err(MalformedPayload)
        case Some(name) =>
          if |disp| >= 3 && ParamValue(disp[2]).None? then Err(MalformedPayload)
          else
            var filename := if |disp| >= 3 then ParamValue(disp[2]) else None;
            Ok((name, FormDataValue(filename, hs, lines[j + 1])))
  }

  /** The parts in order, a later part overwriting an earlier one of the same
      name, up to a part that is only `--` after trimming: the close
      delimiter, after which nothing is read. */
  function CollectParts(fields: seq<seq<byte>>, acc: map<string, FormDataValue>):
    (r: Result<map<string, FormDataValue>, ServerError>)
    ensures r.Err? ==> r.error == MalformedPayload
    ensures r.Ok? ==> acc.Keys <= r.value.Keys
    decreases |fields|
  {
    if |fields| == 0 || TrimAscii(fields[0]) == [45, 45] then Ok(acc)
    else match ParsePart(fields[0])
      case Err(e) => Err(e)
      case Ok((name, part)) => CollectParts(fields[1..], acc[name := part])
  }

  /** The parts of a payload cut at each `--boundary`; what precedes the
      first delimiter is the preamble and is skipped. */
  function ParseMultipart(payload: seq<byte>, boundary: string): (r: Result<map<string, FormDataValue>, ServerError>)
    ensures r.Err? ==> r.error == MalformedPayload
  {
    CollectParts(SplitAt(payload, [45, 45] + Utf8Encode(boundary))[1..], map[])
  }

  /** Every part kept has a single-line value. */
  lemma {:induction false} CollectedSingleLine(fields: seq<seq<byte>>, acc: map<string, FormDataValue>)
    requires forall k :: k in acc ==> !Contains(acc[k].value, CRLF)
    requires CollectParts(fields, acc).Ok?
    ensures forall k :: k in CollectParts(fields, acc).value ==> !Contains(CollectParts(fields, acc).value[k].value, CRLF)
    decreases |fields|
  {
    if |fields| > 0 && TrimAscii(fields[0]) != [45, 45] {
      var (name, part) := ParsePart(fields[0]).value;
      CollectedSingleLine(fields[1..], acc[name := part]);
    }
  }

  /** A field's value is one line: whatever followed its first line break
      up to the next delimiter is dropped. */
  lemma MultipartValuesSingleLine(payload: seq<byte>, boundary: string)
    requires ParseMultipart(payload, boundary).Ok?
    ensures forall k :: k in ParseMultipart(payload, boundary).value ==>
      !Contains(ParseMultipart(payload, boundary).value[k].value, CRLF)
  {
    CollectedSingleLine(SplitAt(payload, [45, 45] + Utf8Encode(boundary))[1..], map[]);
  }

  /** Nothing after the close delimiter is read. */
  lemma CloseDelimiterStops(close: seq<byte>, rest: seq<seq<byte>>, acc: map<string, FormDataValue>)
    requires TrimAscii(close) == [45, 45]
    ensures CollectParts([close] + rest, acc) == Ok(acc)
  {
  }

  /* A part as a client writes it (section 4 of RFC 7578). */

  /** The parameters of the `Content-Disposition` line of a field named
      `name`, as the part's header map keeps them. */
  function DispositionValue(name: string): string {
    "form-data; name=\"" + name + "\""
  }

  /** The disposition line, its header name spelt `hname`. */
  function DispositionText(hname: string, name: string): string {
    hname + ":" + (" " + DispositionValue(name))
  }

  /** A spelling of the header name `content-disposition` that the part
      header pattern accepts. */
  predicate IsDispositionName(hname: string) {
    IsAscii(hname) && IsPartHeaderName(Utf8Encode(hname)) && ToLower(hname) == "content-disposition"
  }

  /** A field between two delimiters: the end of the delimiter line, the
      disposition header, a blank line, the value and its line break. */
  function PartBytes(hname: string, name: string, value: seq<byte>): seq<byte> {
    CRLF + (Utf8Encode(DispositionText(hname, name)) + (CRLF + (CRLF + (value + CRLF))))
  }

  /** `--` and the boundary. */
  function Delimiter(boundary: string): (r: seq<byte>)
    ensures |r| >= 2
  {
    [45, 45] + Utf8Encode(boundary)
  }

  /** Names made of ASCII letters and digits. */
  predicate IsPlainName(name: string) {
    forall i :: 0 <= i < |name| ==> IsAsciiAlnum(name[i])
  }

  /** A line break is two bytes that differ, so a piece free of it stays
      free of it up to the next break. */
  lemma CrlfSplitCons(a: seq<byte>, b: seq<byte>)
    requires !Contains(a, CRLF)
    ensures SplitAt(a + (CRLF + b), CRLF) == [a] + SplitAt(b, CRLF)
  {
    var s := a + CRLF + b;
    assert a + (CRLF + b) == s;
    forall j: nat | j < |a|
      ensures !IsAt(s, CRLF, j)
    {
      if j + 2 <= |a| {
        assert s[j..j + 2] == a[j..j + 2];
        assert !IsAt(a, CRLF, j);
      } else {
        assert s[j + 1] == 13;
      }
    }
    SplitAtCons(a, CRLF, b);
  }

  /** Printable text holds no line break. */
  lemma PrintableNoCrlf(s: string)
    requires IsAscii(s) && forall i :: 0 <= i < |s| ==> s[i] as int >= 32
    ensures !Contains(Utf8Encode(s), CRLF)
  {
    EncodeAscii(s);
    var e := Utf8Encode(s);
    forall j: nat | j + 2 <= |e|
      ensures !IsAt(e, CRLF, j)
    {
      assert e[j] == s[j] as int;
    }
  }

  /** The bytes of a header name spelling are its characters. */
  lemma DispositionNameBytes(hname: string)
    requires IsDispositionName(hname)
    ensures var e := Utf8Encode(hname);
      && |e| == |hname| > 0 && 58 !in e
      && (forall i :: 0 <= i < |hname| ==> e[i] == hname[i] as int && 45 <= e[i] < 0x80)
      && IsAlnumByte(e[0])
      && ToLower(Utf8DecodeLossy(TrimAscii(e))) == "content-disposition"
  {
    var e := Utf8Encode(hname);
    EncodeAscii(hname);
    TrimStartByKept(e, IsAsciiWhitespace);
    TrimEndByKept(e, IsAsciiWhitespace);
    LossyOfEncode(hname);
  }

  /** The parameters are printable, start with `f` and end with a quote. */
  lemma DispositionValueBytes(name: string)
    requires IsPlainName(name)
    ensures var v := DispositionValue(name);
      && IsAscii(v) && |Utf8Encode(v)| == |v| > 0
      && (forall i :: 0 <= i < |v| ==> Utf8Encode(v)[i] == v[i] as int && IsValueByte(v[i] as int))
      && Utf8Encode(v)[0] == 102 && Utf8Encode(v)[|v| - 1] == 34
  {
    var v := DispositionValue(name);
    ValueChars(name);
    EncodeAscii(v);
  }

  /** The disposition line is the name bytes, a colon, and the parameters
      after a space. */
  lemma DispositionShape(hname: string, name: string)
    requires IsPlainName(name)
    ensures var v := Utf8Encode(DispositionValue(name));
      Utf8Encode(DispositionText(hname, name)) == Utf8Encode(hname) + [58] + ([32] + v)
  {
    var v := DispositionValue(name);
    Utf8EncodeAppend(hname + ":", " " + v);
    Utf8EncodeAppend(hname, ":");
    Utf8EncodeAppend(" ", v);
    assert Utf8Encode(":") == [58];
    assert Utf8Encode(" ") == [32];
  }

  /** A header name spelling is ASCII from `-` up. */
  lemma NameChars(hname: string)
    requires IsDispositionName(hname)
    ensures forall i :: 0 <= i < |hname| ==> 45 <= hname[i] as int < 0x80
  {
    EncodeAscii(hname);
  }

  /** The parameters are printable ASCII without a backslash. */
  lemma ValueChars(name: string)
    requires IsPlainName(name)
    ensures var v := DispositionValue(name);
      forall i :: 0 <= i < |v| ==> 32 <= v[i] as int < 0x80 && v[i] != '\\'
  {
    var v := DispositionValue(name);
    var pre := "form-data; name=\"";
    assert v == pre + name + "\"";
    forall i | 0 <= i < |v|
      ensures 32 <= v[i] as int < 0x80 && v[i] != '\\'
    {
      if i < |pre| {
        assert v[i] == pre[i];
      } else if i < |pre| + |name| {
        assert v[i] == name[i - |pre|];
      } else {
        assert v[i] == '"';
      }
    }
  }

  /** The characters of the disposition line are printable ASCII. */
  lemma DispositionChars(hname: string, name: string)
    requires IsDispositionName(hname) && IsPlainName(name)
    ensures var t := DispositionText(hname, name);
      IsAscii(t) && forall i :: 0 <= i < |t| ==> t[i] as int >= 32
  {
    var t := DispositionText(hname, name);
    var v := DispositionValue(name);
    NameChars(hname);
    ValueChars(name);
    assert t == hname + ":" + " " + v;
    forall i | 0 <= i < |t|
      ensures 32 <= t[i] as int < 0x80
    {
      if i < |hname| {
        assert t[i] == hname[i];
      } else if i < |hname| + 2 {
      } else {
        assert t[i] == v[i - |hname| - 2];
      }
    }
  }

  /** The disposition line holds no line break and starts with the name. */
  lemma DispositionLineBytes(hname: string, name: string)
    requires IsDispositionName(hname) && IsPlainName(name)
    ensures !Contains(Utf8Encode(DispositionText(hname, name)), CRLF)
    ensures Utf8Encode(DispositionText(hname, name))[0] == Utf8Encode(hname)[0]
  {
    DispositionChars(hname, name);
    PrintableNoCrlf(DispositionText(hname, name));
    DispositionShape(hname, name);
    DispositionNameBytes(hname);
  }

  /** The lines of a part: the disposition header, a blank line, the value
      and an empty rest. */
  lemma PartLines(hname: string, name: string, value: seq<byte>)
    requires IsDispositionName(hname) && IsPlainName(name) && !Contains(value, CRLF)
    ensures SplitAt(PartBytes(hname, name, value), CRLF)[1..] ==
      [Utf8Encode(DispositionText(hname, name)), [], value, []]
  {
    DispositionLineBytes(hname, name);
    BrokenLines(Utf8Encode(DispositionText(hname, name)), value);
  }

  /** A line break, a line, a blank line and a value with its line break
      split into an empty first piece, then the line, the blank line, the
      value and an empty rest. */
  lemma BrokenLines(d: seq<byte>, value: seq<byte>)
    requires !Contains(d, CRLF) && !Contains(value, CRLF)
    ensures SplitAt(CRLF + (d + (CRLF + (CRLF + (value + CRLF)))), CRLF)[1..] == [d, [], value, []]
  {
    var blank := CRLF + (value + CRLF);
    BlankThenValue(value);
    CrlfSplitCons(d, blank);
    SplitAtLeading(CRLF, d + (CRLF + blank));
    DropLeading([], [d] + [[], value, []]);
  }

  /** A blank line, the value and its line break split into an empty piece,
      the value and an empty rest. */
  lemma BlankThenValue(value: seq<byte>)
    requires !Contains(value, CRLF)
    ensures SplitAt(CRLF + (value + CRLF), CRLF) == [[], value, []]
  {
    var none: seq<byte> := [];
    assert value + CRLF == value + (CRLF + none);
    CrlfSplitCons(value, none);
    SplitAtAbsent(none, CRLF);
    SplitAtLeading(CRLF, value + CRLF);
  }

  /** The value after the colon trims to the parameters. */
  lemma DispositionValueTrimmed(name: string)
    requires IsPlainName(name)
    ensures Utf8DecodeLossy(TrimAscii([32] + Utf8Encode(DispositionValue(name)))) == DispositionValue(name)
  {
    var v := DispositionValue(name);
    var e := Utf8Encode(v);
    DispositionValueBytes(name);
    var s := [32] + e;
    assert s[1..] == e;
    TrimStartByKept(e, IsAsciiWhitespace);
    assert TrimStartBy(s, IsAsciiWhitespace) == e;
    TrimEndByKept(e, IsAsciiWhitespace);
    LossyOfEncode(v);
  }

  /** The disposition line is a part header, split at its colon. */
  lemma DispositionHeader(hname: string, name: string)
    requires IsDispositionName(hname) && IsPlainName(name)
    ensures var line := Utf8Encode(DispositionText(hname, name));
      && IsPartHeaderLine(line)
      && SplitOnce(line, 58) == Some((Utf8Encode(hname), [32] + Utf8Encode(DispositionValue(name))))
  {
    DispositionShape(hname, name);
    DispositionNameBytes(hname);
    var v := Utf8Encode(DispositionValue(name));
    SplitOnceFirst(Utf8Encode(hname), 58, [32] + v);
    ParamsAreValueBytes(name);
  }

  /** What follows the colon is a non-empty run of value bytes. */
  lemma ParamsAreValueBytes(name: string)
    requires IsPlainName(name)
    ensures var w := [32] + Utf8Encode(DispositionValue(name));
      |w| > 0 && forall i :: 0 <= i < |w| ==> IsValueByte(w[i])
  {
    var v := Utf8Encode(DispositionValue(name));
    DispositionValueBytes(name);
    var w := [32] + v;
    assert forall i :: 1 <= i < |w| ==> w[i] == v[i - 1];
  }

  /** Quotes around a plain name are trimmed away. */
  lemma QuotesTrimmed(n: string)
    requires IsPlainName(n)
    ensures TrimMatches("\"" + n + "\"", '"') == n
  {
    if |n| > 0 {
      assert IsAsciiAlnum(n[0]) && IsAsciiAlnum(n[|n| - 1]);
    }
    assert "\"" + n + "\"" == ['"'] + n + ['"'];
    TrimMatchesEnclosed(n, '"');
  }

  /** The parameter after `form-data;`. */
  function NameParam(name: string): string {
    " name=\"" + name + "\""
  }

  /** The disposition parameters split at their one `;`. */
  lemma DispositionSplit(name: string)
    requires IsPlainName(name)
    ensures Split(DispositionValue(name), ';') == ["form-data", NameParam(name)]
  {
    var rest := NameParam(name);
    assert DispositionValue(name) == "form-data" + [';'] + rest;
    NoSemicolonInParam(name);
    assert ';' !in "form-data";
    SplitTwo("form-data", ';', rest);
  }

  lemma NoSemicolonInParam(name: string)
    requires IsPlainName(name)
    ensures ';' !in NameParam(name)
  {
    var rest := NameParam(name);
    assert forall i :: 7 <= i < 7 + |name| ==> rest[i] == name[i - 7];
    assert forall i :: 0 <= i < |rest| ==> rest[i] != ';';
  }

  /** The name parameter reads back as the name. */
  lemma NameParamValue(name: string)
    requires IsPlainName(name)
    ensures ParamValue(NameParam(name)) == Some(name)
  {
    var quoted := "\"" + name + "\"";
    assert NameParam(name) == " name" + ['='] + quoted;
    SplitOnceFirst(" name", '=', quoted);
    QuotesTrimmed(name);
  }

  /** The disposition parameters split into `form-data` and the name. */
  lemma DispositionParams(name: string)
    requires IsPlainName(name)
    ensures var disp := Split(DispositionValue(name), ';');
      && |disp| == 2 && TrimStart(disp[0]) == "form-data"
      && ParamValue(disp[1]) == Some(name)
  {
    DispositionSplit(name);
    TrimStartByKept("form-data", IsWhitespace);
    NameParamValue(name);
  }

  /** `line` is a part header line cut at its colon into `n` and `v`, the
      name reads as `content-disposition` and the value as `form-data` with
      the parameter `name`. */
  predicate NamingDispositionLine(line: seq<byte>, n: seq<byte>, v: seq<byte>, name: string) {
    && IsPartHeaderLine(line) && SplitOnce(line, 58) == Some((n, v))
    && ToLower(Utf8DecodeLossy(TrimAscii(n))) == "content-disposition"
    && var disp := Split(Utf8DecodeLossy(TrimAscii(v)), ';');
       |disp| == 2 && TrimStart(disp[0]) == "form-data" && ParamValue(disp[1]) == Some(name)
  }

  /** The disposition line is a part header whose name reads as
      `content-disposition` and whose value reads as the parameters. */
  lemma DispositionLineRead(hname: string, name: string) returns (n: seq<byte>, v: seq<byte>)
    requires IsDispositionName(hname) && IsPlainName(name)
    ensures NamingDispositionLine(Utf8Encode(DispositionText(hname, name)), n, v, name)
    ensures Utf8DecodeLossy(TrimAscii(v)) == DispositionValue(name)
  {
    n, v := Utf8Encode(hname), [32] + Utf8Encode(DispositionValue(name));
    DispositionHeader(hname, name);
    DispositionNameBytes(hname);
    DispositionValueTrimmed(name);
    DispositionParams(name);
  }

  /** One part header line followed by a blank line: the headers are that
      line's name and value, and they end at the blank line. */
  lemma OneHeaderRead(lines: seq<seq<byte>>, n: seq<byte>, v: seq<byte>)
    requires |lines| > 1 && |lines[1]| == 0
    requires IsPartHeaderLine(lines[0]) && SplitOnce(lines[0], 58) == Some((n, v))
    ensures PartHeaders(lines, 0, map[]) ==
      Ok((1, map[ToLower(Utf8DecodeLossy(TrimAscii(n))) := Utf8DecodeLossy(TrimAscii(v))]))
  {
    HeaderLineRead(lines, 0, map[], n, v);
    BlankNotPartHeader(lines[1]);
  }

  /** A blank line is no part header: it has no colon. */
  lemma BlankNotPartHeader(line: seq<byte>)
    requires |line| == 0
    ensures !IsPartHeaderLine(line)
  {
    assert 58 !in line;
  }

  /** A part header line with a line after it adds its trimmed, lower-cased
      name and its trimmed value. */
  lemma HeaderLineRead(lines: seq<seq<byte>>, i: nat, hs: map<string, string>, n: seq<byte>, v: seq<byte>)
    requires i + 1 < |lines| && IsPartHeaderLine(lines[i]) && SplitOnce(lines[i], 58) == Some((n, v))
    ensures PartHeaders(lines, i, hs) ==
      PartHeaders(lines, i + 1, hs[ToLower(Utf8DecodeLossy(TrimAscii(n))) := Utf8DecodeLossy(TrimAscii(v))])
  {
  }

  /** Headers with a `form-data` disposition and a name, a blank line after
      them and a line after that give the part of that name. */
  lemma NamedPart(lines: seq<seq<byte>>, j: nat, hs: map<string, string>, name: string)
    requires "content-disposition" in hs && j + 1 < |lines| && |TrimAscii(lines[j])| == 0
    requires var disp := Split(hs["content-disposition"], ';');
      |disp| == 2 && TrimStart(disp[0]) == "form-data" && ParamValue(disp[1]) == Some(name)
    ensures PartAfterHeaders(lines, j, hs) == Ok((name, FormDataValue(None, hs, lines[j + 1])))
  {
  }

  lemma TrimAsciiEmpty()
    ensures TrimAscii([]) == []
  {
  }

  /** A field written by a client reads back as its name, its one header and
      its value. */
  lemma ParseSimplePart(hname: string, name: string, value: seq<byte>)
    requires IsDispositionName(hname) && IsPlainName(name) && !Contains(value, CRLF)
    ensures ParsePart(PartBytes(hname, name, value)) ==
      Ok((name, FormDataValue(None, map["content-disposition" := DispositionValue(name)], value)))
  {
    var line := Utf8Encode(DispositionText(hname, name));
    var lines := SplitAt(PartBytes(hname, name, value), CRLF)[1..];
    PartLines(hname, name, value);
    FourLines(lines, line, value);
    var n, v := DispositionLineRead(hname, name);
    DispositionLinePart(lines, n, v, name);
  }

  /** The lines of such a part, read one by one. */
  lemma FourLines(lines: seq<seq<byte>>, line: seq<byte>, value: seq<byte>)
    requires lines == [line, [], value, []]
    ensures |lines| == 4 && lines[0] == line && |lines[1]| == 0 && lines[2] == value
  {
  }

  /** A part whose one header line is a `form-data` disposition naming
      `name`, followed by the blank line, has that name and the line after
      the blank one as its value. */
  lemma DispositionLinePart(lines: seq<seq<byte>>, n: seq<byte>, v: seq<byte>, name: string)
    requires |lines| > 2 && |lines[1]| == 0 && NamingDispositionLine(lines[0], n, v, name)
    ensures PartOfLines(lines) ==
      Ok((name, FormDataValue(None, map["content-disposition" := Utf8DecodeLossy(TrimAscii(v))], lines[2])))
  {
    OneHeaderRead(lines, n, v);
    TrimAsciiEmpty();
    NamedPart(lines, 1, map["content-disposition" := Utf8DecodeLossy(TrimAscii(v))], name);
  }

  /* A whole payload as a client writes it (section 5.1.1 of RFC 2046). */

  /** A boundary character (`bchars` of section 5.1.1 of RFC 2046). */
  predicate IsBoundaryChar(c: char) {
    IsAsciiAlnum(c) || c in "'()+_,-./:=? "
  }

  /** A boundary: one to seventy boundary characters, not ending in a space. */
  predicate IsBoundary(boundary: string) {
    0 < |boundary| <= 70 && boundary[|boundary| - 1] != ' '
    && forall i :: 0 <= i < |boundary| ==> IsBoundaryChar(boundary[i])
  }

  /** The close delimiter's tail: `--` and a line break. */
  const CloseTail: seq<byte> := [45, 45, 13, 10]

  /** One field a client sends: the spelling of its disposition header's
      name, the field name, and the value. */
  datatype ClientField = ClientField(hname: string, name: string, value: seq<byte>)

  /** A field the parser can read back: a disposition header spelling, a
      plain name and a value on one line. */
  predicate IsClientField(f: ClientField) {
    IsDispositionName(f.hname) && IsPlainName(f.name) && !Contains(f.value, CRLF)
  }

  /** The bytes of a field between two delimiters. */
  function FieldBytes(f: ClientField): seq<byte> {
    PartBytes(f.hname, f.name, f.value)
  }

  /** What the parser makes of a field. */
  function FieldValue(f: ClientField): FormDataValue {
    FormDataValue(None, map["content-disposition" := DispositionValue(f.name)], f.value)
  }

  /** No delimiter begins inside the field's bytes. */
  predicate DelimiterFree(f: ClientField, boundary: string) {
    forall j: nat :: j < |FieldBytes(f)| ==>
      !IsAt(FieldBytes(f) + Delimiter(boundary), Delimiter(boundary), j)
  }

  /** The fields after the first delimiter: each followed by a delimiter,
      the last by the close tail. */
  function FieldsAndClose(boundary: string, fs: seq<ClientField>): seq<byte>
    decreases |fs|
  {
    if |fs| == 0 then CloseTail
    else FieldBytes(fs[0]) + (Delimiter(boundary) + FieldsAndClose(boundary, fs[1..]))
  }

  /** The payload of `fs` delimited by `boundary`. */
  function MultipartBody(boundary: string, fs: seq<ClientField>): seq<byte> {
    Delimiter(boundary) + FieldsAndClose(boundary, fs)
  }

  /** The fields entered in order, a later one replacing an earlier one of
      the same name. */
  function EnterFields(fs: seq<ClientField>, acc: map<string, FormDataValue>): (r: map<string, FormDataValue>)
    decreases |fs|
  {
    if |fs| == 0 then acc else EnterFields(fs[1..], acc[fs[0].name := FieldValue(fs[0])])
  }

  /** Trimming a line break off the front stops at the first kept byte. */
  lemma TrimAfterBreak(s: seq<byte>)
    requires |s| > 0 && !IsAsciiWhitespace(s[0])
    ensures |TrimAscii(CRLF + s)| > 0 && TrimAscii(CRLF + s)[0] == s[0]
  {
    var t := CRLF + s;
    assert t[1..][1..] == s;
    TrimStartByKept(s, IsAsciiWhitespace);
    assert TrimStartBy(t, IsAsciiWhitespace) == s;
  }

  /** Bytes after a line break that start with a letter or digit do not
      trim to `--`. */
  lemma NotCloseAfterBreak(d: seq<byte>, rest: seq<byte>)
    requires |d| > 0 && IsAlnumByte(d[0])
    ensures TrimAscii(CRLF + (d + rest)) != [45, 45]
  {
    TrimAfterBreak(d + rest);
  }

  /** A field is not mistaken for the close delimiter. */
  lemma FieldNotClose(f: ClientField)
    requires IsClientField(f)
    ensures TrimAscii(FieldBytes(f)) != [45, 45]
  {
    var d := Utf8Encode(DispositionText(f.hname, f.name));
    DispositionLineBytes(f.hname, f.name);
    DispositionNameBytes(f.hname);
    NotCloseAfterBreak(d, CRLF + (CRLF + (f.value + CRLF)));
  }

  /** The close tail holds no delimiter: the byte after a delimiter's `--`
      is a boundary character, never a line-break byte. */
  lemma CloseTailFree(boundary: string)
    requires IsBoundary(boundary)
    ensures !Contains(CloseTail, Delimiter(boundary))
  {
    var d := Delimiter(boundary);
    EncodeAscii(boundary);
    assert d[2] == boundary[0] as int;
    forall i: nat | i <= |CloseTail|
      ensures !IsAt(CloseTail, d, i)
    {
      if i + |d| <= |CloseTail| {
        assert CloseTail[i + 2] != d[2];
        assert CloseTail[i..i + |d|][2] != d[2];
      }
    }
  }

  /** The pieces after the first delimiter are the fields, then the close
      tail. */
  lemma {:induction false} FieldsSplit(boundary: string, fs: seq<ClientField>)
    requires IsBoundary(boundary)
    requires forall i :: 0 <= i < |fs| ==> DelimiterFree(fs[i], boundary)
    ensures var pieces := SplitAt(FieldsAndClose(boundary, fs), Delimiter(boundary));
      && |pieces| == |fs| + 1 && pieces[|fs|] == CloseTail
      && forall i :: 0 <= i < |fs| ==> pieces[i] == FieldBytes(fs[i])
    decreases |fs|
  {
    var d := Delimiter(boundary);
    if |fs| == 0 {
      CloseTailFree(boundary);
      SplitAtAbsent(CloseTail, d);
    } else {
      var part := FieldBytes(fs[0]);
      var rest := FieldsAndClose(boundary, fs[1..]);
      assert FieldsAndClose(boundary, fs) == part + d + rest;
      forall j: nat | j < |part|
        ensures !IsAt(part + d + rest, d, j)
      {
        IsAtPrefix(part + d, rest, d, j);
      }
      SplitAtCons(part, d, rest);
      FieldsSplit(boundary, fs[1..]);
    }
  }

  /** The close tail trims to `--`. */
  lemma CloseTailTrims()
    ensures TrimAscii(CloseTail) == [45, 45]
  {
    var dash: seq<byte> := [45, 45];
    TrimStartByKept(CloseTail, IsAsciiWhitespace);
    assert CloseTail[..3] == dash + [13];
    assert (dash + [13])[..2] == dash;
    TrimEndByKept(dash, IsAsciiWhitespace);
  }

  /** Pieces that each parse as a field, closed by the close tail, collect
      to the fields entered in order. */
  lemma {:induction false} CollectClientFields(fs: seq<ClientField>, pieces: seq<seq<byte>>, acc: map<string, FormDataValue>)
    requires |pieces| == |fs| + 1 && pieces[|fs|] == CloseTail
    requires forall i :: 0 <= i < |fs| ==>
      TrimAscii(pieces[i]) != [45, 45] && ParsePart(pieces[i]) == Ok((fs[i].name, FieldValue(fs[i])))
    ensures CollectParts(pieces, acc) == Ok(EnterFields(fs, acc))
    decreases |fs|
  {
    if |fs| == 0 {
      CloseTailTrims();
      CloseDelimiterStops(CloseTail, [], acc);
      assert pieces == [CloseTail] + [];
    } else {
      CollectStep(pieces, acc, fs[0].name, FieldValue(fs[0]));
      CollectClientFields(fs[1..], pieces[1..], acc[fs[0].name := FieldValue(fs[0])]);
    }
  }

  /** A part that parses is entered and collection goes on with the rest. */
  lemma CollectStep(pieces: seq<seq<byte>>, acc: map<string, FormDataValue>, name: string, v: FormDataValue)
    requires |pieces| > 0 && TrimAscii(pieces[0]) != [45, 45] && ParsePart(pieces[0]) == Ok((name, v))
    ensures CollectParts(pieces, acc) == CollectParts(pieces[1..], acc[name := v])
  {
  }

  /** A field's bytes are not the close delimiter and parse as the field. */
  lemma FieldParses(f: ClientField)
    requires IsClientField(f)
    ensures TrimAscii(FieldBytes(f)) != [45, 45]
    ensures ParsePart(FieldBytes(f)) == Ok((f.name, FieldValue(f)))
  {
    FieldNotClose(f);
    ParseSimplePart(f.hname, f.name, f.value);
  }

  /** A payload a client writes reads back as its fields: a later field
      replaces an earlier one of the same name. */
  lemma MultipartRoundTrip(boundary: string, fs: seq<ClientField>)
    requires IsBoundary(boundary)
    requires forall i :: 0 <= i < |fs| ==> IsClientField(fs[i]) && DelimiterFree(fs[i], boundary)
    ensures ParseMultipart(MultipartBody(boundary, fs), boundary) == Ok(EnterFields(fs, map[]))
  {
    var d := Delimiter(boundary);
    var rest := FieldsAndClose(boundary, fs);
    SplitAtLeading(d, rest);
    FieldsSplit(boundary, fs);
    var pieces := SplitAt(rest, d);
    forall i | 0 <= i < |fs|
      ensures TrimAscii(pieces[i]) != [45, 45] && ParsePart(pieces[i]) == Ok((fs[i].name, FieldValue(fs[i])))
    {
      FieldParses(fs[i]);
    }
    CollectClientFields(fs, pieces, map[]);
  }

  /** Every field name is a key of the entered map, and no other key is
      added. */
  lemma {:induction false} EnterFieldsKeys(fs: seq<ClientField>, acc: map<string, FormDataValue>, k: string)
    ensures k in EnterFields(fs, acc) <==> k in acc || exists i :: 0 <= i < |fs| && fs[i].name == k
    decreases |fs|
  {
    if |fs| > 0 {
      EnterFieldsKeys(fs[1..], acc[fs[0].name := FieldValue(fs[0])], k);
      if exists i :: 0 <= i < |fs[1..]| && fs[1..][i].name == k {
        var i :| 0 <= i < |fs[1..]| && fs[1..][i].name == k;
        assert fs[i + 1].name == k;
      }
      if exists i :: 0 <= i < |fs| && fs[i].name == k {
        var i :| 0 <= i < |fs| && fs[i].name == k;
        if i > 0 {
          assert fs[1..][i - 1].name == k;
        }
      }
    }
  }

  /** The entered value of a name is that of its last field. */
  lemma {:induction false} EnterFieldsLast(fs: seq<ClientField>, acc: map<string, FormDataValue>, i: nat)
    requires i < |fs|
    requires forall j :: i < j < |fs| ==> fs[j].name != fs[i].name
    ensures fs[i].name in EnterFields(fs, acc)
    ensures EnterFields(fs, acc)[fs[i].name] == FieldValue(fs[i])
    decreases |fs|
  {
    var acc' := acc[fs[0].name := FieldValue(fs[0])];
    if i == 0 {
      EnterFieldsUntouched(fs[1..], acc', fs[0].name);
    } else {
      EnterFieldsLast(fs[1..], acc', i - 1);
    }
  }

  /** A name no field carries keeps its accumulated value. */
  lemma {:induction false} EnterFieldsUntouched(fs: seq<ClientField>, acc: map<string, FormDataValue>, k: string)
    requires k in acc
    requires forall j :: 0 <= j < |fs| ==> fs[j].name != k
    ensures k in EnterFields(fs, acc) && EnterFields(fs, acc)[k] == acc[k]
    decreases |fs|
  {
    if |fs| > 0 {
      EnterFieldsUntouched(fs[1..], acc[fs[0].name := FieldValue(fs[0])], k);
    }
  }

  /** The media type decides the decoder: the form prefix (with its `;`)
      selects the form decoder; any other type must carry a `;`, must be
      `multipart/form-data` before it, and must name a boundary after it. */
  function DecodeBody(contentType: Option<string>, payload: seq<byte>): (r: Result<RequestBody, ServerError>)
    ensures contentType.None? ==> r == Err(UnsupportedMediaType)
    ensures contentType.Some? && !StartsWith(contentType.value, UrlEncodedPrefix) && ';' !in contentType.value ==>
      r == Err(MalformedPayload)
    ensures r.Ok? && r.value.XWWWFormUrlEncoded? ==> StartsWith(contentType.value, UrlEncodedPrefix)
    ensures r.Ok? && r.value.FormData? ==>
      exists mime, params :: contentType.value == mime + ";" + params && TrimEnd(mime) == "multipart/form-data"
  {
    match contentType
    case None => Err(UnsupportedMediaType)
    case Some(ct) =>
      if StartsWith(ct, UrlEncodedPrefix) then
        (match ParseUrlEncoded(payload)
         case Err(e) => Err(e)
         case Ok(fields) => Ok(XWWWFormUrlEncoded(fields)))
      else match SplitOnce(ct, ';')
        case None => Err(MalformedPayload)
        case Some((mime, raw)) =>
          if TrimEnd(mime) != "multipart/form-data" then Err(UnsupportedMediaType)
          else match SplitOnce(TrimEndMatches(raw, ';'), '=')
            case None => Err(MalformedPayload)
            case Some((_, b)) =>
              match ParseMultipart(payload, TrimMatches(b, '"'))
              case Err(e) => Err(e)
              case Ok(parts) => Ok(FormData(parts))
  }

  /** A media type with parameters other than the two supported ones is
      unsupported. */
  lemma OtherMediaTypeUnsupported(mime: string, params: string, payload: seq<byte>)
    requires ';' !in mime && TrimEnd(mime) != "multipart/form-data"
    requires !StartsWith(mime + ";" + params, UrlEncodedPrefix)
    ensures DecodeBody(Some(mime + ";" + params), payload) == Err(UnsupportedMediaType)
  {
    SplitOnceFirst(mime, ';', params);
  }

  /** A bare `application/json`, which has no `;`, is reported as a
      malformed payload and not as an unsupported media type. */
  lemma BareJsonMalformed(payload: seq<byte>)
    ensures DecodeBody(Some("application/json"), payload) == Err(MalformedPayload)
  {
    var ct := "application/json";
    assert !StartsWith(ct, UrlEncodedPrefix) by {
      assert |ct| < |UrlEncodedPrefix|;
    }
    assert forall i :: 0 <= i < |ct| ==> ct[i] != ';';
  }

  /** The urlencoded form prefix without its `;` selects nothing: the form
      decoder is not reached. */
  lemma PrefixNeedsSemicolon(payload: seq<byte>)
    ensures DecodeBody(Some("application/x-www-form-urlencoded"), payload) == Err(MalformedPayload)
  {
    var ct := "application/x-www-form-urlencoded";
    assert !StartsWith(ct, UrlEncodedPrefix) by {
      assert |ct| < |UrlEncodedPrefix|;
    }
    assert forall i :: 0 <= i < |ct| ==> ct[i] != ';';
  }

  /** The media type a client sends with a multipart payload. */
  function MultipartType(boundary: string): string {
    "multipart/form-data; boundary=" + boundary
  }

  /** The multipart media type is not the form type and splits at its
      `;` into the bare type and the boundary parameter. */
  lemma MultipartTypeSplits(boundary: string)
    ensures var ct := MultipartType(boundary);
      && !StartsWith(ct, UrlEncodedPrefix)
      && SplitOnce(ct, ';') == Some(("multipart/form-data", " boundary=" + boundary))
      && TrimEnd("multipart/form-data") == "multipart/form-data"
  {
    var mime := "multipart/form-data";
    var raw := " boundary=" + boundary;
    var ct := MultipartType(boundary);
    assert ct == mime + [';'] + raw;
    assert ct[0] != UrlEncodedPrefix[0];
    assert ';' !in mime;
    SplitOnceFirst(mime, ';', raw);
    TrimEndByKept(mime, IsWhitespace);
  }

  /** The boundary parameter names the boundary. */
  lemma BoundaryParamNames(boundary: string)
    requires IsBoundary(boundary)
    ensures var raw := " boundary=" + boundary;
      && SplitOnce(TrimEndMatches(raw, ';'), '=') == Some((" boundary", boundary))
      && TrimMatches(boundary, '"') == boundary
  {
    var raw := " boundary=" + boundary;
    assert raw[|raw| - 1] == boundary[|boundary| - 1];
    TrimEndMatchesKept(raw, ';');
    assert raw == " boundary" + ['='] + boundary;
    assert '=' !in " boundary";
    SplitOnceFirst(" boundary", '=', boundary);
    TrimMatchesKept(boundary, '"');
  }

  /** The multipart media type selects the multipart decoder with the named
      boundary. */
  lemma MultipartTypeDecodes(boundary: string, payload: seq<byte>)
    requires IsBoundary(boundary)
    ensures DecodeBody(Some(MultipartType(boundary)), payload) ==
      match ParseMultipart(payload, boundary)
      case Ok(parts) => Ok(FormData(parts))
      case Err(e) => Err(e)
  {
    MultipartTypeSplits(boundary);
    BoundaryParamNames(boundary);
  }

  /** A payload a client writes under its multipart media type decodes to
      its fields. */
  lemma MultipartBodyDecodes(boundary: string, fs: seq<ClientField>)
    requires IsBoundary(boundary)
    requires forall i :: 0 <= i < |fs| ==> IsClientField(fs[i]) && DelimiterFree(fs[i], boundary)
    ensures DecodeBody(Some(MultipartType(boundary)), MultipartBody(boundary, fs)) ==
      Ok(FormData(EnterFields(fs, map[])))
  {
    MultipartTypeDecodes(boundary, MultipartBody(boundary, fs));
    MultipartRoundTrip(boundary, fs);
  }

  /* ---------------------------------------------------------------------
     The whole body
     --------------------------------------------------------------------- */

  /** The variants whose body `receive_request` reads. */
  predicate CarriesBody(req: Request) {
    req.Post? || req.Put? || req.Patch?
  }

  /** The request with its body filled in. */
  function WithBody(req: Request, body: RequestBody): (r: Request)
    requires CarriesBody(req)
    ensures CarriesBody(r) && MethodName(r) == MethodName(req)
    ensures r.resource == req.resource && r.headers == req.headers && r.data == Some(body)
  {
    match req
    case Post(res, params, h, _) => Post(res, params, h, Some(body))
    case Put(res, h, _) => Put(res, h, Some(body))
    case Patch(res, h, _) => Patch(res, h, Some(body))
  }

  /** What `receive_request` does after parsing the head: requests without a
      body pass unchanged; otherwise a declared length of zero (or none)
      passes unchanged, an unparsable one is invalid, one above the maximum
      is too large, and the bytes read are decompressed and decoded into the
      request's body. */
  function ReceiveBody(req: Request, buffer: seq<byte>, cfg: BodyConfig, dec: Decoders): (r: Result<Request, ServerError>)
    ensures !CarriesBody(req) ==> r == Ok(req)
    ensures CarriesBody(req) && DeclaredLength(req.headers).None? ==> r == Err(InvalidRequest)
    ensures CarriesBody(req) && DeclaredLength(req.headers) == Some(0) ==> r == Ok(req)
    ensures CarriesBody(req) && DeclaredLength(req.headers).Some? && DeclaredLength(req.headers).value > cfg.maxContentLength ==>
      r == Err(BodyTooLarge)
    ensures r.Ok? && r.value != req ==>
      && CarriesBody(req) && 0 < DeclaredLength(req.headers).value <= cfg.maxContentLength
      && CarriesBody(r.value) && r.value.data.Some? && r.value == WithBody(req, r.value.data.value)
  {
    if !CarriesBody(req) then Ok(req)
    else match DeclaredLength(req.headers)
      case None => Err(InvalidRequest)
      case Some(l) =>
        if l == 0 then Ok(req)
        else if l > cfg.maxContentLength then Err(BodyTooLarge)
        else
          var encoding := if "content-encoding" in req.headers then Some(req.headers["content-encoding"]) else None;
          match DecodeContent(encoding, cfg.supportedEncodings, buffer, dec)
          case Err(e) => Err(e)
          case Ok(payload) =>
            var contentType := if "content-type" in req.headers then Some(req.headers["content-type"]) else None;
            match DecodeBody(contentType, payload)
            case Err(e) => Err(e)
            case Ok(body) => Ok(WithBody(req, body))
  }

  /** A form posted with its length and no encoding comes back as its
      fields. */
  lemma PostedFormRoundTrip(res: string, h: map<string, string>, names: seq<string>, values: seq<string>,
                            cfg: BodyConfig, dec: Decoders)
    requires cfg.maxContentLength <= Response.UsizeMax
    requires |names| == |values| > 0
    requires forall i, j :: 0 <= i < j < |names| ==> names[i] != names[j]
    requires "content-encoding" !in h && "content-type" in h && StartsWith(h["content-type"], UrlEncodedPrefix)
    requires var n := |Utf8Encode(FormText(names, values))|;
      "content-length" in h && h["content-length"] == Decimal(n) && 0 < n <= cfg.maxContentLength
    ensures var r := ReceiveBody(Post(res, None, h, None), Utf8Encode(FormText(names, values)), cfg, dec);
      && r.Ok? && r.value.Post? && r.value.resource == res && r.value.headers == h
      && r.value.data.Some? && r.value.data.value.XWWWFormUrlEncoded?
      && (forall k :: k in r.value.data.value.fields <==> k in names)
      && (forall i :: 0 <= i < |names| ==> r.value.data.value.fields[names[i]] == values[i])
  {
    var payload := Utf8Encode(FormText(names, values));
    var n := |payload|;
    assert DeclaredLength(h) == Some(n) by {
      ParseDecimal(n, Response.UsizeMax);
    }
    var fields := ParseUrlEncoded(payload);
    assert fields.Ok? && (forall k :: k in fields.value <==> k in names)
      && (forall i :: 0 <= i < |names| ==> fields.value[names[i]] == values[i]) by {
      UrlEncodedRoundTrip(names, values);
    }
    assert DecodeBody(Some(h["content-type"]), payload) == Ok(XWWWFormUrlEncoded(fields.value));
    PlainBodyDecoded(Post(res, None, h, None), payload, cfg, dec, XWWWFormUrlEncoded(fields.value));
  }

  /** A body of an accepted length with no `Content-Encoding` is decoded
      straight from the bytes read, by its media type. */
  lemma PlainBodyDecoded(req: Request, buffer: seq<byte>, cfg: BodyConfig, dec: Decoders, body: RequestBody)
    requires CarriesBody(req) && "content-encoding" !in req.headers && "content-type" in req.headers
    requires DeclaredLength(req.headers).Some? && 0 < DeclaredLength(req.headers).value <= cfg.maxContentLength
    requires DecodeBody(Some(req.headers["content-type"]), buffer) == Ok(body)
    ensures ReceiveBody(req, buffer, cfg, dec) == Ok(WithBody(req, body))
  {
  }
}
