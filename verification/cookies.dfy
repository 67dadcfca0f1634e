/** The `Set-Cookie` header line the server writes for each cookie an
    endpoint sets (src/util.rs:159-200), and a reader for that line that
    follows the `set-cookie-string` grammar of section 4.1.1 of RFC 6265.

    The source appends the `Secure` attribute without the `"; "` separator
    that every other attribute gets.  `SetCookieLineAsWritten` keeps that
    behaviour and `SecureRunsIntoPreviousField` shows what a client reads
    from it; `SetCookieLine` is the corrected line, and `CookieRoundTrip`
    proves a client reads it back.  `AsWrittenWithoutSecure` shows the two
    lines differ only for secure cookies. */
module Cookies {
  import opened Wrappers
  import opened Text

  datatype SameSite = Strict | Lax | SameSiteNone

  /** One cookie to set: its value and the attributes the endpoint chose.
      `expires` and `maxAge` hold the text the server formats into the line. */
  datatype SetCookie = SetCookie(
    value: string,
    domain: Option<string>,
    expires: Option<string>,
    httpOnly: bool,
    maxAge: Option<string>,
    partitioned: bool,
    path: Option<string>,
    secure: bool,
    sameSite: Option<SameSite>)

  /** A cookie with the given value and no attributes. */
  function Plain(value: string): SetCookie {
    SetCookie(value, None, None, false, None, false, None, false, None)
  }

  function SameSiteText(s: SameSite): string {
    match s
    case Strict => "Strict"
    case Lax => "Lax"
    case SameSiteNone => "None"
  }

  function ValuePart(key: string, v: Option<string>): seq<string> {
    if v.Some? then [key + "=" + v.value] else []
  }

  function FlagPart(key: string, set_: bool): seq<string> {
    if set_ then [key] else []
  }

  function SameSitePart(v: Option<SameSite>): seq<string> {
    if v.Some? then ["SameSite" + "=" + SameSiteText(v.value)] else []
  }

  /** The attributes of `c` in the fixed order the server writes them:
      Domain, Expires, HttpOnly, Max-Age, Partitioned, Path, Secure, SameSite. */
  function Attributes(c: SetCookie): seq<string> {
    ValuePart("Domain", c.domain)
    + (ValuePart("Expires", c.expires)
    + (FlagPart("HttpOnly", c.httpOnly)
    + LaterAttributes(c)))
  }

  /** The attributes from Max-Age on. */
  function LaterAttributes(c: SetCookie): seq<string> {
    ValuePart("Max-Age", c.maxAge)
    + (FlagPart("Partitioned", c.partitioned)
    + (ValuePart("Path", c.path)
    + (FlagPart("Secure", c.secure)
    + SameSitePart(c.sameSite))))
  }

  predicate NoLineBreak(s: string) {
    '\r' !in s && '\n' !in s
  }

  /** Each attribute preceded by `"; "`. */
  function AttributeText(attrs: seq<string>): (r: string)
    ensures (forall i :: 0 <= i < |attrs| ==> NoLineBreak(attrs[i])) ==> NoLineBreak(r)
  {
    if |attrs| == 0 then "" else "; " + attrs[0] + AttributeText(attrs[1..])
  }

  /** `; key=value` when the attribute is set. */
  function OptionalText(key: string, v: Option<string>): string {
    if v.Some? then "; " + key + "=" + v.value else ""
  }

  /** `; key` when the flag is set. */
  function FlagText(key: string, set_: bool): string {
    if set_ then "; " + key else ""
  }

  function SameSiteAttributeText(v: Option<SameSite>): string {
    if v.Some? then "; SameSite=" + SameSiteText(v.value) else ""
  }

  /** The line as the source writes it (without its CRLF): `Secure` is
      appended with no separator before it. */
  function SetCookieLineAsWritten(name: string, c: SetCookie): string {
    "Set-Cookie: " + name + "=" + c.value
    + OptionalText("Domain", c.domain)
    + OptionalText("Expires", c.expires)
    + FlagText("HttpOnly", c.httpOnly)
    + OptionalText("Max-Age", c.maxAge)
    + FlagText("Partitioned", c.partitioned)
    + OptionalText("Path", c.path)
    + (if c.secure then "Secure" else "")
    + SameSiteAttributeText(c.sameSite)
  }

  /** The corrected line (without its CRLF): every attribute, `Secure`
      included, preceded by `"; "`. */
  function SetCookieLine(name: string, c: SetCookie): (r: string)
    ensures StartsWith(r, "Set-Cookie: " + name + "=" + c.value)
  {
    var r := "Set-Cookie: " + (name + "=" + c.value + AttributeText(Attributes(c)));
    assert r[..12 + |name + "=" + c.value|] == "Set-Cookie: " + name + "=" + c.value;
    r
  }

  /** Without the `Secure` attribute the line as written is the corrected
      line: the missing separator is the only difference between the two. */
  lemma AsWrittenWithoutSecure(name: string, c: SetCookie)
    requires !c.secure
    ensures SetCookieLineAsWritten(name, c) == SetCookieLine(name, c)
  {
    var head := "Set-Cookie: " + name + "=" + c.value;
    var d := OptionalText("Domain", c.domain);
    var e := OptionalText("Expires", c.expires);
    var h := FlagText("HttpOnly", c.httpOnly);
    var m := OptionalText("Max-Age", c.maxAge);
    var p := FlagText("Partitioned", c.partitioned);
    var t := OptionalText("Path", c.path);
    var s := SameSiteAttributeText(c.sameSite);
    AttributesText(c);
    Regroup("Set-Cookie: ", name, "=");
    AppendRegroup3("Set-Cookie: ", name + "=", c.value, AttributeText(Attributes(c)));
    RegroupSeven(head, d, e, h, m, p, t, s);
    assert SetCookieLineAsWritten(name, c) == head + d + e + h + m + p + t + "" + s;
    assert head + d + e + h + m + p + t + "" == head + d + e + h + m + p + t;
  }

  /** The corrected attribute text, piece by piece, for a cookie without
      `Secure`. */
  lemma AttributesText(c: SetCookie)
    requires !c.secure
    ensures AttributeText(Attributes(c))
      == OptionalText("Domain", c.domain) + (OptionalText("Expires", c.expires)
         + (FlagText("HttpOnly", c.httpOnly) + (OptionalText("Max-Age", c.maxAge)
         + (FlagText("Partitioned", c.partitioned) + (OptionalText("Path", c.path)
         + SameSiteAttributeText(c.sameSite))))))
  {
    var later := LaterAttributes(c);
    var s := SameSitePart(c.sameSite);
    assert FlagPart("Secure", c.secure) + s == s;
    assert later == ValuePart("Max-Age", c.maxAge) + (FlagPart("Partitioned", c.partitioned) + (ValuePart("Path", c.path) + s));
    AttributeTextAppend(ValuePart("Path", c.path), s);
    AttributeTextAppend(FlagPart("Partitioned", c.partitioned), ValuePart("Path", c.path) + s);
    AttributeTextAppend(ValuePart("Max-Age", c.maxAge), FlagPart("Partitioned", c.partitioned) + (ValuePart("Path", c.path) + s));
    AttributeTextAppend(FlagPart("HttpOnly", c.httpOnly), later);
    AttributeTextAppend(ValuePart("Expires", c.expires), FlagPart("HttpOnly", c.httpOnly) + later);
    AttributeTextAppend(ValuePart("Domain", c.domain), ValuePart("Expires", c.expires) + (FlagPart("HttpOnly", c.httpOnly) + later));
    PartText("Domain", c.domain);
    PartText("Expires", c.expires);
    PartText("Max-Age", c.maxAge);
    PartText("Path", c.path);
    FlagPartText("HttpOnly", c.httpOnly);
    FlagPartText("Partitioned", c.partitioned);
    SameSitePartText(c.sameSite);
  }

  /** Attributes written one after another. */
  lemma {:induction false} AttributeTextAppend(a: seq<string>, b: seq<string>)
    ensures AttributeText(a + b) == AttributeText(a) + AttributeText(b)
    decreases |a|
  {
    if |a| == 0 {
      assert a + b == b;
    } else {
      assert (a + b)[1..] == a[1..] + b;
      AttributeTextAppend(a[1..], b);
    }
  }

  lemma PartText(key: string, v: Option<string>)
    ensures AttributeText(ValuePart(key, v)) == OptionalText(key, v)
  {
    if v.Some? {
      assert AttributeText(ValuePart(key, v)) == "; " + (key + "=" + v.value) + AttributeText([]);
    }
  }

  lemma FlagPartText(key: string, b: bool)
    ensures AttributeText(FlagPart(key, b)) == FlagText(key, b)
  {
    if b {
      assert AttributeText(FlagPart(key, b)) == "; " + key + AttributeText([]);
    }
  }

  lemma SameSitePartText(v: Option<SameSite>)
    ensures AttributeText(SameSitePart(v)) == SameSiteAttributeText(v)
  {
    if v.Some? {
      assert AttributeText(SameSitePart(v)) == "; " + ("SameSite" + "=" + SameSiteText(v.value)) + AttributeText([]);
    }
  }

  /* ---------------------------------------------------------------------
     Reading a Set-Cookie line back
     --------------------------------------------------------------------- */

  /** The effect of one `cookie-av` on the cookie read so far; an attribute
      the reader does not know is ignored (section 5.2 of RFC 6265). */
  function ApplyAttribute(c: SetCookie, a: string): SetCookie {
    match SplitOnce(a, '=')
    case None => ApplyFlag(c, a)
    case Some((k, v)) => ApplyValue(c, k, v)
  }

  function ApplyFlag(c: SetCookie, a: string): SetCookie {
    if a == "HttpOnly" then c.(httpOnly := true)
    else if a == "Partitioned" then c.(partitioned := true)
    else if a == "Secure" then c.(secure := true)
    else c
  }

  function ApplyValue(c: SetCookie, k: string, v: string): SetCookie {
    if k == "Domain" then c.(domain := Some(v))
    else if k == "Expires" then c.(expires := Some(v))
    else if k == "Max-Age" then c.(maxAge := Some(v))
    else if k == "Path" then c.(path := Some(v))
    else if k == "SameSite" then
      (if v == "Strict" then c.(sameSite := Some(Strict))
       else if v == "Lax" then c.(sameSite := Some(Lax))
       else if v == "None" then c.(sameSite := Some(SameSiteNone))
       else c)
    else c
  }

  function ApplyAll(c: SetCookie, attrs: seq<string>): SetCookie
    decreases |attrs|
  {
    if |attrs| == 0 then c else ApplyAll(ApplyAttribute(c, attrs[0]), attrs[1..])
  }

  /** Every piece after a `;` must start with the single space of `"; "`. */
  function ApplySpaced(c: SetCookie, pieces: seq<string>): Option<SetCookie>
    decreases |pieces|
  {
    if |pieces| == 0 then Some(c)
    else if |pieces[0]| == 0 || pieces[0][0] != ' ' then None
    else ApplySpaced(ApplyAttribute(c, pieces[0][1..]), pieces[1..])
  }

  /** A client's reading of a `Set-Cookie` line: the cookie name and the
      cookie it sets. */
  function ParseSetCookieLine(line: string): Option<(string, SetCookie)>
  {
    if !StartsWith(line, "Set-Cookie: ") then None
    else
      var pieces := Split(line[12..], ';');
      match SplitOnce(pieces[0], '=')
      case None => None
      case Some((name, value)) =>
        match ApplySpaced(Plain(value), pieces[1..])
        case None => None
        case Some(c) => Some((name, c))
  }

  /* ---------------------------------------------------------------------
     The defect in the source, and the corrected round trip
     --------------------------------------------------------------------- */

  /** As written, a secure cookie with no other attribute is sent as
      `id=vSecure`: a client stores the value `vSecure` and no `Secure` flag. */
  lemma SecureRunsIntoPreviousField()
    ensures SetCookieLineAsWritten("id", Plain("v").(secure := true)) == "Set-Cookie: " + ("id" + "=" + "vSecure")
    ensures ParseSetCookieLine("Set-Cookie: " + ("id" + "=" + "vSecure")) == Some(("id", Plain("vSecure")))
    ensures ParseSetCookieLine(SetCookieLineAsWritten("id", Plain("v").(secure := true)))
            != Some(("id", Plain("v").(secure := true)))
  {
    assert SetCookieLineAsWritten("id", Plain("v").(secure := true)) == "Set-Cookie: " + ("id" + "=" + "vSecure");
    BarePairRead("id", "vSecure");
  }

  /** A line that is only `name=value` reads back as a cookie with no
      attribute. */
  lemma BarePairRead(name: string, value: string)
    requires '=' !in name && ';' !in name && ';' !in value
    ensures ParseSetCookieLine("Set-Cookie: " + (name + "=" + value)) == Some((name, Plain(value)))
  {
    var pair := name + "=" + value;
    var line := "Set-Cookie: " + pair;
    assert line[..12] == "Set-Cookie: ";
    assert line[12..] == pair;
    assert ';' !in pair;
    SplitJoin([pair], ';');
    assert Join([pair], [';']) == pair;
    SplitOnceFirst(name, '=', value);
  }

  /** A name and attribute values that the line can carry unambiguously. */
  predicate WellFormed(name: string, c: SetCookie) {
    && '=' !in name && ';' !in name
    && ';' !in c.value
    && (c.domain.Some? ==> ';' !in c.domain.value)
    && (c.expires.Some? ==> ';' !in c.expires.value)
    && (c.maxAge.Some? ==> ';' !in c.maxAge.value)
    && (c.path.Some? ==> ';' !in c.path.value)
  }

  function Spaced(attrs: seq<string>): (r: seq<string>)
    ensures |r| == |attrs|
    ensures forall i :: 0 <= i < |attrs| ==> r[i] == " " + attrs[i]
  {
    seq(|attrs|, i requires 0 <= i < |attrs| => " " + attrs[i])
  }

  lemma {:induction false} AttributeTextIsJoin(p: string, attrs: seq<string>)
    ensures p + AttributeText(attrs) == Join([p] + Spaced(attrs), [';'])
    decreases |attrs|
  {
    if |attrs| > 0 {
      var q := " " + attrs[0];
      AttributeTextIsJoin(q, attrs[1..]);
      assert ([p] + Spaced(attrs))[1..] == [q] + Spaced(attrs[1..]);
    }
  }

  lemma {:induction false} ApplySpacedIsApplyAll(c: SetCookie, attrs: seq<string>)
    ensures ApplySpaced(c, Spaced(attrs)) == Some(ApplyAll(c, attrs))
    decreases |attrs|
  {
    if |attrs| > 0 {
      assert (" " + attrs[0])[1..] == attrs[0];
      assert Spaced(attrs)[1..] == Spaced(attrs[1..]);
      ApplySpacedIsApplyAll(ApplyAttribute(c, attrs[0]), attrs[1..]);
    }
  }

  lemma {:induction false} ApplyAllAppend(c: SetCookie, a: seq<string>, b: seq<string>)
    ensures ApplyAll(c, a + b) == ApplyAll(ApplyAll(c, a), b)
    decreases |a|
  {
    if |a| == 0 {
      assert a + b == b;
    } else {
      assert (a + b)[1..] == a[1..] + b;
      ApplyAllAppend(ApplyAttribute(c, a[0]), a[1..], b);
    }
  }

  /** Reading back a `key=value` attribute whose key has no `=`. */
  lemma ReadKeyValue(k: string, v: string)
    requires '=' !in k
    ensures SplitOnce(k + "=" + v, '=') == Some((k, v))
  {
    SplitOnceFirst(k, '=', v);
  }

  /** An optional `key=value` attribute, whose key has no `=`, sets the field
      `key` names. */
  lemma ReadValuePart(c: SetCookie, k: string, v: Option<string>, rest: seq<string>)
    requires '=' !in k
    ensures ApplyAll(c, ValuePart(k, v) + rest)
         == ApplyAll(if v.Some? then ApplyValue(c, k, v.value) else c, rest)
  {
    ApplyAllAppend(c, ValuePart(k, v), rest);
    if v.Some? {
      ReadKeyValue(k, v.value);
    }
  }

  /** An optional flag attribute, which has no `=`, sets the flag it names. */
  lemma ReadFlagPart(c: SetCookie, k: string, b: bool, rest: seq<string>)
    requires '=' !in k
    ensures ApplyAll(c, FlagPart(k, b) + rest) == ApplyAll(if b then ApplyFlag(c, k) else c, rest)
  {
    ApplyAllAppend(c, FlagPart(k, b), rest);
    if b {
      ContainsSingle(k, '=');
    }
  }

  lemma ReadSameSitePart(c: SetCookie, v: Option<SameSite>)
    ensures ApplyAll(c, SameSitePart(v)) == c.(sameSite := v) || v.None?
  {
    if v.Some? {
      ReadKeyValue("SameSite", SameSiteText(v.value));
    }
  }

  /** Each attribute key the server writes selects its own field. */
  lemma KeysSelectFields(c: SetCookie, v: string)
    ensures ApplyValue(c, "Domain", v) == c.(domain := Some(v))
    ensures ApplyValue(c, "Expires", v) == c.(expires := Some(v))
    ensures ApplyValue(c, "Max-Age", v) == c.(maxAge := Some(v))
    ensures ApplyValue(c, "Path", v) == c.(path := Some(v))
    ensures ApplyFlag(c, "HttpOnly") == c.(httpOnly := true)
    ensures ApplyFlag(c, "Partitioned") == c.(partitioned := true)
    ensures ApplyFlag(c, "Secure") == c.(secure := true)
  {
    assert "Max-Age"[0] != "Expires"[0];
  }

  /* Each attribute the server writes, read back, sets the field it names. */

  lemma ReadDomain(x: SetCookie, v: Option<string>, rest: seq<string>)
    requires x.domain.None?
    ensures ApplyAll(x, ValuePart("Domain", v) + rest) == ApplyAll(x.(domain := v), rest)
  {
    ReadValuePart(x, "Domain", v, rest);
    if v.Some? {
      KeysSelectFields(x, v.value);
    }
  }

  lemma ReadExpires(x: SetCookie, v: Option<string>, rest: seq<string>)
    requires x.expires.None?
    ensures ApplyAll(x, ValuePart("Expires", v) + rest) == ApplyAll(x.(expires := v), rest)
  {
    ReadValuePart(x, "Expires", v, rest);
    if v.Some? {
      KeysSelectFields(x, v.value);
    }
  }

  lemma ReadHttpOnly(x: SetCookie, b: bool, rest: seq<string>)
    requires !x.httpOnly
    ensures ApplyAll(x, FlagPart("HttpOnly", b) + rest) == ApplyAll(x.(httpOnly := b), rest)
  {
    ReadFlagPart(x, "HttpOnly", b, rest);
  }

  lemma ReadMaxAge(x: SetCookie, v: Option<string>, rest: seq<string>)
    requires x.maxAge.None?
    ensures ApplyAll(x, ValuePart("Max-Age", v) + rest) == ApplyAll(x.(maxAge := v), rest)
  {
    ReadValuePart(x, "Max-Age", v, rest);
    if v.Some? {
      KeysSelectFields(x, v.value);
    }
  }

  lemma ReadPartitioned(x: SetCookie, b: bool, rest: seq<string>)
    requires !x.partitioned
    ensures ApplyAll(x, FlagPart("Partitioned", b) + rest) == ApplyAll(x.(partitioned := b), rest)
  {
    ReadFlagPart(x, "Partitioned", b, rest);
  }

  lemma ReadPath(x: SetCookie, v: Option<string>, rest: seq<string>)
    requires x.path.None?
    ensures ApplyAll(x, ValuePart("Path", v) + rest) == ApplyAll(x.(path := v), rest)
  {
    ReadValuePart(x, "Path", v, rest);
    if v.Some? {
      KeysSelectFields(x, v.value);
    }
  }

  lemma ReadSecure(x: SetCookie, b: bool, rest: seq<string>)
    requires !x.secure
    ensures ApplyAll(x, FlagPart("Secure", b) + rest) == ApplyAll(x.(secure := b), rest)
  {
    ReadFlagPart(x, "Secure", b, rest);
    KeysSelectFields(x, "");
  }

  /** Applying the written attributes, in order, to a plain cookie rebuilds
      the cookie. */
  lemma ApplyAttributesRebuilds(c: SetCookie)
    ensures ApplyAll(Plain(c.value), Attributes(c)) == c
  {
    var c0 := Plain(c.value);
    var c1 := c0.(domain := c.domain);
    var c2 := c1.(expires := c.expires);
    var c3 := c2.(httpOnly := c.httpOnly);
    var t3 := LaterAttributes(c);
    var t2 := FlagPart("HttpOnly", c.httpOnly) + t3;
    var t1 := ValuePart("Expires", c.expires) + t2;
    ReadDomain(c0, c.domain, t1);
    ReadExpires(c1, c.expires, t2);
    ReadHttpOnly(c2, c.httpOnly, t3);
    LaterAttributesRebuild(c3, c);
  }

  /** The attributes from Max-Age on set the fields they name on a cookie
      that has none of them. */
  lemma LaterAttributesRebuild(c3: SetCookie, c: SetCookie)
    requires c3 == c.(maxAge := None, partitioned := false, path := None, secure := false, sameSite := None)
    ensures ApplyAll(c3, LaterAttributes(c)) == c
  {
    var c4 := c3.(maxAge := c.maxAge);
    var c5 := c4.(partitioned := c.partitioned);
    var c6 := c5.(path := c.path);
    var c7 := c6.(secure := c.secure);
    var t7 := SameSitePart(c.sameSite);
    var t6 := FlagPart("Secure", c.secure) + t7;
    var t5 := ValuePart("Path", c.path) + t6;
    var t4 := FlagPart("Partitioned", c.partitioned) + t5;
    ReadMaxAge(c3, c.maxAge, t4);
    ReadPartitioned(c4, c.partitioned, t5);
    ReadPath(c5, c.path, t6);
    ReadSecure(c6, c.secure, t7);
    ReadSameSitePart(c7, c.sameSite);
  }

  lemma ValuePartNoSemicolon(k: string, v: Option<string>)
    requires ';' !in k && (v.Some? ==> ';' !in v.value)
    ensures forall a :: a in ValuePart(k, v) ==> ';' !in a
  {
  }

  /** No attribute the server writes holds a `;` when the values do not. */
  lemma AttributesHaveNoSemicolon(c: SetCookie)
    requires WellFormed("", c)
    ensures forall a :: a in Attributes(c) ==> ';' !in a
  {
    ValuePartNoSemicolon("Domain", c.domain);
    ValuePartNoSemicolon("Expires", c.expires);
    LaterAttributesNoSemicolon(c);
  }

  lemma LaterAttributesNoSemicolon(c: SetCookie)
    requires WellFormed("", c)
    ensures forall a :: a in LaterAttributes(c) ==> ';' !in a
  {
    ValuePartNoSemicolon("Max-Age", c.maxAge);
    ValuePartNoSemicolon("Path", c.path);
    if c.sameSite.Some? {
      ValuePartNoSemicolon("SameSite", Some(SameSiteText(c.sameSite.value)));
    }
  }

  /** A client reads back exactly the name and cookie the corrected line was
      written from. */
  lemma CookieRoundTrip(name: string, c: SetCookie)
    requires WellFormed(name, c)
    ensures ParseSetCookieLine(SetCookieLine(name, c)) == Some((name, c))
  {
    var pair := name + "=" + c.value;
    var pieces := [pair] + Spaced(Attributes(c));
    LinePieces(name, c);
    assert pieces[0] == pair && pieces[1..] == Spaced(Attributes(c));
    ReadKeyValue(name, c.value);
    ApplySpacedIsApplyAll(Plain(c.value), Attributes(c));
    ApplyAttributesRebuilds(c);
  }

  /** The corrected line opens with `Set-Cookie: ` and the rest splits at its
      `;` into the name-value pair and the spaced attributes. */
  lemma LinePieces(name: string, c: SetCookie)
    requires WellFormed(name, c)
    ensures var line := SetCookieLine(name, c);
      && StartsWith(line, "Set-Cookie: ")
      && Split(line[12..], ';') == [name + "=" + c.value] + Spaced(Attributes(c))
  {
    var pair := name + "=" + c.value;
    var attrs := Attributes(c);
    AttributesHaveNoSemicolon(c);
    SplitsAtSeparators(pair, attrs);
  }

  /** The pieces between the `;` separators are the pair and the spaced
      attributes. */
  lemma SplitsAtSeparators(pair: string, attrs: seq<string>)
    requires ';' !in pair
    requires forall a :: a in attrs ==> ';' !in a
    ensures Split(pair + AttributeText(attrs), ';') == [pair] + Spaced(attrs)
  {
    AttributeTextIsJoin(pair, attrs);
    var parts := [pair] + Spaced(attrs);
    forall i | 0 <= i < |parts|
      ensures ';' !in parts[i]
    {
      if i > 0 {
        assert attrs[i - 1] in attrs;
        assert parts[i] == " " + attrs[i - 1];
      }
    }
    SplitJoin(parts, ';');
  }
}
