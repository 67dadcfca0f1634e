/** Bytes and their relation to text: the UTF-8 encoding that Rust's `&str`
    carries (`as_bytes`), the validity test `is_utf8`, the strict decoder
    `from_utf8`, character boundaries, and the ASCII byte trimming of
    `trim_ascii`. */
module Bytes {
  import opened Wrappers
  import opened Text

  type byte = x: int | 0 <= x < 256

  /** Carriage return, line feed: the line terminator of HTTP and CGI. */
  const CRLF: seq<byte> := [13, 10]

  /** `u8::is_ascii_whitespace`: tab, line feed, form feed, carriage return, space
      (vertical tab is not included). */
  predicate IsAsciiWhitespace(b: byte) {
    b == 9 || b == 10 || b == 12 || b == 13 || b == 32
  }

  /** `<[u8]>::trim_ascii`. */
  function TrimAscii(b: seq<byte>): seq<byte> {
    TrimBy(b, IsAsciiWhitespace)
  }

  /** Removing leading ASCII bytes from UTF-8 leaves UTF-8. */
  lemma {:induction false} Utf8DropAsciiPrefix(b: seq<byte>, k: nat)
    requires IsUtf8(b) && k <= |b|
    requires forall i :: 0 <= i < k ==> b[i] < 0x80
    ensures IsUtf8(b[k..])
    decreases k
  {
    if k > 0 {
      Utf8DropAsciiPrefix(b[1..], k - 1);
      assert b[1..][k - 1..] == b[k..];
    }
  }

  /** Removing one trailing ASCII byte from UTF-8 leaves UTF-8: an ASCII byte
      is a sequence of its own, never the end of a longer one. */
  lemma {:induction false} Utf8DropLastAscii(b: seq<byte>)
    requires IsUtf8(b) && |b| > 0 && b[|b| - 1] < 0x80
    ensures IsUtf8(b[..|b| - 1])
    decreases |b|
  {
    var n := SequenceLength(b[0]);
    if n < |b| {
      var rest := b[n..];
      Utf8DropLastAscii(rest);
      var c := b[..|b| - 1];
      assert c[..n] == b[..n];
      assert c[n..] == rest[..|rest| - 1];
    } else {
      assert n == 1;
    }
  }

  /** Removing trailing ASCII bytes from UTF-8 leaves UTF-8. */
  lemma {:induction false} Utf8DropAsciiSuffix(b: seq<byte>, k: nat)
    requires IsUtf8(b) && k <= |b|
    requires forall i :: k <= i < |b| ==> b[i] < 0x80
    ensures IsUtf8(b[..k])
    decreases |b| - k
  {
    if k < |b| {
      Utf8DropLastAscii(b);
      var c := b[..|b| - 1];
      Utf8DropAsciiSuffix(c, k);
      assert c[..k] == b[..k];
    } else {
      assert b[..k] == b;
    }
  }

  /** `trim_ascii` of UTF-8 is UTF-8. */
  lemma TrimAsciiKeepsUtf8(b: seq<byte>)
    requires IsUtf8(b)
    ensures IsUtf8(TrimAscii(b))
  {
    TrimStartKeepsUtf8(b);
    TrimEndKeepsUtf8(TrimStartBy(b, IsAsciiWhitespace));
  }

  /** Trimming leading ASCII white space from UTF-8 leaves UTF-8. */
  lemma TrimStartKeepsUtf8(b: seq<byte>)
    requires IsUtf8(b)
    ensures IsUtf8(TrimStartBy(b, IsAsciiWhitespace))
  {
    var s := TrimStartBy(b, IsAsciiWhitespace);
    forall i | 0 <= i < |b| - |s|
      ensures b[i] < 0x80
    {
      assert IsAsciiWhitespace(b[i]);
    }
    Utf8DropAsciiPrefix(b, |b| - |s|);
  }

  /** Trimming trailing ASCII white space from UTF-8 leaves UTF-8. */
  lemma TrimEndKeepsUtf8(s: seq<byte>)
    requires IsUtf8(s)
    ensures IsUtf8(TrimEndBy(s, IsAsciiWhitespace))
  {
    var r := TrimEndBy(s, IsAsciiWhitespace);
    forall i | |r| <= i < |s|
      ensures s[i] < 0x80
    {
      assert IsAsciiWhitespace(s[i]);
    }
    Utf8DropAsciiSuffix(s, |r|);
  }

  /* ---------------------------------------------------------------------
     Encoding
     --------------------------------------------------------------------- */

  /** The UTF-8 encoding of one Unicode scalar value (section 3 of RFC 3629). */
  function EncodeChar(c: char): (r: seq<byte>)
    ensures 1 <= |r| <= 4
  {
    var n := c as int;
    if n < 0x80 then [n]
    else if n < 0x800 then [0xC0 + n / 0x40, 0x80 + n % 0x40]
    else if n < 0x1_0000 then [0xE0 + n / 0x1000, 0x80 + (n / 0x40) % 0x40, 0x80 + n % 0x40]
    else [0xF0 + n / 0x4_0000, 0x80 + (n / 0x1000) % 0x40, 0x80 + (n / 0x40) % 0x40, 0x80 + n % 0x40]
  }

  /** `str::as_bytes`: the UTF-8 encoding of a string. */
  function Utf8Encode(s: string): seq<byte>
  {
    if |s| == 0 then [] else EncodeChar(s[0]) + Utf8Encode(s[1..])
  }

  lemma {:induction false} Utf8EncodeAppend(a: string, b: string)
    ensures Utf8Encode(a + b) == Utf8Encode(a) + Utf8Encode(b)
    decreases |a|
  {
    if |a| > 0 {
      assert (a + b)[1..] == a[1..] + b;
      Utf8EncodeAppend(a[1..], b);
    } else {
      assert a + b == b;
    }
  }

  /** An ASCII byte occurs in an encoding only where its own character
      occurs: every byte of a longer sequence is 0x80 or above. */
  lemma {:induction false} AsciiByteAbsent(s: string, b: byte)
    requires b < 0x80 && forall i :: 0 <= i < |s| ==> s[i] as int != b
    ensures b !in Utf8Encode(s)
    decreases |s|
  {
    if |s| > 0 {
      AsciiByteAbsent(s[1..], b);
      var e := EncodeChar(s[0]);
      assert forall i :: 0 <= i < |e| ==> e[i] != b;
    }
  }

  predicate IsAscii(s: string) {
    forall i :: 0 <= i < |s| ==> s[i] as int < 0x80
  }

  /** An ASCII string is encoded one byte per character. */
  lemma {:induction false} EncodeAscii(s: string)
    requires IsAscii(s)
    ensures |Utf8Encode(s)| == |s|
    ensures forall i :: 0 <= i < |s| ==> Utf8Encode(s)[i] == s[i] as int
    decreases |s|
  {
    if |s| > 0 {
      EncodeAscii(s[1..]);
    }
  }

  /* ---------------------------------------------------------------------
     Validity
     --------------------------------------------------------------------- */

  predicate IsContinuation(b: byte) {
    0x80 <= b <= 0xBF
  }

  /** The length of the sequence a leading byte announces; 0 for a byte that
      cannot start a sequence. */
  function SequenceLength(b: byte): nat {
    if b < 0x80 then 1
    else if 0xC2 <= b <= 0xDF then 2
    else if 0xE0 <= b <= 0xEF then 3
    else if 0xF0 <= b <= 0xF4 then 4
    else 0
  }

  /** One well-formed UTF-8 sequence: no overlong forms, no surrogates, nothing
      above U+10FFFF (Table 3-7 of the Unicode Standard). */
  predicate WellFormedSequence(b: seq<byte>) {
    && |b| > 0
    && SequenceLength(b[0]) == |b|
    && (forall i :: 1 <= i < |b| ==> IsContinuation(b[i]))
    && (b[0] == 0xE0 ==> b[1] >= 0xA0)
    && (b[0] == 0xED ==> b[1] <= 0x9F)
    && (b[0] == 0xF0 ==> b[1] >= 0x90)
    && (b[0] == 0xF4 ==> b[1] <= 0x8F)
  }

  /** `is_utf8`: the bytes split into well-formed sequences. */
  predicate IsUtf8(b: seq<byte>)
    decreases |b|
  {
    |b| == 0 ||
    (var n := SequenceLength(b[0]);
     0 < n <= |b| && WellFormedSequence(b[..n]) && IsUtf8(b[n..]))
  }

  lemma EncodeCharWellFormed(c: char)
    ensures WellFormedSequence(EncodeChar(c))
  {
    var n := c as int;
    if 0x800 <= n < 0x1_0000 {
      assert n / 0x1000 == 0 ==> n >= 0x800 && (n / 0x40) % 0x40 >= 0x20;
      assert n / 0x1000 == 0xD ==> n < 0xD800 && (n / 0x40) % 0x40 < 0x20;
    } else if 0x1_0000 <= n {
      assert n / 0x4_0000 == 0 ==> (n / 0x1000) % 0x40 >= 0x10;
      assert n / 0x4_0000 == 4 ==> (n / 0x1000) % 0x40 < 0x10;
    }
  }

  /** Every encoded string passes the `is_utf8` test. */
  lemma {:induction false} EncodeIsUtf8(s: string)
    ensures IsUtf8(Utf8Encode(s))
    decreases |s|
  {
    if |s| > 0 {
      var e := EncodeChar(s[0]);
      var rest := Utf8Encode(s[1..]);
      EncodeCharWellFormed(s[0]);
      EncodeIsUtf8(s[1..]);
      var b := e + rest;
      assert b[..|e|] == e;
      assert b[|e|..] == rest;
    }
  }

  /* ---------------------------------------------------------------------
     Decoding
     --------------------------------------------------------------------- */

  /** The scalar value a well-formed sequence stands for. */
  function DecodeSequence(b: seq<byte>): int
    requires WellFormedSequence(b)
  {
    var b0: int := b[0];
    if |b| == 1 then b0
    else
      var b1: int := b[1] - 0x80;
      if |b| == 2 then (b0 - 0xC0) * 0x40 + b1
      else
        var b2: int := b[2] - 0x80;
        if |b| == 3 then (b0 - 0xE0) * 0x1000 + b1 * 0x40 + b2
        else (b0 - 0xF0) * 0x4_0000 + b1 * 0x1000 + b2 * 0x40 + (b[3] - 0x80)
  }

  lemma DecodeEncodeChar(c: char)
    ensures WellFormedSequence(EncodeChar(c))
    ensures DecodeSequence(EncodeChar(c)) == c as int
  {
    EncodeCharWellFormed(c);
    var n := c as int;
    var e := EncodeChar(c);
    if 0x80 <= n < 0x800 {
      assert n == (n / 0x40) * 0x40 + n % 0x40;
    } else if 0x800 <= n < 0x1_0000 {
      var q := n / 0x40;
      assert n == q * 0x40 + n % 0x40;
      assert q == (q / 0x40) * 0x40 + q % 0x40;
      assert q / 0x40 == n / 0x1000;
    } else if 0x1_0000 <= n {
      var q := n / 0x40;
      var q2 := q / 0x40;
      assert n == q * 0x40 + n % 0x40;
      assert q == q2 * 0x40 + q % 0x40;
      assert q2 == n / 0x1000;
      assert q2 == (q2 / 0x40) * 0x40 + q2 % 0x40;
      assert q2 / 0x40 == n / 0x4_0000;
    }
  }

  /** `String::from_utf8`: the text the bytes encode, when they are valid UTF-8. */
  function Utf8Decode(b: seq<byte>): (r: Option<string>)
    ensures r.Some? <==> IsUtf8(b)
    decreases |b|
  {
    if |b| == 0 then Some("")
    else
      var n := SequenceLength(b[0]);
      if 0 < n <= |b| && WellFormedSequence(b[..n]) then
        var v := DecodeSequence(b[..n]);
        if (0 <= v < 0xD800 || 0xE000 <= v < 0x11_0000) then
          match Utf8Decode(b[n..])
          case Some(rest) => Some([v as char] + rest)
          case None => None
        else None
      else None
  }

  /** Decoding an encoding gives the text back. */
  lemma {:induction false} DecodeEncode(s: string)
    ensures Utf8Decode(Utf8Encode(s)) == Some(s)
    decreases |s|
  {
    if |s| > 0 {
      var e := EncodeChar(s[0]);
      var b := e + Utf8Encode(s[1..]);
      DecodeEncodeChar(s[0]);
      DecodeEncode(s[1..]);
      assert b[..|e|] == e;
      assert b[|e|..] == Utf8Encode(s[1..]);
      assert [s[0]] + s[1..] == s;
    }
  }

  /** Whether byte `c` may stand at offset `j` (1 to 3) of a sequence led by
      `lead`: any continuation byte, the second byte narrowed as in Table 3-7
      of the Unicode Standard. */
  predicate MayFollow(lead: byte, j: nat, c: byte) {
    && IsContinuation(c)
    && (j == 1 && lead == 0xE0 ==> c >= 0xA0)
    && (j == 1 && lead == 0xED ==> c <= 0x9F)
    && (j == 1 && lead == 0xF0 ==> c >= 0x90)
    && (j == 1 && lead == 0xF4 ==> c <= 0x8F)
  }

  /** The length of the longest prefix of a well-formed sequence of length `n`
      found at the start of `b`, counting from offset `j`. */
  function SubpartLength(b: seq<byte>, n: nat, j: nat): (k: nat)
    requires 1 <= j <= n <= 4 && j <= |b|
    ensures j <= k <= n && k <= |b|
    ensures forall i :: j <= i < k ==> i < |b| && MayFollow(b[0], i, b[i])
    decreases n - j
  {
    if j < n && j < |b| && MayFollow(b[0], j, b[j]) then
      SubpartLength(b, n, j + 1)
    else j
  }

  /** A sequence whose bytes all may follow their lead is complete. */
  lemma {:induction false} SubpartOfWellFormed(b: seq<byte>, n: nat, j: nat)
    requires 1 <= j <= n <= 4 && n <= |b|
    requires forall i :: j <= i < n ==> MayFollow(b[0], i, b[i])
    ensures SubpartLength(b, n, j) == n
    decreases n - j
  {
    if j < n {
      SubpartOfWellFormed(b, n, j + 1);
    }
  }

  /** U+FFFD REPLACEMENT CHARACTER. */
  const Replacement: char := '\U{FFFD}'

  /** `String::from_utf8_lossy`: the text the bytes encode, each maximal
      prefix of a sequence that cannot be completed, and each byte that
      cannot start one, replaced by U+FFFD. */
  function Utf8DecodeLossy(b: seq<byte>): (r: string)
    decreases |b|
  {
    if |b| == 0 then ""
    else
      var n := SequenceLength(b[0]);
      if n == 0 then [Replacement] + Utf8DecodeLossy(b[1..])
      else
        var k := SubpartLength(b, n, 1);
        if k == n && n <= |b| then
          var v := DecodeSequence(b[..n]);
          if 0 <= v < 0xD800 || 0xE000 <= v < 0x11_0000 then [v as char] + Utf8DecodeLossy(b[n..])
          else [Replacement] + Utf8DecodeLossy(b[n..])
        else [Replacement] + Utf8DecodeLossy(b[k..])
  }

  /** On valid UTF-8 the lossy decoder replaces nothing. */
  lemma {:induction false} LossyOfValid(b: seq<byte>)
    requires IsUtf8(b)
    ensures Utf8Decode(b) == Some(Utf8DecodeLossy(b))
    decreases |b|
  {
    if |b| > 0 {
      var n := SequenceLength(b[0]);
      var w := b[..n];
      assert forall i :: 1 <= i < n ==> w[i] == b[i];
      SubpartOfWellFormed(b, n, 1);
      LossyOfValid(b[n..]);
    }
  }

  /** The lossy decoding of an encoding is the text encoded. */
  lemma LossyOfEncode(s: string)
    ensures Utf8DecodeLossy(Utf8Encode(s)) == s
  {
    EncodeIsUtf8(s);
    LossyOfValid(Utf8Encode(s));
    DecodeEncode(s);
  }

  /* ---------------------------------------------------------------------
     Boundaries and ASCII
     --------------------------------------------------------------------- */

  /** `str::is_char_boundary(i)` for the string whose encoding is `b`. */
  predicate IsCharBoundary(b: seq<byte>, i: nat) {
    i == 0 || i == |b| || (i < |b| && !IsContinuation(b[i]))
  }

  /** The bytes read as ASCII text, when every byte is below 0x80. */
  function AsciiText(b: seq<byte>): (r: Option<string>)
    ensures r.Some? ==> |r.value| == |b| && IsAscii(r.value) && Utf8Encode(r.value) == b
    ensures r.None? <==> exists i :: 0 <= i < |b| && b[i] >= 0x80
  {
    if forall i :: 0 <= i < |b| ==> b[i] < 0x80 then
      var s := seq(|b|, i requires 0 <= i < |b| => b[i] as char);
      EncodeAscii(s);
      Some(s)
    else None
  }
}
