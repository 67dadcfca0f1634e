/** Sequence and string operations with the semantics of the Rust standard
    library calls the server makes: `find`, `split_once`, `split`, the `trim`
    family, ASCII case mapping and unsigned integer parsing.  They are generic
    over the element type, so the same definitions serve `&str` (a sequence of
    `char`) and `&[u8]` (a sequence of bytes). */
module Text {
  import opened Wrappers

  /* ---------------------------------------------------------------------
     Searching
     --------------------------------------------------------------------- */

  /** `pat` occurs in `s` starting at index `i`. */
  predicate IsAt<T(==)>(s: seq<T>, pat: seq<T>, i: nat) {
    i + |pat| <= |s| && s[i..i + |pat|] == pat
  }

  /** `pat` occurs somewhere in `s`. */
  predicate Contains<T(==)>(s: seq<T>, pat: seq<T>) {
    exists i: nat | i <= |s| :: IsAt(s, pat, i)
  }

  /** The first index at or after `from` where `pat` occurs. */
  function FindFrom<T(==)>(s: seq<T>, pat: seq<T>, from: nat): (r: Option<nat>)
    requires |pat| > 0
    ensures r.Some? ==> from <= r.value && IsAt(s, pat, r.value)
    ensures r.Some? ==> forall j: nat :: from <= j < r.value ==> !IsAt(s, pat, j)
    ensures r.None? ==> forall j: nat :: from <= j ==> !IsAt(s, pat, j)
    decreases |s| - from
  {
    if from + |pat| > |s| then None
    else if s[from..from + |pat|] == pat then Some(from)
    else FindFrom(s, pat, from + 1)
  }

  /** The first occurrence of `pat` in `s` (Rust's `find`). */
  function Find<T(==)>(s: seq<T>, pat: seq<T>): (r: Option<nat>)
    requires |pat| > 0
    ensures r.None? <==> !Contains(s, pat)
    ensures r.Some? ==> IsAt(s, pat, r.value)
    ensures r.Some? ==> forall j: nat :: j < r.value ==> !IsAt(s, pat, j)
  {
    FindFrom(s, pat, 0)
  }

  /** No occurrence of `pat` starts before `k` in `s`, so none lies inside `s[..k]`. */
  lemma NotContainsPrefix<T>(s: seq<T>, pat: seq<T>, k: nat)
    requires |pat| > 0 && k <= |s|
    requires forall j: nat :: j < k ==> !IsAt(s, pat, j)
    ensures !Contains(s[..k], pat)
  {
    forall j: nat
      ensures !IsAt(s[..k], pat, j)
    {
      if j + |pat| <= k {
        assert s[..k][j..j + |pat|] == s[j..j + |pat|];
        assert IsAt(s[..k], pat, j) <==> IsAt(s, pat, j);
        assert j < k;
      }
    }
  }

  /** Occurrences of a one-element pattern are exactly the positions holding it. */
  lemma IsAtSingle<T>(s: seq<T>, x: T)
    ensures forall i: nat :: IsAt(s, [x], i) <==> i < |s| && s[i] == x
  {
    forall i: nat | i < |s|
      ensures s[i..i + 1] == [s[i]]
    {
    }
  }

  lemma ContainsSingle<T>(s: seq<T>, x: T)
    ensures Contains(s, [x]) <==> x in s
  {
    IsAtSingle(s, x);
    if x in s {
      var i :| 0 <= i < |s| && s[i] == x;
      assert IsAt(s, [x], i);
    }
  }

  /* ---------------------------------------------------------------------
     Splitting and joining
     --------------------------------------------------------------------- */

  /** `split_once` with a non-empty pattern: the parts before and after the
      first occurrence of `pat`, or `None` when `pat` does not occur. */
  function SplitOnceAt<T(==)>(s: seq<T>, pat: seq<T>): (r: Option<(seq<T>, seq<T>)>)
    requires |pat| > 0
    ensures r.None? <==> !Contains(s, pat)
    ensures r.Some? ==> s == r.value.0 + pat + r.value.1
    ensures r.Some? ==> forall j: nat :: j < |r.value.0| ==> !IsAt(s, pat, j)
    ensures r.Some? ==> !Contains(r.value.0, pat)
  {
    match Find(s, pat)
    case None => None
    case Some(i) =>
      assert s == s[..i] + s[i..i + |pat|] + s[i + |pat|..];
      NotContainsPrefix(s, pat, i);
      Some((s[..i], s[i + |pat|..]))
  }

  /** The split happens at the first occurrence, and nowhere else. */
  lemma SplitOnceAtFirst<T>(a: seq<T>, pat: seq<T>, b: seq<T>)
    requires |pat| > 0
    requires forall j: nat :: j < |a| ==> !IsAt(a + pat + b, pat, j)
    ensures SplitOnceAt(a + pat + b, pat) == Some((a, b))
  {
    var s := a + pat + b;
    assert s[|a|..|a| + |pat|] == pat;
    assert IsAt(s, pat, |a|);
    var i := Find(s, pat).value;
    assert i == |a|;
    assert s[..i] == a;
    assert s[i + |pat|..] == b;
  }

  /** `split_once` on a single element. */
  function SplitOnce<T(==)>(s: seq<T>, x: T): (r: Option<(seq<T>, seq<T>)>)
    ensures r.None? <==> x !in s
    ensures r.Some? ==> s == r.value.0 + [x] + r.value.1
    ensures r.Some? ==> x !in r.value.0
  {
    ContainsSingle(s, x);
    var r := SplitOnceAt(s, [x]);
    if r.Some? then ContainsSingle(r.value.0, x); r else r
  }

  /** Splitting `a + [x] + b` where `a` has no `x` gives back `a` and `b`. */
  lemma SplitOnceFirst<T>(a: seq<T>, x: T, b: seq<T>)
    requires x !in a
    ensures SplitOnce(a + [x] + b, x) == Some((a, b))
  {
    IsAtSingle(a + [x] + b, x);
    assert forall j :: 0 <= j < |a| ==> (a + [x] + b)[j] == a[j];
    SplitOnceAtFirst(a, [x], b);
  }

  /** The pieces joined with `sep` between consecutive ones (`join`). */
  function Join<T>(parts: seq<seq<T>>, sep: seq<T>): seq<T>
  {
    if |parts| == 0 then []
    else if |parts| == 1 then parts[0]
    else parts[0] + sep + Join(parts[1..], sep)
  }

  /** Rust's `split` with a non-empty pattern: every piece between the
      non-overlapping occurrences found left to right. */
  function SplitAt<T(==)>(s: seq<T>, pat: seq<T>): (r: seq<seq<T>>)
    requires |pat| > 0
    ensures |r| >= 1
    decreases |s|
  {
    match SplitOnceAt(s, pat)
    case None => [s]
    case Some((a, b)) => [a] + SplitAt(b, pat)
  }

  /** The pieces of a split join back to the sequence, and none holds the
      pattern. */
  lemma {:induction false} SplitAtPieces<T>(s: seq<T>, pat: seq<T>)
    requires |pat| > 0
    ensures Join(SplitAt(s, pat), pat) == s
    ensures forall i :: 0 <= i < |SplitAt(s, pat)| ==> !Contains(SplitAt(s, pat)[i], pat)
    decreases |s|
  {
    match SplitOnceAt(s, pat)
    case None =>
    case Some((a, b)) =>
      SplitAtPieces(b, pat);
      var rest := SplitAt(b, pat);
      assert ([a] + rest)[1..] == rest;
  }

  /** `split` on a single element. */
  function Split<T(==)>(s: seq<T>, x: T): (r: seq<seq<T>>)
    ensures |r| >= 1
    ensures Join(r, [x]) == s
    ensures forall i :: 0 <= i < |r| ==> x !in r[i]
  {
    var r := SplitAt(s, [x]);
    SplitAtPieces(s, [x]);
    forall i | 0 <= i < |r|
      ensures x !in r[i]
    {
      ContainsSingle(r[i], x);
    }
    r
  }

  /** The first piece of a split ends at the first separator. */
  lemma SplitCons<T>(a: seq<T>, x: T, b: seq<T>)
    requires x !in a
    ensures Split(a + [x] + b, x) == [a] + Split(b, x)
  {
    SplitOnceFirst(a, x, b);
    assert SplitAt(a + [x] + b, [x]) == [a] + SplitAt(b, [x]);
  }

  /** A sequence without the separator is one piece. */
  lemma SplitAbsent<T>(s: seq<T>, x: T)
    requires x !in s
    ensures Split(s, x) == [s]
  {
    ContainsSingle(s, x);
  }
  /** A sequence with one separator splits into the two sides. */
  lemma SplitTwo<T>(a: seq<T>, x: T, b: seq<T>)
    requires x !in a && x !in b
    ensures Split(a + [x] + b, x) == [a, b]
  {
    SplitCons(a, x, b);
    SplitAbsent(b, x);
  }


  /** A pattern that does not occur is no cut. */
  lemma SplitAtAbsent<T>(s: seq<T>, pat: seq<T>)
    requires |pat| > 0 && !Contains(s, pat)
    ensures SplitAt(s, pat) == [s]
  {
  }

  /** A sequence that starts with the pattern splits into an empty first
      piece and the pieces of the rest. */
  lemma SplitAtLeading<T>(pat: seq<T>, rest: seq<T>)
    requires |pat| > 0
    ensures SplitAt(pat + rest, pat) == [[]] + SplitAt(rest, pat)
  {
    var none: seq<T> := [];
    assert none + pat + rest == pat + rest;
    SplitAtCons(none, pat, rest);
  }

  /** An occurrence that ends inside `s` does not see what follows `s`. */
  lemma IsAtPrefix<T>(s: seq<T>, t: seq<T>, pat: seq<T>, j: nat)
    requires j + |pat| <= |s|
    ensures IsAt(s + t, pat, j) == IsAt(s, pat, j)
  {
    assert (s + t)[j..j + |pat|] == s[j..j + |pat|];
  }

  /** The first piece ends at the first occurrence of the pattern. */
  lemma SplitAtCons<T>(a: seq<T>, pat: seq<T>, b: seq<T>)
    requires |pat| > 0
    requires forall j: nat :: j < |a| ==> !IsAt(a + pat + b, pat, j)
    ensures SplitAt(a + pat + b, pat) == [a] + SplitAt(b, pat)
  {
    SplitOnceAtFirst(a, pat, b);
  }

  /** Splitting undoes joining when no piece holds the separator. */
  lemma {:induction false} SplitJoin<T>(parts: seq<seq<T>>, x: T)
    requires |parts| >= 1
    requires forall i :: 0 <= i < |parts| ==> x !in parts[i]
    ensures Split(Join(parts, [x]), x) == parts
    decreases |parts|
  {
    if |parts| == 1 {
      ContainsSingle(parts[0], x);
      assert SplitOnceAt(parts[0], [x]).None?;
    } else {
      assert parts == [parts[0]] + parts[1..];
      var rest := Join(parts[1..], [x]);
      assert Join(parts, [x]) == parts[0] + [x] + rest;
      SplitOnceFirst(parts[0], x, rest);
      SplitJoin(parts[1..], x);
      assert SplitAt(Join(parts, [x]), [x]) == [parts[0]] + SplitAt(rest, [x]);
    }
  }

  /** A sequence that lacks the first element of the pattern does not
      contain the pattern. */
  lemma NoLeadNotContains<T>(s: seq<T>, pat: seq<T>)
    requires |pat| > 0 && pat[0] !in s
    ensures !Contains(s, pat)
  {
    forall j: nat | j <= |s|
      ensures !IsAt(s, pat, j)
    {
      if j + |pat| <= |s| {
        assert s[j..j + |pat|][0] == s[j];
      }
    }
  }

  /** Splitting undoes joining when no piece holds the first element of the
      separator. */
  lemma {:induction false} SplitAtJoin<T>(parts: seq<seq<T>>, pat: seq<T>)
    requires |parts| >= 1 && |pat| > 0
    requires forall i :: 0 <= i < |parts| ==> pat[0] !in parts[i]
    ensures SplitAt(Join(parts, pat), pat) == parts
    decreases |parts|
  {
    if |parts| == 1 {
      NoLeadNotContains(parts[0], pat);
      SplitAtAbsent(parts[0], pat);
    } else {
      var rest := Join(parts[1..], pat);
      var s := parts[0] + pat + rest;
      assert Join(parts, pat) == s;
      forall j: nat | j < |parts[0]|
        ensures !IsAt(s, pat, j)
      {
        if j + |pat| <= |s| {
          assert s[j..j + |pat|][0] == parts[0][j];
        }
      }
      SplitAtCons(parts[0], pat, rest);
      SplitAtJoin(parts[1..], pat);
      assert parts == [parts[0]] + parts[1..];
    }
  }

  /** All pieces concatenated. */
  function Concat<T>(parts: seq<seq<T>>): seq<T>
  {
    if |parts| == 0 then [] else parts[0] + Concat(parts[1..])
  }

  lemma {:induction false} ConcatAppend<T>(a: seq<seq<T>>, b: seq<seq<T>>)
    ensures Concat(a + b) == Concat(a) + Concat(b)
    decreases |a|
  {
    if |a| == 0 {
      assert a + b == b;
    } else {
      assert (a + b)[1..] == a[1..] + b;
      ConcatAppend(a[1..], b);
    }
  }

  /** Keeps the pieces that are not empty (`filter(|s| !s.is_empty())`). */
  function NonEmpty<T>(parts: seq<seq<T>>): (r: seq<seq<T>>)
    ensures forall i :: 0 <= i < |r| ==> |r[i]| > 0
    ensures |r| <= |parts|
    ensures (forall i :: 0 <= i < |parts| ==> |parts[i]| > 0) ==> r == parts
    decreases |parts|
  {
    if |parts| == 0 then []
    else if |parts[0]| == 0 then NonEmpty(parts[1..])
    else [parts[0]] + NonEmpty(parts[1..])
  }

  /** The filter keeps exactly the non-empty pieces. */
  lemma {:induction false} NonEmptyKeeps<T>(parts: seq<seq<T>>)
    ensures forall x :: x in NonEmpty(parts) <==> x in parts && |x| > 0
    decreases |parts|
  {
    if |parts| > 0 {
      NonEmptyKeeps(parts[1..]);
      assert forall x :: x in parts <==> x == parts[0] || x in parts[1..];
    }
  }

  predicate StartsWith<T(==)>(s: seq<T>, prefix: seq<T>) {
    |prefix| <= |s| && s[..|prefix|] == prefix
  }

  predicate EndsWith<T(==)>(s: seq<T>, suffix: seq<T>) {
    |suffix| <= |s| && s[|s| - |suffix|..] == suffix
  }

  /* ---------------------------------------------------------------------
     Trimming
     --------------------------------------------------------------------- */

  /** Drops the longest prefix whose elements all satisfy `drop`. */
  function TrimStartBy<T>(s: seq<T>, drop: T -> bool): (r: seq<T>)
    ensures |r| <= |s| && r == s[|s| - |r|..]
    ensures forall i :: 0 <= i < |s| - |r| ==> drop(s[i])
    ensures |r| > 0 ==> !drop(r[0])
    decreases |s|
  {
    if |s| > 0 && drop(s[0]) then TrimStartBy(s[1..], drop) else s
  }

  /** Drops the longest suffix whose elements all satisfy `drop`. */
  function TrimEndBy<T>(s: seq<T>, drop: T -> bool): (r: seq<T>)
    ensures |r| <= |s| && r == s[..|r|]
    ensures forall i :: |r| <= i < |s| ==> drop(s[i])
    ensures |r| > 0 ==> !drop(r[|r| - 1])
    decreases |s|
  {
    if |s| > 0 && drop(s[|s| - 1]) then TrimEndBy(s[..|s| - 1], drop) else s
  }

  /** Drops both the longest such prefix and the longest such suffix. */
  function TrimBy<T>(s: seq<T>, drop: T -> bool): (r: seq<T>)
    ensures |r| > 0 ==> !drop(r[0]) && !drop(r[|r| - 1])
  {
    TrimEndBy(TrimStartBy(s, drop), drop)
  }

  /** Trimming a sequence that already starts with a kept element changes nothing. */
  lemma TrimStartByKept<T>(s: seq<T>, drop: T -> bool)
    requires |s| == 0 || !drop(s[0])
    ensures TrimStartBy(s, drop) == s
  {
  }

  lemma TrimEndByKept<T>(s: seq<T>, drop: T -> bool)
    requires |s| == 0 || !drop(s[|s| - 1])
    ensures TrimEndBy(s, drop) == s
  {
  }

  /** Unicode `White_Space`: Rust's `char::is_whitespace` and the regex class `\s`. */
  predicate IsWhitespace(c: char) {
    c == ' ' || '\t' <= c <= '\r' || c == '\U{85}' || c == '\U{A0}' || c == '\U{1680}'
    || '\U{2000}' <= c <= '\U{200A}' || c == '\U{2028}' || c == '\U{2029}'
    || c == '\U{202F}' || c == '\U{205F}' || c == '\U{3000}'
  }

  /** Trimming a trimmed sequence changes nothing. */
  lemma TrimByIdempotent<T>(s: seq<T>, drop: T -> bool)
    ensures TrimBy(TrimBy(s, drop), drop) == TrimBy(s, drop)
  {
    var r := TrimBy(s, drop);
    TrimStartByKept(r, drop);
    TrimEndByKept(r, drop);
  }

  /** The number of consecutive elements from `i` on that satisfy `p`: what a
      greedy `p*` consumes there. */
  function RunLength<T>(s: seq<T>, i: nat, p: T -> bool): (n: nat)
    requires i <= |s|
    ensures i + n <= |s|
    decreases |s| - i
  {
    if i < |s| && p(s[i]) then 1 + RunLength(s, i + 1, p) else 0
  }

  /** Every element of the run satisfies `p`, and the element after it, if
      any, does not. */
  lemma {:induction false} RunLengthStops<T>(s: seq<T>, i: nat, p: T -> bool)
    requires i <= |s|
    ensures forall j :: i <= j < i + RunLength(s, i, p) ==> p(s[j])
    ensures i + RunLength(s, i, p) < |s| ==> !p(s[i + RunLength(s, i, p)])
    decreases |s| - i
  {
    if i < |s| && p(s[i]) {
      RunLengthStops(s, i + 1, p);
    }
  }

  /** A run is determined by where it stops. */
  lemma {:induction false} RunLengthIs<T>(s: seq<T>, i: nat, p: T -> bool, k: nat)
    requires i + k <= |s|
    requires forall j :: i <= j < i + k ==> p(s[j])
    requires i + k == |s| || !p(s[i + k])
    ensures RunLength(s, i, p) == k
    decreases k
  {
    if k > 0 {
      RunLengthIs(s, i + 1, p, k - 1);
    }
  }

  /** A stretch of a known stretch. */
  lemma SliceOfSlice<T>(s: seq<T>, p: nat, a: seq<T>, i: nat, j: nat)
    requires p + |a| <= |s| && s[p..p + |a|] == a
    requires i <= j <= |a|
    ensures s[p + i..p + j] == a[i..j]
  {
    assert forall k :: i <= k < j ==> s[p + k] == a[k];
  }

  /** A run over a known stretch of the sequence. */
  lemma RunLengthOver<T>(s: seq<T>, i: nat, a: seq<T>, p: T -> bool)
    requires i + |a| <= |s| && s[i..i + |a|] == a
    requires forall j :: 0 <= j < |a| ==> p(a[j])
    requires i + |a| == |s| || !p(s[i + |a|])
    ensures RunLength(s, i, p) == |a|
  {
    forall j | i <= j < i + |a|
      ensures p(s[j])
    {
      assert s[j] == a[j - i];
    }
    RunLengthIs(s, i, p, |a|);
  }

  /** `str::trim`. */
  function Trim(s: string): string {
    TrimBy(s, IsWhitespace)
  }

  /** A string that starts and ends with a non-blank character is trimmed. */
  lemma TrimKept(s: string)
    requires |s| > 0 && !IsWhitespace(s[0]) && !IsWhitespace(s[|s| - 1])
    ensures Trim(s) == s
  {
    TrimStartByKept(s, IsWhitespace);
    TrimEndByKept(s, IsWhitespace);
  }

  /** `str::trim_end`. */
  function TrimEnd(s: string): string {
    TrimEndBy(s, IsWhitespace)
  }

  /** `str::trim_start`. */
  function TrimStart(s: string): string {
    TrimStartBy(s, IsWhitespace)
  }

  /** `trim_start_matches(x)` for a single character `x`. */
  function TrimStartMatches<T(==)>(s: seq<T>, x: T): (r: seq<T>)
    ensures |r| <= |s| && r == s[|s| - |r|..]
    ensures forall i :: 0 <= i < |s| - |r| ==> s[i] == x
    ensures |r| > 0 ==> r[0] != x
  {
    TrimStartBy(s, y => y == x)
  }

  /** `trim_end_matches(x)` for a single character `x`. */
  function TrimEndMatches<T(==)>(s: seq<T>, x: T): (r: seq<T>)
    ensures |r| <= |s| && r == s[..|r|]
    ensures forall i :: |r| <= i < |s| ==> s[i] == x
    ensures |r| > 0 ==> r[|r| - 1] != x
  {
    TrimEndBy(s, y => y == x)
  }

  /** Nothing to trim at the start: the sequence is kept whole. */
  lemma TrimStartMatchesKept<T>(s: seq<T>, x: T)
    requires |s| == 0 || s[0] != x
    ensures TrimStartMatches(s, x) == s
  {
    TrimStartByKept(s, y => y == x);
  }

  /** Nothing to trim at the end: the sequence is kept whole. */
  lemma TrimEndMatchesKept<T>(s: seq<T>, x: T)
    requires |s| == 0 || s[|s| - 1] != x
    ensures TrimEndMatches(s, x) == s
  {
  }

  /** Nothing to trim at either end: the sequence is kept whole. */
  lemma TrimMatchesKept<T>(s: seq<T>, x: T)
    requires |s| == 0 || (s[0] != x && s[|s| - 1] != x)
    ensures TrimMatches(s, x) == s
  {
    TrimStartMatchesKept(s, x);
    TrimEndMatchesKept(s, x);
  }

  /** `trim_matches(x)` for a single character `x`. */
  function TrimMatches<T(==)>(s: seq<T>, x: T): seq<T>
  {
    TrimEndMatches(TrimStartMatches(s, x), x)
  }

  /** One `x` at each end of a run that neither starts nor ends with `x` is
      trimmed away, and so is a pair of `x` with nothing between. */
  lemma TrimMatchesEnclosed<T>(inner: seq<T>, x: T)
    requires |inner| == 0 || (inner[0] != x && inner[|inner| - 1] != x)
    ensures TrimMatches([x] + inner + [x], x) == inner
  {
    var s := [x] + inner + [x];
    var start := TrimStartMatches(s, x);
    if |inner| == 0 {
      assert forall i :: 0 <= i < |s| ==> s[i] == x;
      assert |start| == 0;
    } else {
      assert s[1] == inner[0];
      assert |start| == |s| - 1;
      assert start == inner + [x] by {
        assert start == s[1..];
      }
      var end := TrimEndMatches(start, x);
      assert start[|start| - 2] == inner[|inner| - 1];
      assert |end| == |start| - 1;
      assert end == start[..|inner|];
      assert start[..|inner|] == inner;
    }
  }

  /* ---------------------------------------------------------------------
     Case mapping (ASCII letters)
     --------------------------------------------------------------------- */

  function LowerChar(c: char): char {
    if 'A' <= c <= 'Z' then (c as int + 32) as char else c
  }

  function UpperChar(c: char): char {
    if 'a' <= c <= 'z' then (c as int - 32) as char else c
  }

  /** `to_lowercase` on the ASCII letters. */
  function ToLower(s: string): (r: string)
    ensures |r| == |s|
    ensures forall i :: 0 <= i < |s| ==> r[i] == LowerChar(s[i])
  {
    seq(|s|, i requires 0 <= i < |s| => LowerChar(s[i]))
  }

  /** `to_uppercase` on the ASCII letters. */
  function ToUpper(s: string): (r: string)
    ensures |r| == |s|
    ensures forall i :: 0 <= i < |s| ==> r[i] == UpperChar(s[i])
  {
    seq(|s|, i requires 0 <= i < |s| => UpperChar(s[i]))
  }

  /** A string without upper-case ASCII letters is its own lower case. */
  lemma ToLowerKept(s: string)
    requires forall i :: 0 <= i < |s| ==> !('A' <= s[i] <= 'Z')
    ensures ToLower(s) == s
  {
  }

  /** Lower-casing twice is lower-casing once. */
  lemma ToLowerIdempotent(s: string)
    ensures ToLower(ToLower(s)) == ToLower(s)
  {
  }

  /* ---------------------------------------------------------------------
     Decimal numerals
     --------------------------------------------------------------------- */

  predicate IsDigit(c: char) {
    '0' <= c <= '9'
  }

  predicate AllDigits(s: string) {
    forall i :: 0 <= i < |s| ==> IsDigit(s[i])
  }

  function DigitChar(d: nat): (c: char)
    requires d < 10
    ensures IsDigit(c)
  {
    ('0' as int + d) as char
  }

  /** The numeral of `n` in base 10 without leading zeros (`to_string`). */
  function Decimal(n: nat): (r: string)
    ensures |r| > 0 && AllDigits(r)
    decreases n
  {
    if n < 10 then [DigitChar(n)] else Decimal(n / 10) + [DigitChar(n % 10)]
  }

  /** The value of a string of decimal digits. */
  function DigitsValue(s: string): nat
    requires AllDigits(s)
  {
    if |s| == 0 then 0 else 10 * DigitsValue(s[..|s| - 1]) + (s[|s| - 1] as int - '0' as int)
  }

  /** Rust's `parse::<uN>()` where `max` is the type's largest value: an
      optional `+`, then one or more ASCII digits whose value fits. */
  function ParseUnsigned(s: string, max: nat): (r: Option<nat>)
    ensures r.Some? ==> r.value <= max
    ensures |s| == 0 ==> r.None?
    ensures r.Some? ==> forall i :: 0 < i < |s| ==> IsDigit(s[i])
  {
    var digits := if |s| > 0 && s[0] == '+' then s[1..] else s;
    if |digits| > 0 && AllDigits(digits) && DigitsValue(digits) <= max then Some(DigitsValue(digits))
    else None
  }

  /** Reading back a numeral gives the number it was made from. */
  lemma {:induction false} DecimalValue(n: nat)
    ensures DigitsValue(Decimal(n)) == n
    decreases n
  {
    if n >= 10 {
      DecimalValue(n / 10);
      var d := Decimal(n / 10) + [DigitChar(n % 10)];
      assert d[..|d| - 1] == Decimal(n / 10);
    }
  }

  /** `parse` accepts every numeral `to_string` produces, up to the type's maximum. */
  lemma ParseDecimal(n: nat, max: nat)
    requires n <= max
    ensures ParseUnsigned(Decimal(n), max) == Some(n)
  {
    DecimalValue(n);
  }

  /** A leading `+` is accepted and ignored. */
  lemma ParsePlusDecimal(n: nat, max: nat)
    requires n <= max
    ensures ParseUnsigned("+" + Decimal(n), max) == Some(n)
  {
    DecimalValue(n);
    assert ("+" + Decimal(n))[1..] == Decimal(n);
  }

  /** A numeral is never empty and never starts with a sign, so it is told
      apart from every other field value that starts with a letter. */
  lemma DecimalIsDigits(n: nat)
    ensures |Decimal(n)| > 0 && IsDigit(Decimal(n)[0])
  {
  }

  /* ---------------------------------------------------------------------
     Regrouping
     --------------------------------------------------------------------- */

  /** Dropping the head of a sequence built from it leaves the rest. */
  lemma DropLeading<T>(x: T, rest: seq<T>)
    ensures ([x] + rest)[1..] == rest
  {
  }

  /** A prefix followed by two pieces, grouped either way. */
  lemma Regroup<T>(x: seq<T>, a: seq<T>, b: seq<T>)
    ensures x + (a + b) == x + a + b
  {
  }

  /** A prefix followed by seven pieces nested to the right, and the same
      pieces appended one by one. */
  lemma RegroupSeven<T>(x: seq<T>, a: seq<T>, b: seq<T>, c: seq<T>, d: seq<T>, e: seq<T>, f: seq<T>, g: seq<T>)
    ensures x + (a + (b + (c + (d + (e + (f + g)))))) == x + a + b + c + d + e + f + g
  {
    Regroup(x, a, b + (c + (d + (e + (f + g)))));
    Regroup(x + a, b, c + (d + (e + (f + g))));
    Regroup(x + a + b, c, d + (e + (f + g)));
    Regroup(x + a + b + c, d, e + (f + g));
    Regroup(x + a + b + c + d, e, f + g);
    Regroup(x + a + b + c + d + e, f, g);
  }

  /** A prefix followed by three pieces, grouped either way. */
  lemma AppendRegroup3<T>(x: seq<T>, a: seq<T>, b: seq<T>, c: seq<T>)
    ensures x + (a + b + c) == x + a + b + c
  {
  }

  /** A prefix followed by five pieces, grouped either way. */
  lemma AppendRegroup<T>(x: seq<T>, a: seq<T>, b: seq<T>, c: seq<T>, d: seq<T>, e: seq<T>)
    ensures x + (a + b + c + d + e) == x + a + b + c + d + e
  {
  }

  /* ---------------------------------------------------------------------
     Association lists
     --------------------------------------------------------------------- */

  /** The map built by inserting the pairs left to right, so that a later
      pair overwrites an earlier one with the same key (`HashMap::insert`
      in a loop, or `extend`). */
  function ToMap<K, V>(ps: seq<(K, V)>): (m: map<K, V>)
    ensures m.Keys == set i | 0 <= i < |ps| :: ps[i].0
    ensures forall i :: 0 <= i < |ps| && (forall j :: i < j < |ps| ==> ps[j].0 != ps[i].0) ==>
              ps[i].0 in m && m[ps[i].0] == ps[i].1
    decreases |ps|
  {
    if |ps| == 0 then map[]
    else
      var init := ps[..|ps| - 1];
      var last := ps[|ps| - 1];
      assert ps == init + [last];
      var rest := ToMap(init);
      ToMapStep(init, last, rest);
      rest[last.0 := last.1]
  }

  /** Inserting a last pair into the map of the others. */
  lemma ToMapStep<K, V>(init: seq<(K, V)>, last: (K, V), rest: map<K, V>)
    requires rest.Keys == (set i | 0 <= i < |init| :: init[i].0)
    requires forall i :: 0 <= i < |init| && (forall j :: i < j < |init| ==> init[j].0 != init[i].0) ==>
               init[i].0 in rest && rest[init[i].0] == init[i].1
    ensures var ps, m := init + [last], rest[last.0 := last.1];
      && m.Keys == (set i | 0 <= i < |ps| :: ps[i].0)
      && forall i :: 0 <= i < |ps| && (forall j :: i < j < |ps| ==> ps[j].0 != ps[i].0) ==>
           ps[i].0 in m && m[ps[i].0] == ps[i].1
  {
    var ps, m := init + [last], rest[last.0 := last.1];
    forall x | x in m.Keys
      ensures x in set i | 0 <= i < |ps| :: ps[i].0
    {
      if x == last.0 {
        assert ps[|init|].0 == x;
      } else {
        var i :| 0 <= i < |init| && init[i].0 == x;
        assert ps[i].0 == x;
      }
    }
    forall x | x in (set i | 0 <= i < |ps| :: ps[i].0)
      ensures x in m.Keys
    {
      var i :| 0 <= i < |ps| && ps[i].0 == x;
      if i < |init| {
        assert init[i].0 == x;
      }
    }
    forall i | 0 <= i < |ps| && (forall j :: i < j < |ps| ==> ps[j].0 != ps[i].0)
      ensures ps[i].0 in m && m[ps[i].0] == ps[i].1
    {
      if i < |init| {
        assert ps[i] == init[i];
        forall j | i < j < |init|
          ensures init[j].0 != init[i].0
        {
          assert ps[j] == init[j];
        }
        assert ps[|init|].0 != ps[i].0;
      }
    }
  }

  /** Appending a pair inserts it. */
  lemma ToMapSnoc<K, V>(ps: seq<(K, V)>, k: K, v: V)
    ensures ToMap(ps + [(k, v)]) == ToMap(ps)[k := v]
  {
  }

  /** Every key of the pairs is a key of the map. */
  lemma ToMapHasKey<K, V>(ps: seq<(K, V)>, i: nat)
    requires i < |ps|
    ensures ps[i].0 in ToMap(ps)
  {
    assert ps[i].0 in set k | 0 <= k < |ps| :: ps[k].0;
  }

  /** A key of the map is the key of some pair. */
  lemma ToMapKeyAt<K, V>(ps: seq<(K, V)>, k: K) returns (i: nat)
    requires k in ToMap(ps)
    ensures i < |ps| && ps[i].0 == k
  {
    i :| 0 <= i < |ps| && ps[i].0 == k;
  }

  lemma {:induction false} ToMapProvenance<K, V>(ps: seq<(K, V)>)
    ensures forall k :: k in ToMap(ps) ==> exists i :: 0 <= i < |ps| && ps[i] == (k, ToMap(ps)[k])
    decreases |ps|
  {
    if |ps| > 0 {
      var init := ps[..|ps| - 1];
      ToMapProvenance(init);
      forall k | k in ToMap(ps)
        ensures exists i :: 0 <= i < |ps| && ps[i] == (k, ToMap(ps)[k])
      {
        if k != ps[|ps| - 1].0 {
          var i :| 0 <= i < |init| && init[i] == (k, ToMap(init)[k]);
          assert ps[i] == init[i];
        }
      }
    }
  }

  /** `order` lists every key of `keys` exactly once: a possible iteration
      order of a `HashMap` with those keys. */
  predicate IsOrdering<K>(order: seq<K>, keys: set<K>) {
    && (forall i :: 0 <= i < |order| ==> order[i] in keys)
    && (forall k :: k in keys ==> k in order)
    && (forall i, j :: 0 <= i < j < |order| ==> order[i] != order[j])
  }
}
