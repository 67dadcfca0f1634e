/** The symbol an endpoint is looked up under in the endpoint library
    (src/endpoints.rs:64): the endpoint's path with every `/` and every `\`
    replaced by the Rust path separator `::`.  The lookup itself and the call
    into the library are foreign code and are not modelled. */
module Endpoints {
  import opened Text

  /** The characters the replacement acts on. */
  predicate IsSeparator(c: char) {
    c == '/' || c == '\\'
  }

  /** No separator occurs in `s`. */
  predicate SeparatorFree(s: string) {
    forall i :: 0 <= i < |s| ==> !IsSeparator(s[i])
  }

  /** The number of separators in `s`. */
  function SeparatorCount(s: string): nat
    decreases |s|
  {
    if |s| == 0 then 0 else (if IsSeparator(s[0]) then 1 else 0) + SeparatorCount(s[1..])
  }

  /** What one character becomes. */
  function Replacement(c: char): (r: string)
    ensures IsSeparator(c) ==> r == "::"
    ensures !IsSeparator(c) ==> r == [c]
  {
    if IsSeparator(c) then "::" else [c]
  }

  /** `endpoint.replace(|x| x == '/' || x == '\\', "::")`, one character at
      a time. */
  function EndpointSymbol(name: string): (r: string)
    ensures SeparatorFree(r)
    ensures |r| == |name| + SeparatorCount(name)
    decreases |name|
  {
    if |name| == 0 then "" else Replacement(name[0]) + EndpointSymbol(name[1..])
  }

  /** The symbol of a concatenation is the concatenation of the symbols. */
  lemma {:induction false} SymbolAppend(a: string, b: string)
    ensures EndpointSymbol(a + b) == EndpointSymbol(a) + EndpointSymbol(b)
    decreases |a|
  {
    if |a| > 0 {
      assert (a + b)[1..] == a[1..] + b;
      SymbolAppend(a[1..], b);
    } else {
      assert a + b == b;
    }
  }

  /** A name without separators is its own symbol. */
  lemma {:induction false} SeparatorFreeUnchanged(name: string)
    requires SeparatorFree(name)
    ensures EndpointSymbol(name) == name
    decreases |name|
  {
    if |name| > 0 {
      SeparatorFreeUnchanged(name[1..]);
    }
  }

  /** Mapping a symbol again changes nothing. */
  lemma SymbolIdempotent(name: string)
    ensures EndpointSymbol(EndpointSymbol(name)) == EndpointSymbol(name)
  {
    SeparatorFreeUnchanged(EndpointSymbol(name));
  }

  /** A name whose segments are separated by `/` becomes the same segments
      separated by `::`, so only the separators change and the other
      characters keep their order. */
  lemma {:induction false} SegmentsJoined(segments: seq<string>)
    requires forall i :: 0 <= i < |segments| ==> SeparatorFree(segments[i])
    ensures EndpointSymbol(Join(segments, "/")) == Join(segments, "::")
    decreases |segments|
  {
    if |segments| == 1 {
      SeparatorFreeUnchanged(segments[0]);
    } else if |segments| > 1 {
      var rest := Join(segments[1..], "/");
      assert Join(segments, "/") == segments[0] + ("/" + rest);
      SymbolAppend(segments[0], "/" + rest);
      SymbolAppend("/", rest);
      SeparatorFreeUnchanged(segments[0]);
      SegmentsJoined(segments[1..]);
    }
  }

  /** `replace` as the standard library performs it: a scan that copies each
      character, or the replacement for a separator, onto the output. */
  method ReplaceSeparators(name: string) returns (r: string)
    ensures r == EndpointSymbol(name)
  {
    r := "";
    var i := 0;
    while i < |name|
      invariant 0 <= i <= |name|
      invariant r + EndpointSymbol(name[i..]) == EndpointSymbol(name)
    {
      assert name[i..][1..] == name[i + 1..];
      r := r + Replacement(name[i]);
      i := i + 1;
    }
  }
}
