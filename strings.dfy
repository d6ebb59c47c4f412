/**
 * The few Python `str` built-ins the pipeline relies on: `isspace`, `strip`,
 * `split` on a one-character separator, and `join`.
 */
module Strings {

  /** Python's `str.isspace` for one character: the Unicode whitespace set
      (bidirectional class WS, B or S, or general category Zs). */
  predicate IsSpace(c: char) {
    || ('\t' <= c <= '\r')
    || ('\U{1C}' <= c <= ' ')
    || c == '\U{85}' || c == '\U{A0}' || c == '\U{1680}'
    || ('\U{2000}' <= c <= '\U{200A}')
    || c == '\U{2028}' || c == '\U{2029}' || c == '\U{202F}'
    || c == '\U{205F}' || c == '\U{3000}'
  }

  /** `s.lstrip()`: drops every leading whitespace character. */
  function LStrip(s: string): (r: string)
    ensures |r| <= |s| && r == s[|s| - |r|..]
    ensures r == [] || !IsSpace(r[0])
    ensures forall i :: 0 <= i < |s| - |r| ==> IsSpace(s[i])
  {
    if |s| > 0 && IsSpace(s[0]) then LStrip(s[1..]) else s
  }

  /** `s.rstrip()`: drops every trailing whitespace character. */
  function RStrip(s: string): (r: string)
    ensures |r| <= |s| && r == s[..|r|]
    ensures r == [] || !IsSpace(r[|r| - 1])
    ensures forall i :: |r| <= i < |s| ==> IsSpace(s[i])
  {
    if |s| > 0 && IsSpace(s[|s| - 1]) then RStrip(s[..|s| - 1]) else s
  }

  /** `s.strip()`: the longest infix of `s` that neither starts nor ends
      with whitespace, obtained by dropping only whitespace. */
  function Strip(s: string): (r: string)
    ensures var k := |s| - |LStrip(s)|; k + |r| <= |s| && r == s[k..][..|r|]
    ensures forall c :: c in r ==> c in s
  {
    var l := LStrip(s);
    var r := RStrip(l);
    assert forall c :: c in r ==> c in l;
    r
  }

  /** A stripped string neither starts nor ends with whitespace. */
  lemma StripEnds(s: string)
    ensures var r := Strip(s); r == [] || (!IsSpace(r[0]) && !IsSpace(r[|r| - 1]))
  {
    var l := LStrip(s);
    var r := RStrip(l);
    if r != [] {
      assert r[0] == l[0];
    }
  }

  /** Everything `strip()` drops, at either end, is whitespace. */
  lemma StripDropsOnlySpace(s: string)
    ensures var k := |s| - |LStrip(s)|; var r := Strip(s);
      && (forall i :: 0 <= i < k ==> IsSpace(s[i]))
      && (forall i :: k + |r| <= i < |s| ==> IsSpace(s[i]))
  {
    var l := LStrip(s);
    var k := |s| - |l|;
    var r := RStrip(l);
    forall i | k + |r| <= i < |s| ensures IsSpace(s[i]) {
      assert s[i] == l[i - k];
    }
  }

  /** Stripping an already stripped string changes nothing. */
  lemma StripIdempotent(s: string)
    ensures Strip(Strip(s)) == Strip(s)
  {
    var r := Strip(s);
    StripEnds(s);
    assert LStrip(r) == r by {
      if |r| > 0 { assert !IsSpace(r[0]); }
    }
    assert RStrip(r) == r by {
      if |r| > 0 { assert !IsSpace(r[|r| - 1]); }
    }
  }

  /** `s.split(sep)` for a one-character separator: the maximal pieces of `s`
      between separators, including empty ones; never an empty list. */
  function Split(s: string, sep: char): (r: seq<string>)
    ensures |r| >= 1
  {
    if s == [] then [[]]
    else
      var rest := Split(s[1..], sep);
      if s[0] == sep then [[]] + rest
      else [[s[0]] + rest[0]] + rest[1..]
  }

  /** `sep.join(pieces)`. */
  function Join(pieces: seq<string>, sep: char): string
  {
    if |pieces| == 0 then []
    else if |pieces| == 1 then pieces[0]
    else pieces[0] + [sep] + Join(pieces[1..], sep)
  }

  /** Splitting and joining back on the same separator gives the input. */
  lemma {:induction false} SplitJoin(s: string, sep: char)
    ensures Join(Split(s, sep), sep) == s
  {
    if s != [] {
      var rest := Split(s[1..], sep);
      SplitJoin(s[1..], sep);
      if s[0] == sep {
        assert Split(s, sep)[1..] == rest;
      } else if |rest| == 1 {
        assert Split(s, sep) == [[s[0]] + rest[0]];
      } else {
        var r := Split(s, sep);
        assert r[1..] == rest[1..];
        calc {
          Join(r, sep);
          [s[0]] + rest[0] + [sep] + Join(rest[1..], sep);
          [s[0]] + Join(rest, sep);
        }
      }
    }
  }

  /** No piece of a split contains the separator, and there is exactly one
      piece when the separator does not occur. */
  lemma {:induction false} SplitPieces(s: string, sep: char)
    ensures forall i :: 0 <= i < |Split(s, sep)| ==> sep !in Split(s, sep)[i]
    ensures sep !in s <==> |Split(s, sep)| == 1
    ensures sep !in s ==> Split(s, sep) == [s]
  {
    if s != [] {
      SplitPieces(s[1..], sep);
      var rest := Split(s[1..], sep);
      var r := Split(s, sep);
      if s[0] == sep {
        assert r[0] == [] && r[1..] == rest;
        assert |r| >= 2;
      } else {
        assert r[1..] == rest[1..];
        assert r[0] == [s[0]] + rest[0];
        assert s == [s[0]] + s[1..];
        assert sep in s <==> sep in s[1..];
      }
    }
  }

  /** The last piece of a split is the part of `s` after its last separator:
      a suffix of `s` that is either all of `s` (no separator occurs) or is
      preceded by a separator. */
  lemma {:induction false} SplitLastPiece(s: string, sep: char)
    ensures var r := Split(s, sep); var last := r[|r| - 1];
      && |last| <= |s| && last == s[|s| - |last|..]
      && (if |last| == |s| then sep !in s else s[|s| - |last| - 1] == sep)
  {
    SplitPieces(s, sep);
    if s != [] {
      SplitLastPiece(s[1..], sep);
      SplitPieces(s[1..], sep);
      var rest := Split(s[1..], sep);
      var r := Split(s, sep);
      if s[0] == sep {
        assert r[|r| - 1] == rest[|rest| - 1];
      } else if |rest| == 1 {
        assert r == [[s[0]] + rest[0]];
        assert rest[0] == s[1..];
        assert r[0] == s;
      } else {
        assert r[|r| - 1] == rest[|rest| - 1];
        assert sep in s[1..];
      }
    }
  }
}
