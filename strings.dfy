/**
 * The parts of Go's `strings` package that httpdiff calls, over Dafny strings
 * (sequences of Unicode scalar values, which is what Go ranges over when it
 * decodes a string as runes).
 */
module Strings {
  import opened Wrappers

  // ---------------------------------------------------------------------------
  // strings.TrimSpace
  // ---------------------------------------------------------------------------

  /** unicode.IsSpace: the Unicode White_Space property, written out. */
  predicate IsSpace(c: char) {
    || c == ' '
    || ('\t' <= c <= '\r')
    || c == '\U{0085}' || c == '\U{00A0}' || c == '\U{1680}'
    || ('\U{2000}' <= c <= '\U{200A}')
    || c == '\U{2028}' || c == '\U{2029}' || c == '\U{202F}' || c == '\U{205F}'
    || c == '\U{3000}'
  }

  /** Drops the leading white space: the result is a suffix of `s`. */
  function TrimLeft(s: string): (r: string)
    ensures |r| <= |s| && r == s[|s| - |r|..]
    ensures forall k :: 0 <= k < |s| - |r| ==> IsSpace(s[k])
    ensures r == [] || !IsSpace(r[0])
  {
    if s != [] && IsSpace(s[0]) then TrimLeft(s[1..]) else s
  }

  /** Drops the trailing white space: the result is a prefix of `s`. */
  function TrimRight(s: string): (r: string)
    ensures |r| <= |s| && r == s[..|r|]
    ensures forall k :: |r| <= k < |s| ==> IsSpace(s[k])
    ensures r == [] || !IsSpace(r[|r| - 1])
  {
    if s != [] && IsSpace(s[|s| - 1]) then TrimRight(s[..|s| - 1]) else s
  }

  /** `r` is `s` with only white space cut: `i` characters before and some after. */
  ghost predicate CutsOnlySpace(s: string, r: string, i: int) {
    && 0 <= i <= |s| - |r| && r == s[i..i + |r|]
    && (forall k :: 0 <= k < i ==> IsSpace(s[k]))
    && (forall k :: i + |r| <= k < |s| ==> IsSpace(s[k]))
  }

  /**
   * strings.TrimSpace: the infix of `s` that neither starts nor ends with
   * white space, after only white space has been cut on either side.
   */
  function TrimSpace(s: string): (r: string)
    ensures r == [] || (!IsSpace(r[0]) && !IsSpace(r[|r| - 1]))
    ensures exists i :: CutsOnlySpace(s, r, i)
  {
    var left := TrimLeft(s);
    var r := TrimRight(left);
    var i := |s| - |left|;
    assert CutsOnlySpace(s, r, i);
    r
  }

  /** Trimming twice trims nothing more. */
  lemma {:induction false} TrimSpaceIdempotent(s: string)
    ensures TrimSpace(TrimSpace(s)) == TrimSpace(s)
  {
    var t := TrimSpace(s);
    assert TrimLeft(t) == t;
    assert TrimRight(t) == t;
  }

  // ---------------------------------------------------------------------------
  // strings.EqualFold
  // ---------------------------------------------------------------------------

  /** ASCII lower case. */
  function LowerAscii(c: char): (r: char)
    ensures 'A' <= c <= 'Z' ==> 'a' <= r <= 'z'
    ensures !('A' <= c <= 'Z') ==> r == c
  {
    if 'A' <= c <= 'Z' then (c as int + 32) as char else c
  }

  /**
   * The representative of `c`'s simple case-folding orbit, for every orbit
   * that holds an ASCII letter: besides the two ASCII cases, U+017F (long s)
   * folds with 's' and U+212A (Kelvin sign) with 'k'.
   */
  function FoldChar(c: char): char {
    if c == '\U{017F}' then 's'
    else if c == '\U{212A}' then 'k'
    else LowerAscii(c)
  }

  predicate IsAscii(s: string) {
    forall i :: 0 <= i < |s| ==> s[i] < '\U{80}'
  }

  /** Every character of `s` in ASCII lower case. */
  function LowerAll(s: string): (r: string)
    ensures |r| == |s| && forall i :: 0 <= i < |s| ==> r[i] == LowerAscii(s[i])
  {
    seq(|s|, i requires 0 <= i < |s| => LowerAscii(s[i]))
  }

  /**
   * strings.EqualFold, rune by rune. Exact whenever one operand is ASCII,
   * which is how httpdiff calls it. Strings of different lengths never
   * match, and two ASCII strings match exactly when they agree once both
   * are in lower case.
   */
  predicate EqualFold(s: string, t: string)
    ensures EqualFold(s, t) ==> |s| == |t|
    ensures IsAscii(s) && IsAscii(t) ==> (EqualFold(s, t) <==> LowerAll(s) == LowerAll(t))
  {
    |s| == |t| && forall i :: 0 <= i < |s| ==> FoldChar(s[i]) == FoldChar(t[i])
  }

  // ---------------------------------------------------------------------------
  // strings.SplitN(s, sep, 2) and strings.Split(s, sep)
  // ---------------------------------------------------------------------------

  /**
   * strings.SplitN(s, sep, 2) for a one-character separator: the text before
   * and after the first `sep`, or None when there is none (SplitN then gives
   * a single part).
   */
  function SplitAtFirst(s: string, sep: char): (r: Option<(string, string)>)
    ensures r.None? <==> sep !in s
    ensures r.Some? ==> s == r.value.0 + [sep] + r.value.1 && sep !in r.value.0
  {
    if s == [] then None
    else if s[0] == sep then Some(([], s[1..]))
    else match SplitAtFirst(s[1..], sep)
      case None => None
      case Some((before, after)) =>
        assert s == [s[0]] + s[1..];
        Some(([s[0]] + before, after))
  }

  /** Any way of cutting `s` at a `sep` with no `sep` before the cut is the first one. */
  lemma {:induction false} SplitAtFirstUnique(before: string, after: string, sep: char)
    requires sep !in before
    ensures SplitAtFirst(before + [sep] + after, sep) == Some((before, after))
  {
    var s := before + [sep] + after;
    if before != [] {
      assert s[1..] == before[1..] + [sep] + after;
      SplitAtFirstUnique(before[1..], after, sep);
      assert [s[0]] + before[1..] == before;
    }
  }

  /** Joins the pieces with `sep` between neighbours (strings.Join). */
  function Join(pieces: seq<string>, sep: char): string
    requires pieces != []
  {
    if |pieces| == 1 then pieces[0] else pieces[0] + [sep] + Join(pieces[1..], sep)
  }

  /**
   * strings.Split(s, sep) for a one-character separator: the pieces between
   * separators; an empty `s` gives one empty piece.
   */
  function Split(s: string, sep: char): (pieces: seq<string>)
    ensures pieces != [] && Join(pieces, sep) == s
    ensures forall k :: 0 <= k < |pieces| ==> sep !in pieces[k]
    decreases |s|
  {
    match SplitAtFirst(s, sep)
    case None => [s]
    case Some((before, after)) => [before] + Split(after, sep)
  }
}
