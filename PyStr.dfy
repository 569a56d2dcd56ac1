/**
 * Models of the Python `str` operations the scraper is built from:
 * `isspace` (the separator set of `split()` and `strip()`), `strip()`,
 * `split()` with no argument, `sep.join(parts)`, `startswith`, and the
 * character-for-character rewrites done by `str.replace` of one character
 * and by `re.sub` with a one-character class.
 */
module PyStr {

  /** Python's `str.isspace`, written out code point by code point. */
  predicate IsSpace(c: char) {
    ('\t' <= c <= '\r') || ('\U{1C}' <= c <= ' ') || c == '\U{85}' || c == '\U{A0}'
    || c == '\U{1680}' || ('\U{2000}' <= c <= '\U{200A}') || c == '\U{2028}' || c == '\U{2029}'
    || c == '\U{202F}' || c == '\U{205F}' || c == '\U{3000}'
  }

  predicate NoSpace(s: string) {
    forall i :: 0 <= i < |s| ==> !IsSpace(s[i])
  }

  predicate AllSpace(s: string) {
    forall i :: 0 <= i < |s| ==> IsSpace(s[i])
  }

  /** Neither end of `s` is whitespace: what `strip()` guarantees. */
  predicate IsStripped(s: string) {
    s == [] || (!IsSpace(s[0]) && !IsSpace(s[|s| - 1]))
  }

  predicate StartsWith(s: string, prefix: string) {
    |prefix| <= |s| && s[..|prefix|] == prefix
  }

  /** Length of the longest prefix of `s` made of characters that are whitespace exactly when `space` is. */
  function Span(s: string, space: bool): (n: nat)
    ensures n <= |s|
    ensures forall i :: 0 <= i < n ==> IsSpace(s[i]) == space
    ensures n < |s| ==> IsSpace(s[n]) != space
  {
    if s != [] && IsSpace(s[0]) == space then 1 + Span(s[1..], space) else 0
  }

  /** Number of whitespace characters at the end of `s`. */
  function TrailingSpaces(s: string): (n: nat)
    ensures n <= |s|
    ensures forall i :: |s| - n <= i < |s| ==> IsSpace(s[i])
    ensures n < |s| ==> !IsSpace(s[|s| - 1 - n])
  {
    if s != [] && IsSpace(s[|s| - 1]) then 1 + TrailingSpaces(s[..|s| - 1]) else 0
  }

  /**
   * `s.strip()`: the slice of `s` that starts after its leading whitespace,
   * has no whitespace at either end, and leaves only whitespace outside it.
   */
  function Strip(s: string): (r: string)
    ensures IsStripped(r)
    ensures Span(s, true) + |r| <= |s| && r == s[Span(s, true)..Span(s, true) + |r|]
    ensures forall i :: 0 <= i < |s| && !(Span(s, true) <= i < Span(s, true) + |r|) ==> IsSpace(s[i])
  {
    var t := s[Span(s, true)..];
    t[..|t| - TrailingSpaces(t)]
  }

  /** A string without whitespace at its ends is left alone by `strip()`. */
  lemma StripKeepsStripped(s: string)
    requires IsStripped(s)
    ensures Strip(s) == s
  {
    if s != [] {
      assert Span(s, true) == 0;
      assert TrailingSpaces(s) == 0;
    }
  }

  /** `strip()` keeps what lies between `lo` leading and `n` trailing whitespace characters. */
  lemma StripBetween(s: string, lo: nat, n: nat)
    requires lo <= |s| && Span(s, true) == lo && TrailingSpaces(s[lo..]) == n
    ensures Strip(s) == s[lo..|s| - n]
  {
  }

  /** Character `i` of `s.strip()` is character `Span(s, true) + i` of `s`. */
  lemma StripAt(s: string, i: nat)
    requires i < |Strip(s)|
    ensures Span(s, true) + i < |s| && Strip(s)[i] == s[Span(s, true) + i]
  {
  }

  lemma StripIdempotent(s: string)
    ensures Strip(Strip(s)) == Strip(s)
  {
    StripKeepsStripped(Strip(s));
  }

  /** `strip()` returns the empty string exactly for all-whitespace input. */
  lemma StripEmptyIff(s: string)
    ensures Strip(s) == [] <==> AllSpace(s)
  {
    if Strip(s) == [] {
      forall i | 0 <= i < |s| ensures IsSpace(s[i]) { }
    } else {
      assert s[Span(s, true)] == Strip(s)[0];
    }
  }

  /** `s.split()`: the maximal runs of non-whitespace characters of `s`, in order. */
  function Split(s: string): seq<string>
    decreases |s|
  {
    if s == [] then []
    else if IsSpace(s[0]) then Split(s[1..])
    else
      var n := Span(s, false);
      [s[..n]] + Split(s[n..])
  }

  /** Every word `split()` returns is non-empty and free of whitespace. */
  lemma {:induction false} SplitGivesWords(s: string)
    ensures forall k :: 0 <= k < |Split(s)| ==> Split(s)[k] != [] && NoSpace(Split(s)[k])
    decreases |s|
  {
    if s == [] {
    } else if IsSpace(s[0]) {
      SplitGivesWords(s[1..]);
    } else {
      SplitGivesWords(s[Span(s, false)..]);
    }
  }

  /**
   * Number of positions of `s` where a run of non-whitespace begins, given
   * whether the position before `s` is whitespace (or the start of the text).
   */
  function RunStarts(s: string, afterSpace: bool): nat {
    if s == [] then 0
    else (if afterSpace && !IsSpace(s[0]) then 1 else 0) + RunStarts(s[1..], IsSpace(s[0]))
  }

  /** `len(s.split())`: the number of maximal runs of non-whitespace characters. */
  function WordCount(s: string): nat {
    RunStarts(s, true)
  }

  /** Skipping the rest of a word changes no count of run starts. */
  lemma {:induction false} RunStartsSkipWord(t: string, m: nat)
    requires m <= |t|
    requires forall i :: 0 <= i < m ==> !IsSpace(t[i])
    requires m < |t| ==> IsSpace(t[m])
    ensures RunStarts(t, false) == RunStarts(t[m..], true)
    decreases m
  {
    if m > 0 {
      assert t[1..][m - 1..] == t[m..];
      RunStartsSkipWord(t[1..], m - 1);
    }
  }

  /** `split()` returns exactly `WordCount(s)` words. */
  lemma {:induction false} SplitLength(s: string)
    ensures |Split(s)| == WordCount(s)
    decreases |s|
  {
    if s == [] {
    } else if IsSpace(s[0]) {
      SplitLength(s[1..]);
    } else {
      var n := Span(s, false);
      assert s[1..][n - 1..] == s[n..];
      RunStartsSkipWord(s[1..], n - 1);
      SplitLength(s[n..]);
    }
  }

  /** A text with a non-whitespace character has at least one word. */
  lemma {:induction false} WordCountPositive(s: string)
    ensures WordCount(s) == 0 <==> AllSpace(s)
    decreases |s|
  {
    if s != [] {
      WordCountPositive(s[1..]);
      if IsSpace(s[0]) {
        assert AllSpace(s) <==> AllSpace(s[1..]);
      }
    }
  }

  /** `sep.join(parts)` */
  function Join(parts: seq<string>, sep: string): string {
    if |parts| == 0 then ""
    else if |parts| == 1 then parts[0]
    else parts[0] + sep + Join(parts[1..], sep)
  }

  /** Total length of the strings in `parts`. */
  function TotalLength(parts: seq<string>): nat {
    if parts == [] then 0 else |parts[0]| + TotalLength(parts[1..])
  }

  /** The joined text is the parts plus one separator between each neighbouring pair. */
  lemma {:induction false} JoinLength(parts: seq<string>, sep: string)
    requires parts != []
    ensures |Join(parts, sep)| == TotalLength(parts) + (|parts| - 1) * |sep|
  {
    if |parts| > 1 {
      JoinLength(parts[1..], sep);
    }
  }

  /** Adding a part at the end adds one separator and that part. */
  lemma {:induction false} JoinAppend(parts: seq<string>, sep: string, x: string)
    requires parts != []
    ensures Join(parts + [x], sep) == Join(parts, sep) + sep + x
  {
    if |parts| == 1 {
      assert (parts + [x])[1..] == [x];
    } else {
      assert (parts + [x])[1..] == parts[1..] + [x];
      JoinAppend(parts[1..], sep, x);
    }
  }

  /** Joining non-empty parts gives the empty string exactly when there are no parts. */
  lemma JoinEmptyIff(parts: seq<string>, sep: string)
    requires forall k :: 0 <= k < |parts| ==> parts[k] != []
    ensures Join(parts, sep) == [] <==> parts == []
  {
    if parts != [] {
      JoinLength(parts, sep);
    }
  }

  /**
   * Every character of `s` that is in `chars` replaced by `with`: what
   * `s.replace(a, b)` does for one-character `a` and `b`, and what `re.sub`
   * does with a one-character class as its pattern.
   */
  function ReplaceChars(s: string, chars: set<char>, with: char): (r: string)
    ensures |r| == |s|
    ensures forall i :: 0 <= i < |s| ==> r[i] == if s[i] in chars then with else s[i]
  {
    if s == [] then [] else [if s[0] in chars then with else s[0]] + ReplaceChars(s[1..], chars, with)
  }
}
