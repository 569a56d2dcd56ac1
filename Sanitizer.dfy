/**
 * `sanitize_filename`: every character that most file systems refuse in a
 * name becomes `_`, then surrounding whitespace is stripped.
 */
module Sanitizer {
  import opened PyStr

  /** The regular-expression class `[<>:"/\\|?*]`. */
  const Reserved: set<char> := {'<', '>', ':', '"', '/', '\\', '|', '?', '*'}

  predicate IsReserved(c: char) {
    c in Reserved
  }

  /** `re.sub(r'[<>:"/\\|?*]', '_', s)` */
  function ReplaceReserved(s: string): string {
    ReplaceChars(s, Reserved, '_')
  }

  /** A name `sanitize_filename` leaves as it is. */
  predicate IsSafeName(s: string) {
    IsStripped(s) && forall i :: 0 <= i < |s| ==> !IsReserved(s[i])
  }

  function Sanitize(name: string): string {
    Strip(ReplaceReserved(name))
  }

  /** The sanitized name has no reserved character and no whitespace at its ends, and is no longer than the input. */
  lemma SanitizeIsSafe(name: string)
    ensures IsSafeName(Sanitize(name)) && |Sanitize(name)| <= |name|
  {
    var m := ReplaceReserved(name);
    forall i | 0 <= i < |Strip(m)| ensures !IsReserved(Strip(m)[i]) {
      StripAt(m, i);
    }
  }

  /** A name without reserved characters is unchanged by the per-character rewrite. */
  lemma ReplaceKeepsUnreserved(s: string)
    requires forall i :: 0 <= i < |s| ==> !IsReserved(s[i])
    ensures ReplaceReserved(s) == s
  {
  }

  /** The names `Sanitize` maps to themselves are exactly the safe ones. */
  lemma SanitizeFixedPoints(s: string)
    ensures Sanitize(s) == s <==> IsSafeName(s)
  {
    if IsSafeName(s) {
      ReplaceKeepsUnreserved(s);
      StripKeepsStripped(s);
    }
  }

  lemma SanitizeIdempotent(s: string)
    ensures Sanitize(Sanitize(s)) == Sanitize(s)
  {
    SanitizeIsSafe(s);
    SanitizeFixedPoints(Sanitize(s));
  }

  /** No reserved character is whitespace, so the rewrite keeps the leading whitespace as it is. */
  lemma {:induction false} ReplaceKeepsSpan(s: string)
    ensures Span(ReplaceReserved(s), true) == Span(s, true)
    decreases |s|
  {
    if s != [] {
      var m := ReplaceReserved(s);
      assert m[1..] == ReplaceReserved(s[1..]);
      assert IsSpace(m[0]) == IsSpace(s[0]);
      ReplaceKeepsSpan(s[1..]);
    }
  }

  /**
   * Character `i` of the result is the input character `i` places after its
   * leading whitespace, with a reserved one turned into `_`.
   */
  lemma SanitizeKeepsCharacters(s: string, i: nat)
    requires i < |Sanitize(s)|
    ensures var lo := Span(s, true);
      lo + |Sanitize(s)| <= |s| && Sanitize(s)[i] == (if IsReserved(s[lo + i]) then '_' else s[lo + i])
  {
    ReplaceKeepsSpan(s);
    SanitizeAt(s, i);
  }

  /** `SanitizeKeepsCharacters`, with the offset counted in the rewritten name. */
  lemma SanitizeAt(s: string, i: nat)
    requires i < |Sanitize(s)|
    ensures var lo := Span(ReplaceReserved(s), true);
      lo + |Sanitize(s)| <= |s| && Sanitize(s)[i] == (if IsReserved(s[lo + i]) then '_' else s[lo + i])
  {
    StripAt(ReplaceReserved(s), i);
  }

  /** What `Sanitize` cuts off at either end of the input is whitespace. */
  lemma SanitizeCutsOnlySpace(s: string)
    ensures var lo := Span(s, true);
      forall i :: 0 <= i < |s| && !(lo <= i < lo + |Sanitize(s)|) ==> IsSpace(s[i])
  {
    var m := ReplaceReserved(s);
    ReplaceKeepsSpan(s);
    var lo := Span(m, true);
    var r := Strip(m);
    forall i | 0 <= i < |s| && !(lo <= i < lo + |r|) ensures IsSpace(s[i]) {
      assert IsSpace(m[i]);
      assert m[i] == if IsReserved(s[i]) then '_' else s[i];
    }
  }

  lemma SanitizeExampleReserved()
    ensures Sanitize("A:B/C") == "A_B_C"
  {
    var m := ReplaceReserved("A:B/C");
    assert m[1] == '_' && m[3] == '_';
    assert m == "A_B_C";
    StripKeepsStripped("A_B_C");
  }

  lemma SanitizeExampleSpaces()
    ensures Sanitize("  Tokyo  ") == "Tokyo"
  {
    var s := "  Tokyo  ";
    TokyoUnreserved();
    TokyoSpan();
    TokyoTrailing();
    StripBetween(s, 2, 2);
    TokyoMiddle();
  }

  lemma TokyoMiddle()
    ensures "  Tokyo  "[2..|"  Tokyo  "| - 2] == "Tokyo"
  {
  }

  lemma TokyoUnreserved()
    ensures ReplaceReserved("  Tokyo  ") == "  Tokyo  "
  {
    var s := "  Tokyo  ";
    forall i | 0 <= i < |s| ensures !IsReserved(s[i]) {
      assert s[i] in " Tokyo";
    }
    ReplaceKeepsUnreserved(s);
  }

  lemma TokyoSpan()
    ensures Span("  Tokyo  ", true) == 2
  {
    var s := "  Tokyo  ";
    assert s[1..] == " Tokyo  " && s[2..] == "Tokyo  ";
    assert Span(s[2..], true) == 0;
  }

  lemma TokyoTrailing()
    ensures TrailingSpaces("  Tokyo  "[2..]) == 2
  {
    var t := "  Tokyo  "[2..];
    assert t == "Tokyo  ";
    assert t[..6] == "Tokyo " && t[..5] == "Tokyo";
    assert TrailingSpaces(t[..5]) == 0;
  }
}
