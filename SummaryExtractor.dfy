/**
 * `extract_summary`: pick the paragraph candidates, keep the ones with prose
 * in them, and take their texts in document order until the running word
 * count reaches the budget; the kept texts are joined with a blank line.
 *
 * The two CSS selections are inputs: `primary` is what
 * `div.mw-parser-output > p` returns and `fallback` what `p` returns.
 */
module SummaryExtractor {
  import opened PyStr

  /**
   * One selected `p` element: its text as `get_text(strip=True)` returns it,
   * and whether it contains a `span` with id `coordinates`.
   */
  datatype Paragraph = Paragraph(text: string, hasCoordinates: bool)

  /** What `"\n\n".join` puts between two kept paragraphs. */
  const Separator := "\n\n"

  /** The budget `main` passes: the default of `max_words`. */
  const DefaultMaxWords := 100

  /** A paragraph the loop keeps: non-empty text and no coordinates widget. */
  predicate Usable(p: Paragraph) {
    p.text != "" && !p.hasCoordinates
  }

  /** The main-content selection when it found anything, the whole-page selection otherwise. */
  function Candidates(primary: seq<Paragraph>, fallback: seq<Paragraph>): seq<Paragraph> {
    if primary != [] then primary else fallback
  }

  /** The texts of the usable paragraphs, in document order. */
  function UsableTexts(ps: seq<Paragraph>): seq<string> {
    if ps == [] then []
    else (if Usable(ps[0]) then [ps[0].text] else []) + UsableTexts(ps[1..])
  }

  /** No kept text is empty, and there are no more of them than paragraphs. */
  lemma {:induction false} UsableTextsNonEmpty(ps: seq<Paragraph>)
    ensures |UsableTexts(ps)| <= |ps|
    ensures forall k :: 0 <= k < |UsableTexts(ps)| ==> UsableTexts(ps)[k] != []
  {
    if ps != [] {
      UsableTextsNonEmpty(ps[1..]);
    }
  }

  /** Filtering is done paragraph by paragraph, so it keeps document order. */
  lemma {:induction false} UsableTextsAppend(a: seq<Paragraph>, b: seq<Paragraph>)
    ensures UsableTexts(a + b) == UsableTexts(a) + UsableTexts(b)
  {
    if a != [] {
      assert (a + b)[0] == a[0];
      assert (a + b)[1..] == a[1..] + b;
      UsableTextsAppend(a[1..], b);
    } else {
      assert a + b == b;
    }
  }

  /** A text is kept exactly when some usable paragraph carries it. */
  lemma {:induction false} UsableTextsMembership(ps: seq<Paragraph>, x: string)
    ensures x in UsableTexts(ps) <==> exists p :: p in ps && Usable(p) && p.text == x
  {
    if ps != [] {
      UsableTextsMembership(ps[1..], x);
      if x in UsableTexts(ps[1..]) {
        var p :| p in ps[1..] && Usable(p) && p.text == x;
        assert p in ps;
      }
      if Usable(ps[0]) && ps[0].text == x {
        assert x in UsableTexts(ps);
      }
    }
  }

  /** Nothing is kept exactly when no paragraph is usable. */
  lemma {:induction false} UsableTextsEmptyIff(ps: seq<Paragraph>)
    ensures UsableTexts(ps) == [] <==> forall p :: p in ps ==> !Usable(p)
  {
    if ps != [] {
      UsableTextsEmptyIff(ps[1..]);
      assert forall p :: p in ps <==> p == ps[0] || p in ps[1..];
    }
  }

  /** Sum of the word counts of `parts`. */
  function WordTotal(parts: seq<string>): nat {
    if parts == [] then 0 else WordCount(parts[0]) + WordTotal(parts[1..])
  }

  lemma {:induction false} WordTotalAppend(parts: seq<string>, x: string)
    ensures WordTotal(parts + [x]) == WordTotal(parts) + WordCount(x)
  {
    if parts != [] {
      assert (parts + [x])[1..] == parts[1..] + [x];
      WordTotalAppend(parts[1..], x);
    }
  }

  /** The running word count never goes down as more texts are taken. */
  lemma {:induction false} WordTotalMonotone(texts: seq<string>, j: nat, k: nat)
    requires j <= k <= |texts|
    ensures WordTotal(texts[..j]) <= WordTotal(texts[..k])
    decreases k - j
  {
    if j < k {
      assert texts[..j + 1] == texts[..j] + [texts[j]];
      WordTotalAppend(texts[..j], texts[j]);
      WordTotalMonotone(texts, j + 1, k);
    }
  }

  /**
   * The texts kept from `texts` when `budget` more words are wanted: each
   * text is taken whole, and taking stops right after the one that brings
   * the count up to the budget.
   */
  function TakeUntilBudget(texts: seq<string>, budget: int): seq<string> {
    if texts == [] then []
    else if WordCount(texts[0]) >= budget then [texts[0]]
    else [texts[0]] + TakeUntilBudget(texts[1..], budget - WordCount(texts[0]))
  }

  /**
   * Keeping the first `k` of `texts` obeys the stopping rule: nothing is
   * dropped while something is left unless the budget was reached, every
   * shorter non-empty prefix stayed under the budget, and at least one text is
   * kept when there is one.
   */
  ghost predicate IsCut(texts: seq<string>, maxWords: int, k: nat) {
    k <= |texts|
    && (texts != [] ==> k >= 1)
    && (forall j :: 1 <= j < k ==> WordTotal(texts[..j]) < maxWords)
    && (k < |texts| ==> WordTotal(texts[..k]) >= maxWords)
  }

  /** The stopping rule allows one cut and no other. */
  lemma CutIsUnique(texts: seq<string>, maxWords: int, k1: nat, k2: nat)
    requires IsCut(texts, maxWords, k1) && IsCut(texts, maxWords, k2)
    ensures k1 == k2
  {
  }

  lemma PrefixWordTotal(texts: seq<string>, j: nat)
    requires 1 <= j <= |texts|
    ensures WordTotal(texts[..j]) == WordCount(texts[0]) + WordTotal(texts[1..][..j - 1])
  {
    assert texts[..j][1..] == texts[1..][..j - 1];
  }

  /** What `TakeUntilBudget` keeps is a prefix of its input, cut where the stopping rule says. */
  lemma {:induction false} TakeUntilBudgetIsCut(texts: seq<string>, budget: int)
    ensures var kept := TakeUntilBudget(texts, budget);
      |kept| <= |texts| && kept == texts[..|kept|] && IsCut(texts, budget, |kept|)
  {
    if texts != [] {
      var c := WordCount(texts[0]);
      var kept := TakeUntilBudget(texts, budget);
      if c >= budget {
        PrefixWordTotal(texts, 1);
      } else {
        var rest := TakeUntilBudget(texts[1..], budget - c);
        TakeUntilBudgetIsCut(texts[1..], budget - c);
        assert kept == [texts[0]] + rest;
        forall j | 1 <= j < |kept| ensures WordTotal(texts[..j]) < budget {
          PrefixWordTotal(texts, j);
        }
        if |kept| < |texts| {
          PrefixWordTotal(texts, |kept|);
        }
      }
    }
  }

  /** One step of the budget rule: the first text, then the rest with what is left of the budget. */
  lemma TakeUntilBudgetCons(t: string, rest: seq<string>, budget: int)
    ensures TakeUntilBudget([t] + rest, budget)
      == if WordCount(t) >= budget then [t] else [t] + TakeUntilBudget(rest, budget - WordCount(t))
  {
    assert ([t] + rest)[1..] == rest;
  }

  /** One step of the filter: the paragraph at `i`, then the rest. */
  lemma UsableTextsAt(ps: seq<Paragraph>, i: nat)
    requires i < |ps|
    ensures UsableTexts(ps[i..]) == (if Usable(ps[i]) then [ps[i].text] else []) + UsableTexts(ps[i + 1..])
  {
    assert ps[i..][1..] == ps[i + 1..];
  }

  /**
   * What the loop of `ExtractSummary` still appends from paragraph `i` on,
   * when `budget` more words are wanted.
   */
  ghost function AppendedFrom(ps: seq<Paragraph>, i: nat, budget: int): seq<string>
    decreases |ps| - i
  {
    if i >= |ps| then []
    else if !Usable(ps[i]) then AppendedFrom(ps, i + 1, budget)
    else if WordCount(ps[i].text) >= budget then [ps[i].text]
    else [ps[i].text] + AppendedFrom(ps, i + 1, budget - WordCount(ps[i].text))
  }

  /** Walking the paragraphs and filtering as it goes keeps what filtering first and then cutting keeps. */
  lemma {:induction false} AppendedFromIsCut(ps: seq<Paragraph>, i: nat, budget: int)
    requires i <= |ps|
    ensures AppendedFrom(ps, i, budget) == TakeUntilBudget(UsableTexts(ps[i..]), budget)
    decreases |ps| - i
  {
    if i < |ps| {
      UsableTextsAt(ps, i);
      var t := ps[i].text;
      if Usable(ps[i]) {
        TakeUntilBudgetCons(t, UsableTexts(ps[i + 1..]), budget);
        AppendedFromIsCut(ps, i + 1, budget - WordCount(t));
      } else {
        assert UsableTexts(ps[i..]) == UsableTexts(ps[i + 1..]);
        AppendedFromIsCut(ps, i + 1, budget);
      }
    }
  }

  /** The paragraph texts `extract_summary` keeps. */
  function SummaryParts(primary: seq<Paragraph>, fallback: seq<Paragraph>, maxWords: int): seq<string> {
    TakeUntilBudget(UsableTexts(Candidates(primary, fallback)), maxWords)
  }

  /** The string `extract_summary` returns. */
  function Summary(primary: seq<Paragraph>, fallback: seq<Paragraph>, maxWords: int): string {
    Join(SummaryParts(primary, fallback, maxWords), Separator)
  }

  /**
   * The kept texts are the first usable texts of the candidates, in
   * order, cut by the stopping rule.
   */
  lemma SummaryPartsAreCut(primary: seq<Paragraph>, fallback: seq<Paragraph>, maxWords: int)
    ensures var texts := UsableTexts(Candidates(primary, fallback));
      var parts := SummaryParts(primary, fallback, maxWords);
      |parts| <= |texts| && parts == texts[..|parts|] && IsCut(texts, maxWords, |parts|)
  {
    TakeUntilBudgetIsCut(UsableTexts(Candidates(primary, fallback)), maxWords);
  }

  /** Every kept text belongs to a candidate with non-empty text and no coordinates span. */
  lemma SummaryPartsAreUsable(primary: seq<Paragraph>, fallback: seq<Paragraph>, maxWords: int, x: string)
    requires x in SummaryParts(primary, fallback, maxWords)
    ensures exists p :: p in Candidates(primary, fallback) && Usable(p) && p.text == x
  {
    var texts := UsableTexts(Candidates(primary, fallback));
    var parts := SummaryParts(primary, fallback, maxWords);
    SummaryPartsAreCut(primary, fallback, maxWords);
    var k :| 0 <= k < |parts| && parts[k] == x;
    assert texts[k] == x;
    UsableTextsMembership(Candidates(primary, fallback), x);
  }

  /**
   * When the loop stops early, the budget has been reached and the count
   * before the last kept text was still under it (unless that text was the
   * first); when it does not stop early (the final count is under the
   * budget), every usable text is kept.
   */
  lemma SummaryStopRule(primary: seq<Paragraph>, fallback: seq<Paragraph>, maxWords: int)
    ensures var texts := UsableTexts(Candidates(primary, fallback));
      var parts := SummaryParts(primary, fallback, maxWords);
      (|parts| < |texts| ==> WordTotal(parts) >= maxWords)
      && (|parts| >= 2 ==> WordTotal(parts[..|parts| - 1]) < maxWords)
      && (WordTotal(parts) < maxWords ==> parts == texts)
      && (WordTotal(texts) < maxWords ==> parts == texts)
  {
    var texts := UsableTexts(Candidates(primary, fallback));
    var parts := SummaryParts(primary, fallback, maxWords);
    SummaryPartsAreCut(primary, fallback, maxWords);
    if |parts| >= 2 {
      assert parts[..|parts| - 1] == texts[..|parts| - 1];
    }
    if |parts| < |texts| {
      WordTotalMonotone(texts, |parts|, |texts|);
      assert texts[..|texts|] == texts;
    }
  }

  /** Every usable text is kept exactly when no shorter prefix of them reaches the budget. */
  lemma SummaryKeepsAllIff(primary: seq<Paragraph>, fallback: seq<Paragraph>, maxWords: int)
    ensures var texts := UsableTexts(Candidates(primary, fallback));
      SummaryParts(primary, fallback, maxWords) == texts
      <==> forall j :: 1 <= j < |texts| ==> WordTotal(texts[..j]) < maxWords
  {
    var texts := UsableTexts(Candidates(primary, fallback));
    var parts := SummaryParts(primary, fallback, maxWords);
    SummaryPartsAreCut(primary, fallback, maxWords);
    if forall j :: 1 <= j < |texts| ==> WordTotal(texts[..j]) < maxWords {
      assert IsCut(texts, maxWords, |texts|);
      CutIsUnique(texts, maxWords, |parts|, |texts|);
      assert texts[..|texts|] == texts;
    }
  }

  /** With a budget of zero or less, the first usable text alone is the summary. */
  lemma SummaryNonPositiveBudget(primary: seq<Paragraph>, fallback: seq<Paragraph>, maxWords: int)
    requires maxWords <= 0
    requires exists p :: p in Candidates(primary, fallback) && Usable(p)
    ensures var texts := UsableTexts(Candidates(primary, fallback));
      texts != [] && Summary(primary, fallback, maxWords) == texts[0]
  {
    var texts := UsableTexts(Candidates(primary, fallback));
    var parts := SummaryParts(primary, fallback, maxWords);
    UsableTextsEmptyIff(Candidates(primary, fallback));
    SummaryPartsAreCut(primary, fallback, maxWords);
    var firstWords := WordTotal(texts[..1]);
  }

  /** The summary is empty exactly when no candidate is usable. */
  lemma SummaryEmptyIff(primary: seq<Paragraph>, fallback: seq<Paragraph>, maxWords: int)
    ensures Summary(primary, fallback, maxWords) == ""
      <==> forall p :: p in Candidates(primary, fallback) ==> !Usable(p)
  {
    var texts := UsableTexts(Candidates(primary, fallback));
    var parts := SummaryParts(primary, fallback, maxWords);
    UsableTextsEmptyIff(Candidates(primary, fallback));
    UsableTextsNonEmpty(Candidates(primary, fallback));
    SummaryPartsAreCut(primary, fallback, maxWords);
    assert forall k :: 0 <= k < |parts| ==> parts[k] == texts[k];
    JoinEmptyIff(parts, Separator);
  }

  /** A summary of one kept paragraph is that paragraph's text, with no separator added. */
  lemma SummarySinglePart(primary: seq<Paragraph>, fallback: seq<Paragraph>, maxWords: int)
    requires |SummaryParts(primary, fallback, maxWords)| == 1
    ensures Summary(primary, fallback, maxWords) == UsableTexts(Candidates(primary, fallback))[0]
  {
    SummaryPartsAreCut(primary, fallback, maxWords);
  }

  /**
   * The whole-page selection matters only when the main-content selection is
   * empty: a non-empty main selection is used even if none of it is usable.
   */
  lemma FallbackOnlyWhenPrimaryEmpty(primary: seq<Paragraph>, fallback1: seq<Paragraph>, fallback2: seq<Paragraph>, maxWords: int)
    ensures primary != [] ==> Summary(primary, fallback1, maxWords) == Summary(primary, fallback2, maxWords)
    ensures primary != [] && (forall p :: p in primary ==> !Usable(p)) ==> Summary(primary, fallback1, maxWords) == ""
    ensures primary == [] ==> Summary(primary, fallback1, maxWords) == Summary(fallback1, [], maxWords)
  {
    SummaryEmptyIff(primary, fallback1, maxWords);
  }

  /**
   * When the first usable paragraph alone reaches the budget, it is the whole
   * summary: no later paragraph is looked at.
   */
  lemma SummaryFirstReachesBudget(primary: seq<Paragraph>, fallback: seq<Paragraph>, maxWords: int)
    requires UsableTexts(Candidates(primary, fallback)) != []
    requires WordCount(UsableTexts(Candidates(primary, fallback))[0]) >= maxWords
    ensures Summary(primary, fallback, maxWords) == UsableTexts(Candidates(primary, fallback))[0]
  {
    var texts := UsableTexts(Candidates(primary, fallback));
    SummaryPartsAreCut(primary, fallback, maxWords);
    var firstWords := WordTotal(texts[..1]);
    assert texts[..1][1..] == [];
  }

  /**
   * `extract_summary` with the two selections and the budget as inputs: the
   * loop appends usable texts and adds their word counts, and leaves as soon
   * as the count reaches the budget.
   */
  method ExtractSummary(primary: seq<Paragraph>, fallback: seq<Paragraph>, maxWords: int) returns (summary: string)
    ensures summary == Summary(primary, fallback, maxWords)
    ensures summary == "" <==> forall p :: p in Candidates(primary, fallback) ==> !Usable(p)
  {
    var paragraphs := primary;
    if paragraphs == [] {
      paragraphs := fallback;
    }
    ghost var target := AppendedFrom(paragraphs, 0, maxWords);
    var parts: seq<string> := [];
    var wordCount := 0;
    for i := 0 to |paragraphs|
      invariant wordCount == WordTotal(parts)
      invariant parts + AppendedFrom(paragraphs, i, maxWords - wordCount) == target
    {
      var p := paragraphs[i];
      if p.text != "" && !p.hasCoordinates {
        WordTotalAppend(parts, p.text);
        ghost var before := parts;
        parts := parts + [p.text];
        wordCount := wordCount + WordCount(p.text);
        if wordCount >= maxWords {
          break;
        }
        assert before + ([p.text] + AppendedFrom(paragraphs, i + 1, maxWords - wordCount))
          == parts + AppendedFrom(paragraphs, i + 1, maxWords - wordCount);
      }
    }
    assert paragraphs == Candidates(primary, fallback);
    assert parts == target;
    summary := Join(parts, Separator);
    LoopGivesSummary(primary, fallback, maxWords);
  }

  /** What the loop of `ExtractSummary` appends, joined, is the summary. */
  lemma LoopGivesSummary(primary: seq<Paragraph>, fallback: seq<Paragraph>, maxWords: int)
    ensures var s := Join(AppendedFrom(Candidates(primary, fallback), 0, maxWords), Separator);
      s == Summary(primary, fallback, maxWords)
      && (s == "" <==> forall p :: p in Candidates(primary, fallback) ==> !Usable(p))
  {
    var ps := Candidates(primary, fallback);
    AppendedFromIsCut(ps, 0, maxWords);
    assert ps[0..] == ps;
    SummaryEmptyIff(primary, fallback, maxWords);
  }
}
