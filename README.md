# WikiScraper: a verified model of the summary scraper

WikiScraper is a one-file command-line script, `WebScraperPy.py`, that does the following:

1. It reads a Wikipedia URL or a bare page title and fetches the article.
2. It takes the heading `h1#firstHeading` as the title.
3. It builds a summary of about 100 words from the leading paragraphs.
4. It writes `"<title>_summary.txt"`, with each of the characters `< > : " / \ | ? *` in the title replaced by `_`.

This project models in Dafny the deterministic logic inside that I/O glue, and proves what it guarantees.

- `PyStr.dfy` models the Python `str` operations the script relies on:
  - `str.isspace`, using CPython's exact set of whitespace code points;
  - `strip()`;
  - `split()` and `len(split())`;
  - `sep.join`;
  - `startswith`;
  - the one-character rewrites done by `str.replace` and by `re.sub` with a character class.
- `Sanitizer.dfy` models `sanitize_filename`: each of `< > : " / \ | ? *` becomes `_`, then the name is stripped.
- `SummaryExtractor.dfy` models `extract_summary`. It pairs an imperative method with a pure specification.
  - The method `ExtractSummary` keeps the Python loop: it appends to `parts`, adds to `wordCount`, and exits with `break`.
  - Its specification is `Summary`: keep the usable paragraphs (non-empty text, no `span#coordinates`), take them whole until the running word count reaches the budget, and join them with `"\n\n"`.
  - The paragraph selections `div.mw-parser-output > p` and `p` are inputs, named `primary` and `fallback`.
- `Orchestrator.dfy` models the decisions `main` makes:
  - how user input becomes a URL;
  - the output file name and contents;
  - when the run ends with exit status 1.

  `main` is the pure function `Run`. Its inputs are what the fetch returned for a URL and whether a file write succeeds.

Where the script's prompt and comments (`WebScraperPy.py:31`, `WebScraperPy.py:56`) or what one might expect differ from what the code does, the model follows the code:

- **URL input.** A URL is recognised by the plain prefix test `startswith("http")`, so a bare title such as `httpd` is also taken as a URL (`ResolveUrlHttpPrefixedTitle`).
- **Fallback selection.** The whole-page selection `p` is used only when the main-content selection is empty. It is not used when the main selection has no usable paragraph (`FallbackOnlyWhenPrimaryEmpty`).
- **Missing title.** `if not title_element` only fails for a missing element, because a BeautifulSoup tag is always truthy. A present but empty heading goes on to write `_summary.txt`.

## Model

| member | source | states |
|---|---|---|
| PyStr.IsSpace | WebScraperPy.py:45 | definition: the code points CPython's `str.isspace` accepts, the separators of `split()` and `strip()` |
| PyStr.StartsWith | WebScraperPy.py:58 | definition: `s.startswith(prefix)`, the first `len(prefix)` characters of `s` are `prefix` |
| PyStr.Split | WebScraperPy.py:45 | definition: `text.split()`, the maximal runs of non-whitespace in order; its words are characterized by `SplitGivesWords` and counted by `SplitLength` |
| PyStr.WordCount | WebScraperPy.py:45 | definition: the number of places where a run of non-whitespace begins; equal to `len(text.split())` by `SplitLength` |
| PyStr.Join | WebScraperPy.py:52 | definition: `sep.join(parts)`; its length and contents are fixed by `JoinLength`, `JoinAppend` and `JoinEmptyIff` |
| PyStr.Strip | WebScraperPy.py:56 | `strip()` returns a slice of its input with no whitespace at either end, and everything outside that slice is whitespace |
| PyStr.StripKeepsStripped | WebScraperPy.py:56 | a string without whitespace at its ends is returned unchanged by `strip()` |
| PyStr.StripIdempotent | WebScraperPy.py:56 | stripping twice is the same as stripping once |
| PyStr.StripEmptyIff | WebScraperPy.py:11 | `strip()` gives the empty string exactly when the input is all whitespace |
| PyStr.SplitGivesWords | WebScraperPy.py:45 | every word `split()` returns is non-empty and contains no whitespace |
| PyStr.SplitLength | WebScraperPy.py:45 | `len(text.split())` equals the number of maximal runs of non-whitespace characters (`WordCount`) |
| PyStr.WordCountPositive | WebScraperPy.py:45 | a text counts zero words exactly when it is all whitespace |
| PyStr.JoinLength | WebScraperPy.py:52 | the joined text is as long as the parts plus one separator between each neighbouring pair |
| PyStr.JoinAppend | WebScraperPy.py:52 | joining one more part appends the separator and that part |
| PyStr.JoinEmptyIff | WebScraperPy.py:49-52 | joining non-empty parts gives the empty string exactly when there are no parts |
| PyStr.ReplaceChars | WebScraperPy.py:61 | the rewrite keeps the length and replaces exactly the characters of the given class, position by position |
| Sanitizer.ReplaceReserved | WebScraperPy.py:11 | definition: the `re.sub` at this line, each of the nine reserved characters replaced by `_`, as a per-character rewrite; see `ReplaceChars` and `ReplaceKeepsUnreserved` |
| Sanitizer.Sanitize | WebScraperPy.py:9-11 | definition: the rewrite followed by `strip()`; its properties are `SanitizeIsSafe`, `SanitizeFixedPoints`, `SanitizeIdempotent`, `SanitizeKeepsCharacters` and `SanitizeCutsOnlySpace` |
| Sanitizer.ReplaceKeepsSpan | WebScraperPy.py:11 | no reserved character is whitespace, so the rewrite leaves the leading whitespace of the name as it is |
| Sanitizer.SanitizeIsSafe | WebScraperPy.py:9-11 | the sanitized name has no reserved character, no whitespace at its ends, and is no longer than the input |
| Sanitizer.ReplaceKeepsUnreserved | WebScraperPy.py:11 | `re.sub` changes nothing in a name without reserved characters |
| Sanitizer.SanitizeFixedPoints | WebScraperPy.py:9-11 | a name is left unchanged exactly when it has no reserved character and no whitespace at its ends |
| Sanitizer.SanitizeIdempotent | WebScraperPy.py:9-11 | sanitizing twice is the same as sanitizing once |
| Sanitizer.SanitizeKeepsCharacters | WebScraperPy.py:11 | character `i` of the result is the input character `i` places after the leading whitespace, with a reserved one turned into `_` |
| Sanitizer.SanitizeCutsOnlySpace | WebScraperPy.py:11 | everything cut off at either end of the input is whitespace |
| Sanitizer.SanitizeExampleReserved | WebScraperPy.py:11 | `A:B/C` becomes `A_B_C` |
| Sanitizer.SanitizeExampleSpaces | WebScraperPy.py:11 | `  Tokyo  ` becomes `Tokyo` |
| SummaryExtractor.Candidates | WebScraperPy.py:29-34 | definition: the main-content selection when it is non-empty, the whole-page selection otherwise; see `FallbackOnlyWhenPrimaryEmpty` |
| SummaryExtractor.UsableTexts | WebScraperPy.py:41-44 | definition: the texts of the paragraphs with non-empty text and no coordinates span, in order; see the `UsableTexts…` lemmas |
| SummaryExtractor.TakeUntilBudget | WebScraperPy.py:44-47 | definition: take texts whole until the word count reaches the budget; proved to be the unique cut of `IsCut` by `TakeUntilBudgetIsCut` and `CutIsUnique` |
| SummaryExtractor.SummaryParts | WebScraperPy.py:29-47 | definition: the budget cut of the usable texts of the candidates; see `SummaryPartsAreCut` and `SummaryStopRule` |
| SummaryExtractor.Summary | WebScraperPy.py:29-52 | definition: the kept texts joined with `"\n\n"`, the specification `ExtractSummary` is proved against |
| SummaryExtractor.UsableTextsNonEmpty | WebScraperPy.py:42-44 | no kept text is empty, and no more texts are kept than there are paragraphs |
| SummaryExtractor.UsableTextsAppend | WebScraperPy.py:41-44 | the filter works paragraph by paragraph, so it keeps document order |
| SummaryExtractor.UsableTextsMembership | WebScraperPy.py:43-44 | a text is kept exactly when a paragraph with that text is non-empty and has no coordinates span |
| SummaryExtractor.UsableTextsEmptyIff | WebScraperPy.py:43 | nothing is kept exactly when no paragraph qualifies |
| SummaryExtractor.WordTotalAppend | WebScraperPy.py:44-45 | appending a part adds its word count to the total |
| SummaryExtractor.WordTotalMonotone | WebScraperPy.py:45 | the running word count never decreases as parts are appended |
| SummaryExtractor.CutIsUnique | WebScraperPy.py:46-47 | the stopping rule allows exactly one cut point |
| SummaryExtractor.TakeUntilBudgetIsCut | WebScraperPy.py:41-47 | taking texts until the budget is reached keeps a prefix, cut where the stopping rule says |
| SummaryExtractor.AppendedFromIsCut | WebScraperPy.py:41-47 | filtering while walking the paragraphs keeps what filtering first and then cutting keeps |
| SummaryExtractor.SummaryPartsAreCut | WebScraperPy.py:29-47 | the kept texts are a prefix of the usable texts in document order, cut by the stopping rule |
| SummaryExtractor.SummaryPartsAreUsable | WebScraperPy.py:43-44 | every kept text is the text of a candidate that is non-empty and has no coordinates span |
| SummaryExtractor.SummaryStopRule | WebScraperPy.py:45-47 | an early stop means the budget was reached; when more than one text is kept, the count before the last kept text was still under it; a final count under the budget means every usable text was kept |
| SummaryExtractor.SummaryKeepsAllIff | WebScraperPy.py:41-47 | every usable text is kept exactly when no shorter non-empty prefix of them reaches the budget |
| SummaryExtractor.SummaryNonPositiveBudget | WebScraperPy.py:44-47 | with `max_words <= 0` and some usable candidate, the summary is exactly the first usable text |
| SummaryExtractor.SummaryFirstReachesBudget | WebScraperPy.py:45-47 | when the first usable text alone reaches the budget, it is the whole summary |
| SummaryExtractor.SummaryEmptyIff | WebScraperPy.py:49-52 | the summary is empty exactly when no candidate qualifies |
| SummaryExtractor.SummarySinglePart | WebScraperPy.py:52 | a summary of one kept paragraph is that text unchanged, with no separator |
| SummaryExtractor.FallbackOnlyWhenPrimaryEmpty | WebScraperPy.py:29-34 | the fallback selection is irrelevant when the main selection is non-empty, even if none of it is usable, and it is used as is when the main selection is empty |
| SummaryExtractor.LoopGivesSummary | WebScraperPy.py:41-52 | the texts the loop appends, joined, are the summary, which is empty exactly when no candidate qualifies |
| SummaryExtractor.ExtractSummary | WebScraperPy.py:23-52 | the loop's result equals the specification `Summary`, and it is empty exactly when no candidate qualifies |
| Orchestrator.ResolveUrl | WebScraperPy.py:56-62 | definition: strip the input, keep it if it starts with `http`, else append it to the article base with spaces turned into `_`; see the `ResolveUrl…` lemmas |
| Orchestrator.OutputFileName | WebScraperPy.py:87 | definition: the sanitized title followed by `_summary.txt`; see `OutputFileNameIsSafe` |
| Orchestrator.OutputContents | WebScraperPy.py:89-91 | definition: `Title: `, the title, a blank line and the summary; see `OutputContentsReadBack` |
| Orchestrator.ResolveUrlKeepsUrls | WebScraperPy.py:56-59 | stripped input that starts with `http` is fetched as it is |
| Orchestrator.ResolveUrlForTitle | WebScraperPy.py:60-62 | other input gives the article base followed by the stripped title, character for character, with every space turned into `_` |
| Orchestrator.ResolveUrlIgnoresSurroundingSpace | WebScraperPy.py:56 | whitespace around the input does not change the URL |
| Orchestrator.ResolveUrlHttpPrefixedTitle | WebScraperPy.py:58 | the bare title `httpd` is fetched as if it were a URL |
| Orchestrator.FileSuffixIsSafe | WebScraperPy.py:87 | the `_summary.txt` suffix has no reserved character |
| Orchestrator.OutputFileNameIsSafe | WebScraperPy.py:87 | the file name ends in `_summary.txt`, has no reserved character, and does not start with whitespace |
| Orchestrator.OutputContentsReadBack | WebScraperPy.py:89-91 | the file holds `Title: `, the title, a blank line and the summary, each recoverable at its offset |
| Orchestrator.Run | WebScraperPy.py:54-95 | the exit status is 0 or 1, and 0 only when a file was written and the write succeeded |
| Orchestrator.RunWritesIff | WebScraperPy.py:64-95 | a file is written exactly when the fetch worked, the page has a title and some candidate qualifies; the status is 0 exactly when that write succeeds |
| Orchestrator.RunWritesSummary | WebScraperPy.py:79-91 | a written file is named after the sanitized title and holds the title line, a blank line and the non-empty summary |
| Orchestrator.RunFailsWithoutTitleOrProse | WebScraperPy.py:70-82 | a fetched page without a title, or whose candidates all fail the filter, ends with status 1 and no file |

## Left out

- `fetch_wikipedia_page`: `requests.get`, its 10-second timeout and the HTTP status check are I/O. `Run` takes the fetch result as a function from URL to `FetchFailed` or a parsed page.
- HTML parsing: BeautifulSoup, the CSS selectors, `find('h1', id='firstHeading')`, `find('span', id='coordinates')` and `get_text(strip=True)` are library behaviour. Each paragraph is its already-stripped text plus a coordinates flag, and the title is an optional string.
- Console I/O: `input()` becomes the `input` parameter of `Run`, and every `print` to stdout or stderr is omitted.
- `sys.exit`: it becomes the returned exit status.
- File writing: `open` and `write` are I/O, and whether writing succeeds is the parameter `writeSucceeds`. A failed write counts as a whole, so the partly written file an error after `open` can leave behind is not modelled.
- `re` engine: only the single character class used by `sanitize_filename` is modelled, as a per-character rewrite.
- Unicode: strings are sequences of code points. There is no encoding and no UTF-8 file encoding, and whitespace is exactly the set of code points CPython's `str.isspace` accepts.
