/**
 * The decisions `main` makes: which URL to fetch for the user's input, when
 * to give up with exit status 1, and what file to write on success. The
 * network fetch and the file write are inputs: `fetch` says what the page
 * fetch returned for a URL, `writeSucceeds` whether writing a file worked.
 */
module Orchestrator {
  import opened PyStr
  import opened Sanitizer
  import opened SummaryExtractor

  datatype Option<T> = None | Some(value: T)

  const WikiBase := "https://en.wikipedia.org/wiki/"
  const TitlePrefix := "Title: "
  const FileSuffix := "_summary.txt"

  /** A parsed page: the text of `h1#firstHeading` if there is one, and the two paragraph selections. */
  datatype Page = Page(title: Option<string>, primary: seq<Paragraph>, fallback: seq<Paragraph>)

  /** What `fetch_wikipedia_page` returns: `None` on any request error or non-success status. */
  datatype Fetch = FetchFailed | Fetched(page: Page)

  /** A file `main` writes: its name and its whole contents. */
  datatype SavedFile = SavedFile(name: string, contents: string)

  /** How a run ends: the exit status and the file it tried to write, if any. */
  datatype Outcome = Outcome(exitCode: int, write: Option<SavedFile>)

  /** The URL `main` fetches for one line of user input. */
  function ResolveUrl(input: string): string {
    var s := Strip(input);
    if StartsWith(s, "http") then s else WikiBase + ReplaceChars(s, {' '}, '_')
  }

  /** Input that starts with `http` once stripped is taken as the URL itself. */
  lemma ResolveUrlKeepsUrls(input: string)
    requires StartsWith(Strip(input), "http")
    ensures ResolveUrl(input) == Strip(input)
  {
  }

  /**
   * Any other input is a page title: the URL is the article base followed by
   * the stripped title, character for character, with each space turned into
   * `_`, so no space is left after the base.
   */
  lemma ResolveUrlForTitle(input: string)
    requires !StartsWith(Strip(input), "http")
    ensures var s := Strip(input);
      var url := ResolveUrl(input);
      StartsWith(url, WikiBase) && |url| == |WikiBase| + |s|
      && (forall i :: 0 <= i < |s| && s[i] != ' ' ==> url[|WikiBase| + i] == s[i])
      && (forall i :: 0 <= i < |s| && s[i] == ' ' ==> url[|WikiBase| + i] == '_')
      && (forall i :: |WikiBase| <= i < |url| ==> url[i] != ' ')
  {
    var s := Strip(input);
    var url := ResolveUrl(input);
    assert url[..|WikiBase|] == WikiBase;
    forall i | |WikiBase| <= i < |url| ensures url[i] != ' ' {
      assert url[i] == ReplaceChars(s, {' '}, '_')[i - |WikiBase|];
    }
  }

  /** Whitespace around the input makes no difference. */
  lemma ResolveUrlIgnoresSurroundingSpace(input: string)
    ensures ResolveUrl(input) == ResolveUrl(Strip(input))
  {
    StripIdempotent(input);
  }

  /** The test is a plain prefix test: a bare title that begins with `http` is fetched as if it were a URL. */
  lemma ResolveUrlHttpPrefixedTitle()
    ensures ResolveUrl("httpd") == "httpd"
  {
    StripKeepsStripped("httpd");
    assert "httpd"[..4] == "http";
  }

  function OutputFileName(title: string): string {
    Sanitize(title) + FileSuffix
  }

  function OutputContents(title: string, summary: string): string {
    TitlePrefix + title + "\n\n" + summary
  }

  lemma FileSuffixIsSafe()
    ensures forall i :: 0 <= i < |FileSuffix| ==> !IsReserved(FileSuffix[i])
  {
    forall i | 0 <= i < |FileSuffix| ensures !IsReserved(FileSuffix[i]) {
      assert FileSuffix[i] in "_sumary.tx";
    }
  }

  /** The file name has no reserved character, no whitespace at its front, and ends in `_summary.txt`. */
  lemma OutputFileNameIsSafe(title: string)
    ensures var name := OutputFileName(title);
      |name| >= |FileSuffix| && name[|name| - |FileSuffix|..] == FileSuffix
      && (forall i :: 0 <= i < |name| ==> !IsReserved(name[i]))
      && !IsSpace(name[0])
  {
    var name := OutputFileName(title);
    var stem := Sanitize(title);
    SanitizeIsSafe(title);
    assert name[|name| - |FileSuffix|..] == FileSuffix;
    FileSuffixIsSafe();
    forall i | 0 <= i < |name| ensures !IsReserved(name[i]) {
      if i >= |stem| {
        assert name[i] == FileSuffix[i - |stem|];
      }
    }
  }

  /** The title and the summary can be read back from the contents once the title's length is known. */
  lemma OutputContentsReadBack(title: string, summary: string)
    ensures var c := OutputContents(title, summary);
      var n := |TitlePrefix| + |title|;
      |c| == n + 2 + |summary|
      && c[..|TitlePrefix|] == TitlePrefix
      && c[|TitlePrefix|..n] == title
      && c[n..n + 2] == "\n\n"
      && c[n + 2..] == summary
  {
  }

  /**
   * `main` after reading its input: fetch the resolved URL, require a title
   * and a non-empty summary of at most `DefaultMaxWords` words plus one
   * paragraph, then write the file.
   */
  function Run(input: string, fetch: string -> Fetch, writeSucceeds: SavedFile -> bool): (o: Outcome)
    ensures o.exitCode == 0 || o.exitCode == 1
    ensures o.exitCode == 0 ==> o.write.Some? && writeSucceeds(o.write.value)
  {
    match fetch(ResolveUrl(input))
    case FetchFailed => Outcome(1, None)
    case Fetched(page) =>
      if page.title.None? then Outcome(1, None)
      else
        var title := page.title.value;
        var summary := Summary(page.primary, page.fallback, DefaultMaxWords);
        if summary == "" then Outcome(1, None)
        else
          var file := SavedFile(OutputFileName(title), OutputContents(title, summary));
          Outcome(if writeSucceeds(file) then 0 else 1, Some(file))
  }

  /** A page with something to write: a title and at least one usable paragraph candidate. */
  predicate Writable(f: Fetch) {
    f.Fetched? && f.page.title.Some?
    && exists p :: p in Candidates(f.page.primary, f.page.fallback) && Usable(p)
  }

  /**
   * A file is written exactly when the fetch worked, the page has a title and
   * some paragraph is usable; the run succeeds exactly when that write succeeds.
   */
  lemma RunWritesIff(input: string, fetch: string -> Fetch, writeSucceeds: SavedFile -> bool)
    ensures var o := Run(input, fetch, writeSucceeds);
      (o.write.Some? <==> Writable(fetch(ResolveUrl(input))))
      && (o.exitCode == 0 <==> o.write.Some? && writeSucceeds(o.write.value))
  {
    var f := fetch(ResolveUrl(input));
    if f.Fetched? && f.page.title.Some? {
      SummaryEmptyIff(f.page.primary, f.page.fallback, DefaultMaxWords);
    }
  }

  /**
   * The file a run writes is named after the sanitized title and holds the
   * title line, a blank line, and the summary of the page's paragraphs.
   */
  lemma RunWritesSummary(input: string, fetch: string -> Fetch, writeSucceeds: SavedFile -> bool)
    ensures var f := fetch(ResolveUrl(input));
      var o := Run(input, fetch, writeSucceeds);
      o.write.Some? ==>
        f.Fetched? && f.page.title.Some?
        && o.write.value.name == Sanitize(f.page.title.value) + FileSuffix
        && o.write.value.contents == TitlePrefix + f.page.title.value + "\n\n" + Summary(f.page.primary, f.page.fallback, DefaultMaxWords)
        && Summary(f.page.primary, f.page.fallback, DefaultMaxWords) != ""
  {
  }

  /** A page without a title, or whose candidates are all unusable, ends the run with status 1 and no file. */
  lemma RunFailsWithoutTitleOrProse(input: string, fetch: string -> Fetch, writeSucceeds: SavedFile -> bool)
    requires var f := fetch(ResolveUrl(input));
      f.Fetched? && (f.page.title.None? || forall p :: p in Candidates(f.page.primary, f.page.fallback) ==> !Usable(p))
    ensures Run(input, fetch, writeSucceeds) == Outcome(1, None)
  {
    RunWritesIff(input, fetch, writeSucceeds);
  }
}
