/** What the tools hand back to the caller: the numbered lists of SearchWeb
    and SearchNews, and the text FetchContent returns. The HTTP requests are
    not modelled; the page each tool would download is a parameter. */
module Reports {
  import opened Wrappers
  import opened Text
  import opened Normalizer
  import opened Urls
  import opened Results

  /** Entries numbered from k + 1 on, one after the other: entry i is
      written by entry(i, r), i counting from 0. */
  function Numbered(k: nat, rs: seq<SearchResult>, entry: (nat, SearchResult) -> string): string
    decreases |rs|
  {
    if rs == [] then [] else entry(k, rs[0]) + Numbered(k + 1, rs[1..], entry)
  }

  /** One more result adds its entry, with the next number, at the end. */
  lemma {:induction false} NumberedSnoc(k: nat, rs: seq<SearchResult>, r: SearchResult, entry: (nat, SearchResult) -> string)
    ensures Numbered(k, rs + [r], entry) == Numbered(k, rs, entry) + entry(k + |rs|, r)
    decreases |rs|
  {
    if rs == [] {
      assert rs + [r] == [r];
    } else {
      assert (rs + [r])[1..] == rs[1..] + [r];
      NumberedSnoc(k + 1, rs[1..], r, entry);
    }
  }

  /** The loop step of the formatters: listing one more of the results. */
  lemma NumberedStep(k: nat, rs: seq<SearchResult>, i: nat, entry: (nat, SearchResult) -> string)
    requires i < |rs|
    ensures Numbered(k, rs[..i + 1], entry) == Numbered(k, rs[..i], entry) + entry(k + i, rs[i])
  {
    assert rs[..i + 1] == rs[..i] + [rs[i]];
    NumberedSnoc(k, rs[..i], rs[i], entry);
  }

  /** Two runs of results are listed one after the other, the second one
      numbered on from where the first stops. */
  lemma {:induction false} NumberedAppend(k: nat, a: seq<SearchResult>, b: seq<SearchResult>, entry: (nat, SearchResult) -> string)
    ensures Numbered(k, a + b, entry) == Numbered(k, a, entry) + Numbered(k + |a|, b, entry)
    decreases |a|
  {
    if a == [] {
      assert a + b == b;
    } else {
      assert (a + b)[1..] == a[1..] + b;
      NumberedAppend(k + 1, a[1..], b, entry);
    }
  }

  /** Result j is listed with number k + j + 1, after the entries of the
      results before it and before those of the results after it. */
  lemma NumberedAt(k: nat, rs: seq<SearchResult>, j: nat, entry: (nat, SearchResult) -> string)
    requires j < |rs|
    ensures Numbered(k, rs, entry) ==
      Numbered(k, rs[..j], entry) + entry(k + j, rs[j]) + Numbered(k + j + 1, rs[j + 1..], entry)
  {
    assert rs == rs[..j] + ([rs[j]] + rs[j + 1..]);
    NumberedAppend(k, rs[..j], [rs[j]] + rs[j + 1..], entry);
    assert ([rs[j]] + rs[j + 1..])[1..] == rs[j + 1..];
  }

  /** The first two lines of an entry, in both lists: number and title,
      then the URL. */
  function TitleLine(i: nat, r: SearchResult, newline: string): string {
    NatToString(i + 1) + ". " + r.title + newline
  }

  function UrlLine(r: SearchResult, newline: string): string {
    "   URL: " + r.url + newline
  }

  // SearchWeb

  const NoResults: string := "Keine Ergebnisse gefunden."

  function WebHeader(query: string): string {
    "Suchergebnisse fuer: " + query + "\n\n"
  }

  /** One result as SearchWeb lists it: number, title, URL and snippet on
      three lines, then an empty line. The snippet line is written even
      when the snippet is empty. */
  function WebEntry(i: nat, r: SearchResult): string {
    TitleLine(i, r, "\n") + UrlLine(r, "\n") + ("   " + r.snippet + "\n") + "\n"
  }

  /** What SearchWeb returns for the results ParseResults gave it. */
  function WebReport(query: string, rs: seq<SearchResult>): string {
    if rs == [] then NoResults else WebHeader(query) + Numbered(0, rs, WebEntry)
  }

  /** The loop of SearchWeb: the header, then the entries in order. */
  method FormatWeb(query: string, results: seq<SearchResult>) returns (output: string)
    ensures output == WebHeader(query) + Numbered(0, results, WebEntry)
  {
    output := WebHeader(query);
    for i := 0 to |results|
      invariant output == WebHeader(query) + Numbered(0, results[..i], WebEntry)
    {
      var r := results[i];
      NumberedStep(0, results, i, WebEntry);
      Regroup3(WebHeader(query), Numbered(0, results[..i], WebEntry), WebEntry(i, r));
      output := output + WebEntry(i, r);
    }
    assert results[..|results|] == results;
  }

  /** SearchWeb once the page is downloaded: the results of the page under
      the cap and the allow-list, or the sentence saying there are none. */
  method SearchWeb(html: string, query: string, maxResults: int, allowed: set<string>, trim: HostTrim)
    returns (output: string)
    ensures output == WebReport(query, ParsedResults(html, maxResults, allowed, trim))
  {
    var results := ParseResults(html, maxResults, allowed, trim);
    if |results| == 0 {
      return NoResults;
    }
    output := FormatWeb(query, results);
  }

  /** The "no results" sentence comes back exactly when there are no
      results. */
  lemma WebReportEmpty(query: string, rs: seq<SearchResult>)
    ensures WebReport(query, rs) == NoResults <==> rs == []
  {
    if rs != [] {
      assert WebReport(query, rs)[0] == 'S';
    }
  }

  /** A report with results opens with the header and the first result. */
  lemma WebReportStart(query: string, rs: seq<SearchResult>)
    requires rs != []
    ensures WebReport(query, rs) == WebHeader(query) + WebEntry(0, rs[0]) + Numbered(1, rs[1..], WebEntry)
  {
    Regroup3(WebHeader(query), WebEntry(0, rs[0]), Numbered(1, rs[1..], WebEntry));
  }

  // SearchNews

  const NoNews: string := "Keine Nachrichten gefunden."

  /** The header line of SearchNews; newline is what AppendLine adds
      (Environment.NewLine). */
  function NewsHeader(query: string, newline: string): string {
    "Nachrichten fuer: " + query + "\n" + newline
  }

  /** The snippet line of SearchNews, left out for an empty snippet. */
  function SnippetLine(snippet: string, newline: string): string {
    if snippet == [] then [] else "   " + snippet + newline
  }

  /** One result as SearchNews lists it: number and title, URL, the snippet
      when there is one, then an empty line. */
  function NewsEntry(i: nat, r: SearchResult, newline: string): string {
    TitleLine(i, r, newline) + UrlLine(r, newline) + SnippetLine(r.snippet, newline) + newline
  }

  /** NewsEntry for the given line end, as the list formatter takes it. */
  function NewsEntries(newline: string): (nat, SearchResult) -> string {
    (i: nat, r: SearchResult) => NewsEntry(i, r, newline)
  }

  /** What SearchNews returns for the results ParseResults gave it. */
  function NewsReport(query: string, rs: seq<SearchResult>, newline: string): string {
    if rs == [] then NoNews
    else NewsHeader(query, newline) + Numbered(0, rs, NewsEntries(newline))
  }

  /** The loop of SearchNews over its StringBuilder, modelled as a growing
      string. */
  method FormatNews(query: string, results: seq<SearchResult>, newline: string) returns (output: string)
    ensures output == NewsHeader(query, newline) + Numbered(0, results, NewsEntries(newline))
  {
    var entry := NewsEntries(newline);
    output := NewsHeader(query, newline);
    for i := 0 to |results|
      invariant output == NewsHeader(query, newline) + Numbered(0, results[..i], entry)
    {
      var r := results[i];
      NumberedStep(0, results, i, entry);
      ghost var before := output;
      output := output + TitleLine(i, r, newline);
      output := output + UrlLine(r, newline);
      if r.snippet != [] {
        output := output + ("   " + r.snippet + newline);
      }
      output := output + newline;
      Regroup5(before, TitleLine(i, r, newline), UrlLine(r, newline), SnippetLine(r.snippet, newline), newline);
      Regroup3(NewsHeader(query, newline), Numbered(0, results[..i], entry), entry(i, r));
    }
    assert results[..|results|] == results;
  }

  /** SearchNews once the page is downloaded: every host is admitted, as it
      passes an empty allow-list. */
  method SearchNews(html: string, query: string, maxResults: int, newline: string) returns (output: string)
    ensures output == NewsReport(query, ParsedResults(html, maxResults, {}, TrimLeadingChars), newline)
  {
    var results := ParseResults(html, maxResults, {}, TrimLeadingChars);
    if |results| == 0 {
      return NoNews;
    }
    output := FormatNews(query, results, newline);
  }

  /** The "no news" sentence comes back exactly when there are no results. */
  lemma NewsReportEmpty(query: string, rs: seq<SearchResult>, newline: string)
    ensures NewsReport(query, rs, newline) == NoNews <==> rs == []
  {
    if rs != [] {
      assert NewsReport(query, rs, newline)[0] == 'N';
      assert NewsReport(query, rs, newline)[1] == 'a';
    }
  }

  /** With "\n" line ends, a result with a snippet is listed by SearchNews
      as by SearchWeb; one without loses the empty snippet line. */
  lemma NewsEntryAsWeb(i: nat, r: SearchResult)
    ensures r.snippet != [] ==> NewsEntry(i, r, "\n") == WebEntry(i, r)
    ensures r.snippet == [] ==>
      WebEntry(i, r) == TitleLine(i, r, "\n") + UrlLine(r, "\n") + "   \n" + "\n" &&
      NewsEntry(i, r, "\n") == TitleLine(i, r, "\n") + UrlLine(r, "\n") + "\n"
  {
  }

  /** With "\n" line ends and a snippet in every result, the two lists are
      the same below their headers. */
  lemma {:induction false} NewsListAsWeb(k: nat, rs: seq<SearchResult>)
    requires forall j :: 0 <= j < |rs| ==> rs[j].snippet != []
    ensures Numbered(k, rs, NewsEntries("\n")) == Numbered(k, rs, WebEntry)
    decreases |rs|
  {
    if rs != [] {
      NewsEntryAsWeb(k, rs[0]);
      NewsListAsWeb(k + 1, rs[1..]);
    }
  }

  // FetchContent

  const CutMarker: string := "\n\n[Inhalt abgeschnitten]"

  const NoContent: string := "Kein Inhalt gefunden."

  /** The end of FetchContent on the extracted text: a text longer than
      maxLength keeps its first maxLength characters and gets the marker; a
      blank outcome is replaced by the "no content" sentence. A negative
      maxLength makes the cut throw, since every text is longer; that is
      None. */
  function FetchTail(text: string, maxLength: int): (r: Option<string>)
    ensures r.None? <==> maxLength < 0
  {
    if maxLength < 0 then None
    else
      var t := if |text| > maxLength then text[..maxLength] + CutMarker else text;
      Some(if IsBlank(t) then NoContent else t)
  }

  /** FetchContent once the page is downloaded. */
  function FetchContent(html: string, maxLength: int): (r: Option<string>)
    ensures r.None? <==> maxLength < 0
  {
    FetchTail(ExtractText(html), maxLength)
  }

  /** The marker holds a '[', so a marked text is never blank. */
  lemma MarkedNotBlank(p: string)
    ensures !IsBlank(p + CutMarker)
  {
    assert (p + CutMarker)[|p| + 2] == '[';
  }

  /** A text longer than the limit keeps its first maxLength characters,
      followed by the marker. */
  lemma FetchTailCut(text: string, maxLength: int)
    requires 0 <= maxLength < |text|
    ensures var r := FetchTail(text, maxLength).value;
      |r| == maxLength + |CutMarker| && r[..maxLength] == text[..maxLength] && r[maxLength..] == CutMarker
  {
    MarkedNotBlank(text[..maxLength]);
  }

  /** A text within the limit comes back whole unless it is blank. */
  lemma FetchTailWhole(text: string, maxLength: int)
    requires 0 <= |text| <= maxLength
    ensures !IsBlank(text) ==> FetchTail(text, maxLength) == Some(text)
    ensures IsBlank(text) ==> FetchTail(text, maxLength) == Some(NoContent)
  {
  }

  /** The "no content" sentence comes back exactly for a blank text within
      the limit, or for that sentence itself. */
  lemma FetchTailNoContent(text: string, maxLength: int)
    requires maxLength >= 0
    ensures FetchTail(text, maxLength) == Some(NoContent) <==>
      |text| <= maxLength && (IsBlank(text) || text == NoContent)
  {
    if |text| > maxLength {
      FetchTailCut(text, maxLength);
    }
  }

  /** On a text that is empty or not blank, as ExtractText gives: the
      sentence for the empty text, else the text, cut and marked when it is
      too long. */
  lemma FetchTailExtracted(t: string, maxLength: int)
    requires maxLength >= 0 && (t == [] || !IsBlank(t))
    ensures FetchTail(t, maxLength) ==
      Some(if t == [] then NoContent else if |t| > maxLength then t[..maxLength] + CutMarker else t)
  {
    if |t| > maxLength {
      MarkedNotBlank(t[..maxLength]);
    }
  }

  /** What FetchContent returns: the "no content" sentence for a page with
      no text, else the extracted text, cut and marked when it is too long. */
  lemma FetchContentCases(html: string, maxLength: int)
    requires maxLength >= 0
    ensures var t := ExtractText(html);
      FetchContent(html, maxLength) ==
        Some(if t == [] then NoContent else if |t| > maxLength then t[..maxLength] + CutMarker else t)
  {
    ExtractTextNotBlank(html);
    FetchTailExtracted(ExtractText(html), maxLength);
  }
}
