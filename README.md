# DuckDuckGo web-search tools, modelled in Dafny

This project models the text-processing core of `WebSearchTools`. That class serves three tools over the Model Context Protocol:

- **SearchWeb** runs a DuckDuckGo search restricted to an allow-list of domains.
- **SearchNews** runs a DuckDuckGo news search.
- **FetchContent** downloads one page.

Each tool turns HTML into plain text for a language model. The model covers everything each tool does after the download:

- **ParseResults**: finds the result containers of a DuckDuckGo page and the result link and snippet inside each. It unwraps DuckDuckGo's `uddg=` redirect links and checks the link's host against the allow-list. It stops after `maxResults` results.
- **StripHtml**: removes tags, decodes entities and trims.
- **ExtractText**: drops noise elements (script, style, nav, header, footer, aside, iframe). It turns block tags into line breaks, strips the remaining tags, decodes entities and collapses runs of spaces. It keeps only lines longer than one character.
- **FetchContent**: cuts the text at `maxLength` and appends "[Inhalt abgeschnitten]", or reports "Kein Inhalt gefunden.".
- **The two formatters**: SearchWeb and SearchNews each build a numbered report.

Each regular expression of the source is a left-to-right scanner that gives the length of the match at a position, and the `Matches`/`Match`/`Replace` calls become recursive functions over those scanners. The loops of the source are methods:

- the capped `foreach` of ParseResults;
- the `for` loop of SearchWeb;
- the `StringBuilder` loop of SearchNews.

Each method is proved equal to a specification function, and the lemmas are stated about those functions.

Modules, in dependency order:

- `Wrappers`: Option.
- `Text`: the .NET string primitives.
- `Entities`: HtmlDecode.
- `Markup`: the tag pattern and StripHtml.
- `Urls`: redirects, percent-decoding, hosts and the allow-list.
- `Normalizer`: ExtractText.
- `Results`: containers, links, snippets and ParseResults.
- `Reports`: the three tools' outputs.

Three behaviours of the code are easy to misread:

- ExtractText drops every line of length 0 or 1 (`l.Length > 1`, line 119). A page whose only text is one character yields "", not that character.
- No separate feed or news parser exists. SearchNews runs the same ParseResults as SearchWeb, with an empty allow-list (line 68).
- The allow-list's `TrimStart("www.".ToCharArray())` does not remove a "www." prefix. It removes every leading 'w' and '.'. See "## Findings".

ParseResults, SearchWeb and the lemmas about them take a `HostTrim` parameter. `TrimLeadingChars` is the host trim as written at line 157, and `TrimWwwPrefix` is the one-prefix trim the code evidently intends. Every property of ParseResults is proved for both.

## Model

| member | source | states |
|---|---|---|
| Results.ParseResults | Tools/WebSearchTools.cs:123-171 | Returns the first `maxResults` results that the page's containers give, in page order, and none when `maxResults <= 0`. Each result has a non-blank title and a URL the allow-list admits, with the host trimmed as written (TrimLeadingChars) or as intended (TrimWwwPrefix). Proved by the loop invariant `results == Present(outcomes[..i])` with the early exit at the cap |
| Results.CapPrefix | Tools/WebSearchTools.cs:131-132 | Raising `maxResults` only extends the list: the results for a smaller cap are a prefix of those for a larger one |
| Results.CapAboveCount | Tools/WebSearchTools.cs:129-132 | A cap at or above the number of containers never cuts: every accepted container appears |
| Results.EmptyListAnyTrim | Tools/WebSearchTools.cs:153-157 | Under an empty allow-list the host trim makes no difference to the results |
| Results.AcceptedKept | Tools/WebSearchTools.cs:149-167 | Every accepted result has a title that is not blank and a URL the allow-list admits |
| Results.EntryCases | Tools/WebSearchTools.cs:135-167 | A container gives a result exactly when it holds a link, the link's cleaned text is not blank, and the resolved URL is allowed. The result carries that title and URL. Its snippet is the cleaned text of the container's snippet anchor, or empty when there is none |
| Results.ContainerEntry | Tools/WebSearchTools.cs:135-167 | A container whose content holds a result link after plain text gives that link's cleaned title and resolved URL, exactly when the title is not blank and the URL is allowed |
| Results.ContainerLink | Tools/WebSearchTools.cs:135 | LinkRegex finds the result link of a container past the container's own opening tag and any plain text before it |
| Results.ResultBlocks | Tools/WebSearchTools.cs:127 | Every block found starts with the container's opening `<div class="result results_links results_links_deep` |
| Results.ContainerFound | Tools/WebSearchTools.cs:179-180 | A container whose class has no '"', whose content holds no "</div>" and whose two "</div>" are separated only by white space is found whole, and the search goes on after it |
| Results.ContainerMatches | Tools/WebSearchTools.cs:179 | The container pattern matches exactly the length of such a container, whatever follows it |
| Results.PageBlocks | Tools/WebSearchTools.cs:127-129 | Containers separated by text without '<' are found one after the other, in page order |
| Results.BlocksAfterPlain | Tools/WebSearchTools.cs:127 | Text without '<' before a page adds no block |
| Results.ClosingFound | Tools/WebSearchTools.cs:179 | `</div>\s*</div>` matches two closings separated by white space, with the length of both |
| Results.ContentThenClosing | Tools/WebSearchTools.cs:179 | The lazy content `(.*?)` stops at the first closing pair that follows content without "</div>" |
| Results.NoClosingInside | Tools/WebSearchTools.cs:179 | No closing pair starts inside content that holds no "</div>" |
| Results.AbsentIsNone | Tools/WebSearchTools.cs:179 | A closing tag is absent from the content exactly when String.IndexOf finds no occurrence of it |
| Results.LinkFound | Tools/WebSearchTools.cs:182-183 | A result anchor `<a class="result__a" href="URL">TITLE</a>` is matched at its start whatever follows, with groups URL and TITLE |
| Results.LinkFirst | Tools/WebSearchTools.cs:135 | The first result link after text without '<' is the one found |
| Results.FirstLinkAfterPlain | Tools/WebSearchTools.cs:135 | Text without '<' before a block changes no link match |
| Results.FirstLink | Tools/WebSearchTools.cs:182-183 | A matched href value is non-empty and holds no '"' |
| Results.SnippetFound | Tools/WebSearchTools.cs:185-186 | A snippet anchor `<a class="result__snippet">TEXT</a>` is matched at its start, with group TEXT |
| Results.SnippetFirst | Tools/WebSearchTools.cs:136 | The first snippet after text without '<' is the one found |
| Results.FirstSnippetAfterPlain | Tools/WebSearchTools.cs:136 | Text without '<' before a block changes no snippet match |
| Results.AnchorTextFound | Tools/WebSearchTools.cs:182 | The lazy anchor text `(.*?)</a>` runs to the first "</a>" |
| Results.TitleAfterFound | Tools/WebSearchTools.cs:182-185 | The rest of an opening tag `[^>]*>` runs to the first '>', and the anchor text starts after it |
| Results.PresentAppend | Tools/WebSearchTools.cs:129-168 | Collecting the results of two runs of containers equals collecting each and concatenating |
| Results.PresentFrom | Tools/WebSearchTools.cs:167 | Every collected result comes from some container |
| Results.MatchesOccurs | Tools/WebSearchTools.cs:179 | The index-based literal match agrees with the prefix test at that position |
| Urls.ResolveRedirect | Tools/WebSearchTools.cs:141-144 | An href `PREFIX?uddg=ENC&amp;...` resolves to the target whose percent-encoding is ENC. The `&amp;` is decoded first, so the parameter ends at '&' |
| Urls.ResolveWithoutRedirect | Tools/WebSearchTools.cs:141-144 | When the redirect pattern can start nowhere in the decoded href, the link is the decoded href |
| Urls.QueryHrefResolved | Tools/WebSearchTools.cs:141-144 | `https://ex.com/p?a=1&amp;b=2` resolves to `https://ex.com/p?a=1&b=2` |
| Urls.NoRedirectWithoutU | Tools/WebSearchTools.cs:188-189 | Text without 'u' holds no redirect parameter |
| Urls.UddgAt | Tools/WebSearchTools.cs:188-189 | The pattern matches at a place exactly when '?' or '&', "uddg=" and a character other than '&' start there. The group is the run up to the next '&' or the end |
| Urls.UddgValueNoneIff | Tools/WebSearchTools.cs:143 | There is no match exactly when the pattern can start at no place |
| Urls.UddgValueLeftmost | Tools/WebSearchTools.cs:143 | The match found is the one at the leftmost place the pattern can start |
| Urls.RedirectDecoded | Tools/WebSearchTools.cs:141 | HtmlDecode keeps plain text and turns a following "&amp;" into the '&' that ends the uddg value |
| Urls.UddgFirst | Tools/WebSearchTools.cs:188-189 | `[?&]uddg=([^&]+)` captures the value up to the next '&' |
| Urls.UddgValueNone | Tools/WebSearchTools.cs:188-189 | Without '?' or '&' there is no redirect parameter |
| Urls.UddgValueAfterPlain | Tools/WebSearchTools.cs:143 | Text without '?' and '&' before the parameter does not change the match |
| Urls.PercentRoundTrip | Tools/WebSearchTools.cs:144 | For ASCII text, Uri.UnescapeDataString undoes percent-encoding |
| Urls.UnreservedKept | Tools/WebSearchTools.cs:144 | Unreserved characters (section 2.3 of RFC 3986) are not encoded |
| Urls.EncodedHasNoAmpersand | Tools/WebSearchTools.cs:143-144 | An encoded target holds no '&', so the uddg value carries it whole |
| Urls.PercentDecode | Tools/WebSearchTools.cs:144 | Decoding never lengthens, and text without '%' is unchanged; Urls.PercentKept and Urls.PercentRoundTrip state what happens at a '%' |
| Urls.PercentKept | Tools/WebSearchTools.cs:144 | A '%' that two hexadecimal digits do not follow stays as written, and decoding goes on after it |
| Urls.AbsoluteHttps | Tools/WebSearchTools.cs:155-157 | `https://HOST/...` parses as absolute, with host HOST |
| Urls.SchemeFound | Tools/WebSearchTools.cs:155 | After a valid scheme and "://" the host is the authority's host |
| Urls.AuthorityHostPlain | Tools/WebSearchTools.cs:157 | The host of an authority runs to the first '/', '?' or '#' |
| Urls.AfterLast | Tools/WebSearchTools.cs:157 | The user-info part of the authority is skipped: the host follows its last '@' |
| Urls.Lowered | Tools/WebSearchTools.cs:157 | Uri.Host reports the host in lower case, letter by letter |
| Urls.RelativeHasNoHost | Tools/WebSearchTools.cs:155-164 | In the model's scheme "://" authority form, a URL without ':' has no scheme and so no host. The UNC form `//host/path`, which TryCreate accepts, is left out |
| Urls.RelativeRejected | Tools/WebSearchTools.cs:153-164 | With a non-empty allow-list a URL that is not absolute is dropped, whichever host trim is used |
| Urls.PathRejected | Tools/WebSearchTools.cs:153-164 | With a non-empty allow-list the model drops a URL without ':', since its scheme "://" form gives such a URL no host. The UNC form `//host/path`, which TryCreate accepts, is left out |
| Urls.EmptyListAdmitsAll | Tools/WebSearchTools.cs:153 | An empty allow-list admits every URL |
| Urls.EntryAdmitsSubdomains | Tools/WebSearchTools.cs:158 | An entry admits its own host and every subdomain of it |
| Urls.MatchNeedsDot | Tools/WebSearchTools.cs:158 | A suffix match needs a '.' right before the entry |
| Urls.NotExampleRejected | Tools/WebSearchTools.cs:158 | "notexample.com" is not admitted by the entry "example.com" |
| Urls.HostTrimmedAsWritten | Tools/WebSearchTools.cs:157 | TrimStart with the characters 'w', '.' leaves a suffix of the host that starts with neither 'w' nor '.' |
| Urls.TrimStartSkips | Tools/WebSearchTools.cs:157 | Any leading run of 'w' and '.' is removed, not only "www." |
| Urls.WwwTrimShorter | Tools/WebSearchTools.cs:157 | For a domain starting with 'w', the trimmed "www." host is shorter than the domain |
| Urls.WwwHostAsWritten | Tools/WebSearchTools.cs:157-158 | As written, `https://www.D/` is rejected for the allow-list {D} when D starts with 'w'. The corrected check admits it |
| Urls.WikipediaAsWritten | Tools/WebSearchTools.cs:157-158 | `https://www.wikipedia.org/` is rejected for {"wikipedia.org"} as written, and admitted when corrected |
| Urls.OwnHostAsWritten | Tools/WebSearchTools.cs:157-158 | As written, an entry D that starts with 'w' does not admit `https://D/`. The corrected check admits it |
| Urls.WsjAsWritten | Tools/WebSearchTools.cs:157-158 | `https://wsj.com/` is rejected for {"wsj.com"} as written, and admitted when corrected |
| Urls.HostTrimmed | Tools/WebSearchTools.cs:157 | The corrected trim removes exactly one leading "www." and nothing else |
| Urls.TrimHost | Tools/WebSearchTools.cs:157 | Either trim leaves a suffix of the host |
| Urls.TrimsAgree | Tools/WebSearchTools.cs:155-158 | For a URL whose host starts with neither 'w' nor '.', the check as written and the corrected check agree |
| Urls.WwwPrefixRemoved | Tools/WebSearchTools.cs:157 | The corrected trim of "www." + D is D |
| Markup.StripHtml | Tools/WebSearchTools.cs:173-177 | The result has no white space at either end; what happens to a tag is stated by Markup.StripHtmlTag |
| Markup.StripHtmlTag | Tools/WebSearchTools.cs:173-177 | A tag after plain text is deleted; the text before it and the stripped text after it are decoded and trimmed |
| Markup.StripHtmlBold | Tools/WebSearchTools.cs:173-177 | `StripHtml("<b>x</b>")` is "x" |
| Markup.StripTagsTag | Tools/WebSearchTools.cs:175 | A tag `<T>` after text without '<' becomes the replacement; the text before it stays and the text after it is stripped in turn |
| Markup.StripTagsAfterPlain | Tools/WebSearchTools.cs:175 | Text before the first '<' comes through unchanged |
| Markup.TagAt | Tools/WebSearchTools.cs:191 | `<[^>]+>` matches `<T>` with its whole length, for any T without '>' |
| Markup.StripHtmlPlain | Tools/WebSearchTools.cs:173-177 | Text without '<' and '&' is only trimmed |
| Markup.StripTagsLeavesNoTag | Tools/WebSearchTools.cs:175 | After the tag pattern is replaced, no tag remains |
| Markup.StripTagsKeeps | Tools/WebSearchTools.cs:191-192 | Text holding no tag is unchanged |
| Markup.StripTagsIdempotent | Tools/WebSearchTools.cs:175 | Stripping tags twice equals stripping once |
| Markup.TagLengthNone | Tools/WebSearchTools.cs:191 | `<[^>]+>` fails at a '<' exactly when "<>" follows or no '>' follows |
| Entities.DecodeEscape | Tools/WebSearchTools.cs:115 | HtmlDecode undoes HTML escaping of '&', '<', '>', '"' and ''' |
| Entities.HtmlDecodeAfterPlain | Tools/WebSearchTools.cs:115 | Text without '&' passes through HtmlDecode unchanged, whatever follows it |
| Entities.DecodeNamed | Tools/WebSearchTools.cs:115 | A known named reference decodes to its character |
| Entities.DecodeApostrophe | Tools/WebSearchTools.cs:115 | The numeric reference &#39; decodes to ''' |
| Entities.HtmlDecode | Tools/WebSearchTools.cs:115 | Decoding never lengthens, and text without '&' is unchanged; the lemmas beside it state what happens at a known reference, an unknown one and a bare '&' |
| Entities.UnknownReferenceKept | Tools/WebSearchTools.cs:115 | A reference `&name;` whose name the decoder does not know stays as written, and decoding goes on after it |
| Entities.BareAmpersandKept | Tools/WebSearchTools.cs:115 | An '&' with no ';' after it is no reference and stays as written |
| Entities.AmpersandInWord | Tools/WebSearchTools.cs:115 | "AT&T" decodes to itself |
| Normalizer.ExtractTextLines | Tools/WebSearchTools.cs:106-121 | Every output line is longer than one character, has no white space at either end and no two spaces in a row. An empty output is the only one with no lines |
| Normalizer.ExtractTextNotBlank | Tools/WebSearchTools.cs:117-120 | The output is empty or not blank |
| Normalizer.ExtractTextStable | Tools/WebSearchTools.cs:117-120 | Cleaning the output's lines again gives the output back |
| Normalizer.CleanLinesIdempotent | Tools/WebSearchTools.cs:117-119 | The line cleaning is idempotent |
| Normalizer.CleanLineShape | Tools/WebSearchTools.cs:118-119 | A cleaned line longer than one character has the line shape |
| Normalizer.CleanLinesKeepsLong | Tools/WebSearchTools.cs:117-120 | Every line whose cleaned form is longer than one character is kept, in its cleaned form |
| Normalizer.CleanLinesCount | Tools/WebSearchTools.cs:117-120 | As many lines are kept as there are input lines whose cleaned form is longer than one character |
| Normalizer.CleanLinesAppend | Tools/WebSearchTools.cs:117-120 | Cleaning two runs of lines one after the other gives their kept lines one after the other, so the kept lines keep the input's order |
| Normalizer.CleanLinesSingle | Tools/WebSearchTools.cs:118-119 | One line is kept exactly when its cleaned form is longer than one character, and then in that form |
| Normalizer.CleanLineKeeps | Tools/WebSearchTools.cs:118 | A line that already has the line shape is its own cleaned form |
| Normalizer.TwoParagraphs | Tools/WebSearchTools.cs:106-121 | `<p>t1</p><p>t2</p>`, with t1 and t2 free of '<', '&' and line breaks, gives the lines that cleaning keeps of t1 and t2, joined by a line break |
| Normalizer.TwoParagraphsSplit | Tools/WebSearchTools.cs:106-121 | Two such paragraphs whose texts already have the line shape give t1, a line break, then t2: text in different blocks ends up on different lines |
| Normalizer.ShortParagraphsDropped | Tools/WebSearchTools.cs:117-120 | `<p>A</p><p>B</p>` gives the empty text, because lines of one character are dropped |
| Normalizer.ParagraphBreaks | Tools/WebSearchTools.cs:111 | Both tags of a paragraph around text without '<' become line breaks |
| Normalizer.NoiseRegionRemoved | Tools/WebSearchTools.cs:109 | A noise element after plain text, its tags written in any mix of case, becomes one space, when its content holds no closing tag of its kind |
| Normalizer.NoiseBlockRemoved | Tools/WebSearchTools.cs:109 | A noise element at the start, its tags written in any mix of case, becomes one space |
| Normalizer.NoiseMatches | Tools/WebSearchTools.cs:194 | The alternation matches a noise element, whichever of the seven alternatives it is and in any mix of case, with its whole length |
| Normalizer.UpperScriptRemoved | Tools/WebSearchTools.cs:109 | `<SCRIPT>x</Script>` becomes one space |
| Normalizer.FirstCloseAs | Tools/WebSearchTools.cs:194 | The case-insensitive lazy `.*?` stops at a closing tag written in any mix of case, after content that holds none |
| Normalizer.NoiseNamesDistinct | Tools/WebSearchTools.cs:194 | No two alternatives of the noise pattern can start at the same place, so their order does not matter |
| Normalizer.FirstClose | Tools/WebSearchTools.cs:194 | The lazy `.*?` stops at the first closing tag after content that holds none |
| Normalizer.RemoveNoiseAfterPlain | Tools/WebSearchTools.cs:109 | Text without '<' passes through unchanged |
| Normalizer.BlockTagBreaks | Tools/WebSearchTools.cs:111 | An opening or closing block tag, with any attributes, becomes one line break |
| Normalizer.InlineTagKept | Tools/WebSearchTools.cs:111 | A tag whose name, after an optional '/', starts with no block name (`<b>`, `<span ...>`, `</a>`) is not replaced by a line break, and the scan goes on after it |
| Normalizer.BoldTagKept | Tools/WebSearchTools.cs:111 | `<b>` is not replaced by a line break |
| Normalizer.BlockTagMatches | Tools/WebSearchTools.cs:197 | The block-tag pattern matches such a tag with its whole length |
| Normalizer.BreakBlocksAfterPlain | Tools/WebSearchTools.cs:111 | Text without '<' passes through unchanged |
| Normalizer.LazyFound | Tools/WebSearchTools.cs:194 | `OPEN.*?CLOSE` matches up to the first CLOSE after OPEN |
| Text.Trim | Tools/WebSearchTools.cs:118 | No white space at either end. The result is empty exactly when the input is blank |
| Text.TrimRemovesWhiteSpace | Tools/WebSearchTools.cs:176 | Only white space is removed, and only from the ends |
| Text.CollapseSpaces | Tools/WebSearchTools.cs:200-201 | No two spaces remain in a row, no character is introduced, and the result starts with a space exactly when the input does |
| Text.CollapseSpacesNonSpace | Tools/WebSearchTools.cs:200-201 | Only spaces are removed: with spaces taken out, input and result are the same text |
| Text.CollapseSpacesRun | Tools/WebSearchTools.cs:200-201 | A run of one or more spaces becomes exactly one space |
| Text.CollapseSpacesPair | Tools/WebSearchTools.cs:200-201 | Two spaces in a row collapse like one |
| Text.CollapseSpacesSingle | Tools/WebSearchTools.cs:200-201 | A single space is kept |
| Text.CollapseSpacesChar | Tools/WebSearchTools.cs:200-201 | A character other than a space is kept |
| Text.CollapseSpacesKeeps | Tools/WebSearchTools.cs:118 | Text without a double space is unchanged |
| Text.SplitJoin | Tools/WebSearchTools.cs:117-120 | Joining lines without '\n' and splitting again gives the lines back |
| Text.JoinSplit | Tools/WebSearchTools.cs:117-120 | Splitting at '\n' and joining again gives the text back |
| Text.IndexOf | Tools/WebSearchTools.cs:179-194 | The position found is the first occurrence, and None means no occurrence |
| Text.NatToStringValue | Tools/WebSearchTools.cs:49 | The decimal numeral of a number denotes that number |
| Reports.FormatWeb | Tools/WebSearchTools.cs:45-50 | The header, then one numbered entry per result in order (title, URL and snippet lines, then a blank line) |
| Reports.SearchWeb | Tools/WebSearchTools.cs:40-52 | The report for the results ParseResults gives under the allow-list and the chosen host trim, or "Keine Ergebnisse gefunden." when there are none |
| Reports.WebReportEmpty | Tools/WebSearchTools.cs:42-43 | The report is the no-result message exactly when there are no results |
| Reports.WebReportStart | Tools/WebSearchTools.cs:45-49 | A non-empty report is the header, entry 1, then the others numbered from 2 |
| Reports.FormatNews | Tools/WebSearchTools.cs:73-83 | The header, then per result a title line, a URL line, a snippet line only when the snippet is not empty, and an empty line |
| Reports.SearchNews | Tools/WebSearchTools.cs:68-85 | The report for the results ParseResults gives with no allow-list, or "Keine Nachrichten gefunden." when there are none |
| Reports.NewsReportEmpty | Tools/WebSearchTools.cs:70-71 | The report is the no-news message exactly when there are no results |
| Reports.NewsListAsWeb | Tools/WebSearchTools.cs:46-83 | With "\n" as line end, a news list whose snippets are all non-empty is the same as the web list |
| Reports.NewsEntryAsWeb | Tools/WebSearchTools.cs:49-82 | A news entry differs from a web entry only in leaving out the line of an empty snippet |
| Reports.NumberedAppend | Tools/WebSearchTools.cs:46-50 | Numbering two lists in a row equals numbering their concatenation |
| Reports.NumberedAt | Tools/WebSearchTools.cs:46-50 | Entry j of the list is written with number j + 1, between the entries before and after it |
| Reports.FetchTail | Tools/WebSearchTools.cs:100-103 | There is no result (an exception) exactly when `maxLength` is negative |
| Reports.FetchTailCut | Tools/WebSearchTools.cs:100-101 | Text longer than `maxLength` keeps its first `maxLength` characters, followed by the marker |
| Reports.FetchTailWhole | Tools/WebSearchTools.cs:100-103 | Text that fits is returned as it is, or "Kein Inhalt gefunden." when it is blank |
| Reports.FetchTailNoContent | Tools/WebSearchTools.cs:100-103 | The answer is "Kein Inhalt gefunden." exactly when the text fits and is blank or that message itself |
| Reports.FetchContentCases | Tools/WebSearchTools.cs:98-103 | For the extracted text: empty gives "Kein Inhalt gefunden.", too long gives its cut with the marker, and otherwise the text |
| Reports.MarkedNotBlank | Tools/WebSearchTools.cs:101-103 | A cut text is never blank, so it is never replaced by the no-content message |

## Left out

- HTTP: the requests, the User-Agent header, status checks and reading the body (lines 15-21, 36-38, 64-66, 94-96) are left out. Each tool takes the downloaded page as a parameter.
- SearchWeb's query building is not modelled, because it only shapes the request URL:
  - the "site:" filter built from the allow-list (lines 29-32);
  - Uri.EscapeDataString of the query (lines 33-34 and 61-62).
- The default arguments `maxResults = 5` (lines 27 and 59) and `maxLength = 8000` (line 92) are not modelled. The model takes both as parameters, so a call that omits them is modelled as a call that passes 5 or 8000.
- Reading the allow-list from configuration (lines 11-13) is not modelled. The allow-list is a parameter.
- Reports.SearchNews: Environment.NewLine, which `AppendLine` writes, is a parameter `newline`.
- Strings are sequences of Unicode scalar values. .NET counts UTF-16 code units, so `maxLength` and the length-1 line filter count differently for characters outside the Basic Multilingual Plane.
- Entities.HtmlDecode covers a subset of WebUtility.HtmlDecode, because the full table is data and not logic. It decodes:
  - the named references amp, lt, gt, quot and apos;
  - decimal and hexadecimal numeric references.
  Other named references stay as written.
- Entities.NumericValue: the model reads the body of a decimal reference as digits only. WebUtility.HtmlDecode parses it with `NumberStyles.Integer`, which also allows a leading sign and white space around the digits. So .NET decodes `&#+39;` and `&# 39;` to ''', and the model leaves both as written.
- Urls.PercentDecode decodes only escapes of ASCII characters. Uri.UnescapeDataString also joins multi-byte UTF-8 escapes; the model leaves those as written.
- Urls.AbsoluteHost: Uri.TryCreate is modelled as a scheme, "://", and an authority whose host runs to '/', '?' or '#', after the last '@' and before a port. These are not modelled:
  - IDN and punycode hosts;
  - IPv6 literals;
  - "file:" and other schemes without "//";
  - implicit file paths without ':'. TryCreate reads the UNC forms `//host/path` and `\\host\path` as file URIs with that host, so `//example.org/page` is kept under {"example.org"}; the model finds no host there and drops the link. Urls.RelativeHasNoHost and Urls.PathRejected are stated for the model's form only;
  - the white space TryCreate trims from both ends of the string. The model finds no scheme in `" https://example.org/"`;
  - port validation. TryCreate rejects `https://example.org:abc/`, while the model takes "example.org" as its host;
  - the validation of host characters.
- Urls.RelativeHasNoHost: holds for the model's TryCreate only. .NET gives the ':'-free UNC form `//host/path` a host.
- Urls.PathRejected: holds for the model's TryCreate only. .NET keeps `//example.org/page` under {"example.org"}.
- Results.LinkAt: the greedy `[^>]+` before `class="result__a"` and before `href="` can backtrack to a later occurrence in the same tag. The model takes the first occurrence of each. They differ when the text `class="result__a"` or the text `href="` occurs more than once in the tag. An example is `<a class="result__a" href="u" data-href="v">`, where the pattern captures "v" and the model captures "u".
- Results.Entry: no lemma relates the link and the snippet of the same container. A lemma would need to show that the snippet search passes over the link anchor.
- Regex timeouts and the `Singleline` / `IgnoreCase` options are modelled only where they change a match:
  - `Singleline` means '.' also matches '\n';
  - `IgnoreCase` is ASCII case folding for the element names.
- Urls.EndsWith: `host.EndsWith("." + d)` without a `StringComparison` compares by the current culture. The model compares ordinally, character by character. The two agree on hosts made of ASCII letters, digits, '.' and '-'.
- The `[McpServerTool]`/`[Description]` registration and Program.cs are not part of this model.

## Findings

| source | as written | input that shows it | evidently intended | confidence | as-written member | corrected member |
|---|---|---|---|---|---|---|
| Tools/WebSearchTools.cs:157 | `uri.Host.TrimStart("www.".ToCharArray())` removes every leading 'w' and '.', not the prefix "www." | `https://www.wikipedia.org/` with the allow-list {"wikipedia.org"}: the host becomes "ikipedia.org", so the result is dropped | remove one leading "www." so that "www.wikipedia.org" matches the entry "wikipedia.org" | not executed | Urls.WikipediaAsWritten | Urls.WwwPrefixRemoved |
| Tools/WebSearchTools.cs:157 | the same trim also cuts the leading 'w' of a host that is itself listed | `https://wsj.com/` with the allow-list {"wsj.com"}: the host becomes "sj.com", so the result is dropped; an entry that starts with 'w' never admits the host equal to itself | leave a host without a "www." prefix as it is | not executed | Urls.WsjAsWritten | Urls.HostTrimmed |
