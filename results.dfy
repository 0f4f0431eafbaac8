/** ParseResults (Tools/WebSearchTools.cs:123-171): the result containers of
    a DuckDuckGo HTML page, the link and snippet inside each, and the capped
    loop that turns them into search results. Each regular expression is a
    left-to-right scanner. */
module Results {
  import opened Wrappers
  import opened Text
  import opened Entities
  import opened Markup
  import opened Urls
  import opened Normalizer

  /** One search hit (the SearchResult record): title, link and snippet. */
  datatype SearchResult = SearchResult(title: string, url: string, snippet: string)

  /** The fixed start of a result container (:179). */
  const ContainerOpen: string := "<div class=\"result" + " results_links" + " results_links_deep"

  const DivClose: string := "</div>"

  /** The literal p read in t from position i on, from its k-th character
      (an ordinal comparison). */
  predicate MatchesFrom(t: string, i: nat, p: string, k: nat)
    requires k <= |p|
    decreases |p| - k
  {
    k == |p| || (i + k < |t| && t[i + k] == p[k] && MatchesFrom(t, i, p, k + 1))
  }

  /** The literal p occurs in t at position i. */
  predicate MatchesAt(t: string, i: nat, p: string) {
    i + |p| <= |t| && MatchesFrom(t, i, p, 0)
  }

  lemma {:induction false} MatchesFromIff(t: string, i: nat, p: string, k: nat)
    requires k <= |p| && i + |p| <= |t|
    ensures MatchesFrom(t, i, p, k) <==> forall j :: k <= j < |p| ==> t[i + j] == p[j]
    decreases |p| - k
  {
    if k < |p| {
      MatchesFromIff(t, i, p, k + 1);
    }
  }

  /** An occurrence is a character-by-character agreement. */
  lemma MatchesAtIff(t: string, i: nat, p: string)
    ensures MatchesAt(t, i, p) <==> i + |p| <= |t| && forall j :: 0 <= j < |p| ==> t[i + j] == p[j]
  {
    if i + |p| <= |t| {
      MatchesFromIff(t, i, p, 0);
    }
  }

  /** An occurrence is what String.IndexOf looks for. */
  lemma MatchesOccurs(t: string, i: nat, p: string)
    requires i <= |t|
    ensures MatchesAt(t, i, p) <==> OccursAt(t, i, p, false)
  {
    MatchesAtIff(t, i, p);
    if i + |p| <= |t| {
      assert forall j :: 0 <= j < |p| ==> t[i..][j] == t[i + j];
    }
  }

  /** An occurrence at the start survives cutting the string after it. */
  lemma MatchesTake(s: string, p: string, n: nat)
    requires MatchesAt(s, 0, p) && |p| <= n <= |s|
    ensures StartsWith(s[..n], p, false)
  {
    MatchesAtIff(s, 0, p);
    assert forall j :: 0 <= j < |p| ==> s[..n][j] == s[j];
  }

  /** The length of the run of white space in t from position i. */
  function SpaceRun(t: string, i: nat): (n: nat)
    ensures n == 0 || i + n <= |t|
    decreases |t| - i
  {
    if i < |t| && IsWhiteSpace(t[i]) then 1 + SpaceRun(t, i + 1) else 0
  }

  /** "</div>\s*</div>" tried at position i of t, close being "</div>": the
      end of the match. The white space is taken whole, since close starts
      with no white-space character. */
  function ClosingAt(t: string, i: nat, close: string): (r: Option<nat>)
    ensures r.Some? ==> i + 2 * |close| <= r.value <= |t|
  {
    if !MatchesAt(t, i, close) then None
    else
      var w := SpaceRun(t, i + |close|);
      if MatchesAt(t, i + |close| + w, close) then Some(i + 2 * |close| + w) else None
  }

  /** The lazy "(.*?)" and the closing after it, from position i of t: the
      end of the first closing that starts at i or later. */
  function LazyFrom(t: string, i: nat, close: string): (r: Option<nat>)
    requires i <= |t|
    ensures r.Some? ==> i <= r.value <= |t|
    decreases |t| - i
  {
    match ClosingAt(t, i, close)
    case Some(e) => Some(e)
    case None => if i == |t| then None else LazyFrom(t, i + 1, close)
  }

  /** "[^\"]*" from position i of s: where the first '"' at or after i is,
      or |s| when there is none. */
  function QuoteFrom(s: string, i: nat): (c: nat)
    requires i <= |s|
    ensures i <= c <= |s| && (c < |s| ==> s[c] == '"')
    decreases |s| - i
  {
    if i == |s| || s[i] == '"' then i else QuoteFrom(s, i + 1)
  }

  /** The container pattern at the start of s: open, the rest of the class up
      to the first '"', then "\">", then the lazy content and its closing.
      Gives the length of the match. */
  function ContainerLength(s: string, open: string, close: string): (r: Option<nat>)
    ensures r.Some? ==> |open| <= r.value <= |s| && MatchesAt(s, 0, open)
  {
    if !MatchesAt(s, 0, open) then None
    else
      var c := QuoteFrom(s, |open|);
      if c + 1 >= |s| || s[c + 1] != '>' then None
      else LazyFrom(s, c + 2, close)
  }

  /** ResultBlockRegex().Matches(html): the matches, leftmost first, each
      search resuming after the previous match. */
  function ResultBlocks(s: string): (r: seq<string>)
    ensures forall i :: 0 <= i < |r| ==> StartsWith(r[i], ContainerOpen, false)
    decreases |s|
  {
    if s == [] then []
    else
      match ContainerLength(s, ContainerOpen, DivClose)
      case Some(n) =>
        MatchesTake(s, ContainerOpen, n);
        [s[..n]] + ResultBlocks(s[n..])
      case None => ResultBlocks(s[1..])
  }

  /** What the closing lemmas need of "</div>": a '<' in front and nowhere
      else, and so no white space in front. */
  predicate ClosingShape(close: string) {
    close != [] && close[0] == '<' && LessThanOnlyInFront(close)
  }

  lemma DivCloseShape()
    ensures ClosingShape(DivClose)
  {
  }

  /** close occurs nowhere in body. */
  predicate Absent(body: string, close: string) {
    forall j :: 0 <= j <= |body| ==> !MatchesAt(body, j, close)
  }

  /** Absence is what String.IndexOf reports as no match. */
  lemma AbsentIsNone(body: string, close: string)
    ensures Absent(body, close) <==> IndexOf(body, close, false).None?
  {
    forall j | 0 <= j <= |body|
      ensures MatchesAt(body, j, close) <==> OccursAt(body, j, close, false)
    {
      MatchesOccurs(body, j, close);
    }
  }

  /** A run of n white-space characters ending at a character that is none,
      or at the end, is taken whole. */
  lemma {:induction false} SpaceRunIs(t: string, i: nat, n: nat)
    requires i + n <= |t|
    requires forall k :: i <= k < i + n ==> IsWhiteSpace(t[k])
    requires i + n == |t| || !IsWhiteSpace(t[i + n])
    ensures SpaceRun(t, i) == n
    decreases n
  {
    if n > 0 {
      SpaceRunIs(t, i + 1, n - 1);
    }
  }

  /** The lazy content stops at the first position where a closing starts. */
  lemma {:induction false} LazyFromIs(t: string, i: nat, p: nat, close: string, e: nat)
    requires i <= p <= |t|
    requires forall j :: i <= j < p ==> ClosingAt(t, j, close).None?
    requires ClosingAt(t, p, close) == Some(e)
    ensures LazyFrom(t, i, close) == Some(e)
    decreases p - i
  {
    if i < p {
      LazyFromIs(t, i + 1, p, close, e);
    }
  }

  /** The class runs up to the first '"'. */
  lemma {:induction false} QuoteFromIs(s: string, i: nat, c: nat)
    requires i <= c < |s| && s[c] == '"'
    requires forall k :: i <= k < c ==> s[k] != '"'
    ensures QuoteFrom(s, i) == c
    decreases c - i
  {
    if i < c {
      QuoteFromIs(s, i + 1, c);
    }
  }

  /** t holds the literal part from position lo on. */
  predicate Holds(t: string, lo: nat, part: string) {
    lo + |part| <= |t| && forall k :: lo <= k < lo + |part| ==> t[k] == part[k - lo]
  }

  /** Where a literal is held, it occurs. */
  lemma HoldsMatches(t: string, lo: nat, part: string)
    requires Holds(t, lo, part)
    ensures MatchesAt(t, lo, part)
  {
    MatchesAtIff(t, lo, part);
    forall j | 0 <= j < |part|
      ensures t[lo + j] == part[j]
    {
      assert t[lo + j] == part[lo + j - lo];
    }
  }

  /** No closing starts inside a content that holds no close and is
      followed by one. */
  lemma NoClosingInside(t: string, b: nat, body: string, close: string)
    requires ClosingShape(close) && Absent(body, close)
    requires Holds(t, b, body) && Holds(t, b + |body|, close)
    ensures forall j :: b <= j < b + |body| ==> ClosingAt(t, j, close).None?
  {
    forall j | b <= j < b + |body|
      ensures !MatchesAt(t, j, close)
    {
      var p := b + |body|;
      MatchesAtIff(t, j, close);
      if j + |close| <= p {
        MatchesAtIff(body, j - b, close);
        assert forall k :: j <= k < j + |close| ==> t[k] == body[k - b];
      } else {
        assert t[p] == close[p - p];
        assert close[p - j] != '<';
      }
    }
  }

  /** close, white space, close: the closing found at their start. */
  lemma ClosingFound(t: string, p: nat, ws: string, close: string)
    requires ClosingShape(close) && IsBlank(ws)
    requires Holds(t, p, close) && Holds(t, p + |close|, ws) && Holds(t, p + |close| + |ws|, close)
    ensures ClosingAt(t, p, close) == Some(p + 2 * |close| + |ws|)
  {
    HoldsMatches(t, p, close);
    HoldsMatches(t, p + |close| + |ws|, close);
    var i := p + |close|;
    forall k | i <= k < i + |ws|
      ensures IsWhiteSpace(t[k])
    {
      assert t[k] == ws[k - i];
    }
    assert t[i + |ws|] == close[0];
    SpaceRunIs(t, i, |ws|);
  }

  /** A container as the search page writes it: the fixed start, the rest of
      the class, "\">", a content, then close, white space and close. */
  function Container(open: string, cls: string, body: string, ws: string, close: string): string {
    open + cls + "\">" + body + close + ws + close
  }

  /** Where each part of a container sits in it. */
  lemma ContainerHolds(x: string, open: string, cls: string, body: string, ws: string, close: string, post: string)
    requires x == Container(open, cls, body, ws, close) + post
    ensures var b := |open| + |cls| + 2; var p := b + |body|;
      Holds(x, 0, open) && Holds(x, |open|, cls) && Holds(x, |open| + |cls|, "\">") &&
      Holds(x, b, body) && Holds(x, p, close) && Holds(x, p + |close|, ws) &&
      Holds(x, p + |close| + |ws|, close) &&
      |Container(open, cls, body, ws, close)| == p + 2 * |close| + |ws|
  {
  }

  /** A class without '"' followed by "\">": "[^\"]*\">" ends there. */
  lemma ClassEnds(x: string, a: nat, cls: string)
    requires '"' !in cls && Holds(x, a, cls) && Holds(x, a + |cls|, "\">")
    ensures QuoteFrom(x, a) == a + |cls| && x[a + |cls| + 1] == '>'
  {
    var q := a + |cls|;
    forall k | a <= k < q
      ensures x[k] != '"'
    {
      assert x[k] == cls[k - a];
    }
    assert x[q] == "\">"[q - q];
    assert x[q + 1] == "\">"[q + 1 - q];
    QuoteFromIs(x, a, q);
  }

  /** A content without close, then close, white space and close: the lazy
      content ends at the end of the second close. */
  lemma ContentThenClosing(x: string, b: nat, body: string, ws: string, close: string)
    requires ClosingShape(close) && Absent(body, close) && IsBlank(ws)
    requires var p := b + |body|;
      Holds(x, b, body) && Holds(x, p, close) && Holds(x, p + |close|, ws) &&
      Holds(x, p + |close| + |ws|, close)
    ensures LazyFrom(x, b, close) == Some(b + |body| + 2 * |close| + |ws|)
  {
    var p := b + |body|;
    NoClosingInside(x, b, body, close);
    ClosingFound(x, p, ws, close);
    LazyFromIs(x, b, p, close, p + 2 * |close| + |ws|);
  }

  /** The steps of the container pattern, one after the other. */
  lemma ContainerSteps(x: string, open: string, close: string, q: nat, e: nat)
    requires MatchesAt(x, 0, open) && |open| <= q && QuoteFrom(x, |open|) == q
    requires q + 1 < |x| && x[q + 1] == '>' && LazyFrom(x, q + 2, close) == Some(e)
    ensures ContainerLength(x, open, close) == Some(e)
  {
  }

  /** The container pattern read off the positions of a container's parts:
      it matches up to the end of the second close. */
  lemma ContainerScan(x: string, open: string, cls: string, body: string, ws: string, close: string)
    requires ClosingShape(close) && '"' !in cls && Absent(body, close) && IsBlank(ws)
    requires var b := |open| + |cls| + 2; var p := b + |body|;
      Holds(x, 0, open) && Holds(x, |open|, cls) && Holds(x, |open| + |cls|, "\">") &&
      Holds(x, b, body) && Holds(x, p, close) && Holds(x, p + |close|, ws) &&
      Holds(x, p + |close| + |ws|, close)
    ensures ContainerLength(x, open, close) == Some(|open| + |cls| + 2 + |body| + 2 * |close| + |ws|)
  {
    var q := |open| + |cls|;
    var p := q + 2 + |body|;
    HoldsMatches(x, 0, open);
    ClassEnds(x, |open|, cls);
    ContentThenClosing(x, q + 2, body, ws, close);
    ContainerSteps(x, open, close, q, p + 2 * |close| + |ws|);
  }

  /** A container whose content holds no close is matched whole, whatever
      follows it. */
  lemma ContainerMatches(x: string, open: string, cls: string, body: string, ws: string, close: string, post: string)
    requires x == Container(open, cls, body, ws, close) + post && ClosingShape(close)
    requires '"' !in cls && Absent(body, close) && IsBlank(ws)
    ensures ContainerLength(x, open, close) == Some(|Container(open, cls, body, ws, close)|)
  {
    ContainerHolds(x, open, cls, body, ws, close, post);
    ContainerScan(x, open, cls, body, ws, close);
  }

  /** A result container as the search page writes it. */
  ghost predicate IsContainer(block: string) {
    exists cls, body, ws :: block == Container(ContainerOpen, cls, body, ws, DivClose) &&
      '"' !in cls && Absent(body, DivClose) && IsBlank(ws)
  }

  /** A container is found as the next block, and the search goes on after
      it. */
  lemma ContainerFound(block: string, post: string)
    requires IsContainer(block)
    ensures ResultBlocks(block + post) == [block] + ResultBlocks(post)
  {
    var cls, body, ws :| block == Container(ContainerOpen, cls, body, ws, DivClose) &&
      '"' !in cls && Absent(body, DivClose) && IsBlank(ws);
    DivCloseShape();
    ContainerMatches(block + post, ContainerOpen, cls, body, ws, DivClose, post);
    SliceAfter(block, post);
    assert (block + post)[..|block|] == block;
  }

  /** Text without '<' holds no container and is skipped. */
  lemma {:induction false} BlocksAfterPlain(pre: string, s: string)
    requires '<' !in pre
    ensures ResultBlocks(pre + s) == ResultBlocks(s)
    decreases |pre|
  {
    if pre == [] {
      assert pre + s == s;
    } else {
      HeadTail(pre, s);
      assert ContainerOpen[0] == '<';
      BlocksAfterPlain(pre[1..], s);
    }
  }

  /** Plain texts and blocks interleaved, each text before its block. */
  function Page(texts: seq<string>, blocks: seq<string>): string
    requires |texts| == |blocks|
  {
    if texts == [] then [] else texts[0] + blocks[0] + Page(texts[1..], blocks[1..])
  }

  /** A page split after its first text and block. */
  lemma PageSplit(texts: seq<string>, blocks: seq<string>, rest: string)
    requires |texts| == |blocks| && texts != []
    ensures Page(texts, blocks) + rest == texts[0] + (blocks[0] + (Page(texts[1..], blocks[1..]) + rest))
  {
    var later := Page(texts[1..], blocks[1..]);
    assert Page(texts, blocks) == texts[0] + blocks[0] + later;
    RegroupRight(texts[0], blocks[0], later, rest);
  }

  /** Plain text, then a container: the container is the next block. */
  lemma PageStep(s: string, pre: string, block: string, tail: string, later: seq<string>, rest: string)
    requires s == pre + (block + tail) && '<' !in pre && IsContainer(block)
    requires ResultBlocks(tail) == later + ResultBlocks(rest)
    ensures ResultBlocks(s) == [block] + later + ResultBlocks(rest)
  {
    BlocksAfterPlain(pre, block + tail);
    ContainerFound(block, tail);
  }

  /** A page of plain text and containers gives its containers, in order. */
  lemma {:induction false} PageBlocks(texts: seq<string>, blocks: seq<string>, rest: string)
    requires |texts| == |blocks|
    requires forall i :: 0 <= i < |texts| ==> '<' !in texts[i]
    requires forall i :: 0 <= i < |blocks| ==> IsContainer(blocks[i])
    ensures ResultBlocks(Page(texts, blocks) + rest) == blocks + ResultBlocks(rest)
    decreases |texts|
  {
    if texts == [] {
      assert Page(texts, blocks) + rest == rest;
    } else {
      PageSplit(texts, blocks, rest);
      PageBlocks(texts[1..], blocks[1..], rest);
      PageStep(Page(texts, blocks) + rest, texts[0], blocks[0],
        Page(texts[1..], blocks[1..]) + rest, blocks[1..], rest);
      assert [blocks[0]] + blocks[1..] == blocks;
    }
  }

  const ResultLinkClass: string := "class=\"result__a\""

  const SnippetClass: string := "class=\"result__snippet\""

  const HrefOpen: string := "href=\""

  const AnchorClose: string := "</a>"

  /** "[^>]+" then text inside a tag region that holds no '>': the position
      just after the first occurrence of text that leaves at least one
      character before it. */
  function AfterInRegion(region: string, text: string): (r: Option<nat>)
    ensures r.Some? ==> 1 + |text| <= r.value <= |region|
  {
    if region == [] then None
    else
      match IndexOf(region[1..], text, false)
      case Some(c) => Some(1 + c + |text|)
      case None => None
  }

  /** The lazy "(.*?)</a>" on t: the text before the first "</a>". */
  function AnchorText(t: string): (r: Option<string>)
    ensures r.Some? ==> |r.value| + |AnchorClose| <= |t| && r.value == t[..|r.value|]
  {
    match IndexOf(t, AnchorClose, false)
    case Some(k) => Some(t[..k])
    case None => None
  }

  /** The end of an anchor's opening tag and its text: the tag runs to the
      first '>', and the anchor text follows it up to the first "</a>". */
  function TitleAfter(rest: string): (r: Option<string>)
    ensures r.Some? ==> |r.value| < |rest|
  {
    var g := PrefixBefore(rest, {'>'});
    if |g| >= |rest| then None else AnchorText(rest[|g| + 1..])
  }

  /** The href value of a result link starting at v, up to the next '"',
      then the rest of the tag and the anchor text. */
  function LinkFrom(t: string, v: nat): (r: Option<(string, string)>)
    requires v <= |t|
    ensures r.Some? ==> r.value.0 != [] && '"' !in r.value.0
  {
    var value := PrefixBefore(t[v..], {'"'});
    if value == [] || v + |value| >= |t| then None
    else
      match TitleAfter(t[v + |value| + 1..])
      case Some(title) => Some((value, title))
      case None => None
  }

  /** The tag region of an anchor must hold the class "result__a" and,
      after it, href=" whose value starts the link. */
  function LinkInTag(t: string, region: string): (r: Option<(string, string)>)
    requires 2 + |region| <= |t|
    ensures r.Some? ==> r.value.0 != [] && '"' !in r.value.0
  {
    match AfterInRegion(region, ResultLinkClass)
    case None => None
    case Some(a) =>
      match AfterInRegion(region[a..], HrefOpen)
      case None => None
      case Some(b) => LinkFrom(t, 2 + a + b)
  }

  /** LinkRegex tried at the start of t: "<a", the tag region up to the first
      '>', the class "result__a" and after it href="...", the non-empty
      value up to the next '"', the rest of the tag, then the anchor text.
      Gives the href value and the anchor text. */
  function LinkAt(t: string): (r: Option<(string, string)>)
    ensures r.Some? ==> r.value.0 != [] && '"' !in r.value.0
  {
    if !StartsWith(t, "<a", false) then None
    else LinkInTag(t, PrefixBefore(t[2..], {'>'}))
  }

  /** LinkRegex().Match(block): the leftmost position at which it matches. */
  function FirstLink(s: string): (r: Option<(string, string)>)
    ensures r.Some? ==> r.value.0 != [] && '"' !in r.value.0
    decreases |s|
  {
    if s == [] then None
    else
      match LinkAt(s)
      case Some(x) => Some(x)
      case None => FirstLink(s[1..])
  }

  /** SnippetRegex tried at the start of t: "<a", the tag region holding the
      class "result__snippet", the '>' that ends it, then the anchor text. */
  function SnippetAt(t: string): (r: Option<string>)
    ensures r.Some? ==> |r.value| < |t|
  {
    if !StartsWith(t, "<a", false) then None
    else if AfterInRegion(PrefixBefore(t[2..], {'>'}), SnippetClass).None? then None
    else TitleAfter(t[2..])
  }

  /** SnippetRegex().Match(block): the leftmost position at which it matches. */
  function FirstSnippet(s: string): (r: Option<string>)
    decreases |s|
  {
    if s == [] then None
    else
      match SnippetAt(s)
      case Some(x) => Some(x)
      case None => FirstSnippet(s[1..])
  }

  /** The attributes of a result link up to the href value: the class, then
      the start of the href. */
  const LinkAttrs: string := " " + ResultLinkClass + " " + HrefOpen

  /** The first part of a result link as the search page writes it. */
  const LinkHead: string := "<a" + LinkAttrs

  /** A result link as the search page writes it: the link's target in the
      href, then the anchor text and "</a>". */
  function Anchor(url: string, title: string): string {
    LinkHead + url + "\"" + ">" + title + AnchorClose
  }

  /** The tag region of a result link: everything between "<a" and '>'. */
  function LinkRegion(url: string): string {
    LinkAttrs + url + "\""
  }

  /** Seven parts and what follows them, cut at three places. */
  lemma Cuts(a: string, b: string, u: string, q: string, g: string, x: string, c: string, p: string)
    ensures a + b + u + q + g + x + c + p == a + ((b + u + q) + (g + (x + c + p)))
    ensures a + b + u + q + g + x + c + p == (a + b) + (u + (q + (g + (x + c + p))))
    ensures a + b + u + q + g + x + c + p == (a + b + u + q) + (g + (x + c + p))
  {
  }

  /** The three places at which LinkAt cuts a result link. */
  lemma AnchorCuts(url: string, title: string, post: string)
    ensures var after := ">" + (title + AnchorClose + post);
      Anchor(url, title) + post == "<a" + (LinkRegion(url) + after) &&
      Anchor(url, title) + post == LinkHead + (url + ("\"" + after)) &&
      Anchor(url, title) + post == (LinkHead + url + "\"") + after
  {
    Cuts("<a", LinkAttrs, url, "\"", ">", title, AnchorClose, post);
  }

  /** "<a" opens an anchor, and its tag region runs to the first '>'. */
  lemma RegionFound(t: string, region: string, after: string)
    requires t == "<a" + (region + after) && '>' !in region
    requires after != [] && after[0] == '>'
    ensures StartsWith(t, "<a", false) && PrefixBefore(t[2..], {'>'}) == region
    ensures t[2..] == region + after && 2 + |region| < |t|
  {
    PrefixStarts("<a", region + after, false);
    SliceAfter("<a", region + after);
    PrefixBeforeIs(region, after, {'>'});
  }

  /** In the region, the class comes first and href=" right after it. */
  lemma LinkRegionParts(url: string)
    ensures var region := LinkRegion(url); var a := 1 + |ResultLinkClass|;
      AfterInRegion(region, ResultLinkClass) == Some(a) &&
      a <= |region| && region[a..] == " " + HrefOpen + (url + "\"") &&
      AfterInRegion(region[a..], HrefOpen) == Some(1 + |HrefOpen|)
  {
    var region := LinkRegion(url);
    var a := 1 + |ResultLinkClass|;
    assert region[1..] == ResultLinkClass + (" " + HrefOpen + url + "\"");
    IndexOfFront(ResultLinkClass, " " + HrefOpen + url + "\"");
    assert region[a..] == " " + HrefOpen + (url + "\"");
    assert (" " + HrefOpen + (url + "\""))[1..] == HrefOpen + (url + "\"");
    IndexOfFront(HrefOpen, url + "\"");
  }

  /** The tag region of a result link leads to its href value. */
  lemma LinkInRegion(t: string, url: string)
    requires 2 + |LinkRegion(url)| <= |t|
    ensures |LinkHead| <= |t| && LinkInTag(t, LinkRegion(url)) == LinkFrom(t, |LinkHead|)
  {
    LinkRegionParts(url);
  }

  /** The first '>' after a tag region ends the tag, and the anchor text
      begins after it. */
  lemma TitleAfterFound(region: string, text: string)
    requires '>' !in region
    ensures TitleAfter(region + (">" + text)) == AnchorText(text)
  {
    PrefixBeforeIs(region, ">" + text, {'>'});
    assert (region + (">" + text))[|region| + 1..] == text;
  }

  /** The href value runs to the next '"', and the tag goes on after it. */
  lemma LinkValueFound(t: string, head: string, url: string, after: string)
    requires t == head + (url + ("\"" + after)) && t == (head + url + "\"") + after
    requires url != [] && '"' !in url
    ensures LinkFrom(t, |head|) == match TitleAfter(after)
      case Some(title) => Some((url, title))
      case None => None
  {
    SliceAfter(head, url + ("\"" + after));
    PrefixBeforeIs(url, "\"" + after, {'"'});
    SliceAfter(head + url + "\"", after);
  }

  /** The anchor text runs to the first "</a>". */
  lemma AnchorTextFound(title: string, post: string)
    requires Absent(title, AnchorClose)
    ensures AnchorText(title + AnchorClose + post) == Some(title)
  {
    AbsentIsNone(title, AnchorClose);
    FirstClose(title, AnchorClose, post, false);
    assert (title + AnchorClose + post)[..|title|] == title;
  }

  /** From the href value on, a result link gives its target and its
      anchor text. */
  lemma LinkTail(t: string, url: string, title: string, post: string)
    requires url != [] && '"' !in url && Absent(title, AnchorClose)
    requires var after := ">" + (title + AnchorClose + post);
      t == LinkHead + (url + ("\"" + after)) && t == (LinkHead + url + "\"") + after
    ensures |LinkHead| <= |t| && LinkFrom(t, |LinkHead|) == Some((url, title))
  {
    var after := ">" + (title + AnchorClose + post);
    LinkValueFound(t, LinkHead, url, after);
    assert [] + after == after;
    TitleAfterFound([], title + AnchorClose + post);
    AnchorTextFound(title, post);
  }

  /** A result link is recognised whatever follows it: its target and its
      anchor text come back as written. */
  lemma LinkFound(url: string, title: string, post: string)
    requires url != [] && '"' !in url && '>' !in url && Absent(title, AnchorClose)
    ensures LinkAt(Anchor(url, title) + post) == Some((url, title))
  {
    var t := Anchor(url, title) + post;
    AnchorCuts(url, title, post);
    assert '>' !in LinkRegion(url);
    RegionFound(t, LinkRegion(url), ">" + (title + AnchorClose + post));
    LinkInRegion(t, url);
    LinkTail(t, url, title, post);
  }

  /** Text without '<' holds no link and is skipped. */
  lemma {:induction false} FirstLinkAfterPlain(pre: string, s: string)
    requires '<' !in pre
    ensures FirstLink(pre + s) == FirstLink(s)
    decreases |pre|
  {
    if pre == [] {
      assert pre + s == s;
    } else {
      HeadTail(pre, s);
      FirstLinkAfterPlain(pre[1..], s);
    }
  }

  /** The first result link after plain text is the one found. */
  lemma LinkFirst(pre: string, url: string, title: string, post: string)
    requires '<' !in pre
    requires url != [] && '"' !in url && '>' !in url && Absent(title, AnchorClose)
    ensures FirstLink(pre + (Anchor(url, title) + post)) == Some((url, title))
  {
    FirstLinkAfterPlain(pre, Anchor(url, title) + post);
    LinkFound(url, title, post);
  }

  /** A snippet as the search page writes it: an anchor with the snippet
      class, its text, then "</a>". */
  function SnippetAnchor(text: string): string {
    "<a " + SnippetClass + ">" + text + AnchorClose
  }

  /** The two places at which SnippetAt cuts a snippet. */
  lemma SnippetCuts(text: string, post: string)
    ensures var rest := text + AnchorClose + post;
      SnippetAnchor(text) + post == "<a" + ((" " + SnippetClass) + (">" + rest)) &&
      SnippetAnchor(text) + post == ("<a" + (" " + SnippetClass)) + (">" + rest)
  {
  }

  /** The tag region of a snippet holds the snippet class. */
  lemma SnippetClassFound()
    ensures AfterInRegion(" " + SnippetClass, SnippetClass) == Some(1 + |SnippetClass|)
  {
    assert (" " + SnippetClass)[1..] == SnippetClass + [];
    IndexOfFront(SnippetClass, []);
  }

  /** A snippet is recognised whatever follows it: its text comes back as
      written. */
  lemma SnippetFound(text: string, post: string)
    requires Absent(text, AnchorClose)
    ensures SnippetAt(SnippetAnchor(text) + post) == Some(text)
  {
    var t := SnippetAnchor(text) + post;
    var region := " " + SnippetClass;
    var rest := text + AnchorClose + post;
    SnippetCuts(text, post);
    assert '>' !in region;
    RegionFound(t, region, ">" + rest);
    SnippetClassFound();
    TitleAfterFound(region, rest);
    AnchorTextFound(text, post);
  }

  /** Text without '<' holds no snippet and is skipped. */
  lemma {:induction false} FirstSnippetAfterPlain(pre: string, s: string)
    requires '<' !in pre
    ensures FirstSnippet(pre + s) == FirstSnippet(s)
    decreases |pre|
  {
    if pre == [] {
      assert pre + s == s;
    } else {
      HeadTail(pre, s);
      FirstSnippetAfterPlain(pre[1..], s);
    }
  }

  /** The first snippet after plain text is the one found. */
  lemma SnippetFirst(pre: string, text: string, post: string)
    requires '<' !in pre && Absent(text, AnchorClose)
    ensures FirstSnippet(pre + (SnippetAnchor(text) + post)) == Some(text)
  {
    FirstSnippetAfterPlain(pre, SnippetAnchor(text) + post);
    SnippetFound(text, post);
  }

  /** A result ParseResults keeps: a title that is not blank and a link the
      allow-list admits, the host trimmed as trim says. */
  predicate Kept(e: SearchResult, allowed: set<string>, trim: HostTrim) {
    !IsBlank(e.title) && UrlAllowedBy(e.url, allowed, trim)
  }

  /** The body of the loop of ParseResults for one container (:140-170): no
      link, a blank title or a host outside the allow-list drops the
      container; otherwise the link is resolved and title and snippet are
      cleaned. */
  function Entry(block: string, allowed: set<string>, trim: HostTrim): Option<SearchResult>
  {
    match FirstLink(block)
    case None => None
    case Some((href, text)) =>
      var url := ResolveHref(href);
      var title := StripHtml(text);
      var snippet := match FirstSnippet(block) case Some(x) => StripHtml(x) case None => "";
      var e := SearchResult(title, url, snippet);
      if Kept(e, allowed, trim) then Some(e) else None
  }

  /** A container gives a result exactly when it holds a link whose cleaned
      title is not blank and whose resolved target the allow-list admits;
      the result carries that title and target, and the cleaned snippet or
      "" when the container has none. */
  lemma EntryCases(block: string, allowed: set<string>, trim: HostTrim)
    ensures Entry(block, allowed, trim).Some? <==>
      FirstLink(block).Some? &&
      !IsBlank(StripHtml(FirstLink(block).value.1)) && UrlAllowedBy(ResolveHref(FirstLink(block).value.0), allowed, trim)
    ensures Entry(block, allowed, trim).Some? ==>
      var e := Entry(block, allowed, trim).value;
      Kept(e, allowed, trim) && e.title == StripHtml(FirstLink(block).value.1) &&
      e.url == ResolveHref(FirstLink(block).value.0) &&
      (FirstSnippet(block).None? ==> e.snippet == []) &&
      (FirstSnippet(block).Some? ==> e.snippet == StripHtml(FirstSnippet(block).value))
  {
  }

  /** A container's result, when it gives one, is one ParseResults keeps. */
  lemma EntryKept(block: string, allowed: set<string>, trim: HostTrim)
    ensures Entry(block, allowed, trim).Some? ==> Kept(Entry(block, allowed, trim).value, allowed, trim)
  {
  }

  /** A container cut around a part of its content. */
  lemma ContainerCut(od: string, cls: string, pre: string, a: string, post: string, ws: string, close: string)
    ensures Container("<" + od, cls, pre + (a + post), ws, close) ==
      "<" + ((od + cls + "\">" + pre) + (a + (post + close + ws + close)))
  {
  }

  /** The opening tag of a container holds no other '<'. */
  lemma OpenLead()
    ensures ContainerOpen == "<" + ContainerOpen[1..]
    ensures ContainerOpen[1..] != [] && ContainerOpen[1..][0] == 'd' && '<' !in ContainerOpen[1..]
  {
  }

  /** A '<' that does not open an anchor, then plain text: the search for a
      link goes past both. */
  lemma LinkAfterLead(x: string, lead: string, rest: string)
    requires x == "<" + (lead + rest) && lead != [] && lead[0] == 'd' && '<' !in lead
    ensures FirstLink(x) == FirstLink(rest)
  {
    assert x[1..] == lead + rest;
    assert x[1] == 'd';
    FirstLinkAfterPlain(lead, rest);
  }

  /** A result link inside a container, after plain text, is the link of
      that container. */
  lemma ContainerLink(cls: string, pre: string, url: string, title: string, post: string, ws: string)
    requires '<' !in cls && '<' !in pre
    requires url != [] && '"' !in url && '>' !in url && Absent(title, AnchorClose)
    ensures FirstLink(Container(ContainerOpen, cls, pre + (Anchor(url, title) + post), ws, DivClose)) ==
      Some((url, title))
  {
    var od := ContainerOpen[1..];
    var lead := od + cls + "\">" + pre;
    var rest := Anchor(url, title) + (post + DivClose + ws + DivClose);
    OpenLead();
    ContainerCut(od, cls, pre, Anchor(url, title), post, ws, DivClose);
    assert '<' !in lead;
    LinkAfterLead(Container(ContainerOpen, cls, pre + (Anchor(url, title) + post), ws, DivClose), lead, rest);
    LinkFound(url, title, post + DivClose + ws + DivClose);
  }

  /** The result a container with a link gives: its cleaned anchor text as
      title and its resolved target as URL, exactly when the title is not
      blank and the allow-list admits the target. */
  lemma ContainerEntry(cls: string, pre: string, url: string, title: string, post: string, ws: string,
                       allowed: set<string>, trim: HostTrim)
    requires '<' !in cls && '<' !in pre
    requires url != [] && '"' !in url && '>' !in url && Absent(title, AnchorClose)
    ensures var e := Entry(Container(ContainerOpen, cls, pre + (Anchor(url, title) + post), ws, DivClose), allowed, trim);
      (e.Some? <==> !IsBlank(StripHtml(title)) && UrlAllowedBy(ResolveHref(url), allowed, trim)) &&
      (e.Some? ==> e.value.title == StripHtml(title) && e.value.url == ResolveHref(url))
  {
    ContainerLink(cls, pre, url, title, post, ws);
    EntryCases(Container(ContainerOpen, cls, pre + (Anchor(url, title) + post), ws, DivClose), allowed, trim);
  }

  /** What each container gives, in page order. */
  function Outcomes(blocks: seq<string>, allowed: set<string>, trim: HostTrim): (r: seq<Option<SearchResult>>)
    ensures |r| == |blocks| && forall i :: 0 <= i < |blocks| ==> r[i] == Entry(blocks[i], allowed, trim)
  {
    seq(|blocks|, i requires 0 <= i < |blocks| => Entry(blocks[i], allowed, trim))
  }

  /** The values present in a sequence of options, in order. */
  function Present<T>(os: seq<Option<T>>): (r: seq<T>)
    ensures |r| <= |os|
  {
    if os == [] then []
    else Present(os[..|os| - 1]) + match os[|os| - 1] case Some(x) => [x] case None => []
  }

  /** One more option adds its value, if any, at the end. */
  lemma PresentSnoc<T>(os: seq<Option<T>>, o: Option<T>)
    ensures Present(os + [o]) == Present(os) + match o case Some(x) => [x] case None => []
  {
    var c := os + [o];
    assert c[..|c| - 1] == os;
  }

  /** Two runs of options give their values independently. */
  lemma {:induction false} PresentAppend<T>(a: seq<Option<T>>, b: seq<Option<T>>)
    ensures Present(a + b) == Present(a) + Present(b)
    decreases |b|
  {
    if b == [] {
      assert a + b == a;
    } else {
      var init := b[..|b| - 1];
      var last := b[|b| - 1];
      assert b == init + [last];
      assert a + b == (a + init) + [last];
      PresentSnoc(a + init, last);
      PresentSnoc(init, last);
      PresentAppend(a, init);
    }
  }

  /** Every value present is one of the options. */
  lemma {:induction false} PresentFrom<T>(os: seq<Option<T>>, j: nat)
    requires j < |Present(os)|
    ensures exists i :: 0 <= i < |os| && os[i] == Some(Present(os)[j])
    decreases |os|
  {
    var init := os[..|os| - 1];
    if j < |Present(init)| {
      PresentFrom(init, j);
      var i :| 0 <= i < |init| && init[i] == Some(Present(init)[j]);
      assert os[i] == init[i];
    } else {
      assert os[|os| - 1] == Some(Present(os)[j]);
    }
  }

  /** The results the containers give, in page order, before the cap. */
  function Accepted(blocks: seq<string>, allowed: set<string>, trim: HostTrim): seq<SearchResult> {
    Present(Outcomes(blocks, allowed, trim))
  }

  /** Every accepted result is one ParseResults keeps. */
  lemma AcceptedKept(blocks: seq<string>, allowed: set<string>, trim: HostTrim)
    ensures forall j :: 0 <= j < |Accepted(blocks, allowed, trim)| ==> Kept(Accepted(blocks, allowed, trim)[j], allowed, trim)
  {
    var os := Outcomes(blocks, allowed, trim);
    forall j | 0 <= j < |Present(os)| ensures Kept(Present(os)[j], allowed, trim) {
      PresentFrom(os, j);
      var i :| 0 <= i < |os| && os[i] == Some(Present(os)[j]);
      EntryKept(blocks[i], allowed, trim);
    }
  }

  /** The first m elements of xs; none when m is not positive. */
  function Take<T>(xs: seq<T>, m: int): (r: seq<T>)
    ensures |r| == if m <= 0 then 0 else if m < |xs| then m else |xs|
    ensures r == xs[..|r|]
  {
    if m <= 0 then [] else if m < |xs| then xs[..m] else xs
  }

  /** What ParseResults returns for a page, a cap and an allow-list. */
  function ParsedResults(html: string, maxResults: int, allowed: set<string>, trim: HostTrim): seq<SearchResult> {
    Take(Accepted(ResultBlocks(html), allowed, trim), maxResults)
  }

  /** ParseResults: walks the containers in page order, skips the ones that
      give no result and stops once maxResults results are collected. */
  method ParseResults(html: string, maxResults: int, allowed: set<string>, trim: HostTrim) returns (results: seq<SearchResult>)
    ensures results == ParsedResults(html, maxResults, allowed, trim)
    ensures |results| <= if maxResults < 0 then 0 else maxResults
    ensures forall i :: 0 <= i < |results| ==> Kept(results[i], allowed, trim)
  {
    var blocks := ResultBlocks(html);
    ghost var outcomes := Outcomes(blocks, allowed, trim);
    results := [];
    var i := 0;
    while i < |blocks|
      invariant 0 <= i <= |blocks|
      invariant results == Present(outcomes[..i])
      invariant |results| <= if maxResults < 0 then 0 else maxResults
    {
      if |results| >= maxResults {
        break;
      }
      var entry := Entry(blocks[i], allowed, trim);
      PresentStep(outcomes, i);
      if entry.Some? {
        results := results + [entry.value];
      }
      i := i + 1;
    }
    CapStop(outcomes, i, maxResults);
    AcceptedKept(blocks, allowed, trim);
  }

  /** The loop step: the first i + 1 outcomes give what the first i give,
      then the value of outcome i. */
  lemma PresentStep<T>(os: seq<Option<T>>, i: nat)
    requires i < |os|
    ensures Present(os[..i + 1]) == Present(os[..i]) + match os[i] case Some(x) => [x] case None => []
  {
    assert os[..i + 1] == os[..i] + [os[i]];
    PresentSnoc(os[..i], os[i]);
  }

  /** Where the loop stops, at the cap or at the end, it holds the capped
      values. */
  lemma CapStop<T>(os: seq<Option<T>>, i: nat, m: int)
    requires i <= |os|
    requires i == |os| || |Present(os[..i])| >= m
    requires |Present(os[..i])| <= if m < 0 then 0 else m
    ensures Present(os[..i]) == Take(Present(os), m)
  {
    assert os == os[..i] + os[i..];
    PresentAppend(os[..i], os[i..]);
  }

  /** An empty allow-list admits every link, so the host trim makes no
      difference to the results. */
  lemma EmptyListAnyTrim(html: string, maxResults: int, trim: HostTrim, other: HostTrim)
    ensures ParsedResults(html, maxResults, {}, trim) == ParsedResults(html, maxResults, {}, other)
  {
    var blocks := ResultBlocks(html);
    assert Outcomes(blocks, {}, trim) == Outcomes(blocks, {}, other);
  }

  /** A larger cap only adds results at the end. */
  lemma CapPrefix(html: string, m: int, n: int, allowed: set<string>, trim: HostTrim)
    requires m <= n
    ensures ParsedResults(html, m, allowed, trim) <= ParsedResults(html, n, allowed, trim)
  {
  }

  /** No cap below the number of accepted containers loses any of them. */
  lemma CapAboveCount(html: string, m: int, allowed: set<string>, trim: HostTrim)
    requires m >= |ResultBlocks(html)|
    ensures ParsedResults(html, m, allowed, trim) == Accepted(ResultBlocks(html), allowed, trim)
  {
  }
}
