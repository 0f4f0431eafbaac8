/** ExtractText (Tools/WebSearchTools.cs:106-121): the fixed pipeline that
    turns a fetched page into clean lines of text. Each regular expression of
    the pipeline is a left-to-right scanner here. */
module Normalizer {
  import opened Wrappers
  import opened Text
  import opened Entities
  import opened Markup

  /** The elements whose whole region is noise, in the order the pattern's
      alternatives name them (:194). */
  const NoiseNames: seq<string> := ["script", "style", "nav", "header", "footer", "aside", "iframe"]

  /** The opening "<name" of a noise alternative. */
  function OpenTag(name: string): (r: string)
    ensures |r| == |name| + 1 && r[0] == '<'
  {
    "<" + name
  }

  /** The closing "</name>" of a noise alternative. */
  function CloseTag(name: string): (r: string)
    ensures |r| == |name| + 3 && r[0] == '<'
  {
    "</" + name + ">"
  }

  /** A lazy match "open.*?close" at the start of s, with '.' matching
      newlines: open, then everything up to and including the first close
      after it. */
  function LazyLength(s: string, open: string, close: string, ignoreCase: bool): (r: Option<nat>)
    ensures r.Some? ==> |open| + |close| <= r.value <= |s|
  {
    if !StartsWith(s, open, ignoreCase) then None
    else LazyClose(s[|open|..], close, ignoreCase, |open|)
  }

  /** The rest of a lazy match once open has matched: skip to the first
      close and count it in; offset is the length already consumed. */
  function LazyClose(t: string, close: string, ignoreCase: bool, offset: nat): (r: Option<nat>)
    ensures r.Some? ==> |close| <= r.value - offset <= |t|
  {
    match IndexOf(t, close, ignoreCase)
    case Some(k) =>
      assert StartsWith(t[k..], close, ignoreCase);
      Some(offset + k + |close|)
    case None => None
  }

  lemma LazyFound(s: string, open: string, close: string, ignoreCase: bool, k: nat, n: nat)
    requires StartsWith(s, open, ignoreCase)
    requires IndexOf(s[|open|..], close, ignoreCase) == Some(k)
    requires n == |open| + k + |close|
    ensures LazyLength(s, open, close, ignoreCase) == Some(n)
  {
    LazyCloseFound(s[|open|..], close, ignoreCase, |open|, k);
  }

  lemma LazyCloseFound(t: string, close: string, ignoreCase: bool, offset: nat, k: nat)
    requires IndexOf(t, close, ignoreCase) == Some(k)
    ensures LazyClose(t, close, ignoreCase, offset) == Some(offset + k + |close|)
  {
  }

  /** One alternative "<name.*?</name>" of the noise pattern at the start of
      s, ignoring case. */
  function NoiseBlockLength(s: string, name: string): (r: Option<nat>)
    ensures r.Some? ==> 0 < r.value <= |s| && s[0] == '<'
  {
    var r := LazyLength(s, OpenTag(name), CloseTag(name), true);
    assert r.Some? ==> StartsWith(s, OpenTag(name), true);
    assert r.Some? ==> SameChar(s[0], OpenTag(name)[0], true);
    r
  }

  /** The alternation of noise patterns at the start of s: the first
      alternative that matches. */
  function NoiseLength(s: string, names: seq<string>): (r: Option<nat>)
    ensures r.Some? ==> 0 < r.value <= |s| && s[0] == '<'
  {
    if names == [] then None
    else
      match NoiseBlockLength(s, names[0])
      case Some(n) => Some(n)
      case None => NoiseLength(s, names[1..])
  }

  /** Step 1 (:109): every noise region, content included, becomes one space. */
  function RemoveNoise(s: string): (r: string)
    ensures '<' !in s ==> r == s
    decreases |s|
  {
    if s == [] then []
    else
      match NoiseLength(s, NoiseNames)
      case Some(n) => " " + RemoveNoise(s[n..])
      case None => assert s == [s[0]] + s[1..]; [s[0]] + RemoveNoise(s[1..])
  }

  /** The elements whose opening and closing tags become line breaks (:197);
      "h[1-6]" is spelled out. */
  const BlockNames: seq<string> := ["p", "div", "br", "h1", "h2", "h3", "h4", "h5", "h6", "li", "tr", "blockquote"]

  predicate StartsWithBlockName(s: string) {
    exists i :: 0 <= i < |BlockNames| && StartsWith(s, BlockNames[i], true)
  }

  /** The pattern "</?(p|div|br|h[1-6]|li|tr|blockquote)[^>]*>" at the start
      of s, ignoring case: '<', an optional '/', a block name (the name may go
      on, as in "<pre>"), then everything up to the first '>'. */
  function BlockTagLength(s: string): (r: Option<nat>)
    ensures r.Some? ==> 0 < r.value <= |s| && s[0] == '<'
  {
    if s == [] || s[0] != '<' then None
    else
      var k := if |s| > 1 && s[1] == '/' then 2 else 1;
      if !StartsWithBlockName(s[k..]) then None
      else
        match IndexOf(s[k..], ">", false)
        case Some(g) =>
          assert StartsWith(s[k..][g..], ">", false);
          Some(k + g + 1)
        case None => None
  }

  /** Step 2 (:111): every block tag becomes a newline. */
  function BreakBlocks(s: string): (r: string)
    ensures '<' !in s ==> r == s
    decreases |s|
  {
    if s == [] then []
    else
      match BlockTagLength(s)
      case Some(n) => "\n" + BreakBlocks(s[n..])
      case None => assert s == [s[0]] + s[1..]; [s[0]] + BreakBlocks(s[1..])
  }

  /** Step 5 on one line (:118): collapse runs of spaces, then trim. */
  function CleanLine(l: string): string {
    Trim(CollapseSpaces(l))
  }

  /** The shape of every line ExtractText produces: longer than one character,
      no white space at either end, no two spaces in a row. */
  predicate LineShape(l: string) {
    |l| > 1 && !IsWhiteSpace(l[0]) && !IsWhiteSpace(l[|l| - 1]) && NoDoubleSpace(l)
  }

  lemma CleanLineShape(l: string)
    ensures |CleanLine(l)| > 1 ==> LineShape(CleanLine(l))
  {
    var s := CollapseSpaces(l);
    TrimFactor(s);
    NoDoubleSpaceFactor(s, LeadingWhiteSpace(s), |Trim(s)|);
  }

  lemma CleanLineNoNewline(l: string)
    ensures '\n' !in l ==> '\n' !in CleanLine(l)
  {
    var s := CollapseSpaces(l);
    var c := Trim(s);
    var k := LeadingWhiteSpace(s);
    TrimFactor(s);
    if '\n' in c {
      var i :| 0 <= i < |c| && c[i] == '\n';
      assert s[k + i] == '\n';
    }
  }

  /** Lines that are all clean stay so with one more clean line in front. */
  lemma CleanCons(c: string, rest: seq<string>)
    requires '\n' !in c && LineShape(c)
    requires forall k :: 0 <= k < |rest| ==> '\n' !in rest[k]
    requires forall k :: 0 <= k < |rest| ==> LineShape(rest[k])
    ensures forall k :: 0 <= k < |[c] + rest| ==> '\n' !in ([c] + rest)[k]
    ensures forall k :: 0 <= k < |[c] + rest| ==> LineShape(([c] + rest)[k])
  {
  }

  /** Step 5 (:117-119): clean each line, keep those longer than one
      character, in order. */
  function CleanLines(lines: seq<string>): (r: seq<string>)
    requires forall k :: 0 <= k < |lines| ==> '\n' !in lines[k]
    ensures |r| <= |lines|
    ensures forall k :: 0 <= k < |r| ==> '\n' !in r[k]
    ensures forall k :: 0 <= k < |r| ==> LineShape(r[k])
  {
    if lines == [] then []
    else
      var c := CleanLine(lines[0]);
      var rest := CleanLines(lines[1..]);
      CleanLineShape(lines[0]);
      CleanLineNoNewline(lines[0]);
      if |c| > 1 then CleanCons(c, rest); [c] + rest else rest
  }

  /** Every cleaned line longer than one character is kept. */
  lemma CleanLinesKeepsLong(lines: seq<string>, k: nat)
    requires forall i :: 0 <= i < |lines| ==> '\n' !in lines[i]
    requires k < |lines| && |CleanLine(lines[k])| > 1
    ensures CleanLine(lines[k]) in CleanLines(lines)
  {
    var pre := lines[..k];
    var post := lines[k + 1..];
    assert lines == pre + ([lines[k]] + post);
    CleanLinesAppend(pre, [lines[k]] + post);
    CleanLinesAppend([lines[k]], post);
    CleanLinesSingle(lines[k]);
    assert CleanLines(lines) == CleanLines(pre) + ([CleanLine(lines[k])] + CleanLines(post));
    assert CleanLines(lines)[|CleanLines(pre)|] == CleanLine(lines[k]);
  }

  /** The number of lines whose cleaned form is longer than one character. */
  function LongLines(lines: seq<string>): nat {
    if lines == [] then 0
    else (if |CleanLine(lines[0])| > 1 then 1 else 0) + LongLines(lines[1..])
  }

  /** As many lines are kept as have a cleaned form longer than one
      character. */
  lemma {:induction false} CleanLinesCount(lines: seq<string>)
    requires forall i :: 0 <= i < |lines| ==> '\n' !in lines[i]
    ensures |CleanLines(lines)| == LongLines(lines)
    decreases |lines|
  {
    if lines != [] {
      CleanLinesFront(lines);
      CleanLinesSingle(lines[0]);
      TailWithoutNewline(lines);
      CleanLinesCount(lines[1..]);
    }
  }

  lemma TailWithoutNewline(lines: seq<string>)
    requires lines != [] && forall i :: 0 <= i < |lines| ==> '\n' !in lines[i]
    ensures forall i :: 0 <= i < |lines[1..]| ==> '\n' !in lines[1..][i]
  {
  }

  lemma CleanLinesFront(lines: seq<string>)
    requires lines != [] && forall i :: 0 <= i < |lines| ==> '\n' !in lines[i]
    ensures CleanLines(lines) == CleanLines([lines[0]]) + CleanLines(lines[1..])
  {
    assert lines == [lines[0]] + lines[1..];
    CleanLinesAppend([lines[0]], lines[1..]);
  }

  /** Cleaning distributes over the concatenation of two runs of lines, so
      the kept lines come out in the order of the input. */
  lemma {:induction false} CleanLinesAppend(a: seq<string>, b: seq<string>)
    requires forall k :: 0 <= k < |a| ==> '\n' !in a[k]
    requires forall k :: 0 <= k < |b| ==> '\n' !in b[k]
    ensures CleanLines(a + b) == CleanLines(a) + CleanLines(b)
    decreases |a|
  {
    if a == [] {
      assert a + b == b;
    } else {
      assert (a + b)[0] == a[0] && (a + b)[1..] == a[1..] + b;
      CleanLinesAppend(a[1..], b);
    }
  }

  /** One line is kept, cleaned, exactly when its cleaned form is longer than
      one character. */
  lemma CleanLinesSingle(l: string)
    requires '\n' !in l
    ensures |CleanLine(l)| > 1 ==> CleanLines([l]) == [CleanLine(l)]
    ensures |CleanLine(l)| <= 1 ==> CleanLines([l]) == []
  {
    assert [l][1..] == [];
  }

  /** The text after steps 1 to 4 (:109-115), before it is cut into lines. */
  function Flatten(html: string): string {
    HtmlDecode(StripTags(BreakBlocks(RemoveNoise(html)), " "))
  }

  /** ExtractText: the steps in order, lines rejoined with '\n' (:120). */
  function ExtractText(html: string): string {
    Join(CleanLines(Split(Flatten(html), '\n')), '\n')
  }

  /** Every line of the output has the line shape; an empty output is the
      only way to have no line. */
  lemma {:induction false} ExtractTextLines(html: string)
    ensures var t := ExtractText(html);
      t == [] || forall l :: l in Split(t, '\n') ==> LineShape(l)
  {
    var lines := CleanLines(Split(Flatten(html), '\n'));
    if lines != [] {
      SplitJoin(lines, '\n');
    }
  }

  lemma JoinNonEmpty(lines: seq<string>, sep: char)
    requires lines != [] && lines[0] != []
    ensures Join(lines, sep) != [] && Join(lines, sep)[0] == lines[0][0]
  {
  }

  /** The output is empty or holds a visible character; it is never made of
      white space alone. */
  lemma ExtractTextNotBlank(html: string)
    ensures ExtractText(html) == [] || !IsBlank(ExtractText(html))
  {
    var lines := CleanLines(Split(Flatten(html), '\n'));
    if lines != [] {
      JoinNonEmpty(lines, '\n');
    }
  }

  lemma TrimKeeps(s: string)
    requires s == [] || (!IsWhiteSpace(s[0]) && !IsWhiteSpace(s[|s| - 1]))
    ensures Trim(s) == s
  {
    assert LeadingWhiteSpace(s) == 0;
    assert TrailingWhiteSpace(s) == 0;
  }

  /** Cleaning lines that are already clean changes nothing. */
  lemma {:induction false} CleanLinesIdempotent(lines: seq<string>)
    requires forall k :: 0 <= k < |lines| ==> '\n' !in lines[k]
    ensures CleanLines(CleanLines(lines)) == CleanLines(lines)
    decreases |lines|
  {
    if lines != [] {
      var c := CleanLine(lines[0]);
      CleanLineShape(lines[0]);
      CleanLinesIdempotent(lines[1..]);
      if |c| > 1 {
        CollapseSpacesKeeps(c);
        TrimKeeps(c);
        var r := CleanLines(lines);
        assert r[0] == c && r[1..] == CleanLines(lines[1..]);
      }
    }
  }

  /** The output is a fixed point of the line stage: splitting, cleaning and
      rejoining it gives it back. */
  lemma ExtractTextStable(html: string)
    ensures var t := ExtractText(html); Join(CleanLines(Split(t, '\n')), '\n') == t
  {
    var lines := CleanLines(Split(Flatten(html), '\n'));
    if lines == [] {
      assert Split([], '\n') == [[]];
      assert CleanLine([]) == [];
    } else {
      SplitJoin(lines, '\n');
      CleanLinesIdempotent(Split(Flatten(html), '\n'));
    }
  }

  lemma RemoveNoiseHead(s: string)
    requires s != [] && s[0] != '<'
    ensures RemoveNoise(s) == [s[0]] + RemoveNoise(s[1..])
  {
  }

  lemma BreakBlocksHead(s: string)
    requires s != [] && s[0] != '<'
    ensures BreakBlocks(s) == [s[0]] + BreakBlocks(s[1..])
  {
  }

  /** Scanning text without '<' copies it, so a prefix without '<' comes
      through each step unchanged. */
  lemma {:induction false} RemoveNoiseAfterPlain(a: string, b: string)
    requires '<' !in a
    ensures RemoveNoise(a + b) == a + RemoveNoise(b)
    decreases |a|
  {
    if a == [] {
      assert a + b == b;
    } else {
      HeadTail(a, b);
      RemoveNoiseHead(a + b);
      RemoveNoiseAfterPlain(a[1..], b);
      HeadTail(a, RemoveNoise(b));
    }
  }

  lemma {:induction false} BreakBlocksAfterPlain(a: string, b: string)
    requires '<' !in a
    ensures BreakBlocks(a + b) == a + BreakBlocks(b)
    decreases |a|
  {
    if a == [] {
      assert a + b == b;
    } else {
      HeadTail(a, b);
      BreakBlocksHead(a + b);
      BreakBlocksAfterPlain(a[1..], b);
      HeadTail(a, BreakBlocks(b));
    }
  }

  /** Each noise name differs, ignoring case, from every earlier one within
      the shorter of the two, so at most one alternative opens at a place. */
  lemma NoiseNamesDistinct(s: string, i: nat, j: nat)
    requires i < j < |NoiseNames| && StartsWith(s, OpenTag(NoiseNames[j]), true)
    ensures !StartsWith(s, OpenTag(NoiseNames[i]), true)
  {
    var a := OpenTag(NoiseNames[i]);
    var b := OpenTag(NoiseNames[j]);
    if StartsWith(s, a, true) {
      assert SameChar(s[1], a[1], true) && SameChar(s[1], b[1], true);
      SameCharLower(s[1], a[1]);
      SameCharLower(s[1], b[1]);
      assert a[1] == b[1];
      assert i == 0 && j == 1;
      assert SameChar(s[2], a[2], true) && SameChar(s[2], b[2], true);
      SameCharLower(s[2], a[2]);
      SameCharLower(s[2], b[2]);
      assert false;
    }
  }

  /** The first closing tag after a content that holds none is the one that
      directly follows it, because a closing tag has its '<' only in front. */
  predicate LessThanOnlyInFront(t: string) {
    forall p :: 0 < p < |t| ==> !SameChar('<', t[p], true)
  }

  /** A closing tag inside the content is no closing tag after it, whatever
      text c follows the content. */
  lemma CloseNotInside(body: string, c: string, close: string, post: string, j: nat, ignoreCase: bool)
    requires j + |close| <= |body| && !OccursAt(body, j, close, ignoreCase)
    ensures !OccursAt(body + c + post, j, close, ignoreCase)
  {
    var x := body + c + post;
    assert x[j..j + |close|] == body[j..j + |close|];
    OccursAtSame(x, body, j, close, ignoreCase);
  }

  /** A character that matches '<' is '<', with or without case folding. */
  lemma LessThanMatch(c: char, ignoreCase: bool)
    requires SameChar(c, '<', ignoreCase)
    ensures c == '<'
  {
  }

  /** No closing tag starts in the content and runs into the text c that
      follows it, when c spells a closing tag: c's '<' would have to match a
      later character of the closing tag. */
  lemma CloseNotAcross(body: string, c: string, close: string, post: string, j: nat, ignoreCase: bool)
    requires close != [] && close[0] == '<' && LessThanOnlyInFront(close)
    requires |c| == |close| && StartsWith(c, close, ignoreCase)
    requires j < |body| < j + |close|
    ensures !OccursAt(body + c + post, j, close, ignoreCase)
  {
    var x := body + c + post;
    var q := |body| - j;
    LessThanMatch(c[0], ignoreCase);
    assert x[j..][q] == '<';
  }

  /** The first closing tag after a content that holds none is the text c
      that directly follows it, when c spells the closing tag. */
  lemma FirstCloseAs(body: string, c: string, close: string, post: string, ignoreCase: bool)
    requires close != [] && close[0] == '<' && LessThanOnlyInFront(close)
    requires |c| == |close| && StartsWith(c, close, ignoreCase)
    requires IndexOf(body, close, ignoreCase).None?
    ensures IndexOf(body + c + post, close, ignoreCase) == Some(|body|)
  {
    var x := body + c + post;
    assert x[|body|..] == c + post;
    StartsWithExtend(c, close, post, ignoreCase);
    forall j | 0 <= j < |body| ensures !OccursAt(x, j, close, ignoreCase) {
      if j + |close| <= |body| {
        CloseNotInside(body, c, close, post, j, ignoreCase);
      } else {
        CloseNotAcross(body, c, close, post, j, ignoreCase);
      }
    }
    IndexOfIs(x, close, ignoreCase, |body|);
  }

  /** The first closing tag after a content that holds none is the one that
      directly follows it. */
  lemma FirstClose(body: string, close: string, post: string, ignoreCase: bool)
    requires close != [] && close[0] == '<' && LessThanOnlyInFront(close)
    requires IndexOf(body, close, ignoreCase).None?
    ensures IndexOf(body + close + post, close, ignoreCase) == Some(|body|)
  {
    PrefixStarts(close, [], ignoreCase);
    assert close + [] == close;
    FirstCloseAs(body, close, close, post, ignoreCase);
  }

  lemma CloseTagShape(name: string)
    requires name in NoiseNames
    ensures LessThanOnlyInFront(CloseTag(name))
  {
  }

  lemma NoiseLengthNext(s: string, names: seq<string>)
    requires names != [] && !StartsWith(s, OpenTag(names[0]), true)
    ensures NoiseLength(s, names) == NoiseLength(s, names[1..])
  {
  }

  /** An element spelled open + body + close + post, where open is "<name"
      and close is "</name>" in any mix of case. */
  predicate Spelled(name: string, open: string, close: string) {
    SameUpToCase(open, OpenTag(name)) && SameUpToCase(close, CloseTag(name))
  }

  lemma BlockOpens(name: string, open: string, body: string, close: string, post: string)
    requires Spelled(name, open, close)
    ensures StartsWith(open + body + close + post, OpenTag(name), true)
  {
    Regroup4(open, body, close, post);
    StartsWithExtend(open, OpenTag(name), body + close + post, true);
  }

  lemma BlockCloses(name: string, open: string, body: string, close: string, post: string)
    requires Spelled(name, open, close) && LessThanOnlyInFront(CloseTag(name))
    requires IndexOf(body, CloseTag(name), true).None?
    ensures var s := open + body + close + post;
      IndexOf(s[|OpenTag(name)|..], CloseTag(name), true) == Some(|body|)
  {
    Regroup4(open, body, close, post);
    FirstCloseAs(body, close, CloseTag(name), post, true);
  }

  /** The alternative of a noise name matches a block that opens with it and
      has no closing tag in its content, in any mix of case. */
  lemma NoiseBlockMatches(name: string, open: string, body: string, close: string, post: string)
    requires Spelled(name, open, close) && LessThanOnlyInFront(CloseTag(name))
    requires IndexOf(body, CloseTag(name), true).None?
    ensures var block := open + body + close;
      NoiseBlockLength(block + post, name) == Some(|block|)
  {
    var block := open + body + close;
    BlockOpens(name, open, body, close, post);
    BlockCloses(name, open, body, close, post);
    LazyFound(block + post, OpenTag(name), CloseTag(name), true, |body|, |block|);
  }

  /** The alternation finds that block too: no earlier alternative opens
      where it opens. */
  lemma {:induction false} NoiseMatches(j: nat, open: string, body: string, close: string, post: string,
                                        names: seq<string>, i: nat)
    requires j < |NoiseNames| && i <= j && names == NoiseNames[i..]
    requires Spelled(NoiseNames[j], open, close)
    requires IndexOf(body, CloseTag(NoiseNames[j]), true).None?
    ensures var block := open + body + close;
      NoiseLength(block + post, names) == Some(|block|)
    decreases |names|
  {
    var name := NoiseNames[j];
    var s := open + body + close + post;
    if i < j {
      BlockOpens(name, open, body, close, post);
      NoiseNamesDistinct(s, i, j);
      NoiseLengthNext(s, names);
      assert names[1..] == NoiseNames[i + 1..];
      NoiseMatches(j, open, body, close, post, names[1..], i + 1);
    } else {
      CloseTagShape(name);
      NoiseBlockMatches(name, open, body, close, post);
      assert names[0] == name;
    }
  }

  lemma RemoveNoiseMatch(s: string, n: nat)
    requires s != [] && NoiseLength(s, NoiseNames) == Some(n)
    ensures RemoveNoise(s) == " " + RemoveNoise(s[n..])
  {
  }

  /** A noise block at the start, from "<name" to the first "</name>" in any
      mix of case, is replaced by one space together with everything in it. */
  lemma NoiseBlockRemoved(name: string, open: string, body: string, close: string, post: string)
    requires name in NoiseNames && Spelled(name, open, close)
    requires IndexOf(body, CloseTag(name), true).None?
    ensures RemoveNoise(open + body + close + post) == " " + RemoveNoise(post)
  {
    var j :| 0 <= j < |NoiseNames| && NoiseNames[j] == name;
    var block := open + body + close;
    NoiseMatches(j, open, body, close, post, NoiseNames, 0);
    SliceAfter(block, post);
    RemoveNoiseMatch(block + post, |block|);
  }

  /** The same with plain text before the block: the text stays. */
  lemma NoiseRegionRemoved(pre: string, name: string, open: string, body: string, close: string, post: string)
    requires name in NoiseNames && Spelled(name, open, close) && '<' !in pre
    requires IndexOf(body, CloseTag(name), true).None?
    ensures RemoveNoise(pre + open + body + close + post) == pre + " " + RemoveNoise(post)
  {
    var rest := open + body + close + post;
    NoiseBlockRemoved(name, open, body, close, post);
    RemoveNoiseAfterPlain(pre, rest);
    Regroup5(pre, open, body, close, post);
    Regroup3(pre, " ", RemoveNoise(post));
  }

  /** A script element written in capitals goes too: "<SCRIPT>x</Script>"
      becomes one space. */
  lemma UpperScriptRemoved()
    ensures RemoveNoise("<SCRIPT>x</Script>") == " "
  {
    ScriptSpelled();
    IndexOfShort(">x", CloseTag("script"), true);
    NoiseBlockRemoved("script", "<SCRIPT", ">x", "</Script>", []);
    ScriptPieces();
  }

  lemma ScriptSpelled()
    ensures "script" in NoiseNames && Spelled("script", "<SCRIPT", "</Script>")
    ensures |CloseTag("script")| == 9
  {
    assert NoiseNames[0] == "script";
  }

  lemma ScriptPieces()
    ensures "<SCRIPT" + ">x" + "</Script>" + [] == "<SCRIPT>x</Script>"
    ensures " " + RemoveNoise([]) == " "
  {
  }

  lemma BlockTagMatch(s: string, n: nat)
    requires s != [] && BlockTagLength(s) == Some(n)
    ensures BreakBlocks(s) == "\n" + BreakBlocks(s[n..])
  {
  }

  lemma BlockTagFound(s: string, k: nat, g: nat, n: nat)
    requires s != [] && s[0] == '<'
    requires k == (if |s| > 1 && s[1] == '/' then 2 else 1)
    requires k <= |s| && StartsWithBlockName(s[k..])
    requires IndexOf(s[k..], ">", false) == Some(g)
    requires n == k + g + 1
    ensures BlockTagLength(s) == Some(n)
  {
  }

  /** Where the name of a tag starts: after the '<' and the optional '/'. */
  lemma TagSplit(slash: string, t: string, post: string)
    requires slash == "" || slash == "/"
    requires t != [] && t[0] != '/'
    ensures var s := "<" + slash + t + ">" + post;
      s != [] && s[0] == '<' && |slash| + 1 == (if |s| > 1 && s[1] == '/' then 2 else 1) &&
      s[|slash| + 1..] == t + ">" + post
  {
    var s := "<" + slash + t + ">" + post;
    assert s == "<" + slash + (t + ">" + post);
  }

  /** A tag "<" slash t ">" whose text t starts with a block name and holds
      no '>' is matched whole. */
  lemma TagMatches(slash: string, t: string, post: string, n: nat)
    requires slash == "" || slash == "/"
    requires t != [] && t[0] != '/' && '>' !in t
    requires StartsWithBlockName(t + ">" + post)
    requires n == |slash| + |t| + 2
    ensures BlockTagLength("<" + slash + t + ">" + post) == Some(n)
  {
    var s := "<" + slash + t + ">" + post;
    TagSplit(slash, t, post);
    FirstOccurrence(t, '>', post);
    BlockTagFound(s, |slash| + 1, |t|, n);
  }

  lemma BlockNameStarts(i: nat, rest: string)
    requires i < |BlockNames|
    ensures StartsWithBlockName(BlockNames[i] + rest)
  {
    PrefixStarts(BlockNames[i], rest, true);
  }

  /** An opening or closing block tag, whatever its attributes, is matched
      whole. */
  lemma BlockTagMatches(closing: bool, name: string, attrs: string, post: string)
    requires name in BlockNames && '>' !in attrs
    ensures var tag := "<" + (if closing then "/" else "") + name + attrs + ">";
      BlockTagLength(tag + post) == Some(|tag|)
  {
    var slash := if closing then "/" else "";
    var t := name + attrs;
    var tag := "<" + slash + name + attrs + ">";
    var i :| 0 <= i < |BlockNames| && BlockNames[i] == name;
    BlockNameStarts(i, attrs + ">" + post);
    BlockNamePlain(i);
    Regroup4(name, attrs, ">", post);
    Regroup3("<" + slash, name, attrs);
    assert "<" + slash + t + ">" + post == tag + post;
    TagMatches(slash, t, post, |tag|);
  }

  lemma BlockNamePlain(i: nat)
    requires i < |BlockNames|
    ensures BlockNames[i] != [] && BlockNames[i][0] != '/' && '>' !in BlockNames[i]
  {
  }

  /** Such a tag becomes one newline; the text before it stays. */
  lemma BlockTagBreaks(pre: string, closing: bool, name: string, attrs: string, post: string)
    requires name in BlockNames && '<' !in pre && '>' !in attrs
    ensures var tag := "<" + (if closing then "/" else "") + name + attrs + ">";
      BreakBlocks(pre + tag + post) == pre + "\n" + BreakBlocks(post)
  {
    var tag := "<" + (if closing then "/" else "") + name + attrs + ">";
    BlockTagMatches(closing, name, attrs, post);
    BlockTagMatch(tag + post, |tag|);
    SliceAfter(tag, post);
    BreakBlocksAfterPlain(pre, tag + post);
    Regroup3(pre, tag, post);
    Regroup3(pre, "\n", BreakBlocks(post));
  }

  /** The text of a tag after its optional '/': where its name starts. */
  function TagName(t: string): (r: string)
    ensures r == t || (t != [] && t[0] == '/' && r == t[1..])
  {
    if t != [] && t[0] == '/' then t[1..] else t
  }

  /** A character that matches '>', ignoring case, is '>'. */
  lemma FoldsToClose(c: char)
    requires SameChar('>', c, true)
    ensures c == '>'
  {
  }

  /** Only '>' matches '>', with or without case folding. */
  lemma NotFoldsToClose(c: char)
    requires c != '>'
    ensures !SameChar('>', c, true)
  {
  }

  /** A name without '>' that starts x + ">" + post starts x + ">". */
  lemma NameBeforeClose(x: string, post: string, n: string)
    requires '>' !in n && StartsWith(x + ">" + post, n, true)
    ensures StartsWith(x + ">", n, true)
  {
    var s := x + ">" + post;
    forall i | 0 <= i < |n| ensures i < |x| && SameChar((x + ">")[i], n[i], true) {
      NotFoldsToClose(n[i]);
      assert SameChar(s[i], n[i], true);
      assert s[|x|] == '>';
      if i < |x| {
        assert (x + ">")[i] == s[i];
      }
    }
    if n != [] {
      var last := n[|n| - 1];
      assert |n| - 1 < |x|;
    }
  }

  lemma NoBlockName(x: string, post: string)
    requires !StartsWithBlockName(x + ">")
    ensures !StartsWithBlockName(x + ">" + post)
  {
    forall i | 0 <= i < |BlockNames| ensures !StartsWith(x + ">" + post, BlockNames[i], true) {
      if StartsWith(x + ">" + post, BlockNames[i], true) {
        BlockNamePlain(i);
        NameBeforeClose(x, post, BlockNames[i]);
      }
    }
  }

  /** Such a tag opens no block tag. */
  lemma InlineTagNoBlock(t: string, post: string)
    requires '<' !in t && '>' !in t
    requires !StartsWithBlockName(TagName(t) + ">")
    ensures BlockTagLength("<" + t + ">" + post).None?
  {
    var s := "<" + t + ">" + post;
    var x := TagName(t);
    if t != [] && t[0] == '/' {
      assert s[1] == '/' && s[2..] == x + ">" + post;
    } else {
      assert s[1..] == x + ">" + post;
      assert s[1] == (if t == [] then '>' else t[0]);
    }
    NoBlockName(x, post);
  }

  /** A tag whose name is no block name, such as "<b>", "<span ...>" or
      "</a>", is left for the tag strip of step 3; the text after it goes on
      being scanned. */
  lemma InlineTagKept(t: string, post: string)
    requires '<' !in t && '>' !in t
    requires !StartsWithBlockName(TagName(t) + ">")
    ensures BreakBlocks("<" + t + ">" + post) == "<" + t + ">" + BreakBlocks(post)
  {
    InlineTagNoBlock(t, post);
    NoBlockTagCopied(t, post);
  }

  lemma NoBlockTagCopied(t: string, post: string)
    requires '<' !in t && '>' !in t
    requires BlockTagLength("<" + t + ">" + post).None?
    ensures BreakBlocks("<" + t + ">" + post) == "<" + t + ">" + BreakBlocks(post)
  {
    var s := "<" + t + ">" + post;
    TagPieces(t, post);
    BreakBlocksCopy(s);
    BreakBlocksAfterPlain(t + ">", post);
    TagPieces(t, BreakBlocks(post));
  }

  lemma TagPieces(t: string, post: string)
    ensures var s := "<" + t + ">" + post;
      s != [] && s[0] == '<' && s[1..] == (t + ">") + post && ['<'] + ((t + ">") + post) == s
  {
  }

  /** Where no block tag starts, the character is copied. */
  lemma BreakBlocksCopy(s: string)
    requires s != [] && BlockTagLength(s).None?
    ensures BreakBlocks(s) == [s[0]] + BreakBlocks(s[1..])
  {
  }

  /** What "b>" can start with: at most "b" and then '>'. */
  lemma BoldPrefix(n: string)
    requires StartsWith("b>", n, true)
    ensures n == [] || n == "b" || n == "B" || n == "b>" || n == "B>"
  {
    if |n| >= 1 {
      assert SameChar('b', n[0], true);
    }
    if |n| == 2 {
      assert SameChar('>', n[1], true);
      FoldsToClose(n[1]);
      assert n == [n[0], n[1]];
    }
  }

  /** "<b>" is no block tag. */
  lemma BoldNotBlock()
    ensures !StartsWithBlockName(TagName("b") + ">")
  {
    assert TagName("b") + ">" == "b>";
    forall i | 0 <= i < |BlockNames| ensures !StartsWith("b>", BlockNames[i], true) {
      if StartsWith("b>", BlockNames[i], true) {
        BoldPrefix(BlockNames[i]);
      }
    }
  }

  lemma BoldTagKept(post: string)
    ensures BreakBlocks("<b>" + post) == "<b>" + BreakBlocks(post)
  {
    BoldNotBlock();
    InlineTagKept("b", post);
    BoldPieces(post);
  }

  lemma BoldPieces(post: string)
    ensures "<" + "b" + ">" + post == "<b>" + post
  {
  }

  /** A paragraph element around the text t. */
  function Paragraph(t: string): string {
    "<p>" + t + "</p>"
  }

  /** No noise alternative opens where the second character matches none of
      the first letters of the names. */
  lemma {:induction false} NoiseLengthNoneAt(s: string, names: seq<string>)
    requires |s| > 1
    requires forall i :: 0 <= i < |names| ==> names[i] != [] && !SameChar(s[1], names[i][0], true)
    ensures NoiseLength(s, names).None?
    decreases |names|
  {
    if names != [] {
      assert OpenTag(names[0])[1] == names[0][0];
      assert !StartsWith(s, OpenTag(names[0]), true);
      NoiseLengthNoneAt(s, names[1..]);
    }
  }

  lemma NoiseInitials()
    ensures forall i :: 0 <= i < |NoiseNames| ==> NoiseNames[i] != [] && NoiseNames[i][0] in "snhfai"
  {
  }

  /** No noise element opens at "<p" or "</". */
  lemma ParagraphNoNoise(s: string)
    requires |s| > 1 && (s[1] == 'p' || s[1] == '/')
    ensures NoiseLength(s, NoiseNames).None?
  {
    NoiseInitials();
    NoiseLengthNoneAt(s, NoiseNames);
  }

  /** Where no noise element starts, the character is copied. */
  lemma RemoveNoiseCopy(s: string)
    requires s != [] && NoiseLength(s, NoiseNames).None?
    ensures RemoveNoise(s) == [s[0]] + RemoveNoise(s[1..])
  {
  }

  /** A tag that opens "<p" or "</", as "<p>" and "</p>" do, opens no noise
      element and passes step 1. */
  lemma ParagraphTagNotNoise(tag: string, post: string)
    requires |tag| > 1 && tag[0] == '<' && (tag[1] == 'p' || tag[1] == '/') && '<' !in tag[1..]
    ensures RemoveNoise(tag + post) == tag + RemoveNoise(post)
  {
    var s := tag + post;
    HeadTail(tag, post);
    assert s[1] == tag[1];
    ParagraphNoNoise(s);
    RemoveNoiseCopy(s);
    RemoveNoiseAfterPlain(tag[1..], post);
    HeadTail(tag, RemoveNoise(post));
  }

  /** A paragraph of text without '<' comes through step 1 unchanged. */
  lemma ParagraphNoise(t: string, post: string)
    requires '<' !in t
    ensures RemoveNoise(Paragraph(t) + post) == Paragraph(t) + RemoveNoise(post)
  {
    Regroup4("<p>", t, "</p>", post);
    ParagraphTagNotNoise("<p>", t + "</p>" + post);
    Regroup3(t, "</p>", post);
    RemoveNoiseAfterPlain(t, "</p>" + post);
    ParagraphTagNotNoise("</p>", post);
    RegroupRight("<p>", t, "</p>", RemoveNoise(post));
  }

  /** An opening "<p>" after text without '<' becomes a line break. */
  lemma OpenParagraphBreaks(pre: string, post: string)
    requires '<' !in pre
    ensures BreakBlocks(pre + "<p>" + post) == pre + "\n" + BreakBlocks(post)
  {
    assert "<" + (if false then "/" else "") + "p" + "" + ">" == "<p>";
    BlockTagBreaks(pre, false, "p", [], post);
  }

  /** So does a closing "</p>". */
  lemma CloseParagraphBreaks(pre: string, post: string)
    requires '<' !in pre
    ensures BreakBlocks(pre + "</p>" + post) == pre + "\n" + BreakBlocks(post)
  {
    assert "<" + (if true then "/" else "") + "p" + "" + ">" == "</p>";
    BlockTagBreaks(pre, true, "p", [], post);
  }

  /** Step 2 turns both tags of a paragraph into line breaks. */
  lemma ParagraphBreaks(t: string, post: string)
    requires '<' !in t
    ensures BreakBlocks(Paragraph(t) + post) == "\n" + (t + ("\n" + BreakBlocks(post)))
  {
    var rest := t + "</p>" + post;
    assert Paragraph(t) + post == [] + "<p>" + rest;
    OpenParagraphBreaks([], rest);
    CloseParagraphBreaks(t, post);
    assert [] + "\n" + BreakBlocks(rest) == "\n" + BreakBlocks(rest);
    Regroup3(t, "\n", BreakBlocks(post));
  }

  /** The text two paragraphs leave after steps 1 to 4. */
  function TwoParagraphsFlatText(t1: string, t2: string): string {
    "\n" + (t1 + ("\n" + ("\n" + (t2 + ("\n" + [])))))
  }

  /** Steps 1 and 2 on two paragraphs of plain text: each text between
      line breaks of its own. */
  lemma TwoParagraphsBroken(t1: string, t2: string)
    requires '<' !in t1 && '<' !in t2
    ensures BreakBlocks(RemoveNoise(Paragraph(t1) + Paragraph(t2))) == TwoParagraphsFlatText(t1, t2)
  {
    ParagraphNoise(t1, Paragraph(t2));
    ParagraphNoise(t2, []);
    assert Paragraph(t2) + [] == Paragraph(t2);
    assert RemoveNoise(Paragraph(t1) + Paragraph(t2)) == Paragraph(t1) + Paragraph(t2);
    ParagraphBreaks(t1, Paragraph(t2));
    ParagraphBreaks(t2, []);
  }

  /** Steps 3 and 4 leave that text as it is. */
  lemma TwoParagraphsFlat(t1: string, t2: string)
    requires '<' !in t1 && '&' !in t1 && '<' !in t2 && '&' !in t2
    ensures Flatten(Paragraph(t1) + Paragraph(t2)) == TwoParagraphsFlatText(t1, t2)
  {
    var f := TwoParagraphsFlatText(t1, t2);
    TwoParagraphsBroken(t1, t2);
    assert '<' !in f && '&' !in f;
    StripTagsAfterPlain(f, [], " ");
    assert f + [] == f;
  }

  /** Splitting at a separator that follows a piece without it. */
  lemma SplitPiece(a: string, b: string)
    requires '\n' !in a
    ensures Split(a + ("\n" + b), '\n') == [a] + Split(b, '\n')
  {
    SeparatorRegroup(a, b);
    SplitAfterPiece(a, b, '\n');
  }

  lemma SeparatorRegroup(a: string, b: string)
    ensures a + ['\n'] + b == a + ("\n" + b)
  {
  }

  /** The lines of that text: blank, t1, blank, t2, blank. */
  lemma TwoParagraphsSplitLines(t1: string, t2: string)
    requires '\n' !in t1 && '\n' !in t2
    ensures Split(TwoParagraphsFlatText(t1, t2), '\n') == [""] + ([t1] + ([""] + ([t2] + [""])))
  {
    SplitPiece([], t2 + ("\n" + []));
    SplitPiece(t2, []);
    SplitPiece([], "\n" + (t2 + ("\n" + [])));
    SplitPiece(t1, "\n" + (t2 + ("\n" + [])));
    SplitPiece([], t1 + ("\n" + ("\n" + (t2 + ("\n" + [])))));
    assert [] + ("\n" + (t2 + ("\n" + []))) == "\n" + (t2 + ("\n" + []));
    assert [] + (t2 + ("\n" + [])) == t2 + ("\n" + []);
    assert [] + ("\n" + (t1 + ("\n" + ("\n" + (t2 + ("\n" + [])))))) == TwoParagraphsFlatText(t1, t2);
  }

  /** Blank lines between the paragraphs are dropped. */
  lemma TwoParagraphsLines(t1: string, t2: string)
    requires '\n' !in t1 && '\n' !in t2
    ensures CleanLines([""] + ([t1] + ([""] + ([t2] + [""])))) == CleanLines([t1] + [t2])
  {
    assert CleanLine([]) == [];
    CleanLinesSingle([]);
    CleanLinesAppend([t2], [""]);
    CleanLinesAppend([""], [t2] + [""]);
    CleanLinesAppend([t1], [""] + ([t2] + [""]));
    CleanLinesAppend([""], [t1] + ([""] + ([t2] + [""])));
    CleanLinesAppend([t1], [t2]);
  }

  /** ExtractText on two paragraphs of plain text: the cleaned texts that
      are long enough, one per line. */
  lemma TwoParagraphs(t1: string, t2: string)
    requires '<' !in t1 && '&' !in t1 && '\n' !in t1
    requires '<' !in t2 && '&' !in t2 && '\n' !in t2
    ensures ExtractText(Paragraph(t1) + Paragraph(t2)) == Join(CleanLines([t1, t2]), '\n')
  {
    TwoParagraphsFlat(t1, t2);
    TwoParagraphsSplitLines(t1, t2);
    TwoParagraphsLines(t1, t2);
    assert [t1] + [t2] == [t1, t2];
  }

  /** A clean line is its own cleaned form. */
  lemma CleanLineKeeps(l: string)
    requires LineShape(l)
    ensures CleanLine(l) == l
  {
    CollapseSpacesKeeps(l);
    TrimKeeps(l);
  }

  /** Text in different blocks ends up on different lines. */
  lemma TwoParagraphsSplit(t1: string, t2: string)
    requires '<' !in t1 && '&' !in t1 && '\n' !in t1 && LineShape(t1)
    requires '<' !in t2 && '&' !in t2 && '\n' !in t2 && LineShape(t2)
    ensures ExtractText(Paragraph(t1) + Paragraph(t2)) == t1 + "\n" + t2
  {
    TwoParagraphs(t1, t2);
    CleanLinesBothKept(t1, t2);
    JoinTwo(t1, t2);
  }

  lemma CleanLinesBothKept(t1: string, t2: string)
    requires '\n' !in t1 && LineShape(t1) && '\n' !in t2 && LineShape(t2)
    ensures CleanLines([t1, t2]) == [t1, t2]
  {
    CleanLineKept(t1);
    CleanLineKept(t2);
    CleanLinesAppend([t1], [t2]);
    assert [t1] + [t2] == [t1, t2];
  }

  lemma CleanLineKept(l: string)
    requires '\n' !in l && LineShape(l)
    ensures CleanLines([l]) == [l]
  {
    CleanLineKeeps(l);
    CleanLinesSingle(l);
  }

  lemma JoinTwo(t1: string, t2: string)
    ensures Join([t1, t2], '\n') == t1 + "\n" + t2
  {
    assert [t1, t2][1..] == [t2];
  }

  /** Lines of one character are dropped: "<p>A</p><p>B</p>" gives no text. */
  lemma ShortParagraphsDropped()
    ensures ExtractText("<p>A</p><p>B</p>") == ""
  {
    ShortParagraphsText();
    TwoParagraphs("A", "B");
    ShortLinesDropped();
  }

  lemma ShortParagraphsText()
    ensures Paragraph("A") + Paragraph("B") == "<p>A</p><p>B</p>"
  {
  }

  lemma ShortLinesDropped()
    ensures CleanLines(["A", "B"]) == []
  {
    OneCharDropped('A');
    OneCharDropped('B');
    CleanLinesAppend(["A"], ["B"]);
    assert ["A"] + ["B"] == ["A", "B"];
  }

  lemma OneCharDropped(c: char)
    requires c != '\n'
    ensures CleanLines([[c]]) == []
  {
    OneCharLine(c);
    CleanLinesSingle([c]);
  }

  lemma OneCharLine(c: char)
    ensures |CleanLine([c])| <= 1
  {
    var s := CollapseSpaces([c]);
    assert s == [c];
  }
}
