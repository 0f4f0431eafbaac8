/** Tag removal with the pattern "<[^>]+>" and StripHtml, the inline cleaner
    the result parser runs on titles and snippets
    (Tools/WebSearchTools.cs:173-177 and :191-192). */
module Markup {
  import opened Wrappers
  import opened Text
  import opened Entities

  /** The pattern "<[^>]+>" tried at the start of s: a '<', at least one
      character other than '>', then the first '>'. Gives the tag's length. */
  function TagLength(s: string): (r: Option<nat>)
    ensures r.Some? ==> 2 < r.value <= |s|
  {
    if s == [] || s[0] != '<' then None
    else
      match IndexOf(s[1..], ">", false)
      case Some(k) => if k >= 1 then Some(k + 2) else None
      case None => None
  }

  /** When the pattern does not match at a '<': the next character is '>' or
      no '>' follows at all. */
  lemma TagLengthNone(s: string)
    requires s != [] && s[0] == '<'
    ensures TagLength(s).None? <==> (|s| > 1 && s[1] == '>') || '>' !in s[1..]
  {
    var t := s[1..];
    match IndexOf(t, ">", false)
    case Some(k) =>
      assert t[k..][0] == '>';
      if k == 0 { assert s[1] == t[0]; }
    case None =>
      if '>' in t {
        var j :| 0 <= j < |t| && t[j] == '>';
        assert t[j..][0] == '>' && OccursAt(t, j, ">", false);
      }
  }

  /** Regex.Replace(s, "<[^>]+>", rep): every tag, left to right, becomes rep. */
  function StripTags(s: string, rep: string): (r: string)
    ensures forall c :: c in r ==> c in s || c in rep
    decreases |s|
  {
    if s == [] then []
    else
      match TagLength(s)
      case Some(n) => rep + StripTags(s[n..], rep)
      case None => [s[0]] + StripTags(s[1..], rep)
  }

  lemma StripTagsHead(s: string, rep: string)
    requires s != [] && s[0] != '<'
    ensures StripTags(s, rep) == [s[0]] + StripTags(s[1..], rep)
  {
  }

  /** Text before the first '<' comes through unchanged. */
  lemma {:induction false} StripTagsAfterPlain(a: string, b: string, rep: string)
    requires '<' !in a
    ensures StripTags(a + b, rep) == a + StripTags(b, rep)
    decreases |a|
  {
    if a == [] {
      assert a + b == b;
    } else {
      HeadTail(a, b);
      StripTagsHead(a + b, rep);
      StripTagsAfterPlain(a[1..], b, rep);
      HeadTail(a, StripTags(b, rep));
    }
  }

  /** A '<', text without '>', then '>' is a tag of that length, whatever
      follows. */
  lemma TagAt(t: string, b: string)
    requires t != [] && '>' !in t
    ensures TagLength("<" + t + ">" + b) == Some(|t| + 2)
  {
    var s := "<" + t + ">" + b;
    assert s[1..] == t + ['>'] + b;
    FirstOccurrence(t, '>', b);
  }

  /** The main promise of the replacement: a tag after plain text becomes
      rep, and the text on both sides of it stays. */
  lemma StripTagsTag(a: string, t: string, b: string, rep: string)
    requires '<' !in a && t != [] && '>' !in t
    ensures StripTags(a + ("<" + t + ">" + b), rep) == a + rep + StripTags(b, rep)
  {
    var tag := "<" + t + ">" + b;
    StripTagsAfterPlain(a, tag, rep);
    TagAt(t, b);
    assert tag[|t| + 2..] == b;
    Regroup3(a, rep, StripTags(b, rep));
  }

  /** No match of "<[^>]+>" anywhere: each '<' is directly followed by '>' or
      has no '>' after it. */
  predicate NoTag(s: string) {
    forall i :: 0 <= i < |s| && s[i] == '<' ==> (i + 1 < |s| && s[i + 1] == '>') || '>' !in s[i + 1..]
  }

  lemma NoTagAfter(c: char, t: string)
    requires NoTag([c] + t)
    ensures NoTag(t)
  {
    var s := [c] + t;
    forall i | 0 <= i < |t| && t[i] == '<' ensures (i + 1 < |t| && t[i + 1] == '>') || '>' !in t[i + 1..] {
      assert s[i + 1] == t[i] && s[i + 2..] == t[i + 1..];
    }
  }

  lemma NoTagPrepend(a: string, t: string)
    requires NoTag(t) && '<' !in a
    ensures NoTag(a + t)
  {
    var s := a + t;
    forall i | 0 <= i < |s| && s[i] == '<' ensures (i + 1 < |s| && s[i + 1] == '>') || '>' !in s[i + 1..] {
      assert i >= |a|;
      assert s[i] == t[i - |a|] && s[i + 1..] == t[i - |a| + 1..];
    }
  }

  /** The text left after tag removal holds no tag, as long as the
      replacement holds no angle bracket. */
  lemma {:induction false} StripTagsLeavesNoTag(s: string, rep: string)
    requires '<' !in rep && '>' !in rep
    ensures NoTag(StripTags(s, rep))
    decreases |s|
  {
    if s != [] {
      match TagLength(s)
      case Some(n) =>
        StripTagsLeavesNoTag(s[n..], rep);
        NoTagPrepend(rep, StripTags(s[n..], rep));
      case None =>
        var t := StripTags(s[1..], rep);
        StripTagsLeavesNoTag(s[1..], rep);
        if s[0] == '<' {
          TagLengthNone(s);
          var r := [s[0]] + t;
          if |s| > 1 && s[1] == '>' {
            assert TagLength(s[1..]).None?;
            assert t == ['>'] + StripTags(s[2..], rep) by { assert s[1..][1..] == s[2..]; }
            assert r[1] == '>';
          } else {
            assert '>' !in t;
            assert r[1..] == t;
          }
          forall i | 0 <= i < |r| && r[i] == '<' ensures (i + 1 < |r| && r[i + 1] == '>') || '>' !in r[i + 1..] {
            if i > 0 { assert r[i] == t[i - 1] && r[i + 1..] == t[i..]; }
          }
        } else {
          NoTagPrepend([s[0]], t);
        }
    }
  }

  /** A text without tags is left as it is. */
  lemma {:induction false} StripTagsKeeps(s: string, rep: string)
    requires NoTag(s)
    ensures StripTags(s, rep) == s
    decreases |s|
  {
    if s != [] {
      if s[0] == '<' {
        TagLengthNone(s);
      }
      assert s == [s[0]] + s[1..];
      NoTagAfter(s[0], s[1..]);
      StripTagsKeeps(s[1..], rep);
    }
  }

  /** Removing tags twice removes nothing more. */
  lemma StripTagsIdempotent(s: string, rep: string)
    requires '<' !in rep && '>' !in rep
    ensures StripTags(StripTags(s, rep), rep) == StripTags(s, rep)
  {
    StripTagsLeavesNoTag(s, rep);
    StripTagsKeeps(StripTags(s, rep), rep);
  }

  /** StripHtml: delete the tags, decode the references, trim. */
  function StripHtml(input: string): (r: string)
    ensures r == [] || (!IsWhiteSpace(r[0]) && !IsWhiteSpace(r[|r| - 1]))
  {
    Trim(HtmlDecode(StripTags(input, "")))
  }

  /** StripHtml deletes a tag after plain text and goes on after it. */
  lemma StripHtmlTag(a: string, t: string, b: string)
    requires '<' !in a && t != [] && '>' !in t
    ensures StripHtml(a + ("<" + t + ">" + b)) == Trim(HtmlDecode(a + StripTags(b, "")))
  {
    StripTagsTag(a, t, b, "");
    assert a + "" == a;
  }

  /** StripHtml("<b>x</b>") is "x". */
  lemma StripHtmlBold()
    ensures StripHtml("<b>x</b>") == "x"
  {
    BoldStripped();
    PlainX();
  }

  lemma BoldStripped()
    ensures StripTags("<b>x</b>", "") == "x"
  {
    BoldOpen();
    StripTagsTag("", "b", "x</b>", "");
    BoldClose();
    StripTagsTag("x", "/b", "", "");
  }

  lemma BoldOpen()
    ensures "<b>x</b>" == "" + ("<" + "b" + ">" + "x</b>") && "" + "" + "x" == "x"
  {
  }

  lemma BoldClose()
    ensures "x</b>" == "x" + ("<" + "/b" + ">" + "") && "x" + "" + StripTags("", "") == "x"
  {
  }

  lemma PlainX()
    ensures HtmlDecode("x") == "x" && Trim("x") == "x"
  {
    HtmlDecodeAfterPlain("x", "");
    assert "x" + "" == "x";
  }

  /** On text with neither a '<' nor an '&', StripHtml only trims. */
  lemma StripHtmlPlain(s: string)
    requires '<' !in s && '&' !in s
    ensures StripHtml(s) == Trim(s)
  {
    StripTagsKeeps(s, "");
  }
}
