/** WebUtility.HtmlDecode over a subset of its table: the named references
    &amp; &lt; &gt; &quot; &apos; and the numeric references &#NNN; and
    &#xHHH;. A reference the decoder does not know stays as written. */
module Entities {
  import opened Wrappers
  import opened Text

  /** The named references of the model. */
  function NamedReference(name: string): Option<char>
  {
    if name == "amp" then Some('&')
    else if name == "lt" then Some('<')
    else if name == "gt" then Some('>')
    else if name == "quot" then Some('"')
    else if name == "apos" then Some('\'')
    else None
  }

  /** A code point a numeric reference may produce: U+0000..U+10FFFF without
      the surrogate range. */
  predicate IsScalar(v: nat) {
    v < 0xD800 || 0xDFFF < v <= 0x10FFFF
  }

  /** The value of the body of a numeric reference, "#" then decimal digits or
      "#x"/"#X" then hexadecimal digits. The sign and white space that
      NumberStyles.Integer also admits in the decimal form are not read. */
  function NumericValue(name: string): Option<nat>
    requires |name| > 1 && name[0] == '#'
  {
    if name[1] == 'x' || name[1] == 'X' then
      var digits := name[2..];
      if digits != [] && IsHexDigits(digits) then Some(HexValue(digits)) else None
    else
      var digits := name[1..];
      if IsDigits(digits) then Some(DecimalValue(digits)) else None
  }

  /** The reference s begins with (s[0] is '&'): the body runs to the first
      ';', and is no reference when an '&' comes first. Gives the character
      and the length of the reference. */
  function ReferenceAt(s: string): (r: Option<(char, nat)>)
    requires s != [] && s[0] == '&'
    ensures r.Some? ==> 2 < r.value.1 <= |s|
  {
    match IndexOf(s[1..], ";", false)
    case None => None
    case Some(k) =>
      assert k + 1 <= |s[1..]|;
      var name := s[1..1 + k];
      if '&' in name then None
      else if |name| > 1 && name[0] == '#' then
        match NumericValue(name)
        case Some(v) => if IsScalar(v) then Some((v as char, k + 2)) else None
        case None => None
      else
        match NamedReference(name)
        case Some(c) => Some((c, k + 2))
        case None => None
  }

  /** WebUtility.HtmlDecode: each known reference becomes its character, left
      to right; decoded text is not decoded again. */
  function HtmlDecode(s: string): (r: string)
    ensures '&' !in s ==> r == s
    ensures |r| <= |s|
    decreases |s|
  {
    if s == [] then []
    else if s[0] == '&' then
      match ReferenceAt(s)
      case Some((c, n)) => [c] + HtmlDecode(s[n..])
      case None => ['&'] + HtmlDecode(s[1..])
    else
      assert s == [s[0]] + s[1..];
      [s[0]] + HtmlDecode(s[1..])
  }

  lemma HtmlDecodeHead(s: string)
    requires s != [] && s[0] != '&'
    ensures HtmlDecode(s) == [s[0]] + HtmlDecode(s[1..])
  {
  }

  /** Text before the first '&' comes through unchanged. */
  lemma {:induction false} HtmlDecodeAfterPlain(a: string, b: string)
    requires '&' !in a
    ensures HtmlDecode(a + b) == a + HtmlDecode(b)
    decreases |a|
  {
    if a == [] {
      assert a + b == b;
    } else {
      HeadTail(a, b);
      HtmlDecodeHead(a + b);
      HtmlDecodeAfterPlain(a[1..], b);
      HeadTail(a, HtmlDecode(b));
    }
  }

  /** An '&' that starts no reference the decoder knows stays as written. */
  lemma AmpersandCopied(s: string)
    requires s != [] && s[0] == '&' && ReferenceAt(s).None?
    ensures HtmlDecode(s) == "&" + HtmlDecode(s[1..])
  {
  }

  /** A name the decoder does not know makes no reference. */
  lemma UnknownReference(name: string, rest: string)
    requires ';' !in name && '&' !in name && (name == [] || name[0] != '#')
    requires NamedReference(name).None?
    ensures var s := "&" + name + ";" + rest;
      s[0] == '&' && ReferenceAt(s).None? && s[1..] == (name + ";") + rest
  {
    ReferenceOf(name, rest);
    var s := "&" + name + ";" + rest;
    assert s[1..] == (name + ";") + rest;
  }

  /** A name the decoder does not know leaves its reference as written, and
      decoding goes on after it. */
  lemma UnknownReferenceKept(name: string, rest: string)
    requires ';' !in name && '&' !in name && (name == [] || name[0] != '#')
    requires NamedReference(name).None?
    ensures HtmlDecode("&" + name + ";" + rest) == "&" + name + ";" + HtmlDecode(rest)
  {
    var s := "&" + name + ";" + rest;
    var body := name + ";";
    UnknownReference(name, rest);
    AmpersandCopied(s);
    assert '&' !in body;
    HtmlDecodeAfterPlain(body, rest);
    ReferenceRegroup(name, HtmlDecode(rest));
  }

  lemma ReferenceRegroup(name: string, x: string)
    ensures "&" + ((name + ";") + x) == "&" + name + ";" + x
  {
  }

  /** An '&' with no ';' after it is no reference: it stays as written. */
  lemma BareAmpersandKept(rest: string)
    requires ';' !in rest && '&' !in rest
    ensures HtmlDecode("&" + rest) == "&" + rest
  {
    var s := "&" + rest;
    assert s[1..] == rest;
    assert IndexOf(s[1..], ";", false).None? by {
      forall j | 0 <= j <= |rest| ensures !OccursAt(rest, j, ";", false) {
        if j < |rest| {
          assert rest[j..][0] == rest[j];
        }
      }
    }
    AmpersandCopied(s);
  }

  /** "AT&T" is decoded to itself. */
  lemma AmpersandInWord()
    ensures HtmlDecode("AT&T") == "AT&T"
  {
    BareAmpersandKept("T");
    HtmlDecodeAfterPlain("AT", "&T");
    assert "AT" + "&T" == "AT&T";
    assert "&" + "T" == "&T";
  }

  /** How WebUtility.HtmlEncode writes a character that HTML reserves. */
  function EscapeChar(c: char): string
  {
    if c == '&' then "&amp;"
    else if c == '<' then "&lt;"
    else if c == '>' then "&gt;"
    else if c == '"' then "&quot;"
    else if c == '\'' then "&#39;"
    else [c]
  }

  /** Reference-escaping of a whole string: the inverse the decoder has to
      undo. */
  function Escape(s: string): string
  {
    if s == [] then [] else EscapeChar(s[0]) + Escape(s[1..])
  }

  /** A reference made of a name and ';' is found whatever follows it. */
  lemma ReferenceOf(name: string, rest: string)
    requires ';' !in name && '&' !in name
    ensures var s := "&" + name + ";" + rest;
      s[0] == '&' && s[|name| + 2..] == rest &&
      ReferenceAt(s) ==
        if |name| > 1 && name[0] == '#' then
          match NumericValue(name)
          case Some(v) => if IsScalar(v) then Some((v as char, |name| + 2)) else None
          case None => None
        else
          match NamedReference(name)
          case Some(c) => Some((c, |name| + 2))
          case None => None
  {
    var s := "&" + name + ";" + rest;
    assert s[1..] == name + ";" + rest;
    FirstOccurrence(name, ';', rest);
    assert s[1..1 + |name|] == name;
    assert s[|name| + 2..] == rest;
  }

  /** A known named reference decodes to its character, then decoding goes on
      after it. */
  lemma DecodeNamed(name: string, c: char, rest: string)
    requires ';' !in name && '&' !in name && name != [] && name[0] != '#'
    requires NamedReference(name) == Some(c)
    ensures HtmlDecode("&" + name + ";" + rest) == [c] + HtmlDecode(rest)
  {
    ReferenceOf(name, rest);
  }

  lemma DecodeApostrophe(rest: string)
    ensures HtmlDecode("&#39;" + rest) == ['\''] + HtmlDecode(rest)
  {
    var name := "#39";
    assert name[1..] == "39" && "39"[..1] == "3";
    assert DecimalValue("3") == 3;
    assert DecimalValue("39") == 39;
    assert NumericValue(name) == Some(39);
    ReferenceOf(name, rest);
    assert "&#39;" + rest == "&" + name + ";" + rest;
  }

  /** The escaped form of a reserved character decodes back to it. */
  lemma DecodeEscapedNamed(c: char, name: string, rest: string)
    requires ';' !in name && '&' !in name && name != [] && name[0] != '#'
    requires NamedReference(name) == Some(c) && EscapeChar(c) == "&" + name + ";"
    ensures HtmlDecode(EscapeChar(c) + rest) == [c] + HtmlDecode(rest)
  {
    DecodeNamed(name, c, rest);
    assert EscapeChar(c) + rest == "&" + name + ";" + rest;
  }

  lemma DecodeEscapedChar(c: char, rest: string)
    ensures HtmlDecode(EscapeChar(c) + rest) == [c] + HtmlDecode(rest)
  {
    if c == '&' {
      DecodeEscapedNamed(c, "amp", rest);
    } else if c == '<' {
      DecodeEscapedNamed(c, "lt", rest);
    } else if c == '>' {
      DecodeEscapedNamed(c, "gt", rest);
    } else if c == '"' {
      DecodeEscapedNamed(c, "quot", rest);
    } else if c == '\'' {
      DecodeApostrophe(rest);
    } else {
      DecodePlainChar(c, rest);
    }
  }

  lemma DecodePlainChar(c: char, rest: string)
    requires c != '&'
    ensures HtmlDecode([c] + rest) == [c] + HtmlDecode(rest)
  {
    var s := [c] + rest;
    assert s[0] == c && s[1..] == rest;
  }

  /** Decoding undoes escaping. */
  lemma {:induction false} DecodeEscape(s: string)
    ensures HtmlDecode(Escape(s)) == s
    decreases |s|
  {
    if s != [] {
      DecodeEscapedChar(s[0], Escape(s[1..]));
      DecodeEscape(s[1..]);
      assert s == [s[0]] + s[1..];
    }
  }
}
