/** The URL handling inside ParseResults (Tools/WebSearchTools.cs:141-165):
    unwrapping DuckDuckGo's "uddg=" redirect links, percent-decoding, the
    host of an absolute URL and the domain allow-list. */
module Urls {
  import opened Wrappers
  import opened Text
  import opened Entities

  /** The unreserved characters of section 2.3 of RFC 3986. */
  predicate IsUnreserved(c: char) {
    'A' <= c <= 'Z' || 'a' <= c <= 'z' || '0' <= c <= '9' || c == '-' || c == '.' || c == '_' || c == '~'
  }

  predicate IsAscii(s: string) {
    forall i :: 0 <= i < |s| ==> s[i] as int < 0x80
  }

  /** The value of "%HH" at the start of s, when s starts with one that
      encodes an ASCII character. */
  function EscapeAt(s: string): (r: Option<char>)
    ensures r.Some? ==> |s| >= 3 && s[0] == '%' && r.value as int < 0x80
  {
    if |s| >= 3 && s[0] == '%' && IsHexDigit(s[1]) && IsHexDigit(s[2]) then
      var v := HexDigitValue(s[1]) * 16 + HexDigitValue(s[2]);
      if v < 0x80 then Some(v as char) else None
    else None
  }

  /** Uri.UnescapeDataString on ASCII escapes: each "%HH" below 0x80 becomes
      its character, left to right; anything else stays as written. */
  function PercentDecode(s: string): (r: string)
    ensures |r| <= |s|
    ensures '%' !in s ==> r == s
    decreases |s|
  {
    if s == [] then []
    else
      match EscapeAt(s)
      case Some(c) => [c] + PercentDecode(s[3..])
      case None => assert s == [s[0]] + s[1..]; [s[0]] + PercentDecode(s[1..])
  }

  /** A '%' that two hexadecimal digits do not follow stays as written. */
  lemma PercentKept(rest: string)
    requires !(|rest| >= 2 && IsHexDigit(rest[0]) && IsHexDigit(rest[1]))
    ensures PercentDecode("%" + rest) == "%" + PercentDecode(rest)
  {
    var s := "%" + rest;
    assert s[1..] == rest;
    assert |s| >= 3 ==> s[1] == rest[0] && s[2] == rest[1];
  }

  /** Percent-encoding of one ASCII character (section 2.1 of RFC 3986, with
      upper-case digits): unreserved characters stay, the others become
      "%HH". */
  function EncodeChar(c: char): (r: string)
    requires c as int < 0x80
    ensures |r| == 1 || |r| == 3
  {
    if IsUnreserved(c) then [c]
    else ['%', HexDigitChar(c as int / 16), HexDigitChar(c as int % 16)]
  }

  /** Percent-encoding of an ASCII string, character by character. */
  function PercentEncode(s: string): (r: string)
    requires IsAscii(s)
    ensures |s| <= |r| <= 3 * |s|
  {
    if s == [] then [] else EncodeChar(s[0]) + PercentEncode(s[1..])
  }

  lemma EncodedHasNoAmpersand(s: string)
    requires IsAscii(s)
    ensures '&' !in PercentEncode(s)
  {
    if s != [] {
      EncodedHasNoAmpersand(s[1..]);
    }
  }

  lemma DecodeEncodedChar(c: char, rest: string)
    requires c as int < 0x80
    ensures PercentDecode(EncodeChar(c) + rest) == [c] + PercentDecode(rest)
  {
    var s := EncodeChar(c) + rest;
    if IsUnreserved(c) {
      assert s[0] == c && s[1..] == rest;
    } else {
      var h := c as int / 16;
      var l := c as int % 16;
      assert s[1] == HexDigitChar(h) && s[2] == HexDigitChar(l);
      assert EscapeAt(s) == Some(c);
      assert s[3..] == rest;
    }
  }

  /** Decoding undoes encoding. */
  lemma {:induction false} PercentRoundTrip(s: string)
    requires IsAscii(s)
    ensures PercentDecode(PercentEncode(s)) == s
    decreases |s|
  {
    if s != [] {
      DecodeEncodedChar(s[0], PercentEncode(s[1..]));
      PercentRoundTrip(s[1..]);
      assert s == [s[0]] + s[1..];
    }
  }

  /** The prefix of s before its first character from stops. */
  function PrefixBefore(s: string, stops: set<char>): (r: string)
    ensures |r| <= |s| && r == s[..|r|]
    ensures forall i :: 0 <= i < |r| ==> r[i] !in stops
    ensures |r| < |s| ==> s[|r|] in stops
    decreases |s|
  {
    if s == [] || s[0] in stops then [] else [s[0]] + PrefixBefore(s[1..], stops)
  }

  /** Where "[?&]uddg=([^&]+)" can match: '?' or '&', then "uddg=", then a
      character other than '&'. */
  predicate UddgStarts(s: string) {
    |s| > 6 && (s[0] == '?' || s[0] == '&') && s[1..6] == "uddg=" && s[6] != '&'
  }

  /** The pattern "[?&]uddg=([^&]+)" tried at the start of s: its group, the
      longest run of characters other than '&' after "uddg=". */
  function UddgAt(s: string): (r: Option<string>)
    ensures r.Some? <==> UddgStarts(s)
    ensures r.Some? ==> r.value != [] && '&' !in r.value
    ensures r.Some? ==>
      6 + |r.value| <= |s| && s[6..6 + |r.value|] == r.value &&
      (6 + |r.value| == |s| || s[6 + |r.value|] == '&')
  {
    if |s| >= 6 && (s[0] == '?' || s[0] == '&') && s[1..6] == "uddg=" then
      var v := PrefixBefore(s[6..], {'&'});
      if v == [] then None else Some(v)
    else None
  }

  /** The leftmost match of "[?&]uddg=([^&]+)" in s. */
  function UddgValue(s: string): (r: Option<string>)
    ensures r.Some? ==> r.value != [] && '&' !in r.value
    decreases |s|
  {
    if s == [] then None
    else
      match UddgAt(s)
      case Some(v) => Some(v)
      case None => UddgValue(s[1..])
  }

  /** There is no match exactly when the pattern can start nowhere. */
  lemma {:induction false} UddgValueNoneIff(s: string)
    ensures UddgValue(s).None? <==> forall i :: 0 <= i < |s| ==> !UddgStarts(s[i..])
    decreases |s|
  {
    if s != [] {
      UddgValueNoneIff(s[1..]);
      forall i | 1 <= i < |s| ensures s[i..] == s[1..][i - 1..] {
      }
      if UddgStarts(s[0..]) {
        assert s[0..] == s;
      } else {
        assert s[0..] == s;
        assert forall i :: 0 <= i < |s[1..]| ==> s[1..][i..] == s[i + 1..];
      }
    }
  }

  /** A match is the one at the leftmost place the pattern can start. */
  lemma {:induction false} UddgValueLeftmost(s: string, i: nat)
    requires i < |s| && UddgStarts(s[i..])
    requires forall j :: 0 <= j < i ==> !UddgStarts(s[j..])
    ensures UddgValue(s) == UddgAt(s[i..])
    decreases i
  {
    if i == 0 {
      assert s[0..] == s;
    } else {
      assert s[0..] == s;
      assert s[1..][i - 1..] == s[i..];
      forall j | 0 <= j < i - 1 ensures !UddgStarts(s[1..][j..]) {
        assert s[1..][j..] == s[j + 1..];
      }
      UddgValueLeftmost(s[1..], i - 1);
    }
  }

  /** The link a result points to (:141-144): the entity-decoded href, or the
      percent-decoded uddg parameter when it is a redirect. */
  function ResolveHref(href: string): string {
    var raw := HtmlDecode(href);
    match UddgValue(raw)
    case Some(v) => PercentDecode(v)
    case None => raw
  }

  /** Text without '?' and '&' holds no redirect parameter and passes. */
  lemma {:induction false} UddgValueAfterPlain(a: string, b: string)
    requires '?' !in a && '&' !in a
    ensures UddgValue(a + b) == UddgValue(b)
    decreases |a|
  {
    if a == [] {
      assert a + b == b;
    } else {
      HeadTail(a, b);
      UddgValueAfterPlain(a[1..], b);
    }
  }

  lemma UddgValueNone(s: string)
    requires '?' !in s && '&' !in s
    ensures UddgValue(s).None?
  {
    UddgValueAfterPlain(s, []);
    assert s + [] == s;
  }

  /** An href whose decoded text holds no place where the redirect pattern
      can start is the decoded href itself. */
  lemma ResolveWithoutRedirect(href: string)
    requires var raw := HtmlDecode(href); forall i :: 0 <= i < |raw| ==> !UddgStarts(raw[i..])
    ensures ResolveHref(href) == HtmlDecode(href)
  {
    UddgValueNoneIff(HtmlDecode(href));
  }

  /** An href with no 'u' is no redirect. */
  lemma NoRedirectWithoutU(s: string)
    requires 'u' !in s
    ensures UddgValue(s).None?
  {
    forall i | 0 <= i < |s| ensures !UddgStarts(s[i..]) {
      if |s[i..]| > 6 {
        assert s[i..][1..6][0] == s[i + 1] != 'u';
      }
    }
    UddgValueNoneIff(s);
  }

  /** An ordinary link with a query string: its "&amp;" is decoded and the
      link is kept. */
  lemma QueryHrefResolved()
    ensures ResolveHref("https://ex.com/p?a=1&amp;b=2") == "https://ex.com/p?a=1&b=2"
  {
    QueryHrefDecoded();
    QueryHrefPlain();
    NoRedirectWithoutU("https://ex.com/p?a=1&b=2");
  }

  lemma QueryHrefPlain()
    ensures 'u' !in "https://ex.com/p?a=1&b=2"
  {
  }

  lemma QueryHrefDecoded()
    ensures HtmlDecode("https://ex.com/p?a=1&amp;b=2") == "https://ex.com/p?a=1&b=2"
  {
    var a := "https://ex.com/p?a=1";
    QueryHrefSplit();
    HtmlDecodeAfterPlain(a, "&amp;" + "b=2");
    DecodeAmp("b=2");
    HtmlDecodeAfterPlain("b=2", []);
    assert "b=2" + [] == "b=2";
  }

  lemma QueryHrefSplit()
    ensures "https://ex.com/p?a=1&amp;b=2" == "https://ex.com/p?a=1" + ("&amp;" + "b=2")
    ensures "https://ex.com/p?a=1&b=2" == "https://ex.com/p?a=1" + (['&'] + "b=2")
    ensures '&' !in "https://ex.com/p?a=1" && '&' !in "b=2"
  {
  }

  /** PrefixBefore stops exactly at the end of a run free of stop
      characters when a stop character or the end follows it. */
  lemma {:induction false} PrefixBeforeIs(v: string, rest: string, stops: set<char>)
    requires forall i :: 0 <= i < |v| ==> v[i] !in stops
    requires rest == [] || rest[0] in stops
    ensures PrefixBefore(v + rest, stops) == v
    decreases |v|
  {
    if v == [] {
      assert v + rest == rest;
    } else {
      HeadTail(v, rest);
      PrefixBeforeIs(v[1..], rest, stops);
    }
  }

  /** The parameter is read up to the next '&' or the end. */
  lemma UddgFirst(v: string, rest: string)
    requires v != [] && '&' !in v
    requires rest == [] || rest[0] == '&'
    ensures UddgAt("?uddg=" + v + rest) == Some(v)
  {
    var s := "?uddg=" + v + rest;
    assert s[1..6] == "uddg=";
    assert s[6..] == v + rest;
    PrefixBeforeIs(v, rest, {'&'});
  }

  /** The redirect target survives entity decoding of the href. */
  lemma RedirectDecoded(plain: string, tail: string)
    requires '&' !in plain
    requires tail == [] || (|tail| >= 5 && tail[..5] == "&amp;")
    ensures var rest := HtmlDecode(tail);
      HtmlDecode(plain + tail) == plain + rest && (rest == [] || rest[0] == '&')
  {
    HtmlDecodeAfterPlain(plain, tail);
    if tail != [] {
      assert tail == tail[..5] + tail[5..];
      DecodeAmp(tail[5..]);
    }
  }

  /** "&amp;" decodes to '&', then decoding goes on. */
  lemma DecodeAmp(after: string)
    ensures HtmlDecode("&amp;" + after) == ['&'] + HtmlDecode(after)
  {
    AmpSpelled(after);
    DecodeNamed("amp", '&', after);
  }

  lemma AmpSpelled(after: string)
    ensures "&amp;" + after == "&" + "amp" + ";" + after
    ensures NamedReference("amp") == Some('&')
  {
    assert "&amp;" == "&" + "amp" + ";";
  }

  /** A redirect link carrying an ASCII target resolves to that target,
      whether the parameter ends the link or "&amp;" and more parameters
      follow it. */
  lemma ResolveRedirect(prefix: string, target: string, tail: string)
    requires '?' !in prefix && '&' !in prefix
    requires target != [] && IsAscii(target)
    requires tail == [] || (|tail| >= 5 && tail[..5] == "&amp;")
    ensures ResolveHref(prefix + "?uddg=" + PercentEncode(target) + tail) == target
  {
    var enc := PercentEncode(target);
    EncodedHasNoAmpersand(target);
    var plain := prefix + "?uddg=" + enc;
    assert '&' !in plain;
    RedirectDecoded(plain, tail);
    var rest := HtmlDecode(tail);
    UddgFirst(enc, rest);
    Regroup4(prefix, "?uddg=", enc, rest);
    UddgValueAfterPlain(prefix, "?uddg=" + enc + rest);
    PercentRoundTrip(target);
  }

  /** A URI scheme (section 3.1 of RFC 3986): a letter, then letters, digits,
      '+', '-' and '.'. */
  predicate IsScheme(s: string) {
    s != [] && ('a' <= s[0] <= 'z' || 'A' <= s[0] <= 'Z') &&
    forall i :: 0 <= i < |s| ==> 'a' <= s[i] <= 'z' || 'A' <= s[i] <= 'Z' || '0' <= s[i] <= '9' || s[i] in {'+', '-', '.'}
  }

  /** ASCII lower-casing of a whole string, as Uri.Host reports a host. */
  function Lowered(s: string): (r: string)
    ensures |r| == |s| && forall i :: 0 <= i < |s| ==> r[i] == ToLowerAscii(s[i])
  {
    if s == [] then [] else [ToLowerAscii(s[0])] + Lowered(s[1..])
  }

  /** The part of s after its last c: all of s when it holds no c. */
  function AfterLast(s: string, c: char): (r: string)
    ensures |r| <= |s| && r == s[|s| - |r|..] && c !in r
    ensures c !in s ==> r == s
    decreases |s|
  {
    if s == [] then []
    else if s[|s| - 1] == c then []
    else
      var r := AfterLast(s[..|s| - 1], c);
      assert s[..|s| - 1][|s| - 1 - |r|..] + [s[|s| - 1]] == s[|s| - |r| - 1..];
      r + [s[|s| - 1]]
  }

  /** The characters that end the host of an authority or the authority. */
  const HostStops: set<char> := {'/', '?', '#', ':', '@'}

  /** The host in the text after "scheme://": the authority runs to the first
      '/', '?' or '#', the host is what follows the authority's last '@' up
      to a ':', reported in lower case; an empty host is no host. */
  function AuthorityHost(after: string): (r: Option<string>)
    ensures r.Some? ==> r.value != []
  {
    var authority := PrefixBefore(after, {'/', '?', '#'});
    var host := PrefixBefore(AfterLast(authority, '@'), {':'});
    if host == [] then None else Some(Lowered(host))
  }

  /** Uri.TryCreate(url, UriKind.Absolute) and Uri.Host for URLs of the form
      scheme "://" authority: the scheme runs to the first ':'. Gives None
      where TryCreate fails: no scheme, no "//", or an empty host. */
  function AbsoluteHost(url: string): (r: Option<string>)
    ensures r.Some? ==> r.value != [] && ':' in url
  {
    match IndexOf(url, [':'], false)
    case None => None
    case Some(k) =>
      assert url[k..][0] == ':';
      if IsScheme(url[..k]) && k + 3 <= |url| && url[k + 1] == '/' && url[k + 2] == '/' then
        AuthorityHost(url[k + 3..])
      else None
  }

  /** A host as a URL carries it: not empty, in lower case, free of the
      characters that end a host. */
  predicate IsPlainHost(h: string) {
    h != [] && forall i :: 0 <= i < |h| ==> h[i] !in HostStops && !('A' <= h[i] <= 'Z')
  }

  lemma LoweredPlain(h: string)
    requires IsPlainHost(h)
    ensures Lowered(h) == h
  {
  }

  /** A plain host, then the end or a path, query or fragment, is the
      authority's host. */
  lemma AuthorityHostPlain(host: string, rest: string)
    requires IsPlainHost(host)
    requires rest == [] || rest[0] in {'/', '?', '#'}
    ensures AuthorityHost(host + rest) == Some(host)
  {
    PrefixBeforeIs(host, rest, {'/', '?', '#'});
    PrefixBeforeIs(host, [], {':'});
    assert host + [] == host;
    LoweredPlain(host);
  }

  /** After a scheme and "://" comes the authority. */
  lemma SchemeFound(scheme: string, after: string)
    requires IsScheme(scheme)
    ensures AbsoluteHost(scheme + "://" + after) == AuthorityHost(after)
  {
    var url := scheme + "://" + after;
    var k := |scheme|;
    assert url == scheme + [':'] + ("//" + after);
    assert ':' !in scheme;
    FirstOccurrence(scheme, ':', "//" + after);
    assert url[..k] == scheme;
    assert url[k + 1] == '/' && url[k + 2] == '/';
    assert url[k + 3..] == after;
  }

  /** A host written in lower case right after "https://" is the URL's host. */
  lemma AbsoluteHttps(host: string, rest: string)
    requires IsPlainHost(host)
    requires rest == [] || rest[0] in {'/', '?', '#'}
    ensures AbsoluteHost("https://" + host + rest) == Some(host)
  {
    HttpsScheme(host + rest);
    SchemeFound("https", host + rest);
    Regroup3("https://", host, rest);
    AuthorityHostPlain(host, rest);
  }

  lemma HttpsScheme(x: string)
    ensures IsScheme("https") && "https://" + x == "https" + "://" + x
  {
    assert "https://" == "https" + "://";
  }

  /** A link without ':' has no scheme, so in this model it has no host.
      Uri.TryCreate also reads the UNC form "//host/path" as a file URI
      with a host; that form is not modelled. */
  lemma RelativeHasNoHost(url: string)
    requires ':' !in url
    ensures AbsoluteHost(url).None?
  {
  }

  /** host.TrimStart("www.".ToCharArray()) as written: every leading 'w' and
      '.' goes, not the prefix "www.". */
  function HostTrimmedAsWritten(host: string): (r: string)
    ensures |r| <= |host| && r == host[|host| - |r|..]
    ensures r == [] || (r[0] != 'w' && r[0] != '.')
  {
    if host != [] && (host[0] == 'w' || host[0] == '.') then HostTrimmedAsWritten(host[1..]) else host
  }

  /** The host without a leading "www.", the comparison the allow-list is
      meant to make. */
  function HostTrimmed(host: string): (r: string)
    ensures |host| >= 4 && host[..4] == "www." ==> host == "www." + r
    ensures !(|host| >= 4 && host[..4] == "www.") ==> r == host
  {
    if |host| >= 4 && host[..4] == "www." then host[4..] else host
  }

  /** host.EndsWith(suffix). .NET compares by the current culture when no
      StringComparison is given; this compares ordinally, which agrees on
      hosts of ASCII letters, digits, '.' and '-'. */
  predicate EndsWith(s: string, suffix: string) {
    |suffix| <= |s| && s[|s| - |suffix|..] == suffix
  }

  /** An allow-list entry d admits the host d itself and its subdomains. */
  predicate MatchesEntry(host: string, d: string) {
    host == d || EndsWith(host, "." + d)
  }

  predicate HostAllowed(host: string, allowed: set<string>) {
    exists d :: d in allowed && MatchesEntry(host, d)
  }

  /** How the allow-list test trims the host before comparing it:
      TrimLeadingChars is TrimStart("www.".ToCharArray()) as written at
      :157, TrimWwwPrefix removes one leading "www." as intended. */
  datatype HostTrim = TrimLeadingChars | TrimWwwPrefix

  function TrimHost(host: string, trim: HostTrim): (r: string)
    ensures |r| <= |host| && r == host[|host| - |r|..]
  {
    match trim
    case TrimLeadingChars => HostTrimmedAsWritten(host)
    case TrimWwwPrefix => HostTrimmed(host)
  }

  /** The allow-list test of ParseResults (:153-168): an empty list admits
      every link; a non-empty list admits only absolute URLs whose trimmed
      host matches an entry. */
  predicate UrlAllowedBy(url: string, allowed: set<string>, trim: HostTrim) {
    allowed == {} ||
    match AbsoluteHost(url)
    case Some(host) => HostAllowed(TrimHost(host, trim), allowed)
    case None => false
  }

  /** The test as written. */
  predicate UrlAllowedAsWritten(url: string, allowed: set<string>) {
    UrlAllowedBy(url, allowed, TrimLeadingChars)
  }

  /** The test with the "www." prefix removed as intended. */
  predicate UrlAllowed(url: string, allowed: set<string>) {
    UrlAllowedBy(url, allowed, TrimWwwPrefix)
  }

  /** The two trims agree on a host that starts with neither 'w' nor '.',
      and so do the two tests on a URL with such a host. */
  lemma TrimsAgree(url: string, allowed: set<string>)
    requires AbsoluteHost(url).Some? ==>
      var host := AbsoluteHost(url).value; host == [] || (host[0] != 'w' && host[0] != '.')
    ensures UrlAllowedAsWritten(url, allowed) == UrlAllowed(url, allowed)
  {
    if AbsoluteHost(url).Some? {
      var host := AbsoluteHost(url).value;
      assert TrimHost(host, TrimLeadingChars) == host;
      assert TrimHost(host, TrimWwwPrefix) == host by {
        if |host| >= 4 { assert host[..4][0] == host[0]; }
      }
    }
  }

  /** An entry admits itself and every subdomain of itself. */
  lemma EntryAdmitsSubdomains(d: string, sub: string, allowed: set<string>)
    requires d in allowed
    ensures HostAllowed(d, allowed)
    ensures HostAllowed(sub + "." + d, allowed)
  {
    assert MatchesEntry(d, d);
    var h := sub + "." + d;
    assert h[|h| - |"." + d|..] == "." + d;
    assert MatchesEntry(h, d);
  }

  /** An entry admits no host that merely ends in its text: a match is the
      entry itself or ends in '.' and the entry. */
  lemma MatchNeedsDot(host: string, d: string)
    requires MatchesEntry(host, d) && host != d
    ensures |host| > |d| && host[|host| - |d| - 1] == '.' && host[|host| - |d|..] == d
  {
    var t := host[|host| - |d| - 1..];
    assert t == "." + d;
    assert t[1..] == d;
  }

  lemma NotExampleRejected()
    ensures !HostAllowed("notexample.com", {"example.com"})
  {
    var h := "notexample.com";
    if HostAllowed(h, {"example.com"}) {
      MatchNeedsDot(h, "example.com");
    }
  }

  /** An empty allow-list admits every link, absolute or not. */
  lemma EmptyListAdmitsAll(url: string)
    ensures UrlAllowed(url, {}) && UrlAllowedAsWritten(url, {})
  {
  }

  /** With entries listed, a link that is no absolute URI is rejected,
      whichever trim the test applies. */
  lemma RelativeRejected(url: string, allowed: set<string>, trim: HostTrim)
    requires AbsoluteHost(url).None? && allowed != {}
    ensures !UrlAllowedBy(url, allowed, trim)
  {
  }

  /** A link without ':', such as a path, is rejected by a non-empty list. */
  lemma PathRejected(url: string, allowed: set<string>, trim: HostTrim)
    requires ':' !in url && allowed != {}
    ensures !UrlAllowedBy(url, allowed, trim)
  {
    RelativeHasNoHost(url);
    RelativeRejected(url, allowed, trim);
  }

  /** Removing the prefix "www." leaves the listed domain. */
  lemma WwwPrefixRemoved(d: string)
    ensures HostTrimmed("www." + d) == d
  {
    assert ("www." + d)[..4] == "www.";
  }

  /** As written, leading 'w' and '.' characters go whatever follows them. */
  lemma {:induction false} TrimStartSkips(p: string, d: string)
    requires forall i :: 0 <= i < |p| ==> p[i] == 'w' || p[i] == '.'
    ensures HostTrimmedAsWritten(p + d) == HostTrimmedAsWritten(d)
    decreases |p|
  {
    if p == [] {
      assert p + d == d;
    } else {
      HeadTail(p, d);
      TrimStartSkips(p[1..], d);
    }
  }

  lemma PlainHostWww(d: string)
    requires IsPlainHost(d)
    ensures IsPlainHost("www." + d)
  {
    var h := "www." + d;
    forall i | 0 <= i < |h| ensures h[i] !in HostStops && !('A' <= h[i] <= 'Z') {
      if i >= 4 { assert h[i] == d[i - 4]; }
    }
  }

  /** As written, the "www." host of a domain that starts with 'w' trims to
      less than the domain. */
  lemma WwwTrimShorter(d: string)
    requires d != [] && d[0] == 'w'
    ensures |HostTrimmedAsWritten("www." + d)| < |d|
  {
    var p := "www.";
    assert p[0] == 'w' && p[1] == 'w' && p[2] == 'w' && p[3] == '.';
    TrimStartSkips(p, d);
    assert HostTrimmedAsWritten(d) == HostTrimmedAsWritten(d[1..]);
  }

  /** A host shorter than the only entry is not admitted. */
  lemma ShorterNotAllowed(t: string, d: string)
    requires |t| < |d|
    ensures !HostAllowed(t, {d})
  {
  }

  lemma WwwUrl(d: string, path: string)
    ensures "https://www." + d + path == "https://" + ("www." + d) + path
  {
    assert "https://www." == "https://" + "www.";
  }

  /** A listed domain that starts with 'w', reached through its "www." host:
      the host as written trims to something shorter than the entry, which
      the entry does not admit; the intended trim gives the entry itself. */
  lemma WwwHostAsWritten(d: string, path: string)
    requires IsPlainHost(d) && d[0] == 'w'
    requires path == [] || path[0] in {'/', '?', '#'}
    ensures !UrlAllowedAsWritten("https://www." + d + path, {d})
    ensures UrlAllowed("https://www." + d + path, {d})
  {
    PlainHostWww(d);
    AbsoluteHttps("www." + d, path);
    WwwUrl(d, path);
    WwwRejected(d);
    WwwAdmitted(d);
  }

  lemma WwwRejected(d: string)
    requires d != [] && d[0] == 'w'
    ensures !HostAllowed(TrimHost("www." + d, TrimLeadingChars), {d})
  {
    WwwTrimShorter(d);
    ShorterNotAllowed(HostTrimmedAsWritten("www." + d), d);
  }

  lemma WwwAdmitted(d: string)
    ensures HostAllowed(TrimHost("www." + d, TrimWwwPrefix), {d})
  {
    WwwPrefixRemoved(d);
    EntryAdmitsSubdomains(d, "", {d});
  }

  /** The domain wikipedia.org reached as https://www.wikipedia.org/. */
  lemma WikipediaAsWritten()
    ensures !UrlAllowedAsWritten("https://www.wikipedia.org/", {"wikipedia.org"})
    ensures UrlAllowed("https://www.wikipedia.org/", {"wikipedia.org"})
  {
    WikipediaPlain();
    WwwHostAsWritten("wikipedia.org", "/");
    WikipediaUrl();
  }

  lemma WikipediaUrl()
    ensures "https://www." + "wikipedia.org" + "/" == "https://www.wikipedia.org/"
  {
  }

  lemma WikipediaPlain()
    ensures IsPlainHost("wikipedia.org") && "wikipedia.org"[0] == 'w'
  {
    var d := "wikipedia.org";
    forall i | 0 <= i < |d| ensures d[i] !in HostStops && !('A' <= d[i] <= 'Z') {
    }
  }

  /** As written, an entry that starts with 'w' does not admit its own
      host: the host loses its leading 'w' before the comparison. The
      intended trim leaves the host whole and admits it. */
  lemma OwnHostAsWritten(d: string, path: string)
    requires IsPlainHost(d) && d[0] == 'w' && !(|d| >= 4 && d[..4] == "www.")
    requires path == [] || path[0] in {'/', '?', '#'}
    ensures !UrlAllowedAsWritten("https://" + d + path, {d})
    ensures UrlAllowed("https://" + d + path, {d})
  {
    var url := "https://" + d + path;
    AbsoluteHttps(d, path);
    OwnHostTrimmed(d);
    ShorterNotAllowed(HostTrimmedAsWritten(d), d);
    EntryAdmitsSubdomains(d, "", {d});
    assert !UrlAllowedBy(url, {d}, TrimLeadingChars);
  }

  lemma OwnHostTrimmed(d: string)
    requires d != [] && d[0] == 'w' && !(|d| >= 4 && d[..4] == "www.")
    ensures |HostTrimmedAsWritten(d)| < |d| && HostTrimmed(d) == d
  {
    assert HostTrimmedAsWritten(d) == HostTrimmedAsWritten(d[1..]);
  }

  /** The domain wsj.com reached as https://wsj.com/. */
  lemma WsjAsWritten()
    ensures !UrlAllowedAsWritten("https://wsj.com/", {"wsj.com"})
    ensures UrlAllowed("https://wsj.com/", {"wsj.com"})
  {
    WsjPlain();
    OwnHostAsWritten("wsj.com", "/");
    WsjUrl();
  }

  lemma WsjUrl()
    ensures "https://" + "wsj.com" + "/" == "https://wsj.com/"
  {
  }

  lemma WsjPlain()
    ensures IsPlainHost("wsj.com") && "wsj.com"[0] == 'w'
    ensures !(|"wsj.com"| >= 4 && "wsj.com"[..4] == "www.")
  {
    var d := "wsj.com";
    forall i | 0 <= i < |d| ensures d[i] !in HostStops && !('A' <= d[i] <= 'Z') {
    }
    assert d[..4][1] == 's';
  }

  /** Unreserved text is its own encoding. */
  lemma {:induction false} UnreservedKept(s: string)
    requires forall i :: 0 <= i < |s| ==> IsUnreserved(s[i])
    ensures IsAscii(s) && PercentEncode(s) == s
    decreases |s|
  {
    if s != [] {
      UnreservedKept(s[1..]);
      assert s == [s[0]] + s[1..];
    }
  }
}
