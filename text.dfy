/** The .NET string primitives the tools rely on: char.IsWhiteSpace, Trim,
    ordinal and case-insensitive prefix tests, IndexOf, Split and Join, the
    " {2,}" space collapse, and decimal and hexadecimal digit strings. */
module Text {
  import opened Wrappers

  /** char.IsWhiteSpace: U+0009..U+000D, U+0020, U+0085, U+00A0 and the Unicode
      space, line and paragraph separators. The regular-expression class \s
      matches the same set. */
  predicate IsWhiteSpace(c: char) {
    c == ' ' || '\t' <= c <= '\r' || c == '\U{85}' || c == '\U{A0}' || c == '\U{1680}'
    || '\U{2000}' <= c <= '\U{200A}' || c == '\U{2028}' || c == '\U{2029}'
    || c == '\U{202F}' || c == '\U{205F}' || c == '\U{3000}'
  }

  /** A string and what follows it, seen from its first character: the
      step every left-to-right scanner of the model takes. */
  lemma HeadTail(a: string, x: string)
    requires a != []
    ensures (a + x)[0] == a[0] && (a + x)[1..] == a[1..] + x
    ensures [a[0]] + (a[1..] + x) == a + x
  {
  }

  /** Concatenations regrouped: helpers for the scanner lemmas, proved where
      no other fact is in scope. */
  lemma Regroup4(a: string, b: string, c: string, d: string)
    ensures a + b + c + d == a + (b + c + d)
    ensures (a + (b + c + d))[|a|..] == b + c + d
  {
  }

  lemma Regroup5(a: string, b: string, c: string, d: string, e: string)
    ensures a + b + c + d + e == a + (b + c + d + e)
  {
  }

  lemma RegroupRight(a: string, b: string, c: string, d: string)
    ensures a + b + c + d == a + (b + (c + d))
  {
  }

  lemma Regroup3(a: string, b: string, c: string)
    ensures a + (b + c) == a + b + c
  {
  }

  lemma SliceAfter(a: string, b: string)
    ensures (a + b)[|a|..] == b
  {
  }

  /** string.IsNullOrWhiteSpace (strings are never null here). */
  predicate IsBlank(s: string) {
    forall i :: 0 <= i < |s| ==> IsWhiteSpace(s[i])
  }

  /** The number of white-space characters s begins with. */
  function LeadingWhiteSpace(s: string): (n: nat)
    ensures n <= |s|
    ensures forall i :: 0 <= i < n ==> IsWhiteSpace(s[i])
    ensures n < |s| ==> !IsWhiteSpace(s[n])
    decreases |s|
  {
    if s != [] && IsWhiteSpace(s[0]) then 1 + LeadingWhiteSpace(s[1..]) else 0
  }

  /** The number of white-space characters s ends with. */
  function TrailingWhiteSpace(s: string): (n: nat)
    ensures n <= |s|
    ensures forall i :: |s| - n <= i < |s| ==> IsWhiteSpace(s[i])
    ensures n < |s| ==> !IsWhiteSpace(s[|s| - 1 - n])
    decreases |s|
  {
    if s != [] && IsWhiteSpace(s[|s| - 1]) then 1 + TrailingWhiteSpace(s[..|s| - 1]) else 0
  }

  /** String.Trim(): the text between the leading and the trailing white
      space. */
  function Trim(s: string): (r: string)
    ensures r == [] || (!IsWhiteSpace(r[0]) && !IsWhiteSpace(r[|r| - 1]))
    ensures r == [] <==> IsBlank(s)
  {
    var k := LeadingWhiteSpace(s);
    var t := s[k..];
    var r := t[..|t| - TrailingWhiteSpace(t)];
    assert r != [] ==> r[0] == s[k];
    r
  }

  /** Trim keeps one factor of s: the text after the leading white space. */
  lemma TrimFactor(s: string)
    ensures var k := LeadingWhiteSpace(s); var r := Trim(s);
      k + |r| <= |s| && r == s[k..k + |r|]
  {
  }

  /** What Trim removes is white space, at both ends. */
  lemma TrimRemovesWhiteSpace(s: string)
    ensures var k := LeadingWhiteSpace(s); var r := Trim(s);
      k + |r| <= |s| && IsBlank(s[..k]) && IsBlank(s[k + |r|..])
  {
    var k := LeadingWhiteSpace(s);
    var t := s[k..];
    var n := TrailingWhiteSpace(t);
    var r := Trim(s);
    assert IsBlank(s[..k]);
    var tail := s[k + |r|..];
    forall i | 0 <= i < |tail| ensures IsWhiteSpace(tail[i]) {
      assert tail[i] == t[|t| - n + i];
    }
  }

  /** No two consecutive spaces ' '. */
  predicate NoDoubleSpace(s: string) {
    forall i :: 0 <= i < |s| - 1 ==> !(s[i] == ' ' && s[i + 1] == ' ')
  }

  /** The suffix of s after its leading run of spaces ' '. */
  function DropSpaces(s: string): (r: string)
    ensures |r| <= |s| && r == s[|s| - |r|..]
    ensures r == [] || r[0] != ' '
    ensures s != [] && s[0] == ' ' ==> |r| < |s|
    decreases |s|
  {
    if s != [] && s[0] == ' ' then DropSpaces(s[1..]) else s
  }

  /** Regex.Replace(s, " {2,}", " "): every run of two or more spaces becomes
      a single space; nothing else changes. */
  function CollapseSpaces(s: string): (r: string)
    ensures |r| <= |s|
    ensures r == [] <==> s == []
    ensures r != [] ==> (r[0] == ' ' <==> s[0] == ' ')
    ensures forall c :: c in r ==> c in s
    ensures NoDoubleSpace(r)
    decreases |s|
  {
    if |s| >= 2 && s[0] == ' ' && s[1] == ' ' then " " + CollapseSpaces(DropSpaces(s))
    else if s == [] then []
    else [s[0]] + CollapseSpaces(s[1..])
  }

  /** A string that already has no run of spaces is left as it is. */
  lemma {:induction false} CollapseSpacesKeeps(s: string)
    requires NoDoubleSpace(s)
    ensures CollapseSpaces(s) == s
    decreases |s|
  {
    if s != [] {
      assert NoDoubleSpace(s[1..]) by {
        forall i | 0 <= i < |s[1..]| - 1 ensures !(s[1..][i] == ' ' && s[1..][i + 1] == ' ') {
          assert s[1..][i] == s[i + 1] && s[1..][i + 1] == s[i + 2];
        }
      }
      CollapseSpacesKeeps(s[1..]);
      assert s == [s[0]] + s[1..];
    }
  }

  /** The text with every space ' ' taken out. */
  function WithoutSpaces(s: string): (r: string)
    ensures ' ' !in r
    decreases |s|
  {
    if s == [] then [] else (if s[0] == ' ' then [] else [s[0]]) + WithoutSpaces(s[1..])
  }

  lemma {:induction false} DropSpacesWithout(s: string)
    ensures WithoutSpaces(DropSpaces(s)) == WithoutSpaces(s)
    decreases |s|
  {
    if s != [] && s[0] == ' ' {
      DropSpacesWithout(s[1..]);
    }
  }

  /** Collapsing removes spaces only: the other characters all stay, in
      order. */
  lemma {:induction false} CollapseSpacesNonSpace(s: string)
    ensures WithoutSpaces(CollapseSpaces(s)) == WithoutSpaces(s)
    decreases |s|
  {
    if |s| >= 2 && s[0] == ' ' && s[1] == ' ' {
      var x := CollapseSpaces(DropSpaces(s));
      assert (" " + x)[1..] == x;
      CollapseSpacesNonSpace(DropSpaces(s));
      DropSpacesWithout(s);
    } else if s != [] {
      var x := CollapseSpaces(s[1..]);
      assert ([s[0]] + x)[1..] == x;
      CollapseSpacesNonSpace(s[1..]);
    }
  }

  /** A character other than a space is kept as it is. */
  lemma CollapseSpacesChar(c: char, t: string)
    requires c != ' '
    ensures CollapseSpaces([c] + t) == [c] + CollapseSpaces(t)
  {
    assert ([c] + t)[1..] == t;
  }

  /** A single space, not followed by another, is kept as it is. */
  lemma CollapseSpacesSingle(t: string)
    requires t == [] || t[0] != ' '
    ensures CollapseSpaces(" " + t) == " " + CollapseSpaces(t)
  {
    assert (" " + t)[1..] == t;
  }

  /** Two spaces in a row collapse into one. */
  lemma CollapseSpacesPair(t: string)
    ensures CollapseSpaces("  " + t) == CollapseSpaces(" " + t)
  {
    PairShape(t);
    DropSpacesFront(" " + t);
    DropSpacesFront(t);
    CollapseSpacesDouble("  " + t);
    if t != [] && t[0] == ' ' {
      CollapseSpacesDouble(" " + t);
    } else {
      CollapseSpacesSingle(t);
    }
  }

  lemma PairShape(t: string)
    ensures |"  " + t| >= 2 && ("  " + t)[0] == ' ' && ("  " + t)[1] == ' '
    ensures "  " + t == " " + (" " + t)
  {
    assert "  " == " " + " ";
  }

  lemma DropSpacesFront(t: string)
    ensures DropSpaces(" " + t) == DropSpaces(t)
  {
    assert (" " + t)[1..] == t;
  }

  lemma CollapseSpacesDouble(s: string)
    requires |s| >= 2 && s[0] == ' ' && s[1] == ' '
    ensures CollapseSpaces(s) == " " + CollapseSpaces(DropSpaces(s))
  {
  }

  /** n spaces in a row. */
  function Spaces(n: nat): (r: string)
    ensures |r| == n && forall i :: 0 <= i < n ==> r[i] == ' '
  {
    seq(n, _ => ' ')
  }

  lemma SpacesFront(n: nat, t: string)
    requires n >= 1
    ensures Spaces(n) + t == " " + (Spaces(n - 1) + t)
  {
    assert Spaces(n) == " " + Spaces(n - 1);
  }

  lemma SpacesTwo(n: nat, t: string)
    requires n >= 2
    ensures Spaces(n) + t == "  " + (Spaces(n - 2) + t)
    ensures Spaces(n - 1) + t == " " + (Spaces(n - 2) + t)
  {
    SpacesFront(n, t);
    SpacesFront(n - 1, t);
    assert " " + (" " + (Spaces(n - 2) + t)) == "  " + (Spaces(n - 2) + t);
  }

  /** Any run of spaces, up to the next other character, becomes one space. */
  lemma {:induction false} CollapseSpacesRun(n: nat, t: string)
    requires n >= 1 && (t == [] || t[0] != ' ')
    ensures CollapseSpaces(Spaces(n) + t) == " " + CollapseSpaces(t)
  {
    if n == 1 {
      SpacesFront(1, t);
      assert Spaces(0) + t == t;
      CollapseSpacesSingle(t);
    } else {
      CollapseSpacesRun(n - 1, t);
      SpacesTwo(n, t);
      CollapseSpacesPair(Spaces(n - 2) + t);
    }
  }

  /** A factor of a string without runs of spaces has none either. */
  lemma NoDoubleSpaceFactor(s: string, k: nat, n: nat)
    requires k + n <= |s| && NoDoubleSpace(s)
    ensures NoDoubleSpace(s[k..k + n])
  {
    var t := s[k..k + n];
    forall i | 0 <= i < n - 1 ensures !(t[i] == ' ' && t[i + 1] == ' ') {
      assert t[i] == s[k + i] && t[i + 1] == s[k + i + 1];
    }
  }

  /** ASCII lower-casing: the case folding of the model's case-insensitive matches. */
  function ToLowerAscii(c: char): char {
    if 'A' <= c <= 'Z' then (c as int + 32) as char else c
  }

  /** A character that matches a lower-case letter, ignoring case, folds to it. */
  lemma SameCharLower(a: char, b: char)
    requires 'a' <= b <= 'z' && SameChar(a, b, true)
    ensures ToLowerAscii(a) == b
  {
  }

  predicate SameChar(a: char, b: char, ignoreCase: bool) {
    a == b || (ignoreCase && ToLowerAscii(a) == ToLowerAscii(b))
  }

  /** s begins with p: ordinally, or ASCII case-insensitively when ignoreCase. */
  predicate StartsWith(s: string, p: string, ignoreCase: bool) {
    |p| <= |s| && forall i :: 0 <= i < |p| ==> SameChar(s[i], p[i], ignoreCase)
  }

  /** Every string starts with itself. */
  lemma PrefixStarts(p: string, rest: string, ignoreCase: bool)
    ensures StartsWith(p + rest, p, ignoreCase)
  {
    var s := p + rest;
    forall i | 0 <= i < |p| ensures SameChar(s[i], p[i], ignoreCase) {
      assert s[i] == p[i];
    }
  }

  /** What follows a prefix does not change that it is one. */
  lemma StartsWithExtend(x: string, p: string, y: string, ignoreCase: bool)
    requires StartsWith(x, p, ignoreCase)
    ensures StartsWith(x + y, p, ignoreCase)
  {
    forall i | 0 <= i < |p| ensures SameChar((x + y)[i], p[i], ignoreCase) {
      assert (x + y)[i] == x[i];
    }
  }

  /** x is p written in any mix of ASCII upper and lower case. */
  predicate SameUpToCase(x: string, p: string) {
    |x| == |p| && StartsWith(x, p, true)
  }

  /** p occurs in s at position j. */
  predicate OccursAt(s: string, j: nat, p: string, ignoreCase: bool) {
    j <= |s| && StartsWith(s[j..], p, ignoreCase)
  }

  /** The first position at which p occurs in s: String.IndexOf, and the lazy
      search of a regular expression for the literal that ends its match. */
  function IndexOf(s: string, p: string, ignoreCase: bool): (r: Option<nat>)
    ensures r.Some? ==> OccursAt(s, r.value, p, ignoreCase)
    ensures r.Some? ==> forall j :: 0 <= j < r.value ==> !OccursAt(s, j, p, ignoreCase)
    ensures r.None? ==> forall j :: 0 <= j <= |s| ==> !OccursAt(s, j, p, ignoreCase)
    decreases |s|
  {
    if StartsWith(s, p, ignoreCase) then
      assert s[0..] == s;
      Some(0)
    else if s == [] then
      assert s[0..] == s;
      None
    else
      var r := IndexOf(s[1..], p, ignoreCase);
      assert s[0..] == s;
      forall j | 1 <= j <= |s| ensures OccursAt(s, j, p, ignoreCase) == OccursAt(s[1..], j - 1, p, ignoreCase) {
        assert s[j..] == s[1..][j - 1..];
      }
      match r
      case Some(k) => Some(k + 1)
      case None => None
  }

  /** A pattern longer than the text does not occur in it. */
  lemma IndexOfShort(s: string, p: string, ignoreCase: bool)
    requires |s| < |p|
    ensures IndexOf(s, p, ignoreCase).None?
  {
  }

  /** IndexOf finds the occurrence that no other precedes. */
  lemma IndexOfIs(s: string, p: string, ignoreCase: bool, j: nat)
    requires OccursAt(s, j, p, ignoreCase)
    requires forall i :: 0 <= i < j ==> !OccursAt(s, i, p, ignoreCase)
    ensures IndexOf(s, p, ignoreCase) == Some(j)
  {
  }

  /** A literal in front is the first occurrence of itself. */
  lemma IndexOfFront(p: string, rest: string)
    ensures IndexOf(p + rest, p, false) == Some(0)
  {
    PrefixStarts(p, rest, false);
    assert (p + rest)[0..] == p + rest;
    IndexOfIs(p + rest, p, false, 0);
  }

  /** Whether p occurs at a place depends only on the |p| characters there. */
  lemma OccursAtSame(s: string, t: string, j: nat, p: string, ignoreCase: bool)
    requires j + |p| <= |s| && j + |p| <= |t| && s[j..j + |p|] == t[j..j + |p|]
    ensures OccursAt(s, j, p, ignoreCase) == OccursAt(t, j, p, ignoreCase)
  {
    forall i | 0 <= i < |p| ensures s[j..][i] == t[j..][i] {
      assert s[j..][i] == s[j..j + |p|][i] && t[j..][i] == t[j..j + |p|][i];
    }
  }

  /** The first occurrence of a character is the one after the text that
      lacks it. */
  lemma FirstOccurrence(a: string, c: char, b: string)
    requires c !in a
    ensures IndexOf(a + [c] + b, [c], false) == Some(|a|)
  {
    var s := a + [c] + b;
    assert s[|a|..] == [c] + b;
    forall j | 0 <= j < |a| ensures !OccursAt(s, j, [c], false) {
      assert s[j..][0] == a[j];
    }
    IndexOfIs(s, [c], false, |a|);
  }

  /** String.Split(sep): the pieces between separators, empty ones included. */
  function Split(s: string, sep: char): (parts: seq<string>)
    ensures |parts| >= 1
    ensures forall k :: 0 <= k < |parts| ==> sep !in parts[k]
    decreases |s|
  {
    if s == [] then [[]]
    else
      var rest := Split(s[1..], sep);
      if s[0] == sep then [[]] + rest else [[s[0]] + rest[0]] + rest[1..]
  }

  /** String.Join(sep, parts). */
  function Join(parts: seq<string>, sep: char): string
  {
    if |parts| == 0 then []
    else if |parts| == 1 then parts[0]
    else parts[0] + [sep] + Join(parts[1..], sep)
  }

  lemma {:induction false} SplitWithout(s: string, sep: char)
    requires sep !in s
    ensures Split(s, sep) == [s]
    decreases |s|
  {
    if s != [] {
      SplitWithout(s[1..], sep);
      assert s == [s[0]] + s[1..];
    }
  }

  lemma {:induction false} SplitAfterPiece(a: string, b: string, sep: char)
    requires sep !in a
    ensures Split(a + [sep] + b, sep) == [a] + Split(b, sep)
    decreases |a|
  {
    var s := a + [sep] + b;
    if a == [] {
      assert s[1..] == b;
    } else {
      assert s[1..] == a[1..] + [sep] + b;
      SplitAfterPiece(a[1..], b, sep);
      assert a == [a[0]] + a[1..];
    }
  }

  /** Splitting undoes joining, when no piece holds the separator. */
  lemma {:induction false} SplitJoin(parts: seq<string>, sep: char)
    requires |parts| >= 1
    requires forall k :: 0 <= k < |parts| ==> sep !in parts[k]
    ensures Split(Join(parts, sep), sep) == parts
    decreases |parts|
  {
    if |parts| == 1 {
      SplitWithout(parts[0], sep);
    } else {
      SplitJoin(parts[1..], sep);
      SplitAfterPiece(parts[0], Join(parts[1..], sep), sep);
      assert parts == [parts[0]] + parts[1..];
    }
  }

  /** Joining undoes splitting. */
  lemma {:induction false} JoinSplit(s: string, sep: char)
    ensures Join(Split(s, sep), sep) == s
    decreases |s|
  {
    if s != [] {
      JoinSplit(s[1..], sep);
      var rest := Split(s[1..], sep);
      assert s == [s[0]] + s[1..];
      if s[0] != sep && |rest| > 1 {
        var parts := Split(s, sep);
        assert parts[1..] == rest[1..];
        assert Join(rest, sep) == rest[0] + [sep] + Join(rest[1..], sep);
      }
    }
  }

  predicate IsDigit(c: char) { '0' <= c <= '9' }

  predicate IsDigits(s: string) { forall i :: 0 <= i < |s| ==> IsDigit(s[i]) }

  function DigitChar(d: nat): (c: char)
    requires d < 10
    ensures IsDigit(c) && c as int - '0' as int == d
  {
    ('0' as int + d) as char
  }

  /** The value of a string of decimal digits. */
  function DecimalValue(s: string): nat
    requires IsDigits(s)
  {
    if s == [] then 0 else DecimalValue(s[..|s| - 1]) * 10 + (s[|s| - 1] as int - '0' as int)
  }

  /** The decimal form of n, as C# interpolation writes an int: no sign, no
      leading zero. */
  function NatToString(n: nat): (r: string)
    ensures r != [] && IsDigits(r)
    ensures r[0] == '0' ==> n == 0
  {
    if n < 10 then [DigitChar(n)] else NatToString(n / 10) + [DigitChar(n % 10)]
  }

  /** Reading the digits back gives the number. */
  lemma {:induction false} NatToStringValue(n: nat)
    ensures DecimalValue(NatToString(n)) == n
  {
    if n >= 10 {
      NatToStringValue(n / 10);
      var r := NatToString(n);
      assert r[..|r| - 1] == NatToString(n / 10);
    }
  }

  predicate IsHexDigit(c: char) { '0' <= c <= '9' || 'a' <= c <= 'f' || 'A' <= c <= 'F' }

  predicate IsHexDigits(s: string) { forall i :: 0 <= i < |s| ==> IsHexDigit(s[i]) }

  function HexDigitValue(c: char): (v: nat)
    requires IsHexDigit(c)
    ensures v < 16
  {
    if '0' <= c <= '9' then c as int - '0' as int
    else if 'a' <= c <= 'f' then c as int - 'a' as int + 10
    else c as int - 'A' as int + 10
  }

  /** The upper-case hexadecimal digit for v. */
  function HexDigitChar(v: nat): (c: char)
    requires v < 16
    ensures IsHexDigit(c) && HexDigitValue(c) == v
  {
    if v < 10 then ('0' as int + v) as char else ('A' as int + v - 10) as char
  }

  /** The value of a string of hexadecimal digits. */
  function HexValue(s: string): nat
    requires IsHexDigits(s)
  {
    if s == [] then 0 else HexValue(s[..|s| - 1]) * 16 + HexDigitValue(s[|s| - 1])
  }
}
