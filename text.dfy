/**
 * The parts of java.lang.String and java.lang.Character the roster code relies on:
 * isBlank, trim, ASCII lower-casing, equalsIgnoreCase, CASE_INSENSITIVE_ORDER, contains
 * and String.valueOf(int).
 */
module Text {

  /** Character.isWhitespace: the Unicode space separators other than the no-break
      spaces, plus the ASCII controls TAB, LF, VT, FF, CR and FS..US. */
  predicate IsWhitespace(c: char) {
    c == ' ' || ('\t' <= c <= '\r') || ('\U{1C}' <= c <= '\U{1F}') || c == '\U{1680}'
    || ('\U{2000}' <= c <= '\U{2006}') || ('\U{2008}' <= c <= '\U{200A}')
    || c == '\U{2028}' || c == '\U{2029}' || c == '\U{205F}' || c == '\U{3000}'
  }

  /** String.isBlank: empty, or whitespace only. */
  predicate IsBlank(s: string) {
    forall i | 0 <= i < |s| :: IsWhitespace(s[i])
  }

  predicate IsAsciiDigit(c: char) {
    '0' <= c <= '9'
  }

  predicate IsAsciiLetterOrDigit(c: char) {
    ('A' <= c <= 'Z') || ('a' <= c <= 'z') || IsAsciiDigit(c)
  }

  /** Some character of s is one of 0..9 (Java's \d without UNICODE_CHARACTER_CLASS). */
  predicate HasDigit(s: string) {
    exists i | 0 <= i < |s| :: IsAsciiDigit(s[i])
  }

  predicate AllDigits(s: string) {
    forall i | 0 <= i < |s| :: IsAsciiDigit(s[i])
  }

  predicate AllLettersOrDigits(s: string) {
    forall i | 0 <= i < |s| :: IsAsciiLetterOrDigit(s[i])
  }

  /** String.trim drops every leading and trailing character at or below U+0020. */
  function TrimStart(s: string): (r: string)
    ensures |r| <= |s|
  {
    if s != [] && s[0] <= ' ' then TrimStart(s[1..]) else s
  }

  /** TrimStart drops a prefix of characters at or below U+0020 and stops at the first
      character above it. */
  lemma {:induction false} TrimStartFacts(s: string)
    ensures var r := TrimStart(s);
      && r == s[|s| - |r|..]
      && (r == [] || r[0] > ' ')
      && forall i | 0 <= i < |s| - |r| :: s[i] <= ' '
  {
    if s != [] && s[0] <= ' ' {
      TrimStartFacts(s[1..]);
    }
  }

  function TrimEnd(s: string): (r: string)
    ensures |r| <= |s|
  {
    if s != [] && s[|s| - 1] <= ' ' then TrimEnd(s[..|s| - 1]) else s
  }

  /** TrimEnd drops a suffix of characters at or below U+0020 and stops at the last
      character above it. */
  lemma {:induction false} TrimEndFacts(s: string)
    ensures var r := TrimEnd(s);
      && r == s[..|r|]
      && (r == [] || r[|r| - 1] > ' ')
      && forall i | |r| <= i < |s| :: s[i] <= ' '
  {
    if s != [] && s[|s| - 1] <= ' ' {
      TrimEndFacts(s[..|s| - 1]);
    }
  }

  /** String.trim: the slice of s between its first and last character above U+0020;
      everything cut off at either end is at or below U+0020. */
  function Trim(s: string): (r: string)
    ensures |r| <= |s|
    ensures r == [] || (r[0] > ' ' && r[|r| - 1] > ' ')
    ensures r == [] <==> forall i | 0 <= i < |s| :: s[i] <= ' '
    ensures exists k :: CutFrom(s, r, k)
  {
    var t := TrimStart(s);
    TrimStartFacts(s);
    var r := TrimEnd(t);
    TrimEndFacts(t);
    assert r != [] ==> r[0] == t[0];
    TrimCut(s, t, r);
    r
  }

  lemma TrimCut(s: string, t: string, r: string)
    requires t == TrimStart(s) && r == TrimEnd(t)
    ensures CutFrom(s, r, |s| - |t|)
  {
    TrimStartFacts(s);
    TrimEndFacts(t);
    CutParts(s, t, r);
  }

  /** Cutting a blank prefix off s and then a blank suffix off the rest leaves a slice of s. */
  lemma CutParts(s: string, t: string, r: string)
    requires |t| <= |s| && t == s[|s| - |t|..]
    requires forall i | 0 <= i < |s| - |t| :: s[i] <= ' '
    requires |r| <= |t| && r == t[..|r|]
    requires forall i | |r| <= i < |t| :: t[i] <= ' '
    ensures CutFrom(s, r, |s| - |t|)
  {
    var k := |s| - |t|;
    assert r == s[k..k + |r|];
    forall i | k + |r| <= i < |s|
      ensures s[i] <= ' '
    {
      assert s[i] == t[i - k];
    }
  }

  /** r is the slice of s starting at k, and what lies outside it is at or below U+0020. */
  predicate CutFrom(s: string, r: string, k: int) {
    && 0 <= k <= |s| - |r|
    && r == s[k..k + |r|]
    && (forall i | 0 <= i < k :: s[i] <= ' ')
    && (forall i | k + |r| <= i < |s| :: s[i] <= ' ')
  }

  /** A string with nothing to trim at either end is its own trim. */
  lemma TrimUnpadded(s: string)
    requires s == [] || (s[0] > ' ' && s[|s| - 1] > ' ')
    ensures Trim(s) == s
  {
    if s != [] {
      assert TrimStart(s) == s;
      assert TrimEnd(s) == s;
    }
  }

  /** Trimming twice is trimming once. */
  lemma TrimIdempotent(s: string)
    ensures Trim(Trim(s)) == Trim(s)
  {
    TrimUnpadded(Trim(s));
  }

  /** Character.toLowerCase restricted to ASCII letters. */
  function LowerChar(c: char): char {
    if 'A' <= c <= 'Z' then (c as int + 32) as char else c
  }

  function ToLower(s: string): (r: string)
    ensures |r| == |s| && forall i | 0 <= i < |s| :: r[i] == LowerChar(s[i])
  {
    seq(|s|, i requires 0 <= i < |s| => LowerChar(s[i]))
  }

  /** A string without capital letters is its own lower case. */
  lemma ToLowerNoCapitals(s: string)
    requires forall i | 0 <= i < |s| :: !('A' <= s[i] <= 'Z')
    ensures ToLower(s) == s
  {
  }

  /** String.equalsIgnoreCase (ASCII). */
  predicate EqualsIgnoreCase(a: string, b: string) {
    ToLower(a) == ToLower(b)
  }

  /** Lexicographic order on sequences of character codes, a proper prefix first. */
  predicate UnitsLe(a: seq<int>, b: seq<int>) {
    a == [] || (b != [] && (a[0] < b[0] || (a[0] == b[0] && UnitsLe(a[1..], b[1..]))))
  }

  lemma {:induction false} UnitsLeTotal(a: seq<int>, b: seq<int>)
    ensures UnitsLe(a, b) || UnitsLe(b, a)
  {
    if a != [] && b != [] && a[0] == b[0] {
      UnitsLeTotal(a[1..], b[1..]);
    }
  }

  lemma {:induction false} UnitsLeTransitive(a: seq<int>, b: seq<int>, c: seq<int>)
    requires UnitsLe(a, b) && UnitsLe(b, c)
    ensures UnitsLe(a, c)
  {
    if a != [] && b != [] && c != [] && a[0] == b[0] == c[0] {
      UnitsLeTransitive(a[1..], b[1..], c[1..]);
    }
  }

  lemma {:induction false} UnitsLeAntisymmetric(a: seq<int>, b: seq<int>)
    requires UnitsLe(a, b) && UnitsLe(b, a)
    ensures a == b
  {
    if a != [] && b != [] {
      UnitsLeAntisymmetric(a[1..], b[1..]);
    }
  }

  /** The code points of a string. */
  function CodePoints(s: string): (u: seq<int>)
    ensures |u| == |s| && forall i | 0 <= i < |s| :: u[i] == s[i] as int
  {
    seq(|s|, i requires 0 <= i < |s| => s[i] as int)
  }

  /** Code-point order, which is also the byte order of the strings' UTF-8 encodings. */
  predicate LexLe(a: string, b: string) {
    UnitsLe(CodePoints(a), CodePoints(b))
  }

  lemma LexLeTotal(a: string, b: string)
    ensures LexLe(a, b) || LexLe(b, a)
  {
    UnitsLeTotal(CodePoints(a), CodePoints(b));
  }

  lemma LexLeTransitive(a: string, b: string, c: string)
    requires LexLe(a, b) && LexLe(b, c)
    ensures LexLe(a, c)
  {
    UnitsLeTransitive(CodePoints(a), CodePoints(b), CodePoints(c));
  }

  lemma LexLeAntisymmetric(a: string, b: string)
    requires LexLe(a, b) && LexLe(b, a)
    ensures a == b
  {
    UnitsLeAntisymmetric(CodePoints(a), CodePoints(b));
    assert forall i | 0 <= i < |a| :: a[i] as int == CodePoints(b)[i];
  }

  // ---- Java strings are UTF-16 ----

  /** The UTF-16 code units of one character: the character itself below U+10000,
      otherwise a high surrogate (D800..DBFF) followed by a low one (DC00..DFFF). */
  function CodeUnits(c: char): (u: seq<int>)
    ensures |u| == if c as int < 0x10000 then 1 else 2
    ensures |u| == 1 ==> u[0] == c as int && !(0xD800 <= u[0] < 0xE000)
    ensures |u| == 2 ==> 0xD800 <= u[0] < 0xDC00 && 0xDC00 <= u[1] < 0xE000
  {
    if c as int < 0x10000 then [c as int]
    else
      var v := c as int - 0x10000;
      [0xD800 + v / 0x400, 0xDC00 + v % 0x400]
  }

  /** The code units of a character can be told apart from what follows them: equal
      encodings start with equal characters. */
  lemma CodeUnitsPrefix(c: char, d: char, x: seq<int>, y: seq<int>)
    requires CodeUnits(c) + x == CodeUnits(d) + y
    ensures c == d && x == y
  {
    var u, w := CodeUnits(c), CodeUnits(d);
    assert u[0] == (u + x)[0] == (w + y)[0] == w[0];
    if |u| == 2 {
      assert u[1] == (u + x)[1] == (w + y)[1] == w[1];
      var v, v' := c as int - 0x10000, d as int - 0x10000;
      assert v == (v / 0x400) * 0x400 + v % 0x400;
      assert v' == (v' / 0x400) * 0x400 + v' % 0x400;
    }
    assert x == (u + x)[|u|..];
    assert y == (w + y)[|w|..];
  }

  /** String.length(): the number of UTF-16 code units, two for a character above U+FFFF. */
  function Utf16Length(s: string): (n: nat)
    ensures |s| <= n <= 2 * |s|
    ensures (forall i | 0 <= i < |s| :: s[i] as int < 0x10000) ==> n == |s|
  {
    if s == [] then 0 else |CodeUnits(s[0])| + Utf16Length(s[1..])
  }

  /** A string of characters above U+FFFF has twice as many code units as characters. */
  lemma {:induction false} Utf16LengthAbove(s: string)
    requires forall i | 0 <= i < |s| :: s[i] as int >= 0x10000
    ensures Utf16Length(s) == 2 * |s|
  {
    if s != [] {
      Utf16LengthAbove(s[1..]);
    }
  }

  /** The UTF-16 code units a Java String holds for s. */
  function Utf16(s: string): (u: seq<int>)
    ensures |u| == Utf16Length(s)
  {
    if s == [] then [] else CodeUnits(s[0]) + Utf16(s[1..])
  }

  /** Different strings have different encodings. */
  lemma {:induction false} Utf16Injective(a: string, b: string)
    requires Utf16(a) == Utf16(b)
    ensures a == b
  {
    if a != [] && b != [] {
      CodeUnitsPrefix(a[0], b[0], Utf16(a[1..]), Utf16(b[1..]));
      Utf16Injective(a[1..], b[1..]);
    }
  }

  /** String.CASE_INSENSITIVE_ORDER (ASCII case folding): the lower-cased strings compared
      code unit by code unit. */
  predicate IgnoreCaseLe(a: string, b: string) {
    UnitsLe(Utf16(ToLower(a)), Utf16(ToLower(b)))
  }

  lemma IgnoreCaseLeTotal(a: string, b: string)
    ensures IgnoreCaseLe(a, b) || IgnoreCaseLe(b, a)
  {
    UnitsLeTotal(Utf16(ToLower(a)), Utf16(ToLower(b)));
  }

  lemma IgnoreCaseLeTransitive(a: string, b: string, c: string)
    requires IgnoreCaseLe(a, b) && IgnoreCaseLe(b, c)
    ensures IgnoreCaseLe(a, c)
  {
    UnitsLeTransitive(Utf16(ToLower(a)), Utf16(ToLower(b)), Utf16(ToLower(c)));
  }

  /** Two names that sort no later than each other are equal ignoring case. */
  lemma IgnoreCaseLeBothWays(a: string, b: string)
    requires IgnoreCaseLe(a, b) && IgnoreCaseLe(b, a)
    ensures EqualsIgnoreCase(a, b)
  {
    UnitsLeAntisymmetric(Utf16(ToLower(a)), Utf16(ToLower(b)));
    Utf16Injective(ToLower(a), ToLower(b));
  }

  /** The two orders part ways above U+FFFF: U+1F600 sorts after U+E000 by code point but
      before it by code unit, its high surrogate being below U+E000. */
  lemma CodeUnitOrderDiffersFromCodePointOrder()
    ensures LexLe("\U{E000}", "\U{1F600}") && !LexLe("\U{1F600}", "\U{E000}")
    ensures IgnoreCaseLe("\U{1F600}", "\U{E000}") && !IgnoreCaseLe("\U{E000}", "\U{1F600}")
  {
  }

  predicate StartsWith(s: string, prefix: string) {
    |prefix| <= |s| && s[..|prefix|] == prefix
  }

  /** String.contains. */
  predicate Contains(s: string, sub: string) {
    StartsWith(s, sub) || (s != [] && Contains(s[1..], sub))
  }

  /** sub occurs in s starting at index i. */
  predicate OccursAt(s: string, sub: string, i: int) {
    0 <= i <= |s| - |sub| && s[i..i + |sub|] == sub
  }

  /** Contains agrees with "sub occurs at some index of s". */
  lemma {:induction false} ContainsMeansOccurs(s: string, sub: string)
    ensures Contains(s, sub) <==> exists i :: OccursAt(s, sub, i)
  {
    if StartsWith(s, sub) {
      assert OccursAt(s, sub, 0);
    }
    if s != [] {
      ContainsMeansOccurs(s[1..], sub);
      if Contains(s[1..], sub) {
        var i :| OccursAt(s[1..], sub, i);
        assert s[i + 1..i + 1 + |sub|] == s[1..][i..i + |sub|];
        assert OccursAt(s, sub, i + 1);
      }
      if exists i :: OccursAt(s, sub, i) {
        var i :| OccursAt(s, sub, i);
        if i > 0 {
          assert s[1..][i - 1..i - 1 + |sub|] == s[i..i + |sub|];
          assert OccursAt(s[1..], sub, i - 1);
        }
      }
    } else if exists i :: OccursAt(s, sub, i) {
      var i :| OccursAt(s, sub, i);
      assert i == 0;
    }
  }

  function DigitChar(d: nat): (c: char)
    requires d < 10
    ensures IsAsciiDigit(c) && c as int - '0' as int == d
  {
    ('0' as int + d) as char
  }

  /** Decimal rendering of a natural number without leading zeros. */
  function NatToString(n: nat): (r: string)
    ensures r != [] && AllDigits(r)
    ensures |r| > 1 ==> r[0] != '0'
  {
    if n < 10 then [DigitChar(n)] else NatToString(n / 10) + [DigitChar(n % 10)]
  }

  /** String.valueOf(int). */
  function IntToString(n: int): (r: string)
    ensures r != []
    ensures forall i | 0 <= i < |r| :: IsAsciiDigit(r[i]) || (i == 0 && r[i] == '-')
  {
    if n < 0 then "-" + NatToString(-n) else NatToString(n)
  }

  /** The value of a string of decimal digits. */
  function DigitsValue(s: string): nat
    requires AllDigits(s)
  {
    if s == [] then 0 else 10 * DigitsValue(s[..|s| - 1]) + (s[|s| - 1] as int - '0' as int)
  }

  /** Reading the decimal rendering back gives the number. */
  lemma {:induction false} NatToStringRoundTrip(n: nat)
    ensures DigitsValue(NatToString(n)) == n
  {
    var r := NatToString(n);
    if n >= 10 {
      NatToStringRoundTrip(n / 10);
      assert r[..|r| - 1] == NatToString(n / 10);
    }
  }
}
