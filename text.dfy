/**
 * Character- and string-level primitives of JavaScript that the parser relies on:
 * the whitespace class shared by the regular-expression escape `\s` and by
 * `String.prototype.trim`, ASCII case folding for case-insensitive literals,
 * runs of characters of one class, the UTF-16 length of a string and the decimal
 * rendering of a number in a template literal.
 *
 * A string is a sequence of Unicode scalar values.
 */
module Text {

  /** The WhiteSpace and LineTerminator code points of ECMA-262: what `\s` matches and
      what `trim` removes. */
  predicate IsSpace(c: char) {
    || c == '\t' || c == '\n' || c == '\U{000B}' || c == '\U{000C}' || c == '\r' || c == ' '
    || c == '\U{00A0}' || c == '\U{1680}' || ('\U{2000}' <= c <= '\U{200A}')
    || c == '\U{2028}' || c == '\U{2029}' || c == '\U{202F}' || c == '\U{205F}'
    || c == '\U{3000}' || c == '\U{FEFF}'
  }

  /** The character classes that occur in the parser's regular expressions. */
  datatype CharClass =
    | Space             // the escape \s
    | NotStar           // every character but '*'
    | NotSpaceOrStar    // every character but \s, '\n' and '*'
    | NotNewlineOrStar  // every character but '\n' and '*'

  predicate InClass(cls: CharClass, c: char) {
    match cls
    case Space => IsSpace(c)
    case NotStar => c != '*'
    case NotSpaceOrStar => !IsSpace(c) && c != '*'
    case NotNewlineOrStar => c != '\n' && c != '*'
  }

  /** Every character of s[i..j] belongs to the class. */
  predicate AllIn(cls: CharClass, s: string, i: nat, j: nat) {
    i <= j <= |s| && forall k :: i <= k < j ==> InClass(cls, s[k])
  }

  /** The end of the longest run of characters of the class that starts at i: where a
      greedy quantifier over the class stops. */
  function Span(cls: CharClass, s: string, i: nat): (r: nat)
    requires i <= |s|
    ensures AllIn(cls, s, i, r)
    ensures r == |s| || !InClass(cls, s[r])
    decreases |s| - i
  {
    if i == |s| || !InClass(cls, s[i]) then i else Span(cls, s, i + 1)
  }

  /** No run of the class starting at i reaches beyond Span. */
  lemma SpanIsLongest(cls: CharClass, s: string, i: nat, j: nat)
    requires i <= |s| && AllIn(cls, s, i, j)
    ensures j <= Span(cls, s, i)
  {
  }

  /** A run of the class that is followed by a character outside it (or by the end) is
      the longest one. */
  lemma SpanAt(cls: CharClass, s: string, i: nat, j: nat)
    requires i <= |s| && AllIn(cls, s, i, j)
    requires j == |s| || !InClass(cls, s[j])
    ensures Span(cls, s, i) == j
  {
    SpanIsLongest(cls, s, i, j);
  }

  /** ASCII lower-casing. A regular expression with the `i` flag and without the `u` flag
      folds case through `toUpperCase`, but never maps a non-ASCII character to an ASCII
      one, so for the ASCII literals of the parser this is the whole of its case folding. */
  function Lower(c: char): (r: char)
    ensures 'a' <= r <= 'z' ==> c == r || c == (r as int - 32) as char
    ensures !('A' <= c <= 'Z') ==> r == c
  {
    if 'A' <= c <= 'Z' then (c as int + 32) as char else c
  }

  /** The literal lit occurs in s at position i. */
  predicate LiteralAt(s: string, i: nat, lit: string) {
    i + |lit| <= |s| && forall k :: 0 <= k < |lit| ==> s[i + k] == lit[k]
  }

  /** The lower-case literal lit occurs in s at position i, ignoring ASCII case. */
  predicate LiteralAtCI(s: string, i: nat, lit: string) {
    i + |lit| <= |s| && forall k :: 0 <= k < |lit| ==> Lower(s[i + k]) == lit[k]
  }

  /** s without its leading spaces. */
  function TrimStart(s: string): string
  {
    if s != [] && IsSpace(s[0]) then TrimStart(s[1..]) else s
  }

  /** s without its trailing spaces. */
  function TrimEnd(s: string): string
  {
    if s != [] && IsSpace(s[|s| - 1]) then TrimEnd(s[..|s| - 1]) else s
  }

  /** `String.prototype.trim`: s without its leading and trailing spaces. */
  function Trim(s: string): string {
    TrimEnd(TrimStart(s))
  }

  /** TrimStart removes exactly the leading run of spaces. */
  lemma {:induction false} TrimStartSpec(s: string)
    ensures |TrimStart(s)| <= |s| && TrimStart(s) == s[|s| - |TrimStart(s)|..]
    ensures AllIn(Space, s, 0, |s| - |TrimStart(s)|)
    ensures TrimStart(s) != [] ==> !IsSpace(TrimStart(s)[0])
  {
    if s != [] && IsSpace(s[0]) {
      TrimStartSpec(s[1..]);
      assert s[1..][|s| - 1 - |TrimStart(s[1..])|..] == s[|s| - |TrimStart(s)|..];
      assert forall k :: 1 <= k < |s| ==> s[k] == s[1..][k - 1];
    }
  }

  /** TrimEnd removes exactly the trailing run of spaces. */
  lemma {:induction false} TrimEndSpec(s: string)
    ensures |TrimEnd(s)| <= |s| && TrimEnd(s) == s[..|TrimEnd(s)|]
    ensures AllIn(Space, s, |TrimEnd(s)|, |s|)
    ensures TrimEnd(s) != [] ==> !IsSpace(TrimEnd(s)[|TrimEnd(s)| - 1])
  {
    if s != [] && IsSpace(s[|s| - 1]) {
      var t := s[..|s| - 1];
      TrimEndSpec(t);
      assert t[..|TrimEnd(t)|] == s[..|TrimEnd(s)|];
      assert forall k :: 0 <= k < |t| ==> s[k] == t[k];
    }
  }

  /** Trim removes only spaces, and all the leading and trailing ones: the result is an
      infix of s whose cut-off ends are spaces, and it neither starts nor ends with one. */
  lemma TrimSpec(s: string)
    ensures exists i, j :: 0 <= i <= j <= |s| && Trim(s) == s[i..j] && AllIn(Space, s, 0, i) && AllIn(Space, s, j, |s|)
    ensures Trim(s) != [] ==> !IsSpace(Trim(s)[0]) && !IsSpace(Trim(s)[|Trim(s)| - 1])
    ensures Trim(s) == [] <==> AllIn(Space, s, 0, |s|)
    ensures forall c :: c in Trim(s) ==> c in s
  {
    var t := TrimStart(s);
    TrimStartSpec(s);
    TrimEndSpec(t);
    var i := |s| - |t|;
    var j := i + |TrimEnd(t)|;
    assert Trim(s) == s[i..j];
    assert forall k :: j <= k < |s| ==> s[k] == t[k - i];
    assert AllIn(Space, s, j, |s|);
    if Trim(s) != [] {
      assert Trim(s)[0] == t[0];
    }
    forall c | c in s[i..j] ensures c in s {
      var k :| 0 <= k < j - i && s[i..j][k] == c;
      assert s[i + k] == c;
    }
  }

  /** A string without spaces is its own trim. */
  lemma TrimNoSpace(s: string)
    requires forall k :: 0 <= k < |s| ==> !IsSpace(s[k])
    ensures Trim(s) == s
  {
    assert TrimStart(s) == s;
  }

  /** The length of s in UTF-16 code units, which is what `length` of a JavaScript string
      counts: a code point outside the Basic Multilingual Plane takes two. */
  function Utf16Length(s: string): (r: nat)
    ensures |s| <= r <= 2 * |s|
  {
    if s == [] then 0 else (if s[0] as int >= 0x1_0000 then 2 else 1) + Utf16Length(s[1..])
  }

  /** A string of characters of the Basic Multilingual Plane has one code unit per
      character. */
  lemma {:induction false} Utf16LengthOfBmp(s: string)
    requires forall k :: 0 <= k < |s| ==> s[k] as int < 0x1_0000
    ensures Utf16Length(s) == |s|
  {
    if s != [] {
      Utf16LengthOfBmp(s[1..]);
    }
  }

  /** The code units of a concatenation are those of its parts. */
  lemma {:induction false} Utf16LengthConcat(a: string, b: string)
    ensures Utf16Length(a + b) == Utf16Length(a) + Utf16Length(b)
  {
    if a != [] {
      assert (a + b)[0] == a[0];
      assert (a + b)[1..] == a[1..] + b;
      Utf16LengthConcat(a[1..], b);
    } else {
      assert a + b == b;
    }
  }

  predicate IsDigit(c: char) {
    '0' <= c <= '9'
  }

  function DigitChar(d: nat): (c: char)
    requires d < 10
    ensures IsDigit(c) && c as int - '0' as int == d
  {
    ('0' as int + d) as char
  }

  function DigitValue(c: char): (d: nat)
    requires IsDigit(c)
    ensures d < 10
  {
    c as int - '0' as int
  }

  /** The decimal rendering of n, as a template literal renders an integer. */
  function NatToString(n: nat): (r: string)
    ensures |r| >= 1
    ensures forall k :: 0 <= k < |r| ==> IsDigit(r[k])
    ensures n > 0 ==> r[0] != '0'
  {
    if n < 10 then [DigitChar(n)] else NatToString(n / 10) + [DigitChar(n % 10)]
  }

  /** The number a string of decimal digits denotes. */
  function DecimalValue(r: string): nat
    requires forall k :: 0 <= k < |r| ==> IsDigit(r[k])
  {
    if r == [] then 0 else 10 * DecimalValue(r[..|r| - 1]) + DigitValue(r[|r| - 1])
  }

  /** Reading the rendering of n back gives n. */
  lemma {:induction false} DecimalRoundTrip(n: nat)
    ensures DecimalValue(NatToString(n)) == n
  {
    var r := NatToString(n);
    if n >= 10 {
      DecimalRoundTrip(n / 10);
      assert r[..|r| - 1] == NatToString(n / 10);
    }
  }

  /** Distinct numbers render differently, so placeholder titles never collide. */
  lemma NatToStringInjective(m: nat, n: nat)
    requires NatToString(m) == NatToString(n)
    ensures m == n
  {
    DecimalRoundTrip(m);
    DecimalRoundTrip(n);
  }
}
