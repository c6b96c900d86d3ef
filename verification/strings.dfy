/**
 * Character classes and string operations of the JavaScript runtime that the
 * modelled code relies on. A `char` is a Unicode scalar value, while a
 * JavaScript string is a sequence of UTF-16 code units: a character outside
 * the Basic Multilingual Plane (most emoji) is one element here and two in
 * `.length`, so lengths here count characters, not code units.
 */
module Strings {
  import opened Common

  /** The four characters after which a multiline `^` matches. */
  predicate IsLineTerminator(c: char) {
    c == '\n' || c == '\r' || c == '\U{2028}' || c == '\U{2029}'
  }

  /** The set matched by the regular-expression class `\s` and removed by `String.prototype.trim`. */
  predicate IsWhitespace(c: char) {
    || c == '\t' || c == '\U{B}' || c == '\U{C}' || c == ' ' || c == '\U{A0}' || c == '\U{FEFF}'
    || c == '\U{1680}' || ('\U{2000}' <= c <= '\U{200A}') || c == '\U{202F}' || c == '\U{205F}'
    || c == '\U{3000}' || IsLineTerminator(c)
  }

  /** The class `\d`: ASCII digits only. */
  predicate IsDigit(c: char) {
    '0' <= c <= '9'
  }

  predicate AllDigits(s: string) {
    forall i :: 0 <= i < |s| ==> IsDigit(s[i])
  }

  predicate AllWhitespace(s: string) {
    forall i :: 0 <= i < |s| ==> IsWhitespace(s[i])
  }

  /** No leading and no trailing whitespace. */
  predicate IsTrimmed(s: string) {
    s == [] || (!IsWhitespace(s[0]) && !IsWhitespace(s[|s| - 1]))
  }

  /** The character `c` does not occur in `s`. */
  predicate NoneOf(s: string, c: char) {
    forall i :: 0 <= i < |s| ==> s[i] != c
  }

  predicate StartsWith(s: string, prefix: string) {
    |prefix| <= |s| && s[..|prefix|] == prefix
  }

  predicate EndsWith(s: string, suffix: string) {
    |suffix| <= |s| && s[|s| - |suffix|..] == suffix
  }

  /** A concatenation starts with its first part and ends with its last. */
  lemma Affixes(a: string, b: string, c: string)
    ensures StartsWith(a + b + c, a) && EndsWith(a + b + c, c)
  {
    Parts(a, b, c);
  }

  /** Each part of a concatenation of three can be sliced back out. */
  lemma Parts(a: string, b: string, c: string)
    ensures (a + b + c)[..|a|] == a && (a + b + c)[|a|..|a| + |b|] == b && (a + b + c)[|a| + |b|..] == c
  {
  }

  /** `pat` occurs in `s` starting at index `i`. */
  predicate OccursAt(s: string, pat: string, i: int) {
    0 <= i && i + |pat| <= |s| && s[i..i + |pat|] == pat
  }

  /** No line terminator among `s[lo..hi]`. */
  predicate LineFree(s: string, lo: int, hi: int)
    requires 0 <= lo <= hi <= |s|
  {
    forall k :: lo <= k < hi ==> !IsLineTerminator(s[k])
  }

  /** Removes leading whitespace: the maximal whitespace run at the start. */
  function TrimStart(s: string): (r: string)
    ensures r == [] || !IsWhitespace(r[0])
  {
    s[Span(s, 0, IsWhitespace)..]
  }

  /** Removes trailing whitespace: the maximal whitespace run at the end. */
  function TrimEnd(s: string): (r: string)
    ensures r == [] || !IsWhitespace(r[|r| - 1])
  {
    s[..|s| - BackSpan(s, |s|, IsWhitespace)]
  }

  /** `String.prototype.trim`: leading and trailing whitespace removed. */
  function Trim(s: string): (r: string)
    ensures IsTrimmed(r)
  {
    TrimEnd(TrimStart(s))
  }

  /** What `Trim` keeps is an infix of the input, and everything it removes is whitespace. */
  lemma TrimIsInfix(s: string)
    ensures var r := Trim(s);
            exists i :: 0 <= i <= |s| - |r| && s[i..i + |r|] == r
                        && AllWhitespace(s[..i]) && AllWhitespace(s[i + |r|..])
  {
    var i := TrimSplit(s);
  }

  /** Where the part that `Trim` keeps starts. */
  lemma TrimSplit(s: string) returns (i: nat)
    ensures i + |Trim(s)| <= |s| && s[i..i + |Trim(s)|] == Trim(s)
    ensures AllWhitespace(s[..i]) && AllWhitespace(s[i + |Trim(s)|..])
  {
    i := Span(s, 0, IsWhitespace);
    var a := s[i..];
    var r := a[..|a| - BackSpan(a, |a|, IsWhitespace)];
    assert Trim(s) == r;
    LeadingRun(s);
    TrailingRun(a);
    InfixOfInfix(s, a, r, i);
  }

  lemma LeadingRun(s: string)
    ensures AllWhitespace(s[..Span(s, 0, IsWhitespace)])
  {
    var i := Span(s, 0, IsWhitespace);
    assert forall k :: 0 <= k < i ==> s[..i][k] == s[k];
  }

  lemma TrailingRun(a: string)
    ensures AllWhitespace(a[|a| - BackSpan(a, |a|, IsWhitespace)..])
  {
    var j := |a| - BackSpan(a, |a|, IsWhitespace);
    assert forall k :: 0 <= k < |a| - j ==> a[j..][k] == a[j + k];
  }

  /** A prefix `r` of a suffix `a` of `s` sits at `|s| - |a|`, with whitespace on both sides. */
  lemma InfixOfInfix(s: string, a: string, r: string, i: nat)
    requires |a| <= |s| && a == s[|s| - |a|..] && AllWhitespace(s[..|s| - |a|])
    requires |r| <= |a| && r == a[..|r|] && AllWhitespace(a[|r|..])
    requires i == |s| - |a|
    ensures i + |r| <= |s| && s[i..i + |r|] == r
    ensures AllWhitespace(s[..i]) && AllWhitespace(s[i + |r|..])
  {
    assert s[i..i + |r|] == a[..|r|];
    assert s[i + |r|..] == a[|r|..];
  }


  /** Trimming changes nothing exactly when the string is already trimmed. */
  lemma TrimIdentity(s: string)
    ensures Trim(s) == s <==> IsTrimmed(s)
  {
    if IsTrimmed(s) {
      assert Span(s, 0, IsWhitespace) == 0;
      assert TrimStart(s) == s;
      assert BackSpan(s, |s|, IsWhitespace) == 0;
    }
  }

  /** A string with a character that is not whitespace does not trim to nothing. */
  lemma TrimNonEmpty(s: string, k: nat)
    requires k < |s| && !IsWhitespace(s[k])
    ensures Trim(s) != []
  {
    var i := Span(s, 0, IsWhitespace);
    assert k >= i;
    var a := s[i..];
    assert a[k - i] == s[k];
    var n := BackSpan(a, |a|, IsWhitespace);
    assert k - i < |a| - n;
  }

  /**
   * The first index `j >= i` at which `pat` occurs; when `sameLine` holds the
   * search stops at a line terminator, as the lazy `.*?` of a regular
   * expression does. Models the left-to-right attempts of a lazy quantifier.
   */
  function FindFrom(s: string, i: nat, pat: string, sameLine: bool): (r: Option<nat>)
    requires i <= |s|
    ensures r.Some? ==> i <= r.value && OccursAt(s, pat, r.value)
    ensures r.Some? ==> forall j :: i <= j < r.value ==> !OccursAt(s, pat, j)
    ensures r.Some? && sameLine ==> LineFree(s, i, r.value)
    ensures r.None? ==> forall j :: i <= j && OccursAt(s, pat, j) ==> sameLine && !LineFree(s, i, j)
    decreases |s| - i
  {
    if i + |pat| > |s| then None
    else if s[i..i + |pat|] == pat then Some(i)
    else if sameLine && IsLineTerminator(s[i]) then None
    else FindFrom(s, i + 1, pat, sameLine)
  }

  /** The search finds `j` when `pat` occurs there, nowhere earlier, and (on one line) nothing breaks the line before it. */
  lemma FindFromAt(s: string, i: nat, pat: string, sameLine: bool, j: nat)
    requires i <= j && OccursAt(s, pat, j)
    requires forall k :: i <= k < j ==> !OccursAt(s, pat, k)
    requires sameLine ==> LineFree(s, i, j)
    ensures FindFrom(s, i, pat, sameLine) == Some(j)
  {
  }

  /** `s.includes(pat)`. */
  predicate Includes(s: string, pat: string) {
    FindFrom(s, 0, pat, false).Some?
  }

  lemma IncludesMeansOccurs(s: string, pat: string)
    ensures Includes(s, pat) <==> exists j :: OccursAt(s, pat, j)
  {
    if !Includes(s, pat) {
      forall j | OccursAt(s, pat, j)
        ensures false
      {
      }
    }
  }

  /** The length of the maximal run of characters satisfying `p` that starts at index `i`. */
  function Span(s: string, i: nat, p: char -> bool): (n: nat)
    requires i <= |s|
    ensures i + n <= |s|
    ensures forall k :: i <= k < i + n ==> p(s[k])
    ensures i + n == |s| || !p(s[i + n])
    decreases |s| - i
  {
    if i < |s| && p(s[i]) then 1 + Span(s, i + 1, p) else 0
  }

  /** The length of the maximal run of characters satisfying `p` that ends just before index `j`. */
  function BackSpan(s: string, j: nat, p: char -> bool): (n: nat)
    requires j <= |s|
    ensures n <= j
    ensures forall k :: j - n <= k < j ==> p(s[k])
    ensures n == j || !p(s[j - n - 1])
    decreases j
  {
    if j > 0 && p(s[j - 1]) then 1 + BackSpan(s, j - 1, p) else 0
  }

  /** The maximal run is determined by its two defining properties. */
  lemma {:induction false} SpanUnique(s: string, i: nat, p: char -> bool, n: nat)
    requires i + n <= |s|
    requires forall k :: i <= k < i + n ==> p(s[k])
    requires i + n == |s| || !p(s[i + n])
    ensures Span(s, i, p) == n
    decreases n
  {
    if n > 0 {
      SpanUnique(s, i + 1, p, n - 1);
    }
  }

  /** The maximal run ending at `j` is determined by its two defining properties. */
  lemma {:induction false} BackSpanUnique(s: string, j: nat, p: char -> bool, n: nat)
    requires n <= j <= |s|
    requires forall k :: j - n <= k < j ==> p(s[k])
    requires n == j || !p(s[j - n - 1])
    ensures BackSpan(s, j, p) == n
    decreases n
  {
    if n > 0 {
      BackSpanUnique(s, j - 1, p, n - 1);
    }
  }

  /** The run of `p` in `pre + a + post` from the start of `a` is `a`, when `a` is all `p` and `post` does not start with `p`. */
  lemma SpanOfRun(pre: string, a: string, post: string, p: char -> bool)
    requires forall k :: 0 <= k < |a| ==> p(a[k])
    requires post == [] || !p(post[0])
    ensures Span(pre + a + post, |pre|, p) == |a|
  {
    var s := pre + a + post;
    assert forall k :: |pre| <= k < |pre| + |a| ==> s[k] == a[k - |pre|];
    assert |pre| + |a| < |s| ==> s[|pre| + |a|] == post[0];
    SpanUnique(s, |pre|, p, |a|);
  }

  /** The maximal whitespace run from `i` is all whitespace. */
  lemma WhitespaceRun(s: string, i: nat)
    requires i <= |s|
    ensures AllWhitespace(s[i..i + Span(s, i, IsWhitespace)])
  {
    var t := s[i..i + Span(s, i, IsWhitespace)];
    forall k | 0 <= k < |t|
      ensures IsWhitespace(t[k])
    {
      assert t[k] == s[i + k];
    }
  }

  /** The maximal digit run from `i` is all digits. */
  lemma DigitRun(s: string, i: nat)
    requires i <= |s|
    ensures AllDigits(s[i..i + Span(s, i, IsDigit)])
  {
    var t := s[i..i + Span(s, i, IsDigit)];
    forall k | 0 <= k < |t|
      ensures IsDigit(t[k])
    {
      assert t[k] == s[i + k];
    }
  }

  /** The run from `i` in `s` is the run from 0 in the suffix `s[i..]`. */
  lemma SpanShift(s: string, i: nat, p: char -> bool)
    requires i <= |s|
    ensures Span(s[i..], 0, p) == Span(s, i, p)
  {
    var n := Span(s, i, p);
    assert forall k :: 0 <= k <= n && k < |s| - i ==> s[i..][k] == s[i + k];
    SpanUnique(s[i..], 0, p, n);
  }

  /** A stretch of characters satisfying `p` from `i` lies inside the maximal run from `i`. */
  lemma {:induction false} SpanCovers(s: string, i: nat, p: char -> bool, n: nat)
    requires i + n <= |s|
    ensures (forall k :: i <= k < i + n ==> p(s[k])) ==> Span(s, i, p) >= n
    decreases n
  {
    if n > 0 {
      SpanCovers(s, i + 1, p, n - 1);
    }
  }

  /** A stretch of characters satisfying `p` that ends at `j` lies inside the maximal run ending at `j`. */
  lemma {:induction false} BackSpanCovers(s: string, j: nat, p: char -> bool, n: nat)
    requires n <= j <= |s|
    ensures (forall k :: j - n <= k < j ==> p(s[k])) ==> BackSpan(s, j, p) >= n
    decreases n
  {
    if n > 0 {
      BackSpanCovers(s, j - 1, p, n - 1);
    }
  }

  /** A run that ends before `j` is the same run in the prefix `s[..j]`. */
  lemma SpanOfPrefix(s: string, j: nat, i: nat, p: char -> bool)
    requires i <= j <= |s| && i + Span(s, i, p) <= j
    ensures Span(s[..j], i, p) == Span(s, i, p)
  {
    var n := Span(s, i, p);
    assert forall k :: i <= k < i + n ==> s[..j][k] == s[k];
    assert i + n == j || s[..j][i + n] == s[i + n];
    SpanUnique(s[..j], i, p, n);
  }

  /** A run that ends inside `a` is the same run in `a + b`. */
  lemma SpanOfConcat(a: string, b: string, i: nat, p: char -> bool)
    requires i <= |a| && i + Span(a, i, p) < |a|
    ensures Span(a + b, i, p) == Span(a, i, p)
  {
    var n := Span(a, i, p);
    assert forall k :: i <= k <= i + n ==> (a + b)[k] == a[k];
    SpanUnique(a + b, i, p, n);
  }

  /** ASCII-only lower-casing: what a case-insensitive match against an ASCII pattern compares. */
  function LowerAscii(c: char): (r: char)
    ensures 'A' <= c <= 'Z' ==> 'a' <= r <= 'z' && r as int == c as int + 32
    ensures !('A' <= c <= 'Z') ==> r == c
  {
    if 'A' <= c <= 'Z' then (c as int + 32) as char else c
  }

  function LowerAsciiString(s: string): (r: string)
    ensures |r| == |s|
    ensures forall i :: 0 <= i < |s| ==> r[i] == LowerAscii(s[i])
  {
    seq(|s|, i requires 0 <= i < |s| => LowerAscii(s[i]))
  }

  /** The concatenation of a list of sequences, in order. */
  function Flatten<T>(xss: seq<seq<T>>): seq<T>
  {
    if |xss| == 0 then [] else xss[0] + Flatten(xss[1..])
  }

  lemma {:induction false} FlattenAppend<T>(a: seq<seq<T>>, b: seq<seq<T>>)
    ensures Flatten(a + b) == Flatten(a) + Flatten(b)
    decreases |a|
  {
    if |a| > 0 {
      assert (a + b)[1..] == a[1..] + b;
      FlattenAppend(a[1..], b);
    } else {
      assert a + b == b;
    }
  }

  /** `parts.join(sep)`. */
  function Join(parts: seq<string>, sep: string): string
  {
    if |parts| == 0 then ""
    else if |parts| == 1 then parts[0]
    else parts[0] + sep + Join(parts[1..], sep)
  }

  /** Joining one more part onto a non-empty list puts a separator in front of it. */
  lemma {:induction false} JoinSnoc(parts: seq<string>, last: string, sep: string)
    requires |parts| > 0
    ensures Join(parts + [last], sep) == Join(parts, sep) + sep + last
  {
    if |parts| == 1 {
      assert parts + [last] == [parts[0], last];
    } else {
      assert (parts + [last])[1..] == parts[1..] + [last];
      JoinSnoc(parts[1..], last, sep);
    }
  }

  /** Joining the concatenation of two non-empty lists joins the two joins. */
  lemma {:induction false} JoinConcat(a: seq<string>, b: seq<string>, sep: string)
    requires |a| > 0 && |b| > 0
    ensures Join(a + b, sep) == Join(a, sep) + sep + Join(b, sep)
    decreases |a|
  {
    if |a| == 1 {
      assert a + b == [a[0]] + b;
      assert ([a[0]] + b)[1..] == b;
    } else {
      assert (a + b)[1..] == a[1..] + b;
      JoinConcat(a[1..], b, sep);
    }
  }

  function DigitChar(d: nat): (c: char)
    requires d < 10
    ensures IsDigit(c)
  {
    ((('0' as int) + d) as char)
  }

  function DigitValue(c: char): (d: nat)
    requires IsDigit(c)
    ensures d < 10 && DigitChar(d) == c
  {
    (c as int) - ('0' as int)
  }

  /** The decimal numeral of `n`, as a template literal `${n}` renders an integer. */
  function Decimal(n: nat): (r: string)
    ensures |r| >= 1 && AllDigits(r)
    ensures n < 10 <==> |r| == 1
    decreases n
  {
    if n < 10 then [DigitChar(n)] else Decimal(n / 10) + [DigitChar(n % 10)]
  }

  /** The value of a string of decimal digits. */
  function ParseDecimal(ds: string): nat
    requires AllDigits(ds)
  {
    if |ds| == 0 then 0 else ParseDecimal(ds[..|ds| - 1]) * 10 + DigitValue(ds[|ds| - 1])
  }

  /** Reading back a rendered numeral gives the number. */
  lemma {:induction false} ParseDecimalInverse(n: nat)
    ensures ParseDecimal(Decimal(n)) == n
    decreases n
  {
    if n >= 10 {
      var d := Decimal(n);
      assert d[..|d| - 1] == Decimal(n / 10);
      ParseDecimalInverse(n / 10);
    }
  }

  /** Numbers below 1000 render in at most three digits. */
  lemma {:induction false} DecimalWidth(n: nat)
    requires n < 1000
    ensures |Decimal(n)| <= 3
  {
    if n >= 10 {
      if n / 10 >= 10 {
        assert (n / 10) / 10 < 10;
      }
    }
  }
}
