/**
 * `cleanMarkdown`: a fixed pipeline of global regular-expression
 * replacements that strips Markdown markup from a journal page and keeps
 * plain text and line breaks. Each pass is a left-to-right scan that, at every
 * position, either finds a match of its pattern there (and emits the
 * replacement) or copies one character, exactly as `String.prototype.replace`
 * with a global expression proceeds. The patterns are implemented by hand,
 * one matcher per expression.
 */
module Markdown {
  import opened Common
  import opened Strings

  /** A match found at the start of the remaining input: how many characters it consumes and what replaces them. */
  datatype Hit = Hit(len: nat, replacement: string)

  /**
   * A matcher looks at the remaining input and at whether its first character
   * starts a line, which is where a multiline `^` matches.
   */
  type Matcher = (string, bool) -> Option<Hit>

  /** The match is usable: it consumes at least one and at most the remaining characters. */
  predicate Fits(h: Option<Hit>, s: string) {
    h.Some? && 0 < h.value.len <= |s|
  }

  /** The characters one step of the scan consumes: a whole match, or else one character. */
  function Consumed(s: string, lineStart: bool, m: Matcher): (n: nat)
    requires |s| > 0
    ensures 0 < n <= |s|
  {
    if Fits(m(s, lineStart), s) then m(s, lineStart).value.len else 1
  }

  /** What one step of the scan emits: the replacement of a match, or else the character copied. */
  function Emitted(s: string, lineStart: bool, m: Matcher): string
    requires |s| > 0
  {
    if Fits(m(s, lineStart), s) then m(s, lineStart).value.replacement else [s[0]]
  }

  /**
   * `s.replace(pattern, replacement)` for a global pattern whose matcher is
   * `m`. The scan goes on right after what it consumed; the next position
   * starts a line when the last character consumed ends one.
   */
  function Rewrite(s: string, lineStart: bool, m: Matcher): string
    decreases |s|
  {
    if |s| == 0 then ""
    else Emitted(s, lineStart, m) + Rewrite(s[Consumed(s, lineStart, m)..], IsLineTerminator(s[Consumed(s, lineStart, m) - 1]), m)
  }

  /** A matcher that finds nothing anywhere leaves the text as it is. */
  lemma {:induction false} RewriteNoMatch(s: string, lineStart: bool, m: Matcher)
    requires forall i, b :: 0 <= i < |s| ==> m(s[i..], b).None?
    ensures Rewrite(s, lineStart, m) == s
    decreases |s|
  {
    if |s| > 0 {
      assert s[0..] == s;
      assert forall i, b :: 0 <= i < |s| - 1 ==> m(s[1..][i..], b) == m(s[i + 1..], b) by {
        forall i | 0 <= i < |s| - 1
          ensures s[1..][i..] == s[i + 1..]
        {
        }
      }
      RewriteNoMatch(s[1..], IsLineTerminator(s[0]), m);
    }
  }

  /** A match at the start is replaced, and the scan resumes after it. */
  lemma RewriteHit(s: string, lineStart: bool, m: Matcher, h: Hit)
    requires m(s, lineStart) == Some(h) && 0 < h.len <= |s|
    ensures Rewrite(s, lineStart, m) == h.replacement + Rewrite(s[h.len..], IsLineTerminator(s[h.len - 1]), m)
  {
  }

  /** A match that covers the whole text leaves only its replacement. */
  lemma RewriteWhole(s: string, lineStart: bool, m: Matcher, r: string)
    requires |s| > 0 && m(s, lineStart) == Some(Hit(|s|, r))
    ensures Rewrite(s, lineStart, m) == r
  {
    RewriteHit(s, lineStart, m, Hit(|s|, r));
    assert s[|s|..] == "";
  }

  /** Without a match at the start, the first character is copied. */
  lemma RewriteMiss(s: string, lineStart: bool, m: Matcher)
    requires |s| > 0 && m(s, lineStart).None?
    ensures Rewrite(s, lineStart, m) == [s[0]] + Rewrite(s[1..], IsLineTerminator(s[0]), m)
  {
  }

  // ---- character classes used by the patterns ----

  predicate IsNewline(c: char) { c == '\n' }
  predicate IsHash(c: char) { c == '#' }
  predicate NotCloseBracket(c: char) { c != ']' }
  predicate NotCloseParen(c: char) { c != ')' }
  predicate NotBacktick(c: char) { c != '`' }

  /** The list-marker class `[-*]`. */
  predicate IsBullet(c: char) { c == '-' || c == '*' }

  // ---- `/!\[.*?\]\(.*?\)/g` -> "" ----

  /** Where the lazy `.*?` before `](` stops: the first `](` on the line. */
  function ImageMiddle(s: string): Option<nat>
    requires |s| >= 2
  {
    FindFrom(s, 2, "](", true)
  }

  /** The closing `)` after the first `](`: the first `)` on the line after it. */
  function ImageClose(s: string): Option<nat>
    requires |s| >= 2 && ImageMiddle(s).Some?
  {
    FindFrom(s, ImageMiddle(s).value + 2, ")", true)
  }

  /**
   * An image `![alt](url)` on one line. The first `](` is the only candidate
   * worth trying: a later one on the same line cannot reach a `)` that the
   * first cannot reach too.
   */
  function ImageHit(s: string, lineStart: bool): (r: Option<Hit>)
    ensures r.Some? ==> StartsWith(s, "![") && r.value.replacement == ""
    ensures r.Some? ==> 5 <= r.value.len <= |s| && s[r.value.len - 1] == ')' && LineFree(s, 2, r.value.len - 1)
  {
    if |s| >= 2 && s[0] == '!' && s[1] == '[' && ImageMiddle(s).Some? && ImageClose(s).Some?
    then
      var m := ImageMiddle(s).value;
      assert s[m..m + 2] == "](";
      assert s[m] == s[m..m + 2][0] && s[m + 1] == s[m..m + 2][1];
      Some(Hit(ImageClose(s).value + 1, ""))
    else None
  }

  function StripImages(s: string): string {
    Rewrite(s, true, ImageHit)
  }

  // ---- `/\[([^\]]+)\]\([^)]+\)/g` -> "$1" ----

  /** The index of the `]` that ends the link text (or the end of the input). */
  function LinkTextEnd(s: string): (t: nat)
    requires |s| >= 1
    ensures 1 <= t <= |s|
  {
    1 + Span(s, 1, NotCloseBracket)
  }

  /** The index of the `)` that ends the link target (or the end of the input). */
  function LinkUrlEnd(s: string): (u: nat)
    requires |s| >= 1 && LinkTextEnd(s) + 2 <= |s|
    ensures LinkTextEnd(s) + 2 <= u <= |s|
  {
    LinkTextEnd(s) + 2 + Span(s, LinkTextEnd(s) + 2, NotCloseParen)
  }

  /**
   * A link `[text](url)`: both parts non-empty, the text without `]`, the
   * target without `)`; both may span lines. The greedy classes never give
   * back a character, since the character after each run is the only one
   * that can close it.
   */
  function LinkHit(s: string, lineStart: bool): (r: Option<Hit>)
    ensures r.Some? ==> |s| > 0 && s[0] == '['
    ensures r.Some? ==> var t := |r.value.replacement| + 1;
                        && t >= 2 && t + 3 <= r.value.len <= |s|
                        && r.value.replacement == s[1..t] && NoneOf(r.value.replacement, ']')
                        && s[t] == ']' && s[t + 1] == '(' && s[r.value.len - 1] == ')'
                        && NoneOf(s[t + 2..r.value.len - 1], ')') && r.value.len > t + 3
  {
    if |s| >= 1 && s[0] == '[' && LinkTextEnd(s) >= 2 && LinkTextEnd(s) + 2 < |s|
       && s[LinkTextEnd(s)] == ']' && s[LinkTextEnd(s) + 1] == '('
       && LinkUrlEnd(s) > LinkTextEnd(s) + 2 && LinkUrlEnd(s) < |s|
    then
      assert forall i :: 1 <= i < LinkTextEnd(s) ==> s[1..LinkTextEnd(s)][i - 1] == s[i];
      assert forall i :: LinkTextEnd(s) + 2 <= i < LinkUrlEnd(s) ==> s[LinkTextEnd(s) + 2..LinkUrlEnd(s)][i - LinkTextEnd(s) - 2] == s[i];
      Some(Hit(LinkUrlEnd(s) + 1, s[1..LinkTextEnd(s)]))
    else None
  }

  function StripLinks(s: string): string {
    Rewrite(s, true, LinkHit)
  }

  // ---- `/(\*\*|__)(.*?)\1/g` -> "$2" and `/(\*|_)(.*?)\1/g` -> "$2" ----

  /** The first repetition of the opening delimiter `d` on the same line, after it. */
  function DelimitedClose(s: string, d: string): Option<nat>
    requires |d| <= |s|
  {
    FindFrom(s, |d|, d, true)
  }

  /**
   * Text between a delimiter `d` and its next repetition on the same line,
   * for one of the alternatives of `(\*\*|__)` or `(\*|_)`. When the first
   * alternative opens but does not close, the second cannot open at all, so
   * trying them in order is the same as trying the one that opens.
   */
  function DelimitedHit(s: string, d: string): (r: Option<Hit>)
    requires |d| > 0
    ensures r.Some? ==> StartsWith(s, d) && 2 * |d| <= r.value.len <= |s|
    ensures r.Some? ==> r.value.replacement == s[|d|..r.value.len - |d|] && OccursAt(s, d, r.value.len - |d|)
    ensures r.Some? ==> LineFree(s, |d|, r.value.len - |d|)
  {
    if |d| <= |s| && s[..|d|] == d && DelimitedClose(s, d).Some?
    then Some(Hit(DelimitedClose(s, d).value + |d|, s[|d|..DelimitedClose(s, d).value]))
    else None
  }

  function BoldHit(s: string, lineStart: bool): Option<Hit> {
    if StartsWith(s, "**") then DelimitedHit(s, "**") else DelimitedHit(s, "__")
  }

  function ItalicHit(s: string, lineStart: bool): Option<Hit> {
    if StartsWith(s, "*") then DelimitedHit(s, "*") else DelimitedHit(s, "_")
  }

  function StripBold(s: string): string {
    Rewrite(s, true, BoldHit)
  }

  function StripItalic(s: string): string {
    Rewrite(s, true, ItalicHit)
  }

  // ---- "/```[\s\S]*?```/g" -> "" ----

  /** A fenced block from ``` to the next ```, across lines. */
  function CodeBlockHit(s: string, lineStart: bool): (r: Option<Hit>)
    ensures r.Some? ==> StartsWith(s, "```") && r.value.replacement == ""
    ensures r.Some? ==> 6 <= r.value.len <= |s| && OccursAt(s, "```", r.value.len - 3)
  {
    if |s| >= 3 && s[..3] == "```" && FindFrom(s, 3, "```", false).Some?
    then Some(Hit(FindFrom(s, 3, "```", false).value + 3, ""))
    else None
  }

  function StripCodeBlocks(s: string): string {
    Rewrite(s, true, CodeBlockHit)
  }

  // ---- "/`([^`]+)`/g" -> "$1" ----

  /** The index of the backtick that closes inline code (or the end of the input). */
  function InlineCodeEnd(s: string): (e: nat)
    requires |s| >= 1
    ensures 1 <= e <= |s|
  {
    1 + Span(s, 1, NotBacktick)
  }

  /** Inline code: a backtick, at least one other character, a backtick. */
  function InlineCodeHit(s: string, lineStart: bool): (r: Option<Hit>)
    ensures r.Some? ==> |s| > 0 && s[0] == '`' && r.value.len >= 3
    ensures r.Some? ==> r.value.len <= |s| && s[r.value.len - 1] == '`'
    ensures r.Some? ==> r.value.replacement == s[1..r.value.len - 1] && NoneOf(r.value.replacement, '`')
  {
    if |s| >= 1 && s[0] == '`' && InlineCodeEnd(s) >= 2 && InlineCodeEnd(s) < |s|
    then
      assert forall i :: 1 <= i < InlineCodeEnd(s) ==> s[1..InlineCodeEnd(s)][i - 1] == s[i];
      Some(Hit(InlineCodeEnd(s) + 1, s[1..InlineCodeEnd(s)]))
    else None
  }

  function StripInlineCode(s: string): string {
    Rewrite(s, true, InlineCodeHit)
  }

  // ---- `/^#{1,6}\s+/gm` -> "" ----

  /**
   * A heading marker at the start of a line: one to six `#`, then whitespace,
   * which may include line breaks. With seven or more `#` the pattern fails:
   * after six the next character is `#`, not whitespace, and giving back a `#`
   * leaves a `#` there too.
   */
  function HeadingHit(s: string, lineStart: bool): (r: Option<Hit>)
    ensures r.Some? ==> lineStart && r.value.replacement == ""
    ensures r.Some? ==> var k := Span(s, 0, IsHash);
                        && 1 <= k <= 6 && k < r.value.len <= |s|
                        && AllWhitespace(s[k..r.value.len]) && (r.value.len == |s| || !IsWhitespace(s[r.value.len]))
  {
    if lineStart && 1 <= Span(s, 0, IsHash) <= 6 && Span(s, 0, IsHash) < |s| && IsWhitespace(s[Span(s, 0, IsHash)])
    then
      WhitespaceRun(s, Span(s, 0, IsHash));
      Some(Hit(Span(s, 0, IsHash) + Span(s, Span(s, 0, IsHash), IsWhitespace), ""))
    else None
  }

  function StripHeadings(s: string): string {
    Rewrite(s, true, HeadingHit)
  }

  // ---- `/^>\s+/gm` -> "" ----

  /** A quote marker at the start of a line: `>` and whitespace after it. */
  function QuoteHit(s: string, lineStart: bool): (r: Option<Hit>)
    ensures r.Some? ==> lineStart && r.value.replacement == "" && |s| > 1 && s[0] == '>'
    ensures r.Some? ==> 1 < r.value.len <= |s| && AllWhitespace(s[1..r.value.len])
    ensures r.Some? ==> r.value.len == |s| || !IsWhitespace(s[r.value.len])
  {
    if lineStart && |s| > 1 && s[0] == '>' && IsWhitespace(s[1])
    then
      WhitespaceRun(s, 1);
      Some(Hit(1 + Span(s, 1, IsWhitespace), ""))
    else None
  }

  function StripQuotes(s: string): string {
    Rewrite(s, true, QuoteHit)
  }

  // ---- `/^[\s]*[-*]\s+/gm` -> "" and `/^[\s]*\d+\.\s+/gm` -> "" ----

  /** The indentation in front of a list marker: the maximal whitespace run, which may cross line breaks. */
  function Indent(s: string): (w: nat)
    ensures w <= |s|
  {
    Span(s, 0, IsWhitespace)
  }

  /** The indentation in front of a list marker is all whitespace. */
  lemma IndentRun(s: string)
    ensures AllWhitespace(s[..Indent(s)])
  {
    WhitespaceRun(s, 0);
    assert s[0..Indent(s)] == s[..Indent(s)];
  }

  /**
   * A bullet marker at the start of a line: indentation, `-` or `*`, then
   * whitespace. The indentation never gives back a character, since a
   * whitespace character is not a marker.
   */
  function BulletHit(s: string, lineStart: bool): (r: Option<Hit>)
    ensures r.Some? ==> lineStart && r.value.replacement == ""
    ensures r.Some? ==> Indent(s) < |s| && IsBullet(s[Indent(s)]) && Indent(s) + 1 < r.value.len <= |s|
    ensures r.Some? ==> AllWhitespace(s[..Indent(s)]) && AllWhitespace(s[Indent(s) + 1..r.value.len])
    ensures r.Some? ==> r.value.len == |s| || !IsWhitespace(s[r.value.len])
  {
    if lineStart && Indent(s) + 1 < |s| && IsBullet(s[Indent(s)]) && IsWhitespace(s[Indent(s) + 1])
    then
      IndentRun(s);
      WhitespaceRun(s, Indent(s) + 1);
      Some(Hit(Indent(s) + 1 + Span(s, Indent(s) + 1, IsWhitespace), ""))
    else None
  }

  /** Where the digits of a numbered-list marker end. */
  function NumberEnd(s: string): (e: nat)
    ensures Indent(s) <= e <= |s|
  {
    Indent(s) + Span(s, Indent(s), IsDigit)
  }

  /** A numbered-list marker at the start of a line: indentation, digits, `.`, then whitespace. */
  function NumberedHit(s: string, lineStart: bool): (r: Option<Hit>)
    ensures r.Some? ==> lineStart && r.value.replacement == ""
    ensures r.Some? ==> Indent(s) < NumberEnd(s) && NumberEnd(s) + 1 < r.value.len <= |s| && s[NumberEnd(s)] == '.'
    ensures r.Some? ==> AllWhitespace(s[..Indent(s)]) && AllDigits(s[Indent(s)..NumberEnd(s)])
    ensures r.Some? ==> AllWhitespace(s[NumberEnd(s) + 1..r.value.len])
    ensures r.Some? ==> r.value.len == |s| || !IsWhitespace(s[r.value.len])
  {
    if lineStart && Indent(s) < NumberEnd(s) && NumberEnd(s) + 1 < |s| && s[NumberEnd(s)] == '.'
       && IsWhitespace(s[NumberEnd(s) + 1])
    then
      IndentRun(s);
      DigitRun(s, Indent(s));
      WhitespaceRun(s, NumberEnd(s) + 1);
      Some(Hit(NumberEnd(s) + 1 + Span(s, NumberEnd(s) + 1, IsWhitespace), ""))
    else None
  }

  function StripBullets(s: string): string {
    Rewrite(s, true, BulletHit)
  }

  function StripNumbers(s: string): string {
    Rewrite(s, true, NumberedHit)
  }

  // ---- `/\n{3,}/g` -> "\n\n" ----

  /** A run of three or more line feeds, taken whole. */
  function NewlinesHit(s: string, lineStart: bool): (r: Option<Hit>)
    ensures r.Some? ==> r.value.replacement == "\n\n" && r.value.len >= 3
    ensures r.Some? ==> r.value.len == Span(s, 0, IsNewline)
  {
    if Span(s, 0, IsNewline) >= 3 then Some(Hit(Span(s, 0, IsNewline), "\n\n")) else None
  }

  function CollapseNewlines(s: string): string {
    Rewrite(s, true, NewlinesHit)
  }

  // ---- the pipeline ----

  /** Every pass before the newline collapse, in source order. */
  function StripMarkup(text: string): string {
    StripNumbers(StripBullets(StripQuotes(StripHeadings(StripInlineCode(StripCodeBlocks(
      StripItalic(StripBold(StripLinks(StripImages(text))))))))))
  }

  /** No three line feeds in a row. */
  predicate NoTripleNewline(s: string) {
    forall i :: 0 <= i < |s| - 2 ==> !(s[i] == '\n' && s[i + 1] == '\n' && s[i + 2] == '\n')
  }

  /** `cleanMarkdown(text)`: the result is trimmed and never holds three line feeds in a row. */
  function CleanMarkdown(text: string): (r: string)
    ensures IsTrimmed(r) && NoTripleNewline(r)
  {
    CollapseShape(StripMarkup(text), true);
    TrimKeepsNoTriple(CollapseNewlines(StripMarkup(text)));
    Trim(CollapseNewlines(StripMarkup(text)))
  }

  // ---- the newline collapse leaves no triple line feed ----

  /** Two texts without a triple line feed, whose line feeds at the seam number at most two, join without one. */
  lemma NoTripleConcat(a: string, b: string)
    requires NoTripleNewline(a) && NoTripleNewline(b)
    requires BackSpan(a, |a|, IsNewline) + Span(b, 0, IsNewline) <= 2
    ensures NoTripleNewline(a + b)
  {
    var s := a + b;
    forall i | 0 <= i < |s| - 2
      ensures !(s[i] == '\n' && s[i + 1] == '\n' && s[i + 2] == '\n')
    {
      if i + 2 < |a| {
        assert s[i] == a[i] && s[i + 1] == a[i + 1] && s[i + 2] == a[i + 2];
      } else if i >= |a| {
        assert s[i] == b[i - |a|] && s[i + 1] == b[i + 1 - |a|] && s[i + 2] == b[i + 2 - |a|];
      } else {
        BackSpanCovers(a, |a|, IsNewline, |a| - i);
        SpanCovers(b, 0, IsNewline, i + 3 - |a|);
        assert forall k :: i <= k < |a| ==> s[k] == a[k];
        assert forall k :: 0 <= k < i + 3 - |a| ==> s[|a| + k] == b[k];
      }
    }
  }

  /** A part of a text without a triple line feed has none either. */
  lemma NoTripleInfix(s: string, i: nat, j: nat)
    requires i <= j <= |s| && NoTripleNewline(s)
    ensures NoTripleNewline(s[i..j])
  {
    var t := s[i..j];
    forall k | 0 <= k < |t| - 2
      ensures !(t[k] == '\n' && t[k + 1] == '\n' && t[k + 2] == '\n')
    {
      assert t[k] == s[i + k] && t[k + 1] == s[i + k + 1] && t[k + 2] == s[i + k + 2];
    }
  }

  lemma TrimKeepsNoTriple(s: string)
    requires NoTripleNewline(s)
    ensures NoTripleNewline(Trim(s))
  {
    var i := TrimSplit(s);
    NoTripleInfix(s, i, i + |Trim(s)|);
  }

  /** The number of line feeds a run of `n` leaves after the collapse. */
  function Capped(n: nat): nat {
    if n >= 3 then 2 else n
  }

  /**
   * The collapse leaves no triple line feed, and turns the leading run of
   * line feeds into at most two of them.
   */
  lemma {:induction false} CollapseShape(s: string, lineStart: bool)
    ensures NoTripleNewline(Rewrite(s, lineStart, NewlinesHit))
    ensures Span(Rewrite(s, lineStart, NewlinesHit), 0, IsNewline) == Capped(Span(s, 0, IsNewline))
    decreases |s|
  {
    if |s| > 0 {
      var n := Span(s, 0, IsNewline);
      if n >= 3 {
        RewriteHit(s, lineStart, NewlinesHit, Hit(n, "\n\n"));
        CollapseShape(s[n..], true);
        SpanShift(s, n, IsNewline);
        CollapseRunSeam(Rewrite(s[n..], true, NewlinesHit));
      } else if s[0] == '\n' {
        RewriteMiss(s, lineStart, NewlinesHit);
        CollapseShape(s[1..], true);
        SpanShift(s, 1, IsNewline);
        CollapseShortSeam(Rewrite(s[1..], true, NewlinesHit));
      } else {
        RewriteMiss(s, lineStart, NewlinesHit);
        CollapseShape(s[1..], IsLineTerminator(s[0]));
        CollapseOtherSeam(s[0], Rewrite(s[1..], IsLineTerminator(s[0]), NewlinesHit));
      }
    }
  }

  /** Two line feeds before text that does not start with one. */
  lemma CollapseRunSeam(r: string)
    requires NoTripleNewline(r) && Span(r, 0, IsNewline) == 0
    ensures NoTripleNewline("\n\n" + r) && Span("\n\n" + r, 0, IsNewline) == 2
  {
    assert BackSpan("\n\n", 2, IsNewline) == 2;
    NoTripleConcat("\n\n", r);
    assert |r| > 0 ==> ("\n\n" + r)[2] == r[0];
    SpanUnique("\n\n" + r, 0, IsNewline, 2);
  }

  /** One line feed before text that starts with at most one. */
  lemma CollapseShortSeam(r: string)
    requires NoTripleNewline(r) && Span(r, 0, IsNewline) <= 1
    ensures NoTripleNewline("\n" + r) && Span("\n" + r, 0, IsNewline) == 1 + Span(r, 0, IsNewline)
  {
    assert BackSpan("\n", 1, IsNewline) == 1;
    NoTripleConcat("\n", r);
    var m := Span(r, 0, IsNewline);
    assert forall k :: 1 <= k <= 1 + m && k < 1 + |r| ==> ("\n" + r)[k] == r[k - 1];
    SpanUnique("\n" + r, 0, IsNewline, 1 + m);
  }

  /** Another character before text that starts with at most two line feeds. */
  lemma CollapseOtherSeam(c: char, r: string)
    requires c != '\n' && NoTripleNewline(r) && Span(r, 0, IsNewline) <= 2
    ensures NoTripleNewline([c] + r) && Span([c] + r, 0, IsNewline) == 0
  {
    assert BackSpan([c], 1, IsNewline) == 0;
    NoTripleConcat([c], r);
  }
}
