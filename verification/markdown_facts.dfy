/**
 * What each `cleanMarkdown` pass does to the construct it targets: the
 * matcher recognises the construct whole, and the pass replaces it as the
 * comment beside each expression says. The constructs are built from their
 * parts, with the parts restricted to what the usual Markdown spelling
 * allows (no closing delimiter inside, one line where the pattern needs it).
 */
module MarkdownFacts {
  import opened Common
  import opened Strings
  import opened Markdown

  /** No line terminator anywhere in `t`. */
  predicate OneLine(t: string) {
    LineFree(t, 0, |t|)
  }

  function Image(alt: string, url: string): string {
    "![" + alt + "](" + url + ")"
  }

  function Link(text: string, url: string): string {
    "[" + text + "](" + url + ")"
  }

  // ---- images ----

  /** The first `](` after `![` is at `m` when nothing before it closes a bracket or breaks the line. */
  lemma ImageMiddleAt(s: string, m: nat)
    requires 2 <= m && m + 2 <= |s| && s[m] == ']' && s[m + 1] == '('
    requires forall k :: 2 <= k < m ==> s[k] != ']' && !IsLineTerminator(s[k])
    ensures ImageMiddle(s) == Some(m)
  {
    forall k | 2 <= k < m
      ensures !OccursAt(s, "](", k)
    {
      assert s[k..k + 2][0] == s[k];
    }
    assert s[m..m + 2] == "](";
    FindFromAt(s, 2, "](", true, m);
  }

  /** The first `)` from `i` is at `c` when nothing before it breaks the line. */
  lemma CloseParenAt(s: string, i: nat, c: nat)
    requires i <= c < |s| && s[c] == ')'
    requires forall k :: i <= k < c ==> s[k] != ')' && !IsLineTerminator(s[k])
    ensures FindFrom(s, i, ")", true) == Some(c)
  {
    forall k | i <= k < c
      ensures !OccursAt(s, ")", k)
    {
      assert s[k..k + 1][0] == s[k];
    }
    assert s[c..c + 1] == ")";
    FindFromAt(s, i, ")", true, c);
  }

  /** The image matcher takes a whole `![alt](url)`, whatever follows it. */
  lemma ImageOf(alt: string, url: string, rest: string, b: bool)
    requires OneLine(alt) && OneLine(url) && NoneOf(alt, ']') && NoneOf(url, ')')
    ensures ImageHit(Image(alt, url) + rest, b) == Some(Hit(|Image(alt, url)|, ""))
  {
    var s := Image(alt, url) + rest;
    var m := 2 + |alt|;
    var c := m + 2 + |url|;
    assert forall k :: 2 <= k < m ==> s[k] == alt[k - 2];
    ImageMiddleAt(s, m);
    assert forall k :: m + 2 <= k < c ==> s[k] == url[k - m - 2];
    CloseParenAt(s, m + 2, c);
  }

  /** Removing images drops each `![alt](url)` entirely, alt text included. */
  lemma StripImageAhead(alt: string, url: string, rest: string, b: bool)
    requires OneLine(alt) && OneLine(url) && NoneOf(alt, ']') && NoneOf(url, ')')
    ensures Rewrite(Image(alt, url) + rest, b, ImageHit) == Rewrite(rest, false, ImageHit)
  {
    var img := Image(alt, url);
    ImageOf(alt, url, rest, b);
    RewriteHit(img + rest, b, ImageHit, Hit(|img|, ""));
    assert (img + rest)[|img|..] == rest;
  }

  // ---- links ----

  /** The link matcher takes a whole `[text](url)` and keeps `text`. */
  lemma LinkOf(text: string, url: string, rest: string, b: bool)
    requires |text| > 0 && |url| > 0 && NoneOf(text, ']') && NoneOf(url, ')')
    ensures LinkHit(Link(text, url) + rest, b) == Some(Hit(|Link(text, url)|, text))
  {
    var s := Link(text, url) + rest;
    var t := 1 + |text|;
    var u := t + 2 + |url|;
    assert forall k :: 1 <= k < t ==> s[k] == text[k - 1];
    LinkTextEndAt(s, t);
    assert forall k :: t + 2 <= k < u ==> s[k] == url[k - t - 2];
    LinkUrlEndAt(s, u);
    assert s[1..t] == text;
  }

  /** The link text ends at the first `]`. */
  lemma LinkTextEndAt(s: string, t: nat)
    requires 1 <= t < |s| && s[t] == ']'
    requires forall k :: 1 <= k < t ==> s[k] != ']'
    ensures LinkTextEnd(s) == t
  {
    SpanUnique(s, 1, NotCloseBracket, t - 1);
  }

  /** The link target ends at the first `)` after the `](`. */
  lemma LinkUrlEndAt(s: string, u: nat)
    requires |s| >= 1 && LinkTextEnd(s) + 2 <= u < |s| && s[u] == ')'
    requires forall k :: LinkTextEnd(s) + 2 <= k < u ==> s[k] != ')'
    ensures LinkUrlEnd(s) == u
  {
    SpanUnique(s, LinkTextEnd(s) + 2, NotCloseParen, u - LinkTextEnd(s) - 2);
  }

  /** Rewriting links replaces `[text](url)` by `text`. */
  lemma StripLinkAhead(text: string, url: string, rest: string, b: bool)
    requires |text| > 0 && |url| > 0 && NoneOf(text, ']') && NoneOf(url, ')')
    ensures Rewrite(Link(text, url) + rest, b, LinkHit) == text + Rewrite(rest, false, LinkHit)
  {
    var lnk := Link(text, url);
    LinkOf(text, url, rest, b);
    RewriteHit(lnk + rest, b, LinkHit, Hit(|lnk|, text));
    assert (lnk + rest)[|lnk|..] == rest;
  }

  /** `[text](url)` on its own becomes `text`, wherever it stands. */
  lemma LinkKeepsText(text: string, url: string, b: bool)
    requires |text| > 0 && |url| > 0 && NoneOf(text, ']') && NoneOf(url, ')')
    ensures Rewrite(Link(text, url), b, LinkHit) == text
  {
    StripLinkAhead(text, url, "", b);
    assert Link(text, url) + "" == Link(text, url);
  }

  /**
   * Images go before links: an image vanishes, while the link pass on its
   * own would have left its `!` and its alt text behind.
   */
  lemma ImagesBeforeLinks(alt: string, url: string)
    requires |alt| > 0 && |url| > 0 && OneLine(alt) && OneLine(url)
    requires NoneOf(alt, ']') && NoneOf(url, ')')
    ensures StripImages(Image(alt, url)) == ""
    ensures StripLinks(Image(alt, url)) == "!" + alt
  {
    ImageVanishes(alt, url);
    LinkLeavesAlt(alt, url);
  }

  lemma ImageVanishes(alt: string, url: string)
    requires OneLine(alt) && OneLine(url) && NoneOf(alt, ']') && NoneOf(url, ')')
    ensures StripImages(Image(alt, url)) == ""
  {
    StripImageAhead(alt, url, "", true);
    assert Image(alt, url) + "" == Image(alt, url);
  }

  lemma LinkLeavesAlt(alt: string, url: string)
    requires |alt| > 0 && |url| > 0 && NoneOf(alt, ']') && NoneOf(url, ')')
    ensures StripLinks(Image(alt, url)) == "!" + alt
  {
    var img := Image(alt, url);
    assert img == "!" + Link(alt, url);
    LinkAfterBang(Link(alt, url));
    LinkKeepsText(alt, url, false);
  }

  /** A `!` is copied by the link pass and does not start a line. */
  lemma LinkAfterBang(t: string)
    ensures Rewrite("!" + t, true, LinkHit) == "!" + Rewrite(t, false, LinkHit)
  {
    var s := "!" + t;
    assert s[0] == '!';
    RewriteMiss(s, true, LinkHit);
    assert s[1..] == t;
  }

  /** A page that is one image cleans to nothing. */
  lemma ImageCleansToNothing(alt: string, url: string)
    requires OneLine(alt) && OneLine(url) && NoneOf(alt, ']') && NoneOf(url, ')')
    ensures CleanMarkdown(Image(alt, url)) == ""
  {
    ImageVanishes(alt, url);
  }

  // ---- bold and italic ----

  /** A delimiter pair around text on one line that holds no delimiter character. */
  function Delimited(d: string, t: string): string {
    d + t + d
  }

  lemma DelimitedOf(d: string, t: string, rest: string)
    requires |d| > 0 && OneLine(t) && NoneOf(t, d[0])
    ensures DelimitedHit(Delimited(d, t) + rest, d) == Some(Hit(|Delimited(d, t)|, t))
  {
    var s := Delimited(d, t) + rest;
    var c := |d| + |t|;
    assert forall k :: |d| <= k < c ==> s[k] == t[k - |d|];
    assert s[..|d|] == d && s[c..c + |d|] == d;
    DelimitedCloseAt(s, d, c);
    assert s[|d|..c] == t;
  }

  /** The closing delimiter is the first one after the opening, when the text between holds no delimiter character. */
  lemma DelimitedCloseAt(s: string, d: string, c: nat)
    requires 0 < |d| <= c && c + |d| <= |s| && s[c..c + |d|] == d
    requires forall k :: |d| <= k < c ==> s[k] != d[0] && !IsLineTerminator(s[k])
    ensures DelimitedClose(s, d) == Some(c)
  {
    forall k | |d| <= k < c
      ensures !OccursAt(s, d, k)
    {
      if k + |d| <= |s| {
        assert s[k..k + |d|][0] == s[k];
      }
    }
    FindFromAt(s, |d|, d, true, c);
  }

  /** `**text**` and `__text__` become `text`. */
  lemma BoldOf(d: string, t: string, rest: string, b: bool)
    requires d == "**" || d == "__"
    requires OneLine(t) && NoneOf(t, d[0])
    ensures BoldHit(Delimited(d, t) + rest, b) == Some(Hit(|t| + 4, t))
  {
    DelimitedOf(d, t, rest);
    assert (Delimited(d, t) + rest)[0] == d[0];
  }

  /** `*text*` and `_text_` become `text`. */
  lemma ItalicOf(d: string, t: string, rest: string, b: bool)
    requires d == "*" || d == "_"
    requires OneLine(t) && NoneOf(t, d[0])
    ensures ItalicHit(Delimited(d, t) + rest, b) == Some(Hit(|t| + 2, t))
  {
    DelimitedOf(d, t, rest);
    assert (Delimited(d, t) + rest)[0] == d[0];
  }

  lemma BoldKeepsText(d: string, t: string, b: bool)
    requires d == "**" || d == "__"
    requires OneLine(t) && NoneOf(t, d[0])
    ensures Rewrite(Delimited(d, t), b, BoldHit) == t
  {
    BoldOf(d, t, "", b);
    assert Delimited(d, t) + "" == Delimited(d, t);
    RewriteWhole(Delimited(d, t), b, BoldHit, t);
  }

  lemma ItalicKeepsText(d: string, t: string, b: bool)
    requires d == "*" || d == "_"
    requires OneLine(t) && NoneOf(t, d[0])
    ensures Rewrite(Delimited(d, t), b, ItalicHit) == t
  {
    ItalicOf(d, t, "", b);
    assert Delimited(d, t) + "" == Delimited(d, t);
    RewriteWhole(Delimited(d, t), b, ItalicHit, t);
  }

  // ---- fenced code ----

  function Fence(code: string): string {
    "```" + code + "```"
  }

  /** A fenced block whose body holds no backtick is removed whole, across lines. */
  lemma CodeBlockOf(code: string, rest: string, b: bool)
    requires NoneOf(code, '`')
    ensures CodeBlockHit(Fence(code) + rest, b) == Some(Hit(|code| + 6, ""))
  {
    var s := Fence(code) + rest;
    var c := 3 + |code|;
    assert forall k :: 3 <= k < c ==> s[k] == code[k - 3];
    forall k | 3 <= k < c
      ensures !OccursAt(s, "```", k)
    {
      if k + 3 <= |s| {
        assert s[k..k + 3][0] == s[k];
      }
    }
    assert s[..3] == "```" && s[c..c + 3] == "```";
    FindFromAt(s, 3, "```", false, c);
  }

  lemma CodeBlockVanishes(code: string, b: bool)
    requires NoneOf(code, '`')
    ensures Rewrite(Fence(code), b, CodeBlockHit) == ""
  {
    CodeBlockOf(code, "", b);
    assert Fence(code) + "" == Fence(code);
    RewriteWhole(Fence(code), b, CodeBlockHit, "");
  }

  // ---- inline code ----

  function Code(c: string): string {
    "`" + c + "`"
  }

  /** Inline code `` `c` `` becomes `c`. */
  lemma InlineCodeOf(c: string, rest: string, b: bool)
    requires |c| > 0 && NoneOf(c, '`')
    ensures InlineCodeHit(Code(c) + rest, b) == Some(Hit(|c| + 2, c))
  {
    var s := Code(c) + rest;
    assert forall k :: 1 <= k < 1 + |c| ==> s[k] == c[k - 1];
    assert s[1 + |c|] == '`';
    SpanUnique(s, 1, NotBacktick, |c|);
    assert s[1..1 + |c|] == c;
  }

  lemma InlineCodeKeepsText(c: string, b: bool)
    requires |c| > 0 && NoneOf(c, '`')
    ensures Rewrite(Code(c), b, InlineCodeHit) == c
  {
    InlineCodeOf(c, "", b);
    assert Code(c) + "" == Code(c);
    RewriteWhole(Code(c), b, InlineCodeHit, c);
  }

  // ---- line-start markers ----

  /** Where a marker's trailing whitespace ends: at the end, or before a non-whitespace character. */
  predicate StartsSolid(rest: string) {
    rest == [] || !IsWhitespace(rest[0])
  }

  predicate AllHashes(h: string) {
    forall k :: 0 <= k < |h| ==> h[k] == '#'
  }

  /** One to six `#` and whitespace at the start of a line are removed. */
  lemma HeadingOf(h: string, ws: string, rest: string)
    requires 1 <= |h| <= 6 && AllHashes(h)
    requires |ws| > 0 && AllWhitespace(ws) && StartsSolid(rest)
    ensures HeadingHit(h + ws + rest, true) == Some(Hit(|h| + |ws|, ""))
  {
    HeadingRuns(h, ws, rest);
    HeadingAt(h + ws + rest, |h|, |ws|);
  }

  lemma HeadingRuns(h: string, ws: string, rest: string)
    requires AllHashes(h) && |ws| > 0 && AllWhitespace(ws) && StartsSolid(rest)
    ensures Span(h + ws + rest, 0, IsHash) == |h| && |h| < |h + ws + rest| && IsWhitespace((h + ws + rest)[|h|])
    ensures Span(h + ws + rest, |h|, IsWhitespace) == |ws|
  {
    var s := h + ws + rest;
    assert s == [] + h + (ws + rest);
    SpanOfRun([], h, ws + rest, IsHash);
    SpanOfRun(h, ws, rest, IsWhitespace);
    assert s[|h|] == ws[0];
  }

  lemma HeadingAt(s: string, n: nat, w: nat)
    requires 1 <= n <= 6 && n < |s| && Span(s, 0, IsHash) == n && IsWhitespace(s[n])
    requires Span(s, n, IsWhitespace) == w
    ensures HeadingHit(s, true) == Some(Hit(n + w, ""))
  {
  }

  /** `>` and whitespace at the start of a line are removed. */
  lemma QuoteOf(ws: string, rest: string)
    requires |ws| > 0 && AllWhitespace(ws) && StartsSolid(rest)
    ensures QuoteHit(">" + ws + rest, true) == Some(Hit(1 + |ws|, ""))
  {
    SpanOfRun(">", ws, rest, IsWhitespace);
  }

  /** Indentation, `-` or `*`, and whitespace at the start of a line are removed. */
  lemma BulletOf(ind: string, c: char, ws: string, rest: string)
    requires AllWhitespace(ind) && IsBullet(c)
    requires |ws| > 0 && AllWhitespace(ws) && StartsSolid(rest)
    ensures BulletHit(ind + [c] + ws + rest, true) == Some(Hit(|ind| + 1 + |ws|, ""))
  {
    BulletRuns(ind, c, ws, rest);
    BulletAt(ind + [c] + ws + rest, |ind|, |ws|);
  }

  lemma BulletRuns(ind: string, c: char, ws: string, rest: string)
    requires AllWhitespace(ind) && IsBullet(c) && |ws| > 0 && AllWhitespace(ws) && StartsSolid(rest)
    ensures var s := ind + [c] + ws + rest;
            Indent(s) == |ind| && |ind| + 1 < |s| && IsBullet(s[|ind|]) && IsWhitespace(s[|ind| + 1])
    ensures Span(ind + [c] + ws + rest, |ind| + 1, IsWhitespace) == |ws|
  {
    var s := ind + [c] + ws + rest;
    assert s == [] + ind + ([c] + ws + rest);
    SpanOfRun([], ind, [c] + ws + rest, IsWhitespace);
    assert s[|ind|] == c && s[|ind| + 1] == ws[0];
    SpanOfRun(ind + [c], ws, rest, IsWhitespace);
  }

  lemma BulletAt(s: string, i: nat, w: nat)
    requires Indent(s) == i && i + 1 < |s| && IsBullet(s[i]) && IsWhitespace(s[i + 1])
    requires Span(s, i + 1, IsWhitespace) == w
    ensures BulletHit(s, true) == Some(Hit(i + 1 + w, ""))
  {
  }

  /** Indentation, digits, `.` and whitespace at the start of a line are removed. */
  lemma NumberedOf(ind: string, ds: string, ws: string, rest: string)
    requires AllWhitespace(ind) && |ds| > 0 && AllDigits(ds)
    requires |ws| > 0 && AllWhitespace(ws) && StartsSolid(rest)
    ensures NumberedHit(ind + ds + "." + ws + rest, true) == Some(Hit(|ind| + |ds| + 1 + |ws|, ""))
  {
    NumberedRuns(ind, ds, ws, rest);
    NumberedAt(ind + ds + "." + ws + rest, |ind|, |ind| + |ds|, |ws|);
  }

  lemma NumberedRuns(ind: string, ds: string, ws: string, rest: string)
    requires AllWhitespace(ind) && |ds| > 0 && AllDigits(ds) && |ws| > 0 && AllWhitespace(ws) && StartsSolid(rest)
    ensures var s := ind + ds + "." + ws + rest;
            Indent(s) == |ind| && NumberEnd(s) == |ind| + |ds| && |ind| + |ds| + 1 < |s|
            && s[|ind| + |ds|] == '.' && IsWhitespace(s[|ind| + |ds| + 1])
    ensures Span(ind + ds + "." + ws + rest, |ind| + |ds| + 1, IsWhitespace) == |ws|
  {
    var s := ind + ds + "." + ws + rest;
    NumberedIndent(ind, ds, ws, rest);
    NumberedDigits(ind, ds, ws, rest);
    assert s[|ind| + |ds|] == '.' && s[|ind| + |ds| + 1] == ws[0];
    SpanOfRun(ind + ds + ".", ws, rest, IsWhitespace);
  }

  lemma NumberedIndent(ind: string, ds: string, ws: string, rest: string)
    requires AllWhitespace(ind) && |ds| > 0 && AllDigits(ds)
    ensures Indent(ind + ds + "." + ws + rest) == |ind|
  {
    var s := ind + ds + "." + ws + rest;
    assert s == [] + ind + (ds + "." + ws + rest);
    SpanOfRun([], ind, ds + "." + ws + rest, IsWhitespace);
  }

  lemma NumberedDigits(ind: string, ds: string, ws: string, rest: string)
    requires AllDigits(ds)
    ensures Span(ind + ds + "." + ws + rest, |ind|, IsDigit) == |ds|
  {
    var s := ind + ds + "." + ws + rest;
    assert s == ind + ds + ("." + ws + rest);
    SpanOfRun(ind, ds, "." + ws + rest, IsDigit);
  }

  lemma NumberedAt(s: string, i: nat, e: nat, w: nat)
    requires Indent(s) == i && NumberEnd(s) == e && i < e && e + 1 < |s| && s[e] == '.' && IsWhitespace(s[e + 1])
    requires Span(s, e + 1, IsWhitespace) == w
    ensures NumberedHit(s, true) == Some(Hit(e + 1 + w, ""))
  {
  }

  /**
   * After a marker `pre + ws` the scan resumes on the rest of the line; it
   * is at a line start only when the marker's whitespace ended one.
   */
  lemma MarkerAhead(pre: string, ws: string, rest: string, m: Matcher)
    requires |ws| > 0 && m(pre + ws + rest, true) == Some(Hit(|pre| + |ws|, ""))
    ensures Rewrite(pre + ws + rest, true, m) == Rewrite(rest, IsLineTerminator(ws[|ws| - 1]), m)
  {
    AfterMarker(pre, ws, rest);
    RewriteHit(pre + ws + rest, true, m, Hit(|pre| + |ws|, ""));
  }

  lemma AfterMarker(pre: string, ws: string, rest: string)
    requires |ws| > 0
    ensures (pre + ws + rest)[|pre| + |ws| - 1] == ws[|ws| - 1]
    ensures (pre + ws + rest)[|pre| + |ws|..] == rest
  {
  }

  lemma StripHeadingAhead(h: string, ws: string, rest: string)
    requires 1 <= |h| <= 6 && AllHashes(h)
    requires |ws| > 0 && AllWhitespace(ws) && StartsSolid(rest)
    ensures StripHeadings(h + ws + rest) == Rewrite(rest, IsLineTerminator(ws[|ws| - 1]), HeadingHit)
  {
    HeadingOf(h, ws, rest);
    MarkerAhead(h, ws, rest, HeadingHit);
  }

  lemma StripQuoteAhead(ws: string, rest: string)
    requires |ws| > 0 && AllWhitespace(ws) && StartsSolid(rest)
    ensures StripQuotes(">" + ws + rest) == Rewrite(rest, IsLineTerminator(ws[|ws| - 1]), QuoteHit)
  {
    QuoteOf(ws, rest);
    MarkerAhead(">", ws, rest, QuoteHit);
  }

  lemma StripBulletAhead(ind: string, c: char, ws: string, rest: string)
    requires AllWhitespace(ind) && IsBullet(c)
    requires |ws| > 0 && AllWhitespace(ws) && StartsSolid(rest)
    ensures StripBullets(ind + [c] + ws + rest) == Rewrite(rest, IsLineTerminator(ws[|ws| - 1]), BulletHit)
  {
    BulletOf(ind, c, ws, rest);
    MarkerAhead(ind + [c], ws, rest, BulletHit);
  }

  lemma StripNumberAhead(ind: string, ds: string, ws: string, rest: string)
    requires AllWhitespace(ind) && |ds| > 0 && AllDigits(ds)
    requires |ws| > 0 && AllWhitespace(ws) && StartsSolid(rest)
    ensures StripNumbers(ind + ds + "." + ws + rest) == Rewrite(rest, IsLineTerminator(ws[|ws| - 1]), NumberedHit)
  {
    NumberedOf(ind, ds, ws, rest);
    MarkerAhead(ind + ds + ".", ws, rest, NumberedHit);
  }
}
