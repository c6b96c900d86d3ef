/**
 * The image-source helpers of the Xiaohongshu publisher: telling a URL from
 * a local path, naming the temporary file a download is saved to, and the
 * status/redirect decision of `downloadImage`. The HTTP exchange, URL
 * parsing and the clock are parameters.
 */
module XhsMedia {
  import opened Common
  import opened Strings

  // ---- isUrl ----

  /** `isUrl`: the source is fetched over the network exactly when it starts with `http://` or `https://`. */
  predicate IsUrl(s: string) {
    StartsWith(s, "http://") || StartsWith(s, "https://")
  }

  /**
   * The scheme test is case-sensitive and looks only at the front: an
   * upper-case scheme, or a path that merely holds a URL further on, is
   * taken for a local path.
   */
  lemma UrlNeedsLowerCaseScheme(pre: string, rest: string)
    requires |pre| > 0 && pre[0] != 'h'
    ensures !IsUrl("HTTPS://" + rest) && !IsUrl("HTTP://" + rest)
    ensures !IsUrl(pre + "https://" + rest)
  {
    assert ("HTTPS://" + rest)[0] == 'H' && ("HTTP://" + rest)[0] == 'H';
    assert (pre + "https://" + rest)[0] == pre[0];
  }

  datatype Protocol = Http | Https

  /** The client module `downloadImage` picks: `https` when the URL starts with `https`, `http` otherwise. */
  function ProtocolOf(url: string): (p: Protocol)
    ensures p == Https <==> StartsWith(url, "https")
  {
    if StartsWith(url, "https") then Https else Http
  }

  /** For a URL the crude `https` prefix test agrees with the scheme: `https://` goes over TLS, `http://` does not. */
  lemma ProtocolMatchesScheme(url: string)
    requires IsUrl(url)
    ensures ProtocolOf(url) == Https <==> StartsWith(url, "https://")
    ensures ProtocolOf(url) == Http <==> StartsWith(url, "http://")
  {
    if StartsWith(url, "http://") {
      assert url[..7][4] == ':';
      assert |url| >= 5 ==> url[..5][4] == url[4];
    } else {
      assert url[..8][..5] == "https";
    }
  }

  // ---- path.extname ----

  predicate IsSlash(c: char) { c == '/' }
  predicate NotSlash(c: char) { c != '/' }
  predicate NotDot(c: char) { c != '.' }

  /** Where the last path component ends: before any trailing slashes. */
  function ComponentEnd(p: string): (e: nat)
    ensures e <= |p|
  {
    |p| - BackSpan(p, |p|, IsSlash)
  }

  /** The last path component, as `path.extname` scans it from the right. */
  function BaseName(p: string): (b: string)
    ensures NoneOf(b, '/')
    ensures |b| <= ComponentEnd(p) && b == p[ComponentEnd(p) - |b|..ComponentEnd(p)]
  {
    var e := ComponentEnd(p);
    var b := p[e - BackSpan(p, e, NotSlash)..e];
    assert forall k :: 0 <= k < |b| ==> b[k] == p[e - |b| + k];
    b
  }

  /** The index of the last `.` of `b`, if any. */
  function LastDot(b: string): (r: Option<nat>)
    ensures r.Some? ==> r.value < |b| && b[r.value] == '.' && NoneOf(b[r.value + 1..], '.')
    ensures r.None? ==> NoneOf(b, '.')
  {
    var n := BackSpan(b, |b|, NotDot);
    assert forall k :: |b| - n <= k < |b| ==> b[k] != '.';
    if n == |b| then None else Some(|b| - n - 1)
  }

  /**
   * `path.extname` (POSIX): from the last `.` of the last component to its
   * end; empty when the component has no `.`, when its only `.` is its
   * first character, or when it is `..`.
   */
  function ExtName(p: string): (r: string)
    ensures r == [] || (r[0] == '.' && NoneOf(r[1..], '.') && NoneOf(r, '/'))
    ensures r != [] ==> |r| < |BaseName(p)| && EndsWith(BaseName(p), r)
  {
    var b := BaseName(p);
    if LastDot(b).None? || LastDot(b).value == 0 || b == ".." then ""
    else DotTail(b, LastDot(b).value)
  }

  /** The part of a component from its last `.`, which is not its first character. */
  function DotTail(b: string, d: nat): (r: string)
    requires 0 < d < |b| && b[d] == '.' && NoneOf(b[d + 1..], '.') && NoneOf(b, '/')
    ensures |r| > 0 && r[0] == '.' && NoneOf(r[1..], '.') && NoneOf(r, '/')
    ensures |r| < |b| && EndsWith(b, r)
  {
    var r := b[d..];
    assert r[1..] == b[d + 1..];
    assert forall k :: 0 <= k < |r| ==> r[k] == b[d + k];
    r
  }

  /** `path.extname(urlPath) || ".jpg"`. */
  function ExtOrJpg(p: string): (r: string)
    ensures |r| > 0 && r[0] == '.'
    ensures ExtName(p) != [] ==> r == ExtName(p)
    ensures ExtName(p) == [] ==> r == ".jpg"
  {
    if ExtName(p) != [] then ExtName(p) else ".jpg"
  }

  /** The last component of `dir/b` is `b` when `b` is a non-empty name. */
  lemma BaseNameOf(dir: string, b: string)
    requires |b| > 0 && NoneOf(b, '/')
    ensures BaseName(dir + "/" + b) == b
  {
    var p := dir + "/" + b;
    var s0 := |dir| + 1;
    assert forall k :: s0 <= k < |p| ==> p[k] == b[k - s0];
    assert p[s0 - 1] == '/';
    BackSpanUnique(p, |p|, IsSlash, 0);
    BackSpanUnique(p, |p|, NotSlash, |b|);
  }

  /** The last dot of `stem.x` is the one after the stem when neither part has a dot. */
  lemma LastDotOf(stem: string, x: string)
    requires NoneOf(stem, '.') && NoneOf(x, '.')
    ensures LastDot(stem + "." + x) == Some(|stem|)
  {
    var b := stem + "." + x;
    assert forall k :: |stem| + 1 <= k < |b| ==> b[k] == x[k - |stem| - 1];
    assert b[|stem|] == '.';
    BackSpanUnique(b, |b|, NotDot, |x|);
  }

  /** A stem without dots followed by `.x` has extension `.x`. */
  lemma ExtNameOf(dir: string, stem: string, x: string)
    requires |stem| > 0 && NoneOf(stem, '/') && NoneOf(stem, '.')
    requires NoneOf(x, '/') && NoneOf(x, '.')
    ensures ExtName(dir + "/" + stem + "." + x) == "." + x
  {
    var b := stem + "." + x;
    NameParts(stem, x);
    assert dir + "/" + stem + "." + x == dir + "/" + b;
    BaseNameOf(dir, b);
    LastDotOf(stem, x);
    ExtNameAt(dir + "/" + b, b, |stem|);
  }

  lemma NameParts(stem: string, x: string)
    requires |stem| > 0 && NoneOf(stem, '/') && NoneOf(stem, '.') && NoneOf(x, '/')
    ensures NoneOf(stem + "." + x, '/') && (stem + "." + x)[0] != '.'
    ensures (stem + "." + x)[|stem|..] == "." + x
  {
    var b := stem + "." + x;
    assert forall k :: 0 <= k < |stem| ==> b[k] == stem[k];
    assert forall k :: |stem| < k < |b| ==> b[k] == x[k - |stem| - 1];
  }

  /** With a dot after the first character, the extension runs from the last dot. */
  lemma ExtNameAt(p: string, b: string, d: nat)
    requires BaseName(p) == b && LastDot(b) == Some(d) && 0 < d && b[0] != '.'
    ensures ExtName(p) == b[d..]
  {
  }

  /** A last component without any dot has no extension, so the temporary file gets `.jpg`. */
  lemma NoDotMeansJpg(dir: string, stem: string)
    requires |stem| > 0 && NoneOf(stem, '/') && NoneOf(stem, '.')
    ensures ExtOrJpg(dir + "/" + stem) == ".jpg"
  {
    BaseNameOf(dir, stem);
  }

  // ---- the temporary file ----

  const TempPrefix: string := "temp-image-"

  /** `temp-image-${Date.now()}${ext}`: the name under the build directory a download is saved to. */
  function TempFileName(now: nat, urlPath: string): (r: string)
    ensures StartsWith(r, TempPrefix)
    ensures EndsWith(r, ExtOrJpg(urlPath))
  {
    Affixes(TempPrefix, Decimal(now), ExtOrJpg(urlPath));
    TempPrefix + Decimal(now) + ExtOrJpg(urlPath)
  }

  /** Reads a temporary file name back: the timestamp and the extension. */
  function ParseTempFileName(name: string): Option<(nat, string)> {
    if !StartsWith(name, TempPrefix) then None
    else
      var n := Span(name, |TempPrefix|, IsDigit);
      if n == 0 then None
      else
        DigitRun(name, |TempPrefix|);
        Some((ParseDecimal(name[|TempPrefix|..|TempPrefix| + n]), name[|TempPrefix| + n..]))
  }

  /** The name records the timestamp and extension it was made from: reading it back gives both. */
  lemma TempFileNameRoundTrip(now: nat, urlPath: string)
    ensures ParseTempFileName(TempFileName(now, urlPath)) == Some((now, ExtOrJpg(urlPath)))
  {
    var d := Decimal(now);
    var e := ExtOrJpg(urlPath);
    SpanOfRun(TempPrefix, d, e, IsDigit);
    Parts(TempPrefix, d, e);
    ParseDecimalInverse(now);
  }

  // ---- the status/redirect decision ----

  /** What the server answered, or that the request failed or timed out. */
  datatype Response = Answer(status: int, location: Option<string>) | Unreachable

  datatype Step = Follow(target: string) | Reject(status: int) | Save

  /**
   * A 301 or 302 with a non-empty `Location` is followed; any other status
   * but 200 (a redirect without a location included) is rejected; 200 is
   * saved.
   */
  function Decide(status: int, location: Option<string>): (d: Step)
    ensures d.Follow? <==> (status == 301 || status == 302) && location.Some? && location.value != ""
    ensures d.Follow? ==> d.target == location.value
    ensures d.Save? <==> status == 200
    ensures d.Reject? ==> d.status == status && status != 200
  {
    if (status == 301 || status == 302) && location.Some? && location.value != "" then Follow(location.value)
    else if status != 200 then Reject(status)
    else Save
  }

  datatype DownloadError = InvalidUrl(url: string) | BadStatus(status: int) | RequestFailed | OutOfFuel

  /**
   * `downloadImage(url)`. `urlPath` parses a URL into its path (`None` when
   * `new URL` throws), `server` answers a request and `clock(h)` is
   * `Date.now()` at hop `h`. The source follows redirects without limit;
   * `fuel` only makes the model total and is reported as `OutOfFuel`.
   */
  function Download(url: string, fuel: nat, hop: nat, urlPath: string -> Option<string>,
                    server: string -> Response, clock: nat -> nat): (r: Result<string, DownloadError>)
    ensures r.Success? ==> StartsWith(r.value, TempPrefix)
    ensures urlPath(url).None? ==> r == Failure(InvalidUrl(url))
    decreases fuel
  {
    if urlPath(url).None? || !Redirects(server(url)) then Settle(url, hop, urlPath, server, clock)
    else if fuel == 0 then Failure(OutOfFuel)
    else Download(server(url).location.value, fuel - 1, hop + 1, urlPath, server, clock)
  }

  /** The answer is a redirect that `downloadImage` follows. */
  predicate Redirects(r: Response) {
    r.Answer? && Decide(r.status, r.location).Follow?
  }

  /** How a request ends when it is not redirected: an unparsable URL, a failed request, a rejected status, or the saved file. */
  function Settle(url: string, hop: nat, urlPath: string -> Option<string>,
                  server: string -> Response, clock: nat -> nat): (r: Result<string, DownloadError>)
    requires urlPath(url).None? || !Redirects(server(url))
    ensures r.Success? ==> StartsWith(r.value, TempPrefix)
  {
    if urlPath(url).None? then Failure(InvalidUrl(url))
    else match server(url)
      case Unreachable => Failure(RequestFailed)
      case Answer(status, location) =>
        if status == 200 then Success(TempFileName(clock(hop), urlPath(url).value))
        else Failure(BadStatus(status))
  }

  /** A 200 answer saves the body under the name made from this URL's path. */
  lemma DownloadSaves(url: string, fuel: nat, hop: nat, urlPath: string -> Option<string>,
                      server: string -> Response, clock: nat -> nat)
    requires urlPath(url).Some? && server(url).Answer? && server(url).status == 200
    ensures Download(url, fuel, hop, urlPath, server, clock) == Success(TempFileName(clock(hop), urlPath(url).value))
  {
  }

  /** A redirect is followed whatever the hop count: the result is that of the target. */
  lemma DownloadFollows(url: string, fuel: nat, hop: nat, urlPath: string -> Option<string>,
                        server: string -> Response, clock: nat -> nat)
    requires urlPath(url).Some? && server(url).Answer?
    requires server(url).status in {301, 302} && server(url).location.Some? && server(url).location.value != ""
    ensures Download(url, fuel + 1, hop, urlPath, server, clock)
            == Download(server(url).location.value, fuel, hop + 1, urlPath, server, clock)
  {
  }

  /** A non-200 answer that is not a followable redirect is rejected with its status. */
  lemma DownloadRejects(url: string, fuel: nat, hop: nat, urlPath: string -> Option<string>,
                        server: string -> Response, clock: nat -> nat)
    requires urlPath(url).Some? && server(url).Answer? && server(url).status != 200
    requires !(server(url).status in {301, 302} && server(url).location.Some? && server(url).location.value != "")
    ensures Download(url, fuel, hop, urlPath, server, clock) == Failure(BadStatus(server(url).status))
  {
  }

  /**
   * The fuel never changes an answer, it only cuts the chain short: with more
   * fuel the result is the same unless the chain ran out.
   */
  lemma {:induction false} FuelOnlyCutsShort(url: string, fuel: nat, more: nat, hop: nat,
                                             urlPath: string -> Option<string>,
                                             server: string -> Response, clock: nat -> nat)
    requires fuel <= more
    requires Download(url, fuel, hop, urlPath, server, clock) != Failure(OutOfFuel)
    ensures Download(url, more, hop, urlPath, server, clock) == Download(url, fuel, hop, urlPath, server, clock)
    decreases fuel
  {
    if urlPath(url).Some? && Redirects(server(url)) {
      FuelOnlyCutsShort(server(url).location.value, fuel - 1, more - 1, hop + 1, urlPath, server, clock);
    }
  }
}
