/**
 * `publishToXhs`: posting one image with a title and a body to the
 * Xiaohongshu creator page. The browser is an oracle: which texts and
 * selectors are visible, whether an action on one goes through, which URL
 * the page shows, and which step throws. What the model keeps is the order
 * of the effects, the decisions taken between them, and the cleanup.
 */
module XhsPublish {
  import opened Common
  import opened Strings
  import opened XhsMedia

  const PublishUrl: string := "https://creator.xiaohongshu.com/publish/publish"

  // ---- the login check ----

  /**
   * `/login|passport/i` matches the current URL. Case-insensitive matching of
   * these ASCII words folds exactly the ASCII letters: no other character
   * canonicalises to one of them.
   */
  predicate IsLoginUrl(url: string) {
    Includes(LowerAsciiString(url), "login") || Includes(LowerAsciiString(url), "passport")
  }

  /** Only the ASCII case of a URL is ignored: URLs that agree letter by letter up to ASCII case are judged alike. */
  lemma LoginIgnoresCase(u: string, v: string)
    requires |u| == |v| && forall i :: 0 <= i < |u| ==> LowerAscii(u[i]) == LowerAscii(v[i])
    ensures IsLoginUrl(u) == IsLoginUrl(v)
  {
    assert LowerAsciiString(u) == LowerAsciiString(v);
  }

  /** Upper-case spellings are caught too: a URL holding `LOGIN` is a login URL. */
  lemma UpperCaseLoginDetected(pre: string, post: string)
    ensures IsLoginUrl(pre + "LOGIN" + post)
  {
    var u := pre + "LOGIN" + post;
    var l := LowerAsciiString(u);
    var i := |pre|;
    assert u[i] == 'L' && u[i + 1] == 'O' && u[i + 2] == 'G' && u[i + 3] == 'I' && u[i + 4] == 'N';
    assert l[i..i + 5] == "login";
    assert OccursAt(l, "login", i);
    IncludesMeansOccurs(l, "login");
  }

  // ---- selector fallbacks ----

  /**
   * The candidates a fallback loop acted on, in order, and the one that went
   * through, if any.
   */
  datatype Fallback = Fallback(chosen: Option<nat>, tried: seq<nat>)

  /**
   * A fallback loop from candidate `from` on: an invisible candidate (or one
   * whose visibility check throws) is skipped; a visible one is acted on, and
   * the loop stops when that goes through and moves on when it throws.
   */
  function TryInOrder(cands: seq<string>, from: nat, visible: string -> bool, acts: string -> bool): (r: Fallback)
    ensures forall k :: 0 <= k < |r.tried| ==> from <= r.tried[k] < |cands| && visible(cands[r.tried[k]])
    ensures forall a, b :: 0 <= a < b < |r.tried| ==> r.tried[a] < r.tried[b]
    ensures forall k :: 0 <= k < |r.tried| - 1 ==> !acts(cands[r.tried[k]])
    ensures r.chosen.None? ==> forall k :: 0 <= k < |r.tried| ==> !acts(cands[r.tried[k]])
    ensures forall i :: from <= i < |cands| && visible(cands[i]) && (r.chosen.None? || i <= r.chosen.value)
                        ==> i in r.tried
    decreases |cands| - from
  {
    if from >= |cands| then Fallback(None, [])
    else if !visible(cands[from]) then TryInOrder(cands, from + 1, visible, acts)
    else if acts(cands[from]) then Fallback(Some(from), [from])
    else
      var rest := TryInOrder(cands, from + 1, visible, acts);
      var tried := [from] + rest.tried;
      Fallback(rest.chosen, tried)
  }

  /** The candidate chosen is the last one acted on, and acting on it went through. */
  lemma {:induction false} ChosenIsLastTried(cands: seq<string>, from: nat, visible: string -> bool, acts: string -> bool)
    ensures var r := TryInOrder(cands, from, visible, acts);
            r.chosen.Some? ==> |r.tried| > 0 && r.tried[|r.tried| - 1] == r.chosen.value && acts(cands[r.chosen.value])
    decreases |cands| - from
  {
    if from < |cands| && !(visible(cands[from]) && acts(cands[from])) {
      ChosenIsLastTried(cands, from + 1, visible, acts);
    }
  }

  /** When acting never throws, the first visible candidate is acted on once, and nothing else is. */
  lemma {:induction false} FirstVisibleWins(cands: seq<string>, from: nat, visible: string -> bool, acts: string -> bool, i: nat)
    requires from <= i < |cands| && visible(cands[i]) && acts(cands[i])
    requires forall j :: from <= j < i ==> !visible(cands[j])
    ensures TryInOrder(cands, from, visible, acts) == Fallback(Some(i), [i])
    decreases i - from
  {
    if from < i {
      FirstVisibleWins(cands, from + 1, visible, acts, i);
    }
  }

  /** When no candidate is visible nothing is acted on and nothing is chosen. */
  lemma {:induction false} NoneVisible(cands: seq<string>, from: nat, visible: string -> bool, acts: string -> bool)
    requires forall j :: from <= j < |cands| ==> !visible(cands[j])
    ensures TryInOrder(cands, from, visible, acts) == Fallback(None, [])
    decreases |cands| - from
  {
    if from < |cands| {
      NoneVisible(cands, from + 1, visible, acts);
    }
  }

  const TabSelectors: seq<string> := [
    "text=\"图文\"",
    "[class*=\"tab\"]:has-text(\"图文\")",
    "div:has-text(\"图文\"):not(:has(div:has-text(\"图文\")))"]

  const ContentSelectors: seq<string> := [
    "[data-placeholder*=\"正文\"]",
    "[data-placeholder*=\"描述\"]",
    "[class*=\"editor\"] p[data-placeholder]",
    ".ProseMirror p[data-placeholder]"]

  // ---- outcome classification ----

  const ErrorPhrases: seq<string> := ["请上传图片", "请填写标题", "请填写正文", "上传失败"]
  const SuccessPhrases: seq<string> := ["发布成功", "发布中", "审核中", "已发布"]

  /** The first phrase of the list that is shown (a visibility check that throws counts as not shown). */
  function FirstShown(phrases: seq<string>, shown: string -> bool): (r: Option<nat>)
    ensures r.Some? ==> r.value < |phrases| && shown(phrases[r.value])
    ensures r.Some? ==> forall j :: 0 <= j < r.value ==> !shown(phrases[j])
    ensures r.None? ==> forall j :: 0 <= j < |phrases| ==> !shown(phrases[j])
  {
    if |phrases| == 0 then None
    else if shown(phrases[0]) then Some(0)
    else match FirstShown(phrases[1..], shown)
      case None => None
      case Some(k) => Some(k + 1)
  }

  /** Some phrase of the list is shown. */
  predicate AnyShown(phrases: seq<string>, shown: string -> bool) {
    exists i :: 0 <= i < |phrases| && shown(phrases[i])
  }

  datatype Outcome = Rejected(phrase: string) | Confirmed(phrase: string) | Navigated | Unconfirmed

  /**
   * After the publish click: an error phrase decides first, then the first
   * success phrase in list order, then a URL that left the publish page,
   * and otherwise the result stays unconfirmed.
   */
  function Classify(shown: string -> bool, url: string): (o: Outcome)
    ensures o.Rejected? <==> AnyShown(ErrorPhrases, shown)
    ensures o.Rejected? ==> o.phrase in ErrorPhrases && shown(o.phrase)
    ensures o.Confirmed? <==> !AnyShown(ErrorPhrases, shown) && AnyShown(SuccessPhrases, shown)
    ensures o.Confirmed? ==> o.phrase in SuccessPhrases && shown(o.phrase)
    ensures o.Navigated? <==> !AnyShown(ErrorPhrases, shown) && !AnyShown(SuccessPhrases, shown)
                              && !Includes(url, "/publish/publish")
  {
    match FirstShown(ErrorPhrases, shown)
    case Some(e) => Rejected(ErrorPhrases[e])
    case None =>
      match FirstShown(SuccessPhrases, shown)
      case Some(s) => Confirmed(SuccessPhrases[s])
      case None => if !Includes(url, "/publish/publish") then Navigated else Unconfirmed
  }

  /**
   * Once an error phrase is shown, neither the success phrases nor the URL
   * are consulted: two pages that agree on the error phrases classify alike.
   */
  lemma ErrorsDecideAlone(shown1: string -> bool, url1: string, shown2: string -> bool, url2: string)
    requires AnyShown(ErrorPhrases, shown1)
    requires forall i :: 0 <= i < |ErrorPhrases| ==> shown1(ErrorPhrases[i]) == shown2(ErrorPhrases[i])
    ensures Classify(shown1, url1) == Classify(shown2, url2)
  {
    FirstShownAgrees(ErrorPhrases, shown1, shown2);
  }

  lemma {:induction false} FirstShownAgrees(phrases: seq<string>, shown1: string -> bool, shown2: string -> bool)
    requires forall i :: 0 <= i < |phrases| ==> shown1(phrases[i]) == shown2(phrases[i])
    ensures FirstShown(phrases, shown1) == FirstShown(phrases, shown2)
  {
    if |phrases| > 0 {
      FirstShownAgrees(phrases[1..], shown1, shown2);
    }
  }

  /** The first error phrase in list order is the one the rejection names, whatever phrases follow it. */
  lemma FirstErrorNamed(shown: string -> bool, url: string, i: nat)
    requires i < |ErrorPhrases| && shown(ErrorPhrases[i])
    requires forall j :: 0 <= j < i ==> !shown(ErrorPhrases[j])
    ensures Classify(shown, url) == Rejected(ErrorPhrases[i])
  {
    var f := FirstShown(ErrorPhrases, shown);
    assert f.Some?;
    assert f.value == i by {
      if f.value < i {
      } else if f.value > i {
      }
    }
  }

  /** The first success phrase in list order names the confirmation, whatever phrases follow it. */
  lemma FirstSuccessNamed(shown: string -> bool, url: string, i: nat)
    requires forall j :: 0 <= j < |ErrorPhrases| ==> !shown(ErrorPhrases[j])
    requires i < |SuccessPhrases| && shown(SuccessPhrases[i])
    requires forall j :: 0 <= j < i ==> !shown(SuccessPhrases[j])
    ensures Classify(shown, url) == Confirmed(SuccessPhrases[i])
  {
    var f := FirstShown(SuccessPhrases, shown);
    assert f.Some?;
    assert f.value == i by {
      if f.value < i {
      } else if f.value > i {
      }
    }
  }

  // ---- the publishing run ----

  /**
   * The steps inside the `try` whose failure is not caught where it happens:
   * the navigation, the storage injection, the waits and Escape presses of
   * the popup closing, the debug screenshot and wait after the tab loop, the
   * upload (with its fallback wait), the title, and the publish click with
   * the wait after it.
   */
  datatype Phase = Navigate | Inject | Popups | TabSwitch | UploadImage | Title | PublishButton

  /** The steps of the `finally` before the unlink, either of which may throw: the 5-second wait and the browser close. */
  datatype Teardown = Lingering | Closing

  /**
   * One entry per step, recorded when the step starts: a step that throws
   * is the last entry before the error screenshot (`ErrorShot`), or the
   * last entry of all in the `finally`. `CreateContext` stands for both the
   * context and its page. Inside the fallback loops a candidate is recorded
   * by its click, and `TypeContent` only when the typing went through.
   */
  datatype Effect =
    | DownloadImage(url: string)
    | CreateContext
    | Goto(url: string)
    | InjectStorage
    | ClosePopups
    | ClickTab(selector: string)
    | Upload(path: string)
    | FillTitle(title: string)
    | ClickContent(selector: string)
    | TypeContent(text: string)
    | ClickPublish
    | Screenshot(path: string)
    | Linger
    | CloseBrowser
    | DeleteTemp(path: string)

  datatype PublishError =
    | DownloadFailed(cause: DownloadError)
    | ImageMissing(path: string)
    | ContextFailed
    | StepFailed(phase: Phase)
    | SessionExpired
    | PublishRejected(phrase: string)
    | TeardownFailed(step: Teardown)

  /**
   * What the run meets: the settled download, the resolved local path and
   * whether it exists, whether the browser context and its page open, the `finally`
   * step that throws (if any), the step of the `try` that throws (if any),
   * the URL after navigation, the two fallback oracles, and the page after
   * the publish click.
   */
  datatype Env = Env(
    download: Result<string, DownloadError>,
    resolved: string,
    localExists: bool,
    contextOk: bool,
    teardown: Option<Teardown>,
    failing: Option<Phase>,
    landedUrl: string,
    tabVisible: string -> bool,
    tabClicks: string -> bool,
    contentVisible: string -> bool,
    contentTyped: string -> bool,
    shown: string -> bool,
    finalUrl: string)

  datatype Run = Run(trace: seq<Effect>, result: Result<Outcome, PublishError>)

  const TabDebugShot: Effect := Screenshot("build/debug-tab.png")
  const RejectedShot: Effect := Screenshot("build/debug-publish-error.png")
  const UnconfirmedShot: Effect := Screenshot("build/debug-after-publish.png")
  const ErrorShot: Effect := Screenshot("build/debug-error.png")

  /** One `ClickTab` per tab selector the loop acted on, in order. */
  function TabClicks(tried: seq<nat>): (t: seq<Effect>)
    requires forall k :: 0 <= k < |tried| ==> tried[k] < |TabSelectors|
    ensures |t| == |tried| && forall k :: 0 <= k < |t| ==> t[k] == ClickTab(TabSelectors[tried[k]])
  {
    if |tried| == 0 then [] else [ClickTab(TabSelectors[tried[0]])] + TabClicks(tried[1..])
  }

  /**
   * `switchToImageTextTab`: the clicks tried, then a debug screenshot exactly
   * when no tab was switched to; a missing tab does not stop the run.
   */
  function TabEffects(env: Env): (t: seq<Effect>)
    ensures forall e :: e in t ==> e.ClickTab? || e == TabDebugShot
    ensures TabDebugShot in t <==> TryInOrder(TabSelectors, 0, env.tabVisible, env.tabClicks).chosen.None?
  {
    var f := TryInOrder(TabSelectors, 0, env.tabVisible, env.tabClicks);
    TabClicks(f.tried) + (if f.chosen.None? then [TabDebugShot] else [])
  }

  /** One `ClickContent` per body selector acted on, in order. */
  function ContentClicks(tried: seq<nat>): (t: seq<Effect>)
    requires forall k :: 0 <= k < |tried| ==> tried[k] < |ContentSelectors|
    ensures |t| == |tried| && forall k :: 0 <= k < |t| ==> t[k] == ClickContent(ContentSelectors[tried[k]])
  {
    if |tried| == 0 then [] else [ClickContent(ContentSelectors[tried[0]])] + ContentClicks(tried[1..])
  }

  /**
   * Filling the body: the clicks tried, then the typing into the one that
   * took it; when none did the body is skipped without an error.
   */
  function ContentEffects(content: string, env: Env): (t: seq<Effect>)
    ensures forall e :: e in t ==> e.ClickContent? || e == TypeContent(content)
    ensures TypeContent(content) in t <==> TryInOrder(ContentSelectors, 0, env.contentVisible, env.contentTyped).chosen.Some?
  {
    var f := TryInOrder(ContentSelectors, 0, env.contentVisible, env.contentTyped);
    ContentClicks(f.tried) + (if f.chosen.Some? then [TypeContent(content)] else [])
  }

  /**
   * The page's answers once the oracles are consulted: the effects of the
   * two fallback loops, the step that throws, whether the session is lost,
   * and the outcome after the publish click.
   */
  datatype Answers = Answers(tabs: seq<Effect>, body: seq<Effect>, failing: Option<Phase>, loggedOut: bool, outcome: Outcome)

  function Observe(content: string, env: Env): Answers {
    Answers(TabEffects(env), ContentEffects(content, env), env.failing, IsLoginUrl(env.landedUrl),
            Classify(env.shown, env.finalUrl))
  }

  /** The effects that act on the creator page itself. */
  predicate PageAction(e: Effect) {
    e.ClosePopups? || e.ClickTab? || e.Upload? || e.FillTitle? || e.ClickContent? || e.TypeContent? || e.ClickPublish?
  }

  predicate NoDeletes(t: seq<Effect>) {
    forall e :: e in t ==> !e.DeleteTemp?
  }

  /**
   * After the form is submitted: an error phrase throws after its own
   * screenshot, an unconfirmed publication is only reported with one, and
   * the other outcomes finish quietly.
   */
  function Conclude(prefix: seq<Effect>, outcome: Outcome): (r: Run)
    ensures r.result.Failure? <==> outcome.Rejected?
    ensures r.result.Failure? ==> r.result.error == PublishRejected(outcome.phrase) && r.trace == prefix + [RejectedShot]
    ensures r.result.Success? ==> r.result.value == outcome
    ensures outcome.Unconfirmed? ==> r.trace == prefix + [UnconfirmedShot]
    ensures outcome.Confirmed? || outcome.Navigated? ==> r.trace == prefix
  {
    match outcome
    case Rejected(m) => Run(prefix + [RejectedShot], Failure(PublishRejected(m)))
    case Unconfirmed => Run(prefix + [UnconfirmedShot], Success(Unconfirmed))
    case _ => Run(prefix, Success(outcome))
  }

  /** The body of the `try`: navigate, check the session, then fill and submit the form. */
  function Attempt(image: string, title: string, a: Answers): Run {
    var t1 := [Goto(PublishUrl)];
    if a.failing == Some(Navigate) then Run(t1, Failure(StepFailed(Navigate)))
    else
      var t2 := t1 + [InjectStorage];
      if a.failing == Some(Inject) then Run(t2, Failure(StepFailed(Inject)))
      else if a.loggedOut then Run(t2, Failure(SessionExpired))
      else Fill(t2, image, title, a)
  }

  /** From closing popups to the publish click, with the steps that may throw. */
  function Fill(prefix: seq<Effect>, image: string, title: string, a: Answers): Run {
    var t1 := prefix + [ClosePopups];
    if a.failing == Some(Popups) then Run(t1, Failure(StepFailed(Popups)))
    else
      var t2 := t1 + a.tabs;
      if a.failing == Some(TabSwitch) then Run(t2, Failure(StepFailed(TabSwitch)))
      else Submit(t2 + [Upload(image)], title, a)
  }

  /** From the upload on: the upload, the title and the publish click may throw; then the outcome decides. */
  function Submit(t3: seq<Effect>, title: string, a: Answers): Run {
    if a.failing == Some(UploadImage) then Run(t3, Failure(StepFailed(UploadImage)))
    else
      var t4 := t3 + [FillTitle(title)];
      if a.failing == Some(Title) then Run(t4, Failure(StepFailed(Title)))
      else
        var t5 := t4 + a.body + [ClickPublish];
        if a.failing == Some(PublishButton) then Run(t5, Failure(StepFailed(PublishButton)))
        else Conclude(t5, a.outcome)
  }

  /** The `catch` block: an error is answered by a screenshot before it propagates. */
  function Guarded(image: string, title: string, a: Answers): Run {
    var body := Attempt(image, title, a);
    if body.result.Failure? then Run(body.trace + [ErrorShot], body.result) else body
  }

  /**
   * The `finally` block: wait, close the browser, then delete the downloaded
   * file if there is one. A step that throws ends the block there.
   */
  function Cleanup(temp: Option<string>, fails: Option<Teardown>): (t: seq<Effect>)
    ensures |t| > 0 && t[0] == Linger
    ensures CloseBrowser in t <==> fails != Some(Lingering)
    ensures temp.Some? && fails.None? ==> t[|t| - 1] == DeleteTemp(temp.value)
    ensures temp.None? || fails.Some? ==> NoDeletes(t)
  {
    match fails
    case Some(Lingering) => [Linger]
    case Some(Closing) => [Linger, CloseBrowser]
    case None => [Linger, CloseBrowser] + (if temp.Some? then [DeleteTemp(temp.value)] else [])
  }

  /** What leaves the `try`/`finally`: an error thrown by the `finally` replaces whatever the `try` produced. */
  function Finish(r: Result<Outcome, PublishError>, fails: Option<Teardown>): (f: Result<Outcome, PublishError>)
    ensures fails.None? ==> f == r
    ensures fails.Some? ==> f == Failure(TeardownFailed(fails.value))
  {
    if fails.Some? then Failure(TeardownFailed(fails.value)) else r
  }

  /**
   * `publishToXhs(imageSource, title, content)` as written, given what the
   * page answers: the image is prepared, then the context and its page are
   * created BEFORE the `try`, so a failure of either skips the `finally`.
   */
  function Publish(src: string, title: string, env: Env, a: Answers): Run {
    if IsUrl(src) then
      match env.download
      case Failure(e) => Run([DownloadImage(src)], Failure(DownloadFailed(e)))
      case Success(tmp) => Session([DownloadImage(src)], tmp, Some(tmp), title, env.contextOk, env.teardown, a)
    else if !env.localExists then Run([], Failure(ImageMissing(env.resolved)))
    else Session([], env.resolved, None, title, env.contextOk, env.teardown, a)
  }

  /** The whole run against an environment. */
  function PublishToXhs(src: string, title: string, content: string, env: Env): Run {
    Publish(src, title, env, Observe(content, env))
  }

  function Session(pre: seq<Effect>, image: string, temp: Option<string>, title: string, contextOk: bool,
                   teardown: Option<Teardown>, a: Answers): Run {
    if !contextOk then Run(pre + [CreateContext], Failure(ContextFailed))
    else
      var g := Guarded(image, title, a);
      Run(pre + [CreateContext] + g.trace + Cleanup(temp, teardown), Finish(g.result, teardown))
  }

  /**
   * The run with the context created inside the `try`, so that the cleanup
   * runs whenever the image was prepared (waiting and closing a browser
   * only when one was opened).
   */
  function PublishCleaned(src: string, title: string, env: Env, a: Answers): Run {
    if IsUrl(src) then
      match env.download
      case Failure(e) => Run([DownloadImage(src)], Failure(DownloadFailed(e)))
      case Success(tmp) => CleanSession([DownloadImage(src)], tmp, Some(tmp), title, env.contextOk, env.teardown, a)
    else if !env.localExists then Run([], Failure(ImageMissing(env.resolved)))
    else CleanSession([], env.resolved, None, title, env.contextOk, env.teardown, a)
  }

  function CleanSession(pre: seq<Effect>, image: string, temp: Option<string>, title: string, contextOk: bool,
                        teardown: Option<Teardown>, a: Answers): Run {
    if !contextOk then
      Run(pre + [CreateContext] + (if temp.Some? then [DeleteTemp(temp.value)] else []), Failure(ContextFailed))
    else Session(pre, image, temp, title, contextOk, teardown, a)
  }

  // ---- properties of the run ----
  //
  // Most properties hold whatever the page answers, and are stated for every
  // `Answers`; `PublishToXhs` is `Publish` at the answers `Observe` reads off
  // the environment.

  /** A local image that does not exist throws before any browser work. */
  lemma MissingImageThrowsFirst(src: string, title: string, env: Env, a: Answers)
    requires !IsUrl(src) && !env.localExists
    ensures Publish(src, title, env, a) == Run([], Failure(ImageMissing(env.resolved)))
  {
  }

  /** The answers read off a page never delete anything. */
  lemma ObserveKeepsFiles(content: string, env: Env)
    ensures NoDeletes(Observe(content, env).tabs) && NoDeletes(Observe(content, env).body)
  {
    TabsKeepFiles(env);
    BodyKeepsFiles(content, env);
  }

  lemma TabsKeepFiles(env: Env)
    ensures NoDeletes(TabEffects(env))
  {
    var t := TabEffects(env);
    assert forall e :: e in t ==> e.ClickTab? || e == TabDebugShot;
  }

  lemma BodyKeepsFiles(content: string, env: Env)
    ensures NoDeletes(ContentEffects(content, env))
  {
    var b := ContentEffects(content, env);
    assert forall e :: e in b ==> e.ClickContent? || e == TypeContent(content);
  }

  /** The page steps and their `catch` never delete a file. */
  lemma GuardedKeepsFiles(image: string, title: string, a: Answers)
    requires NoDeletes(a.tabs) && NoDeletes(a.body)
    ensures NoDeletes(Guarded(image, title, a).trace)
  {
    var t := Attempt(image, title, a).trace;
    assert NoDeletes(t) by {
      if a.failing != Some(Navigate) && a.failing != Some(Inject) && !a.loggedOut {
        var t2 := [Goto(PublishUrl), InjectStorage, ClosePopups] + a.tabs;
        var t5 := t2 + [Upload(image)] + [FillTitle(title)] + a.body + [ClickPublish];
        assert NoDeletes(t2) && NoDeletes(t5);
      }
    }
  }

  /** A local image is never deleted, whatever happens on the page. */
  lemma LocalImageKept(src: string, title: string, env: Env, a: Answers)
    requires !IsUrl(src) && NoDeletes(a.tabs) && NoDeletes(a.body)
    ensures NoDeletes(Publish(src, title, env, a).trace)
  {
    GuardedKeepsFiles(env.resolved, title, a);
  }

  /** A lost session ends the page steps right after the storage injection. */
  lemma LoggedOutSession(pre: seq<Effect>, image: string, temp: Option<string>, title: string,
                         teardown: Option<Teardown>, a: Answers)
    requires a.loggedOut && a.failing != Some(Navigate) && a.failing != Some(Inject)
    ensures Session(pre, image, temp, title, true, teardown, a)
            == Run(pre + [CreateContext, Goto(PublishUrl), InjectStorage, ErrorShot] + Cleanup(temp, teardown),
                   Finish(Failure(SessionExpired), teardown))
  {
    assert Guarded(image, title, a).trace == [Goto(PublishUrl), InjectStorage, ErrorShot];
  }

  /** The session-level half of `ExpiredSessionTouchesNothing`, for any download effects in front. */
  lemma ExpiredSession(pre: seq<Effect>, image: string, temp: Option<string>, title: string,
                       teardown: Option<Teardown>, a: Answers)
    requires a.loggedOut && a.failing != Some(Navigate) && a.failing != Some(Inject)
    requires forall e :: e in pre ==> e.DownloadImage?
    ensures Session(pre, image, temp, title, true, teardown, a).result == Finish(Failure(SessionExpired), teardown)
    ensures forall e :: e in Session(pre, image, temp, title, true, teardown, a).trace ==> !PageAction(e)
    ensures CloseBrowser in Session(pre, image, temp, title, true, teardown, a).trace <==> teardown != Some(Lingering)
  {
    LoggedOutSession(pre, image, temp, title, teardown, a);
    var p := pre + [CreateContext, Goto(PublishUrl), InjectStorage, ErrorShot];
    var c := Cleanup(temp, teardown);
    assert forall e :: e in p ==> !PageAction(e) && e != CloseBrowser;
    assert forall e :: e in c ==> !PageAction(e);
  }

  /**
   * With a lost session the run stops at the check: nothing on the page is
   * touched, the error is `SessionExpired` unless the `finally` throws its
   * own, and the browser is closed unless the wait before it throws.
   */
  lemma ExpiredSessionTouchesNothing(src: string, title: string, env: Env, a: Answers)
    requires IsUrl(src) ==> env.download.Success?
    requires !IsUrl(src) ==> env.localExists
    requires env.contextOk && a.failing != Some(Navigate) && a.failing != Some(Inject) && a.loggedOut
    ensures Publish(src, title, env, a).result == Finish(Failure(SessionExpired), env.teardown)
    ensures forall e :: e in Publish(src, title, env, a).trace ==> !PageAction(e)
    ensures CloseBrowser in Publish(src, title, env, a).trace <==> env.teardown != Some(Lingering)
  {
    if IsUrl(src) {
      ExpiredSession([DownloadImage(src)], env.download.value, Some(env.download.value), title, env.teardown, a);
    } else {
      ExpiredSession([], env.resolved, None, title, env.teardown, a);
    }
  }

  /**
   * Once the context is open, the downloaded image is deleted last exactly
   * when the `finally`'s wait and close go through; when one of them throws,
   * that error is what the run throws.
   */
  lemma DownloadDeletedOnceEntered(src: string, title: string, env: Env, a: Answers)
    requires IsUrl(src) && env.download.Success? && env.contextOk
    ensures var t := Publish(src, title, env, a).trace;
            |t| > 0 && (t[|t| - 1] == DeleteTemp(env.download.value) <==> env.teardown.None?)
    ensures env.teardown.Some? ==> Publish(src, title, env, a).result == Failure(TeardownFailed(env.teardown.value))
  {
    var c := Cleanup(Some(env.download.value), env.teardown);
    var t := Publish(src, title, env, a).trace;
    assert t[|t| - 1] == c[|c| - 1];
  }

  /** A wait or close that throws in the `finally` leaves the downloaded image behind. */
  lemma FailingTeardownLeaks(src: string, title: string, env: Env, a: Answers)
    requires IsUrl(src) && env.download.Success? && env.contextOk && env.teardown.Some?
    requires NoDeletes(a.tabs) && NoDeletes(a.body)
    ensures Publish(src, title, env, a).result == Failure(TeardownFailed(env.teardown.value))
    ensures DeleteTemp(env.download.value) !in Publish(src, title, env, a).trace
  {
    var tmp := env.download.value;
    GuardedKeepsFiles(tmp, title, a);
    var g := Guarded(tmp, title, a).trace;
    var c := Cleanup(Some(tmp), env.teardown);
    assert Publish(src, title, env, a).trace == [DownloadImage(src), CreateContext] + g + c;
    assert NoDeletes([DownloadImage(src), CreateContext] + g + c);
  }

  /** As written, a context that fails to open leaves the downloaded image behind. */
  lemma DownloadLeaksWhenContextFails(src: string, title: string, env: Env, a: Answers)
    requires IsUrl(src) && env.download.Success? && !env.contextOk
    ensures Publish(src, title, env, a).result == Failure(ContextFailed)
    ensures DeleteTemp(env.download.value) !in Publish(src, title, env, a).trace
  {
  }

  /**
   * With the context inside the `try`, a downloaded image is deleted last
   * on every path except a `finally` whose wait or close throws: a context
   * that fails to open no longer leaks it.
   */
  lemma CleanedDeletesUnlessTeardownThrows(src: string, title: string, env: Env, a: Answers)
    requires IsUrl(src) && env.download.Success?
    ensures var t := PublishCleaned(src, title, env, a).trace;
            |t| > 0 && (t[|t| - 1] == DeleteTemp(env.download.value) <==> !env.contextOk || env.teardown.None?)
  {
    if env.contextOk {
      var c := Cleanup(Some(env.download.value), env.teardown);
      var t := PublishCleaned(src, title, env, a).trace;
      assert t[|t| - 1] == c[|c| - 1];
    }
  }

  /** The fix changes nothing once the context is open. */
  lemma CleanedAgreesWhenContextOpens(src: string, title: string, env: Env, a: Answers)
    requires env.contextOk
    ensures PublishCleaned(src, title, env, a) == Publish(src, title, env, a)
  {
  }

  /** The waits and key presses of the popup closing are not guarded: when they throw, the run stops before the tabs. */
  lemma PopupFailureStopsRun(image: string, title: string, a: Answers)
    requires a.failing == Some(Popups) && !a.loggedOut
    ensures Guarded(image, title, a) == Run([Goto(PublishUrl), InjectStorage, ClosePopups, ErrorShot], Failure(StepFailed(Popups)))
  {
  }

  /** Past the session check and with no step throwing, the run ends as the page's outcome says. */
  lemma AttemptConcludes(image: string, title: string, a: Answers)
    requires a.failing.None? && !a.loggedOut
    ensures Upload(image) in Attempt(image, title, a).trace
    ensures forall e :: e in a.tabs ==> e in Attempt(image, title, a).trace
    ensures Attempt(image, title, a).result.Failure? <==> a.outcome.Rejected?
    ensures a.outcome.Unconfirmed? ==> Attempt(image, title, a).result == Success(Unconfirmed)
    ensures a.outcome.Unconfirmed? ==> UnconfirmedShot in Attempt(image, title, a).trace
    ensures a.outcome.Rejected? ==> Attempt(image, title, a).result == Failure(PublishRejected(a.outcome.phrase))
  {
    var t2 := [Goto(PublishUrl), InjectStorage, ClosePopups] + a.tabs;
    var t3 := t2 + [Upload(image)];
    var t5 := t3 + [FillTitle(title)] + a.body + [ClickPublish];
    assert t3[|t3| - 1] == Upload(image);
    assert forall e :: e in a.tabs ==> e in t3;
    assert forall e :: e in t3 ==> e in t5;
  }

  /**
   * An unconfirmed publication does not throw: it leaves a screenshot, and
   * the run ends normally unless the `finally` throws its own error.
   */
  lemma UnconfirmedDoesNotThrow(src: string, title: string, env: Env, a: Answers)
    requires IsUrl(src) ==> env.download.Success?
    requires !IsUrl(src) ==> env.localExists
    requires env.contextOk && a.failing.None? && !a.loggedOut && a.outcome == Unconfirmed
    ensures Publish(src, title, env, a).result == Finish(Success(Unconfirmed), env.teardown)
    ensures UnconfirmedShot in Publish(src, title, env, a).trace
  {
    var image := if IsUrl(src) then env.download.value else env.resolved;
    AttemptConcludes(image, title, a);
  }

  /**
   * A shown error phrase makes the whole run throw: `PublishRejected`,
   * naming one of the error phrases, unless the `finally` throws its own.
   */
  lemma RejectionThrows(src: string, title: string, content: string, env: Env)
    requires IsUrl(src) ==> env.download.Success?
    requires !IsUrl(src) ==> env.localExists
    requires env.contextOk && env.failing.None? && !IsLoginUrl(env.landedUrl)
    requires AnyShown(ErrorPhrases, env.shown)
    ensures PublishToXhs(src, title, content, env).result.Failure?
    ensures env.teardown.None? ==> PublishToXhs(src, title, content, env).result.error.PublishRejected?
                                   && PublishToXhs(src, title, content, env).result.error.phrase in ErrorPhrases
  {
    var image := if IsUrl(src) then env.download.value else env.resolved;
    AttemptConcludes(image, title, Observe(content, env));
  }

  /** With no tab visible the run only takes a debug screenshot and goes on to upload the image. */
  lemma MissingTabIsOnlyAWarning(image: string, title: string, content: string, env: Env)
    requires env.failing.None? && !IsLoginUrl(env.landedUrl)
    requires forall j :: 0 <= j < |TabSelectors| ==> !env.tabVisible(TabSelectors[j])
    ensures TabDebugShot in Attempt(image, title, Observe(content, env)).trace
    ensures Upload(image) in Attempt(image, title, Observe(content, env)).trace
  {
    NoneVisible(TabSelectors, 0, env.tabVisible, env.tabClicks);
    AttemptConcludes(image, title, Observe(content, env));
  }
}
