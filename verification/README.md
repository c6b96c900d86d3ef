# Journal-to-social publishing, modelled in Dafny

This project models the decision-making core of a small automation service. The service takes the day's journal entry from a Notion database and posts it as a Twitter thread. It mails a reminder when nothing was written that day. It also has a script that publishes an image with a caption to the Xiaohongshu creator page. Everything that talks to the outside world (Notion, the language model, Twitter, mail, the browser, HTTP, the clock) is either a parameter or an oracle. What the model keeps is:

- The pure string functions: `splitIntoThread` and `cleanMarkdown`.
- The record mapping of `fetchDailyJournal`.
- The decisions inside the image publisher: `isUrl`, the login check, the temp-file name, the redirect/status decision, the selector fallback loops and the outcome classification.
- The order of effects and the cleanup of `publishToXhs`.
- The effect order of the two scheduled jobs in `index.ts`.

Layout:

| file | module | what it holds |
|---|---|---|
| `common.dfy` | `Common` | `Option`, `Result` |
| `strings.dfy` | `Strings` | JavaScript's `\s`/`trim()` whitespace set, `Trim`, maximal runs (`Span`), lazy first-occurrence search (`FindFrom`), `Join`, decimal printing and parsing, ASCII lower-casing |
| `text_splitter.dfy` | `TextSplitter` | `splitIntoThread`: the sentence regex `[^.!?]+[.!?]+` as a scanner, greedy packing, the ` (i/N)` markers |
| `markdown.dfy` | `Markdown` | `cleanMarkdown`: a generic global-replace scan (`Rewrite`) and one matcher per regex, composed in source order |
| `markdown_facts.dfy` | `MarkdownFacts` | what each pass does to its own markup |
| `notion.dfy` | `Notion` | `fetchDailyJournal` over the query result |
| `xhs_media.dfy` | `XhsMedia` | `isUrl`, Node's `path.extname`, the temp-file name, the download redirect decision |
| `xhs_publish.dfy` | `XhsPublish` | the login check, the fallback loops, the outcome classification, the run of `publishToXhs` as an effect trace |
| `orchestrator.dfy` | `Orchestrator` | `publishToTwitter`, `checkAndRemind` and the cron wrappers as call traces |

Regular expressions are not modelled by a general engine. Each pattern is a hand-written matcher that returns, at a position, the length it consumes and the text it emits. `Markdown.Rewrite` applies a matcher the way a global `String.prototype.replace` does: left to right, resuming after each match. With the `m` flag, `^` matches at position 0 or right after `\n`, `\r`, U+2028 or U+2029. Lazy `.*?` is the first occurrence on the line (`.` excludes line terminators). A character is a Dafny `char`, that is a Unicode scalar value. JavaScript strings are sequences of UTF-16 code units, so a character outside the Basic Multilingual Plane, such as most emoji, is one character here and two in `.length`; the length bounds below are stated in characters (see "## Left out").

## Model

| member | source | states |
|---|---|---|
| TextSplitter.Matches | src/utils/textSplitter.ts:4 | `text.match(/[^.!?]+[.!?]+/g)` as a left-to-right scan; what it returns is pinned down by `MatchesAreSentences` and `MatchesUnique` |
| TextSplitter.MatchesAreSentences | src/utils/textSplitter.ts:4 | every match of the sentence regex is a run of non-terminators followed by a maximal run of `.`/`!`/`?` |
| TextSplitter.MatchesUnique | src/utils/textSplitter.ts:4 | the sentence matches are the unique decomposition of the text into skipped terminators, sentences and a terminator-free tail |
| TextSplitter.MatchesIgnoreFragment | src/utils/textSplitter.ts:4 | text without a terminator appended to the input changes nothing in the matches |
| TextSplitter.TrailingFragmentDropped | src/utils/textSplitter.ts:4 | once a sentence matched, a trailing unterminated fragment does not change the thread |
| TextSplitter.NoSentenceIsOnePost | src/utils/textSplitter.ts:4-22 | with no terminated sentence and a non-blank text, the thread is the trimmed text as the single post `(1/1)` |
| TextSplitter.ThreadEmptyIff | src/utils/textSplitter.ts:4-22 | the thread is empty exactly when the text is empty or whitespace only |
| TextSplitter.PackFrom | src/utils/textSplitter.ts:5-19 | the packing loop from a given `current`; `PackPreservesText` and `PackIsGreedy` state what it produces |
| TextSplitter.PackPreservesText | src/utils/textSplitter.ts:8-19 | joining the packed chunks with one space gives the sentences joined with one space |
| TextSplitter.ThreadPreservesSentences | src/utils/textSplitter.ts:4-19 | the chunks, joined with spaces, are the trimmed matched sentences joined with spaces: nothing reordered, dropped or repeated |
| TextSplitter.PackIsGreedy | src/utils/textSplitter.ts:8-19 | packing is a greedy grouping: a chunk of two or more sentences fits 250 characters, and a chunk is closed only when the next sentence would not fit |
| TextSplitter.ThreadIsGreedy | src/utils/textSplitter.ts:1-19 | the chunks of a non-blank text are a greedy grouping of its trimmed sentences |
| TextSplitter.LongChunkIsOneSentence | src/utils/textSplitter.ts:1-13 | a chunk longer than 250 characters is a single trimmed sentence |
| TextSplitter.LongSentenceStandsAlone | src/utils/textSplitter.ts:10-17 | a sentence longer than 250 characters is never split and becomes a chunk of its own |
| TextSplitter.Label | src/utils/textSplitter.ts:21-22 | labelling keeps one post per chunk |
| TextSplitter.WithMarker | src/utils/textSplitter.ts:22 | one post, `${chunk} (${i + 1}/${total})`; `MarkerRoundTrip` reads it back |
| TextSplitter.SplitIntoThread | src/utils/textSplitter.ts:3-23 | `splitIntoThread`: the packed chunks, each labelled; `ThreadPreservesSentences`, `ThreadIsGreedy` and `ThreadMarkers` state its contract |
| TextSplitter.MarkerRoundTrip | src/utils/textSplitter.ts:22 | the chunk, index and total can be read back from `chunk (i/N)` |
| TextSplitter.ThreadMarkers | src/utils/textSplitter.ts:21-22 | post `i` of the thread is chunk `i` followed by ` (i+1/N)`, with `N` the number of posts |
| TextSplitter.PostsFitMaxLength | src/utils/textSplitter.ts:1-22 | when every sentence fits the chunk budget, every post fits 260 characters |
| TextSplitter.ExampleMatches | src/utils/textSplitter.ts:4 | `"I walked. I coded. I rested."` matches as three sentences, each with its leading space |
| TextSplitter.ExampleTrim | src/utils/textSplitter.ts:9 | trimming drops exactly those leading spaces |
| TextSplitter.ExamplePack | src/utils/textSplitter.ts:8-19 | the three trimmed sentences pack into one chunk |
| TextSplitter.OneChunkThread | src/utils/textSplitter.ts:3-22 | a text whose sentences pack into one chunk becomes the single post `chunk (1/1)` |
| TextSplitter.ExampleThread | src/utils/textSplitter.ts:3-23 | `"I walked. I coded. I rested."` becomes the one post `"I walked. I coded. I rested. (1/1)"` |
| Markdown.Rewrite | src/services/notion.ts:21-40 | a global `String.prototype.replace`: left to right, each match replaced by what the matcher emits, other characters copied; `RewriteNoMatch` is its identity case |
| Markdown.StripImages | src/services/notion.ts:21 | the image pass; `ImageVanishes` and `StripImageAhead` state what it does to image markup |
| Markdown.StripLinks | src/services/notion.ts:23 | the link pass; `LinkKeepsText` and `StripLinkAhead` state what it does to a link |
| Markdown.StripBold | src/services/notion.ts:25 | the bold pass; `BoldKeepsText` states what it does to `**t**` and `__t__` |
| Markdown.StripItalic | src/services/notion.ts:27 | the italic pass; `ItalicKeepsText` states what it does to `*t*` and `_t_` |
| Markdown.StripCodeBlocks | src/services/notion.ts:29 | the fenced-block pass; `CodeBlockVanishes` states that a block disappears |
| Markdown.StripInlineCode | src/services/notion.ts:31 | the inline-code pass; `InlineCodeKeepsText` states that the code is kept |
| Markdown.StripHeadings | src/services/notion.ts:33 | the heading pass, at line starts only; `StripHeadingAhead` states its effect |
| Markdown.StripQuotes | src/services/notion.ts:35 | the quote pass, at line starts only; `StripQuoteAhead` states its effect |
| Markdown.StripBullets | src/services/notion.ts:37 | the bullet pass, at line starts only; `StripBulletAhead` states its effect |
| Markdown.StripNumbers | src/services/notion.ts:38 | the numbered-list pass, at line starts only; `StripNumberAhead` states its effect |
| Markdown.CollapseNewlines | src/services/notion.ts:40 | runs of three or more line feeds become two; `CollapseShape` states the result has no three in a row |
| Markdown.StripMarkup | src/services/notion.ts:19-38 | every pass before the collapse, in source order; `ImagesBeforeLinks` shows the order matters |
| Markdown.RewriteNoMatch | src/services/notion.ts:21-38 | a pattern that matches nowhere leaves the text unchanged |
| Markdown.ImageHit | src/services/notion.ts:21 | `!\[.*?\]\(.*?\)` matches only text starting with `![` and ending with `)` with no line break in between, and emits nothing |
| Markdown.LinkHit | src/services/notion.ts:23 | `\[([^\]]+)\]\([^)]+\)` consumes a link with non-empty text and URL and emits its text |
| Markdown.DelimitedHit | src/services/notion.ts:25-27 | `(d)(.*?)\1` matches a delimiter, text with no line break and the same delimiter, and emits the text between them |
| Markdown.CodeBlockHit | src/services/notion.ts:29 | a match, which may span lines, starts and ends with a fence and emits nothing |
| Markdown.InlineCodeHit | src/services/notion.ts:31 | `` `([^`]+)` `` emits the code between two backticks |
| Markdown.HeadingHit | src/services/notion.ts:33 | only at line start: one to six `#` and the whole whitespace run after them are removed |
| Markdown.QuoteHit | src/services/notion.ts:35 | at line start, `>` and at least one whitespace are removed |
| Markdown.BulletHit | src/services/notion.ts:37 | at line start, leading whitespace, `-` or `*`, and whitespace are removed |
| Markdown.NumberedHit | src/services/notion.ts:38 | at line start, leading whitespace, digits, `.` and whitespace are removed |
| Markdown.NewlinesHit | src/services/notion.ts:40 | a whole run of three or more line feeds is replaced by two |
| Markdown.CollapseShape | src/services/notion.ts:40 | after the collapse no three line feeds follow each other |
| Markdown.TrimKeepsNoTriple | src/services/notion.ts:40-41 | trimming cannot create three line feeds in a row |
| Markdown.CleanMarkdown | src/services/notion.ts:17-43 | the result is trimmed and never holds three line feeds in a row |
| MarkdownFacts.ImageOf | src/services/notion.ts:21 | `![alt](url)` with one-line parts is one image match that removes all of it |
| MarkdownFacts.StripImageAhead | src/services/notion.ts:21 | an image at the front of a text disappears and the rest is processed as before |
| MarkdownFacts.ImageVanishes | src/services/notion.ts:21 | the image pass turns `![alt](url)` into nothing, alt text included |
| MarkdownFacts.LinkLeavesAlt | src/services/notion.ts:21-23 | if links were stripped first, an image would leave `!alt` behind |
| MarkdownFacts.ImagesBeforeLinks | src/services/notion.ts:21-23 | running the image pass before the link pass is what removes the alt text |
| MarkdownFacts.ImageCleansToNothing | src/services/notion.ts:17-43 | `cleanMarkdown` of an image alone is the empty string |
| MarkdownFacts.LinkOf | src/services/notion.ts:23 | `[text](url)` with non-empty parts is one link match emitting `text` |
| MarkdownFacts.StripLinkAhead | src/services/notion.ts:23 | a link at the front is replaced by its text and the rest is processed as before |
| MarkdownFacts.LinkKeepsText | src/services/notion.ts:23 | the link pass turns `[text](url)` into `text` |
| MarkdownFacts.BoldOf | src/services/notion.ts:25 | `**t**` and `__t__` match and emit `t` |
| MarkdownFacts.ItalicOf | src/services/notion.ts:27 | `*t*` and `_t_` match and emit `t` |
| MarkdownFacts.BoldKeepsText | src/services/notion.ts:25 | the bold pass turns `**t**` into `t` |
| MarkdownFacts.ItalicKeepsText | src/services/notion.ts:27 | the italic pass turns `*t*` into `t` |
| MarkdownFacts.CodeBlockOf | src/services/notion.ts:29 | a fenced block without backticks inside is one match that emits nothing |
| MarkdownFacts.CodeBlockVanishes | src/services/notion.ts:29 | the code-block pass removes a fenced block entirely |
| MarkdownFacts.InlineCodeOf | src/services/notion.ts:31 | `` `c` `` with non-empty `c` matches and emits `c` |
| MarkdownFacts.InlineCodeKeepsText | src/services/notion.ts:31 | the inline-code pass turns `` `c` `` into `c` |
| MarkdownFacts.HeadingOf | src/services/notion.ts:33 | one to six `#` and whitespace at line start are matched in full |
| MarkdownFacts.QuoteOf | src/services/notion.ts:35 | `>` and whitespace at line start are matched in full |
| MarkdownFacts.BulletOf | src/services/notion.ts:37 | indentation, `-`/`*` and whitespace at line start are matched in full |
| MarkdownFacts.NumberedOf | src/services/notion.ts:38 | indentation, digits, `.` and whitespace at line start are matched in full |
| MarkdownFacts.MarkerAhead | src/services/notion.ts:33-38 | a line-start marker is removed and the scan resumes at line start exactly when the marker ended in a line terminator |
| MarkdownFacts.StripHeadingAhead | src/services/notion.ts:33 | the heading pass removes a heading marker at the front and leaves the text after it |
| MarkdownFacts.StripQuoteAhead | src/services/notion.ts:35 | the quote pass removes a quote marker at the front |
| MarkdownFacts.StripBulletAhead | src/services/notion.ts:37 | the bullet pass removes a list marker at the front |
| MarkdownFacts.StripNumberAhead | src/services/notion.ts:38 | the numbered-list pass removes a `N.` marker at the front |
| Notion.FetchDailyJournal | src/services/notion.ts:45-81 | no result gives `None`; otherwise the first page's id, first title run, cleaned first content run (`""` when there is none) and tag names in order; a missing Content or Title property throws |
| Notion.NoRunsGiveEmptyContent | src/services/notion.ts:72-73 | a page without content runs gets the empty string as content |
| XhsMedia.IsUrl | src/xhs/publish.ts:85-87 | `isUrl`: a source is fetched over the network exactly when it starts with `http://` or `https://` |
| XhsMedia.UrlNeedsLowerCaseScheme | src/xhs/publish.ts:85-87 | `HTTP://…`, `HTTPS://…` and a path holding a URL further on are all taken for local paths |
| XhsMedia.ProtocolOf | src/xhs/publish.ts:43 | `https` is chosen exactly when the URL starts with `https` |
| XhsMedia.ProtocolMatchesScheme | src/xhs/publish.ts:43 | for a URL as `isUrl` accepts it, the `https` prefix test agrees with the `https://` scheme |
| XhsMedia.ExtName | src/xhs/publish.ts:39 | `path.extname`: empty, or a dot and a dot-free, slash-free tail of the last path component |
| XhsMedia.ExtNameOf | src/xhs/publish.ts:39 | the extension of `dir/stem.x` is `.x` |
| XhsMedia.ExtOrJpg | src/xhs/publish.ts:39 | the extension, or `.jpg` when there is none |
| XhsMedia.NoDotMeansJpg | src/xhs/publish.ts:39 | a path whose last component has no dot gets `.jpg` |
| XhsMedia.TempFileName | src/xhs/publish.ts:40 | the name starts with `temp-image-` and ends with the chosen extension |
| XhsMedia.TempFileNameRoundTrip | src/xhs/publish.ts:40 | the timestamp and the extension can be read back from the name |
| XhsMedia.Decide | src/xhs/publish.ts:47-58 | 301/302 with a Location is followed; 200 saves; everything else, including a redirect without Location, rejects with its status |
| XhsMedia.Download | src/xhs/publish.ts:31-80 | a saved download is named `temp-image-…`; an unparsable URL fails before any request |
| XhsMedia.DownloadSaves | src/xhs/publish.ts:55-66 | a 200 answer saves under the temp name taken at that hop |
| XhsMedia.DownloadFollows | src/xhs/publish.ts:47-53 | a redirect is followed to its Location with no hop bound |
| XhsMedia.DownloadRejects | src/xhs/publish.ts:55-58 | any other status rejects with that status |
| XhsMedia.FuelOnlyCutsShort | src/xhs/publish.ts:47-53 | the model's hop budget changes a result only by cutting it short |
| XhsPublish.IsLoginUrl | src/xhs/publish.ts:23 | the login pattern as an ASCII-case-folded search for `login` or `passport`; `LoginIgnoresCase` states which case differences it ignores |
| XhsPublish.LoginIgnoresCase | src/xhs/publish.ts:23 | URLs equal up to ASCII case are judged alike by the `login`/`passport` pattern |
| XhsPublish.UpperCaseLoginDetected | src/xhs/publish.ts:23 | a URL containing `LOGIN` is a login redirect |
| XhsPublish.TryInOrder | src/xhs/publish.ts:209-229 | the tab loop, and the body loop at 379-400: the candidates acted on are visible, in list order, each at most once; every visible candidate before the chosen one was tried; all but the last failed |
| XhsPublish.ChosenIsLastTried | src/xhs/publish.ts:217-225 | the chosen candidate is the last one acted on, and acting on it went through |
| XhsPublish.FirstVisibleWins | src/xhs/publish.ts:217-225 | when acting works, the first visible candidate is the only one acted on |
| XhsPublish.NoneVisible | src/xhs/publish.ts:231-236 | with nothing visible, nothing is acted on and nothing is chosen |
| XhsPublish.TabEffects | src/xhs/publish.ts:204-239 | the debug screenshot is taken exactly when no tab was switched to |
| XhsPublish.ContentEffects | src/xhs/publish.ts:379-404 | the content is typed exactly when some body selector took it |
| XhsPublish.FirstShown | src/xhs/publish.ts:420-449 | the first shown phrase in list order, or none |
| XhsPublish.Classify | src/xhs/publish.ts:419-465 | rejected iff an error phrase shows; confirmed iff none does and a success phrase does; navigated iff neither and the URL left `/publish/publish`; unconfirmed otherwise |
| XhsPublish.ErrorsDecideAlone | src/xhs/publish.ts:419-431 | once an error phrase shows, success phrases and URL are not consulted |
| XhsPublish.FirstErrorNamed | src/xhs/publish.ts:419-431 | the rejection names the first shown error phrase in list order, whatever phrases follow it |
| XhsPublish.FirstSuccessNamed | src/xhs/publish.ts:437-449 | the first success phrase in list order names the confirmation |
| XhsPublish.Conclude | src/xhs/publish.ts:419-465 | a rejection throws after its screenshot; an unconfirmed result only adds a screenshot |
| XhsPublish.Attempt | src/xhs/publish.ts:277-467 | the `try` body: navigation, storage injection, the session check, then the form; `AttemptConcludes` and `PopupFailureStopsRun` state where it ends |
| XhsPublish.Cleanup | src/xhs/publish.ts:474-484 | the `finally` waits, closes the browser and deletes a temp file last; a throwing wait skips the close, and either throwing skips the delete |
| XhsPublish.Finish | src/xhs/publish.ts:474-484 | an error thrown in the `finally` replaces what the `try` returned or threw; otherwise that passes through |
| XhsPublish.Publish | src/xhs/publish.ts:248-485 | `publishToXhs` as written, over any page answers; the lemmas below state its properties |
| XhsPublish.Session | src/xhs/publish.ts:274-485 | from the creation of the context (274) and its page (275) on: the `try`, its `catch` and its `finally` |
| XhsPublish.PublishToXhs | src/xhs/publish.ts:248-485 | `publishToXhs` against one environment, with the page answers read off it |
| XhsPublish.MissingImageThrowsFirst | src/xhs/publish.ts:265-269 | a missing local image throws before any browser work |
| XhsPublish.LocalImageKept | src/xhs/publish.ts:480-483 | a local image is never deleted |
| XhsPublish.ExpiredSessionTouchesNothing | src/xhs/publish.ts:289-292 | a login redirect throws before any popup, tab, upload, fill or publish step, with `SessionExpired` unless the `finally` throws; the browser is closed unless the `finally`'s wait throws |
| XhsPublish.DownloadDeletedOnceEntered | src/xhs/publish.ts:474-484 | once the context is open, the downloaded file is deleted last, on success and on error, exactly when the `finally`'s wait and close go through; otherwise the run throws the `finally`'s error |
| XhsPublish.FailingTeardownLeaks | src/xhs/publish.ts:474-484 | a wait or close that throws in the `finally` leaves the downloaded file behind and is the error the run throws |
| XhsPublish.DownloadLeaksWhenContextFails | src/xhs/publish.ts:262-277 | a context that fails to open leaves the downloaded file behind |
| XhsPublish.CleanedDeletesUnlessTeardownThrows | src/xhs/publish.ts:474-484 | with context creation inside the `try`, the downloaded file is deleted last exactly when the context fails to open or the `finally`'s wait and close go through |
| XhsPublish.CleanedAgreesWhenContextOpens | src/xhs/publish.ts:274-485 | the corrected run equals the written one whenever the context opens |
| XhsPublish.PopupFailureStopsRun | src/xhs/publish.ts:162-198 | a throwing wait or Escape press in the popup closing ends the run there, after the error screenshot, before any tab or upload |
| XhsPublish.AttemptConcludes | src/xhs/publish.ts:277-465 | with no step throwing and a valid session, the image is uploaded and the page's outcome decides the result |
| XhsPublish.UnconfirmedDoesNotThrow | src/xhs/publish.ts:460-465 | an unconfirmed publication takes a screenshot and does not throw; the run ends normally unless the `finally` throws |
| XhsPublish.RejectionThrows | src/xhs/publish.ts:419-431 | a shown error phrase makes the run throw, with `PublishRejected` naming one of the error phrases unless the `finally` throws its own error |
| XhsPublish.MissingTabIsOnlyAWarning | src/xhs/publish.ts:231-236 | with no tab visible, a debug screenshot is taken and the upload still happens |
| Orchestrator.PublishWith | src/index.ts:13-46 | the job starts with the fetch, and with a journal the polish of its content comes second; once polishing answers, its calls are a prefix of fetch, polish, post, update; every call but the last answered, and the job ends with the last call's answer |
| Orchestrator.PublishToTwitter | src/index.ts:13-46 | `publishToTwitter`, cutting the thread with `splitIntoThread`; `PostsSplitIntoThread` states which tweets are posted |
| Orchestrator.NoJournalStopsAtFetch | src/index.ts:18-22 | with no journal nothing is polished, posted or updated |
| Orchestrator.PostsThePolishedThread | src/index.ts:27-37 | the one thread posted is the splitter applied to the polished content |
| Orchestrator.PostsSplitIntoThread | src/index.ts:27-37 | the posted tweets are `splitIntoThread` of the polished content |
| Orchestrator.UpdateOnlyAfterPost | src/index.ts:37-42 | a status update comes only after a post that answered |
| Orchestrator.PostFailureSkipsUpdate | src/index.ts:37-42 | when posting throws there is no status update and the job fails with that error |
| Orchestrator.SuccessUpdatesOnce | src/index.ts:18-45 | a successful job with a journal makes exactly one status update, to `Published`, for that page |
| Orchestrator.CheckAndRemind | src/index.ts:48-61 | the reminder is mailed iff no entry exists today; the job fails iff the check or the mail throws |
| Orchestrator.Scheduled | src/index.ts:64-81 | a cron tick makes the job's calls and only logs its error, so no error leaves the scheduler |

## Left out

- Playwright: browser launch, navigation, clicks, typing, screenshots, waits and timeouts. The page is an oracle: visibility and action predicates per selector or phrase, the URL after navigation and after publishing, and which step throws. Screenshots are trace entries that never fail; a failing screenshot in the error-phrase loop would be swallowed by that loop's own `catch`, and one in the outer `catch` would replace the error it rethrows. A step that may end the run is recorded when it starts, so the entry of a step that throws is the last one before the error screenshot (or the last one of the `finally`); the wait after the tab loop, which has no entry of its own, throws after the tab entries. Inside the fallback loops, typing into a body field that throws half-way is recorded only by the click before it: partial typing is not modelled.
- The two popup checks of `closeAllPopups`, the upload-progress wait and the preview wait. Each sits in its own `try`/`catch` and changes no decision, so they are one `ClosePopups` entry or nothing. The waits and Escape presses around the popup checks and the wait after the tab loop are not guarded: they are the `Popups` and `TabSwitch` steps, which may throw. The fallback wait after the preview search and the wait after the publish click belong to the `UploadImage` and `PublishButton` steps.
- The credential file, cookies and local-storage injection. They are a `CreateContext` (the context and its page, created before the `try`) that opens or fails and an `InjectStorage` step that answers or throws.
- HTTP in `downloadImage`: sockets, streaming to disk, the 30-second timeout and file-stream errors are one `Unreachable` answer. `new URL(...).pathname` is a parameter (`urlPath`), and `Date.now()` is a clock read per hop. The directory creation and `path.join` are not modelled.
- XhsMedia.Download: the `fuel` parameter only makes the function total. The code follows redirects without any bound, and `FuelOnlyCutsShort` shows the budget never changes a result except by running out.
- `path.resolve` and `fs.existsSync` for local images are parameters (`resolved`, `localExists`). The final `existsSync` check before deleting the temp file is taken to be true.
- Twitter, the language model, mail and Notion writes are oracles answering or throwing. Their clients live in `src/services/twitter.ts`, `ai.ts` and `email.ts`, and these files are not part of this model.
- `checkHasWrittenToday`, the Notion query filter and the `Date`/`toISOString` date handling. The query result is an input.
- The cron expressions and node-cron scheduling beyond "an error is logged, not thrown".
- Logging to the console.
- The interactive login scripts and debug scripts.
- TextSplitter.PostsFitMaxLength: assumes fewer than 1000 chunks, because the marker ` (i/N)` is wider than ten characters beyond that. It also counts Unicode scalar values, while `.length` counts UTF-16 code units, so a post holding emoji can be longer than 260 code units even where the bound holds.
- TextSplitter.PackIsGreedy: the 250-character budget is compared in Unicode scalar values, not in the UTF-16 code units `.length` counts, so a text with characters outside the Basic Multilingual Plane may be packed differently from the code.
- `downloadImage` follows redirects without any bound, and `index.ts` publishes only to Twitter, with no combined status update across platforms; `publishToXhs` is not called by the scheduler.

## Findings

| source | as written | input that shows it | evidently intended | confidence | as-written member | corrected member |
|---|---|---|---|---|---|---|
| src/xhs/publish.ts:474-484 | the image is downloaded at 262, the browser context and its page are created at 274-275, outside the `try` that starts at 277, and the temp file is deleted only in that `try`'s `finally` | an `http(s)` image source that downloads, with `xhs-auth.json` missing so that `createAuthenticatedContext` throws | the downloaded temp file is removed on every exit path on which the `finally` itself completes | medium, not executed | XhsPublish.DownloadLeaksWhenContextFails | XhsPublish.CleanedDeletesUnlessTeardownThrows |

`XhsPublish.PublishCleaned` moves the creation of the context and its page inside the `try`. `XhsPublish.CleanedAgreesWhenContextOpens` shows that it agrees with the written run whenever the context opens, so every property proved of `Publish` with an open context holds for the corrected run as well. The corrected run keeps the order inside the `finally`: a wait or browser close that throws there still skips the unlink, as `XhsPublish.FailingTeardownLeaks` shows for the written run.
