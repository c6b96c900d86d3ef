/**
 * The scheduler's two jobs: `publishToTwitter`, which posts the day's
 * journal as a thread and marks it published, and `checkAndRemind`, which
 * mails a reminder when nothing was written. Every service (Notion, the
 * language model, Twitter, mail) is an oracle that answers or throws; a run
 * is the sequence of calls it made and how it ended.
 */
module Orchestrator {
  import opened Common
  import opened Notion
  import opened TextSplitter

  /** The service calls a job makes; a call is recorded whether it answers or throws. */
  datatype Call =
    | FetchJournal
    | Polish(content: string)
    | PostThread(tweets: seq<string>)
    | UpdateStatus(id: string, status: string)
    | CheckWritten
    | SendReminder

  /** A thrown error, by its message. */
  type Message = string

  datatype Report = Report(calls: seq<Call>, result: Result<(), Message>)

  /** What each service answers when called. */
  datatype Services = Services(
    fetched: Result<Option<JournalEntry>, Message>,
    polish: string -> Result<string, Message>,
    post: seq<string> -> Result<(), Message>,
    update: (string, string) -> Result<(), Message>)

  const Published: string := "Published"

  /**
   * The calls a run makes when every service answers: fetch, polish the
   * content, post the thread cut from the polished text, mark the page
   * published.
   */
  function FullRun(j: JournalEntry, polished: string, split: string -> seq<string>): seq<Call> {
    [FetchJournal, Polish(j.content), PostThread(split(polished)), UpdateStatus(j.id, Published)]
  }

  predicate IsPrefix(a: seq<Call>, b: seq<Call>) {
    |a| <= |b| && b[..|a|] == a
  }

  /** What the service behind a call answers; the reminder calls belong to the other job. */
  function Answer(s: Services, c: Call): Result<(), Message> {
    match c
    case FetchJournal => if s.fetched.Failure? then Failure(s.fetched.error) else Success(())
    case Polish(text) => if s.polish(text).Failure? then Failure(s.polish(text).error) else Success(())
    case PostThread(tweets) => s.post(tweets)
    case UpdateStatus(id, status) => s.update(id, status)
    case _ => Success(())
  }

  /**
   * `publishToTwitter`, with the thread splitter as a parameter: each step
   * runs only once the one before it has answered, and the first error
   * thrown ends the job with that error.
   */
  function PublishWith(s: Services, split: string -> seq<string>): (r: Report)
    ensures |r.calls| > 0 && r.calls[0] == FetchJournal
    ensures s.fetched.Success? && s.fetched.value.Some?
            ==> |r.calls| >= 2 && r.calls[..2] == [FetchJournal, Polish(s.fetched.value.value.content)]
    ensures s.fetched.Success? && s.fetched.value.Some? && s.polish(s.fetched.value.value.content).Success?
            ==> IsPrefix(r.calls, FullRun(s.fetched.value.value, s.polish(s.fetched.value.value.content).value, split))
    ensures forall k :: 0 <= k < |r.calls| - 1 ==> Answer(s, r.calls[k]).Success?
    ensures r.result == Answer(s, r.calls[|r.calls| - 1])
  {
    match s.fetched
    case Failure(e) => Report([FetchJournal], Failure(e))
    case Success(None) => Report([FetchJournal], Success(()))
    case Success(Some(j)) =>
      var t1 := [FetchJournal, Polish(j.content)];
      match s.polish(j.content)
      case Failure(e) => Report(t1, Failure(e))
      case Success(p) =>
        var tweets := split(p);
        var t2 := t1 + [PostThread(tweets)];
        match s.post(tweets)
        case Failure(e) => Report(t2, Failure(e))
        case Success(_) => Report(t2 + [UpdateStatus(j.id, Published)], s.update(j.id, Published))
  }

  /** `publishToTwitter` itself, cutting the thread with `splitIntoThread`. */
  function PublishToTwitter(s: Services): Report {
    PublishWith(s, SplitIntoThread)
  }

  /** With no journal to post the job ends after the fetch: nothing is polished, posted or updated. */
  lemma NoJournalStopsAtFetch(s: Services, split: string -> seq<string>)
    requires s.fetched == Success(None)
    ensures PublishWith(s, split) == Report([FetchJournal], Success(()))
  {
  }

  /** The thread posted is exactly the polished content cut by the splitter, and it is posted at most once. */
  lemma PostsThePolishedThread(s: Services, split: string -> seq<string>, j: JournalEntry, polished: string)
    requires s.fetched == Success(Some(j)) && s.polish(j.content) == Success(polished)
    ensures PostThread(split(polished)) in PublishWith(s, split).calls
    ensures forall k :: 0 <= k < |PublishWith(s, split).calls| && PublishWith(s, split).calls[k].PostThread?
                        ==> k == 2 && PublishWith(s, split).calls[k].tweets == split(polished)
  {
    var r := PublishWith(s, split);
    assert IsPrefix(r.calls, FullRun(j, polished, split));
    assert r.calls[2] == PostThread(split(polished));
  }

  /** The tweets `publishToTwitter` posts are `splitIntoThread` of the polished content. */
  lemma PostsSplitIntoThread(s: Services, j: JournalEntry, polished: string)
    requires s.fetched == Success(Some(j)) && s.polish(j.content) == Success(polished)
    ensures PostThread(SplitIntoThread(polished)) in PublishToTwitter(s).calls
  {
    PostsThePolishedThread(s, SplitIntoThread, j, polished);
  }

  /** The status is updated only after posting answered; when posting throws the job ends without an update. */
  lemma UpdateOnlyAfterPost(s: Services, split: string -> seq<string>)
    ensures forall k :: 0 <= k < |PublishWith(s, split).calls| && PublishWith(s, split).calls[k].UpdateStatus?
                        ==> k == 3 && PublishWith(s, split).calls[2].PostThread?
                            && s.post(PublishWith(s, split).calls[2].tweets).Success?
  {
  }

  /** When posting throws the status is never updated and the job fails with the posting error. */
  lemma PostFailureSkipsUpdate(s: Services, split: string -> seq<string>, j: JournalEntry, polished: string)
    requires s.fetched == Success(Some(j)) && s.polish(j.content) == Success(polished)
    requires s.post(split(polished)).Failure?
    ensures forall c :: c in PublishWith(s, split).calls ==> !c.UpdateStatus?
    ensures PublishWith(s, split).result == Failure(s.post(split(polished)).error)
  {
    assert PublishWith(s, split).calls == FullRun(j, polished, split)[..3];
  }

  /** A job that succeeds with a journal made every call once, ending with one update to `Published` for that page. */
  lemma SuccessUpdatesOnce(s: Services, split: string -> seq<string>, j: JournalEntry)
    requires s.fetched == Success(Some(j))
    requires PublishWith(s, split).result.Success?
    ensures s.polish(j.content).Success?
    ensures PublishWith(s, split).calls == FullRun(j, s.polish(j.content).value, split)
    ensures forall k :: 0 <= k < |PublishWith(s, split).calls| && PublishWith(s, split).calls[k].UpdateStatus?
                        ==> k == 3 && PublishWith(s, split).calls[k] == UpdateStatus(j.id, Published)
  {
  }

  /** `checkAndRemind`: ask whether today's entry exists; mail a reminder only when it does not. */
  function CheckAndRemind(written: Result<bool, Message>, mail: Result<(), Message>): (r: Report)
    ensures SendReminder in r.calls <==> written == Success(false)
    ensures r.result.Failure? <==> written.Failure? || (written == Success(false) && mail.Failure?)
    ensures |r.calls| > 0 && r.calls[0] == CheckWritten
  {
    match written
    case Failure(e) => Report([CheckWritten], Failure(e))
    case Success(true) => Report([CheckWritten], Success(()))
    case Success(false) => Report([CheckWritten, SendReminder], mail)
  }

  /** What a scheduled tick leaves behind: the calls made and the message logged, if any. */
  datatype Tick = Tick(calls: seq<Call>, logged: Option<Message>)

  /**
   * The cron callbacks: the job runs inside `try`/`catch`, an error is only
   * logged, and so no error leaves the scheduler.
   */
  function Scheduled(job: Report): (t: Tick)
    ensures t.calls == job.calls
    ensures job.result.Failure? <==> t.logged.Some?
    ensures job.result.Failure? ==> t.logged.value == job.result.error
  {
    match job.result
    case Failure(e) => Tick(job.calls, Some(e))
    case Success(_) => Tick(job.calls, None)
  }

  /** The two scheduled jobs. */
  function PublishTick(s: Services): Tick {
    Scheduled(PublishToTwitter(s))
  }

  function ReminderTick(written: Result<bool, Message>, mail: Result<(), Message>): Tick {
    Scheduled(CheckAndRemind(written, mail))
  }
}
