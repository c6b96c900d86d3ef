/**
 * `fetchDailyJournal`: the mapping from the first page of the journal
 * query to a `JournalEntry`. The query itself (its date and status filter
 * and the network call) is a parameter: the model receives the pages the
 * query returned, in the order it returned them.
 */
module Notion {
  import opened Common
  import opened Strings
  import opened Markdown

  /** A multi-select option; only its name is read. */
  datatype Tag = Tag(name: string)

  /**
   * The properties of a page that are read. A rich-text or title property
   * is the list of `plain_text` values of its runs; `None` is a property
   * the page does not have.
   */
  datatype Properties = Properties(
    title: Option<seq<string>>,
    content: Option<seq<string>>,
    tags: Option<seq<Tag>>)

  datatype Page = Page(id: string, properties: Properties)

  datatype JournalEntry = JournalEntry(id: string, title: string, content: string, tags: seq<string>)

  /** Reading a field of a missing property throws a `TypeError`. */
  datatype FetchError = MissingContent | MissingTitle

  /** `runs[0]?.plain_text || ""`: the first run's text, or the empty string when there is none. */
  function FirstText(runs: seq<string>): (r: string)
    ensures |runs| > 0 ==> r == runs[0]
    ensures |runs| == 0 ==> r == ""
  {
    if |runs| > 0 then runs[0] else ""
  }

  /**
   * The journal for the query result `results`: `None` when the query found
   * nothing, otherwise the first page with its title and cleaned content
   * (empty when absent) and its tag names in order.
   */
  method FetchDailyJournal(results: seq<Page>) returns (r: Result<Option<JournalEntry>, FetchError>)
    ensures |results| == 0 <==> r == Success(None)
    ensures |results| > 0 && results[0].properties.content.None? ==> r == Failure(MissingContent)
    ensures |results| > 0 && results[0].properties.content.Some? && results[0].properties.title.None?
            ==> r == Failure(MissingTitle)
    ensures |results| > 0 && results[0].properties.content.Some? && results[0].properties.title.Some?
            ==> r.Success? && r.value.Some?
    ensures r.Success? && r.value.Some? ==>
              var p := results[0].properties;
              && p.content.Some? && p.title.Some?
              && r.value.value.id == results[0].id
              && r.value.value.title == FirstText(p.title.value)
              && r.value.value.content == CleanMarkdown(FirstText(p.content.value))
    ensures r.Success? && r.value.Some? ==>
              var p := results[0].properties;
              && (p.tags.None? ==> r.value.value.tags == [])
              && (p.tags.Some? ==> |r.value.value.tags| == |p.tags.value|
                                   && forall i :: 0 <= i < |p.tags.value| ==> r.value.value.tags[i] == p.tags.value[i].name)
  {
    if |results| == 0 {
      return Success(None);
    }
    var page := results[0];
    var props := page.properties;
    var tags: seq<string> := [];
    if props.tags.Some? {
      var options := props.tags.value;
      var i := 0;
      while i < |options|
        invariant 0 <= i <= |options|
        invariant |tags| == i
        invariant forall k :: 0 <= k < i ==> tags[k] == options[k].name
      {
        tags := tags + [options[i].name];
        i := i + 1;
      }
    }
    if props.content.None? {
      return Failure(MissingContent);
    }
    var cleaned := CleanMarkdown(FirstText(props.content.value));
    if props.title.None? {
      return Failure(MissingTitle);
    }
    return Success(Some(JournalEntry(page.id, FirstText(props.title.value), cleaned, tags)));
  }

  /** A page without content runs gets the empty string as its content. */
  lemma NoRunsGiveEmptyContent()
    ensures CleanMarkdown(FirstText([])) == ""
  {
    assert StripMarkup("") == "";
  }
}
