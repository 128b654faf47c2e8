/** The dashboard's add form: a title and a url, a submit that asks the
    classifier and then hands the bookmark to `onAdd`, and the status line
    that reports how the classification went and clears itself 3 seconds
    later. The asynchronous submit is a begin step and a finish step with
    the classifier's and `onAdd`'s answers as parameters. */
module AddForm {
  import opened Values
  import opened Text
  import opened Storage

  const Analyzing := "analyzing"
  const Done := "done"
  const Failed := "error"
  const StatusResetDelay := 3000

  /** The `onAdd(finalTitle, url, aiData)` call a submit makes. */
  datatype AddCall = AddCall(title: Value, url: string, aiData: Value)

  /** `title || aiData?.suggestedTitle || aiData?.pageTitle || url`, with
      the title and url already trimmed. */
  function FinalTitle(title: string, url: string, aiData: Value): Value {
    Or(Str(title), Or(Field(aiData, "suggestedTitle"), Or(Field(aiData, "pageTitle"), Str(url))))
  }

  /** The title is the typed one when there is one, else the classifier's
      suggestion, else the page title, else the url: the first that is
      truthy, so never empty once the url is not. */
  lemma FinalTitleSpec(title: string, url: string, aiData: Value)
    ensures var t := FinalTitle(title, url, aiData);
      && (title != "" ==> t == Str(title))
      && (title == "" && Truthy(Field(aiData, "suggestedTitle")) ==> t == Field(aiData, "suggestedTitle"))
      && (title == "" && !Truthy(Field(aiData, "suggestedTitle")) && Truthy(Field(aiData, "pageTitle")) ==>
            t == Field(aiData, "pageTitle"))
      && (title == "" && !Truthy(Field(aiData, "suggestedTitle")) && !Truthy(Field(aiData, "pageTitle")) ==>
            t == Str(url))
      && (url != "" ==> Truthy(t))
  {
  }

  /** Without a classifier answer the title is the typed one or the url. */
  lemma FinalTitleWithoutAi(title: string, url: string)
    ensures FinalTitle(title, url, Null) == Str(if title != "" then title else url)
  {
  }

  /** The guard and the captured values of `handleSubmit`. */
  method SubmitRequest(title: string, url: string) returns (req: Option<(string, string)>)
    ensures req.None? <==> Trim(url) == ""
    ensures req.Some? ==> req.value == (Trim(title), Trim(url))
  {
    var u := Trim(url);
    if u == "" {
      return None;
    }
    req := Some((Trim(title), u));
  }

  class AddBookmarkForm {
    var title: string
    var url: string
    var loading: bool
    var aiStatus: string
    /** The status resets scheduled by finished submits, not yet run. */
    var pendingResets: nat

    predicate Valid()
      reads this
    {
      aiStatus in {"", Analyzing, Done, Failed}
    }

    constructor ()
      ensures Valid()
      ensures title == "" && url == "" && !loading && aiStatus == "" && pendingResets == 0
    {
      title := "";
      url := "";
      loading := false;
      aiStatus := "";
      pendingResets := 0;
    }

    /** The inputs' `onChange` handlers. */
    method TypeTitle(s: string)
      modifies this
      ensures title == s
      ensures url == old(url) && loading == old(loading) && aiStatus == old(aiStatus)
      ensures pendingResets == old(pendingResets)
    {
      title := s;
    }

    method TypeUrl(s: string)
      modifies this
      ensures url == s
      ensures title == old(title) && loading == old(loading) && aiStatus == old(aiStatus)
      ensures pendingResets == old(pendingResets)
    {
      url := s;
    }

    /** The start of `handleSubmit`: nothing for a blank url; otherwise the
        form is busy analysing and the trimmed title and url are captured. */
    method BeginSubmit() returns (req: Option<(string, string)>)
      requires Valid()
      modifies this
      ensures Valid()
      ensures req.None? <==> Trim(old(url)) == ""
      ensures req.None? ==> loading == old(loading) && aiStatus == old(aiStatus)
      ensures req.Some? ==> req.value == (Trim(old(title)), Trim(old(url))) && loading && aiStatus == Analyzing
      ensures title == old(title) && url == old(url) && pendingResets == old(pendingResets)
    {
      req := SubmitRequest(title, url);
      if req.Some? {
        loading := true;
        aiStatus := Analyzing;
      }
    }

    /** The rest of `handleSubmit` for the captured request, given the
        classifier's answer (`None` where it threw) and whether `onAdd`
        reported an error. A thrown classification skips `onAdd`; the form
        is cleared only after a successful add; the form is never left busy,
        and a status reset is scheduled on every path. */
    method FinishSubmit(req: (string, string), categorized: Option<Value>, addFailed: bool)
      returns (call: Option<AddCall>)
      requires Valid()
      requires req.1 != ""
      modifies this
      ensures Valid()
      ensures call.None? <==> categorized.None?
      ensures categorized.None? ==> aiStatus == Failed
      ensures categorized.Some? ==> aiStatus == (if Truthy(categorized.value) then Done else Failed)
      ensures categorized.Some? ==>
        call == Some(AddCall(FinalTitle(req.0, req.1, categorized.value), req.1,
                             Or(categorized.value, Obj(map[]))))
      ensures call.Some? ==> Truthy(call.value.title) && !call.value.aiData.Null?
      ensures call.Some? ==> InsertRow("", call.value.title, Str(call.value.url), call.value.aiData).Some?
      ensures call.Some? && !addFailed ==> title == "" && url == ""
      ensures call.None? || addFailed ==> title == old(title) && url == old(url)
      ensures !loading && pendingResets == old(pendingResets) + 1
    {
      if categorized.None? {
        aiStatus := Failed;
        call := None;
      } else {
        var aiData := categorized.value;
        aiStatus := if Truthy(aiData) then Done else Failed;
        FinalTitleSpec(req.0, req.1, aiData);
        call := Some(AddCall(FinalTitle(req.0, req.1, aiData), req.1, Or(aiData, Obj(map[]))));
        if !addFailed {
          title := "";
          url := "";
        }
      }
      loading := false;
      pendingResets := pendingResets + 1;
    }

    /** A scheduled 3-second reset runs: the status line clears, whatever
        submit it belongs to. */
    method ClearStatus()
      requires Valid()
      requires pendingResets > 0
      modifies this
      ensures Valid()
      ensures aiStatus == "" && pendingResets == old(pendingResets) - 1
      ensures title == old(title) && url == old(url) && loading == old(loading)
    {
      aiStatus := "";
      pendingResets := pendingResets - 1;
    }
  }

  /** An earlier submit's reset clears the status of a later submit that is
      still analysing. */
  method OverlappingReset(form: AddBookmarkForm, categorized: Option<Value>)
    requires form.Valid() && !form.loading && form.pendingResets == 0 && Trim(form.url) != ""
    modifies form
    ensures form.loading && form.aiStatus == ""
  {
    var req := form.BeginSubmit();
    var _ := form.FinishSubmit(req.value, categorized, true);
    req := form.BeginSubmit();
    assert form.aiStatus == Analyzing && form.loading;
    form.ClearStatus();
  }
}
