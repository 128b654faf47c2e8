/** The extension popup: the session, the current tab, the five most recent
    bookmarks, and the one-click save that classifies the tab, inserts it
    and prepends it to the recent list. Asynchronous steps are split into a
    begin and a finish with the remote answers as parameters; the 3-second
    timers are explicit steps. */
module Popup {
  import opened Values
  import opened Records
  import opened Storage
  import opened AddForm

  const RecentLimit := 5
  const Skipped := "skipped"
  const ResetDelay := 3000

  /** `{ url, title }` of the tab to save; a missing title is "". */
  datatype Tab = Tab(url: string, title: string)

  /** The `storage.insertBookmark(user.id, finalTitle, url, aiData || {})` call. */
  datatype InsertCall = InsertCall(userId: string, title: Value, url: string, aiData: Value)

  /** `(data || []).slice(0, 5)` */
  function FirstRecent(data: Option<seq<Bookmark>>): (r: seq<Bookmark>)
    ensures |r| <= RecentLimit
    ensures var d := data.GetOr([]); |r| == (if |d| < RecentLimit then |d| else RecentLimit) && r == d[..|r|]
  {
    var d := data.GetOr([]);
    d[..if |d| < RecentLimit then |d| else RecentLimit]
  }

  /** `[data, ...prev.slice(0, 4)]` */
  function PushRecent(recent: seq<Bookmark>, b: Bookmark): (r: seq<Bookmark>)
    ensures |r| == (if |recent| < RecentLimit - 1 then |recent| else RecentLimit - 1) + 1
    ensures |r| <= RecentLimit
    ensures r[0] == b && r[1..] == recent[..|r| - 1]
  {
    [b] + recent[..if |recent| < RecentLimit - 1 then |recent| else RecentLimit - 1]
  }

  /** `currentTab.title || aiData?.suggestedTitle || currentTab.url` */
  function SaveTitle(tab: Tab, aiData: Value): Value {
    Or(Str(tab.title), Or(Field(aiData, "suggestedTitle"), Str(tab.url)))
  }

  /** The saved title is the tab's own title when it has one, else the
      classifier's suggestion, else the url; the page title the classifier
      reports is never used. */
  lemma SaveTitleSpec(tab: Tab, aiData: Value)
    ensures var t := SaveTitle(tab, aiData);
      && (tab.title != "" ==> t == Str(tab.title))
      && (tab.title == "" && Truthy(Field(aiData, "suggestedTitle")) ==> t == Field(aiData, "suggestedTitle"))
      && (tab.title == "" && !Truthy(Field(aiData, "suggestedTitle")) ==> t == Str(tab.url))
      && (tab.url != "" ==> Truthy(t))
  {
  }

  /** Where the classifier has only a page title, the dashboard form saves
      it as the title but the popup saves the url. */
  lemma PageTitleOnlyInForm()
    ensures var ai := Obj(map["pageTitle" := Str("Docs")]);
      && FinalTitle("", "https://a.example", ai) == Str("Docs")
      && SaveTitle(Tab("https://a.example", ""), ai) == Str("https://a.example")
  {
    var ai := Obj(map["pageTitle" := Str("Docs")]);
    assert Field(ai, "suggestedTitle") == Undefined;
  }

  class PopupState {
    var user: Option<string>
    var loading: bool
    var saving: bool
    var saved: bool
    var tab: Tab
    var recent: seq<Bookmark>
    var aiStatus: string
    /** The `setSaved(false)` timers not yet run. */
    var savedResets: nat
    /** The `setAiStatus("")` timers not yet run. */
    var statusResets: nat

    predicate Valid()
      reads this
    {
      |recent| <= RecentLimit && aiStatus in {"", Analyzing, Done, Skipped, Failed}
    }

    constructor ()
      ensures Valid()
      ensures user.None? && loading && !saving && !saved && tab == Tab("", "") && recent == [] && aiStatus == ""
      ensures savedResets == 0 && statusResets == 0
    {
      user := None;
      loading := true;
      saving := false;
      saved := false;
      tab := Tab("", "");
      recent := [];
      aiStatus := "";
      savedResets := 0;
      statusResets := 0;
    }

    /** The session check on mount up to its second `await`, with the
        session's user (`None` where `getSession` threw). With a user,
        `getBookmarks` is called (`fetch`) and loading lasts until its
        answer; otherwise the `finally` ends loading at once. */
    method LoadSession(session: Option<Option<string>>) returns (fetch: bool)
      requires Valid()
      modifies this
      ensures Valid()
      ensures fetch <==> session.Some? && session.value.Some?
      ensures session.None? ==> user == old(user)
      ensures session.Some? ==> user == session.value
      ensures fetch ==> loading == old(loading)
      ensures !fetch ==> !loading
      ensures recent == old(recent) && saving == old(saving) && saved == old(saved)
      ensures tab == old(tab) && aiStatus == old(aiStatus)
      ensures savedResets == old(savedResets) && statusResets == old(statusResets)
    {
      fetch := SignIn(session);
      if !fetch {
        loading := false;
      }
    }

    /** The rest of the session check: the `getBookmarks` answer (`None`
        where it threw) fills the recent list, and loading ends. */
    method FinishLoadSession(data: Option<Option<seq<Bookmark>>>)
      requires Valid()
      modifies this
      ensures Valid()
      ensures !loading
      ensures data.Some? ==> recent == FirstRecent(data.value)
      ensures data.None? ==> recent == old(recent)
      ensures user == old(user) && saving == old(saving) && saved == old(saved)
      ensures tab == old(tab) && aiStatus == old(aiStatus)
      ensures savedResets == old(savedResets) && statusResets == old(statusResets)
    {
      ReceiveRecent(data);
      loading := false;
    }

    /** `handleSignIn` up to the bookmark read, with the session's user
        (`None` where the sign-in or the session read threw); with a user,
        `getBookmarks` is called (`fetch`). */
    method SignIn(session: Option<Option<string>>) returns (fetch: bool)
      requires Valid()
      modifies this
      ensures Valid()
      ensures fetch <==> session.Some? && session.value.Some?
      ensures session.None? ==> user == old(user)
      ensures session.Some? ==> user == session.value
      ensures loading == old(loading) && recent == old(recent) && saving == old(saving) && saved == old(saved)
      ensures tab == old(tab) && aiStatus == old(aiStatus)
      ensures savedResets == old(savedResets) && statusResets == old(statusResets)
    {
      if session.Some? {
        user := session.value;
      }
      fetch := session.Some? && session.value.Some?;
    }

    /** `setRecentBookmarks((data || []).slice(0, 5))` once `getBookmarks`
        has answered (`None` where it threw): the answer replaces the
        recent list, whatever a save put there in the meantime. */
    method ReceiveRecent(data: Option<Option<seq<Bookmark>>>)
      requires Valid()
      modifies this
      ensures Valid()
      ensures data.Some? ==> recent == FirstRecent(data.value)
      ensures data.None? ==> recent == old(recent)
      ensures user == old(user) && loading == old(loading) && saving == old(saving) && saved == old(saved)
      ensures tab == old(tab) && aiStatus == old(aiStatus)
      ensures savedResets == old(savedResets) && statusResets == old(statusResets)
    {
      if data.Some? {
        recent := FirstRecent(data.value);
      }
    }

    /** `handleSignOut`; a thrown sign-out changes nothing. */
    method SignOut(failed: bool)
      requires Valid()
      modifies this
      ensures Valid()
      ensures failed ==> user == old(user) && recent == old(recent)
      ensures !failed ==> user.None? && recent == []
      ensures loading == old(loading) && saving == old(saving) && saved == old(saved)
      ensures tab == old(tab) && aiStatus == old(aiStatus)
      ensures savedResets == old(savedResets) && statusResets == old(statusResets)
    {
      if !failed {
        user := None;
        recent := [];
      }
    }

    /** `setCurrentTab`, from the background's current-tab answer, a pending
        context-menu bookmark, or a quick-save message. */
    method SetTab(t: Tab)
      requires Valid()
      modifies this
      ensures Valid()
      ensures tab == t
      ensures user == old(user) && loading == old(loading) && saving == old(saving) && saved == old(saved)
      ensures recent == old(recent) && aiStatus == old(aiStatus)
      ensures savedResets == old(savedResets) && statusResets == old(statusResets)
    {
      tab := t;
    }

    /** The start of `handleSaveBookmark`: nothing while signed out, for a
        tab without a url, or while a save is running; otherwise the popup
        is saving and the user and the tab are captured. */
    method BeginSave() returns (req: Option<(string, Tab)>)
      requires Valid()
      modifies this
      ensures Valid()
      ensures req.Some? <==> old(user).Some? && old(tab).url != "" && !old(saving)
      ensures req.Some? ==> req.value == (old(user).value, old(tab)) && saving && aiStatus == Analyzing
      ensures req.None? ==> saving == old(saving) && aiStatus == old(aiStatus)
      ensures user == old(user) && loading == old(loading) && saved == old(saved) && tab == old(tab)
      ensures recent == old(recent)
      ensures savedResets == old(savedResets) && statusResets == old(statusResets)
    {
      if user.None? || tab.url == "" || saving {
        return None;
      }
      saving := true;
      aiStatus := Analyzing;
      req := Some((user.value, tab));
    }

    /** The rest of `handleSaveBookmark` for the captured request, given the
        classifier's answer (`None` where it threw) and the inserted row
        (`None` on an error or without data). A thrown classification skips
        the insert; a confirmed row is prepended to the recent list, which
        keeps at most five; saving always ends and the status reset is
        always scheduled. */
    method FinishSave(req: (string, Tab), categorized: Option<Value>, inserted: Option<Bookmark>)
      returns (call: Option<InsertCall>)
      requires Valid()
      requires req.1.url != ""
      modifies this
      ensures Valid()
      ensures call.None? <==> categorized.None?
      ensures categorized.None? ==> aiStatus == Failed
      ensures categorized.Some? ==> aiStatus == (if Truthy(categorized.value) then Done else Skipped)
      ensures categorized.Some? ==>
        call == Some(InsertCall(req.0, SaveTitle(req.1, categorized.value), req.1.url,
                                Or(categorized.value, Obj(map[]))))
      ensures call.Some? ==> InsertRow(call.value.userId, call.value.title, Str(call.value.url), call.value.aiData).Some?
      ensures call.Some? && inserted.Some? ==>
        saved && recent == PushRecent(old(recent), inserted.value) && savedResets == old(savedResets) + 1
      ensures call.None? || inserted.None? ==>
        saved == old(saved) && recent == old(recent) && savedResets == old(savedResets)
      ensures !saving && statusResets == old(statusResets) + 1
      ensures user == old(user) && loading == old(loading) && tab == old(tab)
    {
      if categorized.None? {
        aiStatus := Failed;
        call := None;
      } else {
        var aiData := categorized.value;
        aiStatus := if Truthy(aiData) then Done else Skipped;
        call := Some(InsertCall(req.0, SaveTitle(req.1, aiData), req.1.url, Or(aiData, Obj(map[]))));
        if inserted.Some? {
          saved := true;
          recent := PushRecent(recent, inserted.value);
          savedResets := savedResets + 1;
        }
      }
      saving := false;
      statusResets := statusResets + 1;
    }

    /** A `setSaved(false)` timer runs. */
    method ResetSaved()
      requires Valid()
      requires savedResets > 0
      modifies this
      ensures Valid()
      ensures !saved && savedResets == old(savedResets) - 1
      ensures user == old(user) && loading == old(loading) && saving == old(saving) && tab == old(tab)
      ensures recent == old(recent) && aiStatus == old(aiStatus) && statusResets == old(statusResets)
    {
      saved := false;
      savedResets := savedResets - 1;
    }

    /** A `setAiStatus("")` timer runs. */
    method ResetStatus()
      requires Valid()
      requires statusResets > 0
      modifies this
      ensures Valid()
      ensures aiStatus == "" && statusResets == old(statusResets) - 1
      ensures user == old(user) && loading == old(loading) && saving == old(saving) && saved == old(saved)
      ensures tab == old(tab) && recent == old(recent) && savedResets == old(savedResets)
    {
      aiStatus := "";
      statusResets := statusResets - 1;
    }
  }

  /** Saving keeps the newest rows first: after saves of `b1` then `b2` the
      list starts with `b2, b1`, and what was there before follows. */
  lemma PushRecentTwice(recent: seq<Bookmark>, b1: Bookmark, b2: Bookmark)
    ensures var r := PushRecent(PushRecent(recent, b1), b2);
      && r[0] == b2 && r[1] == b1
      && r[2..] == recent[..|r| - 2]
  {
    var r1 := PushRecent(recent, b1);
    var r := PushRecent(r1, b2);
    assert r[1..] == r1[..|r| - 1];
    assert |r| >= 2;
    assert r[1] == r1[0];
    forall i | 2 <= i < |r| ensures r[i] == recent[i - 2] {
      assert r[i] == r1[i - 1];
      assert r1[i - 1] == r1[1..][i - 2];
    }
  }

  /** A save that completes while the sign-in's bookmark read is
      outstanding is shown in the recent list, then lost when the read
      answers `null`. */
  method StaleRecentOverwrites(uid: string, t: Tab, b: Bookmark)
    returns (during: seq<Bookmark>, after: seq<Bookmark>)
    requires t.url != ""
    ensures during == [b] && after == []
  {
    var p := new PopupState();
    var none := p.LoadSession(Some(None));
    var fetch := p.SignIn(Some(Some(uid)));
    p.SetTab(t);
    var req := p.BeginSave();
    var call := p.FinishSave(req.value, Some(Obj(map[])), Some(b));
    during := p.recent;
    p.ReceiveRecent(Some(None));
    after := p.recent;
  }
}
