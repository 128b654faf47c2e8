/** The web dashboard's bookmark state: the list the realtime channel and
    the user's actions update, the deferred deletes with their undo, and the
    toasts it raises. An `await` between two state writes splits a handler
    into a `Begin` and a `Finish` step; the remote result is a parameter of
    the later step. */
module Dashboard {
  import opened Values
  import opened Seqs
  import opened Records
  import opened Counts
  import opened Bookmarks
  import opened Reconcile

  /** One `addToast(message, { type, duration })` call. `undo` names the
      deferred delete whose Undo action the toast carries. */
  datatype Notice = Notice(message: string, kind: string, duration: Option<nat>, undo: Option<nat>)

  /** A deferred delete's 5000 ms timer: waiting, run, or cleared. */
  datatype TimerState = Scheduled | Fired | Cleared

  /** A deleted bookmark kept for undo, with the state of its timer. */
  datatype DeleteTimer = DeleteTimer(id: string, snapshot: Bookmark, state: TimerState)

  /** The `{ id, timer }` record held in `deleteTimerRef`; `timer` is the
      index of the delete in `timers`. */
  datatype TimerRef = TimerRef(id: string, timer: nat)

  const DeleteDelay := 5000
  const ShortToast := 2000

  /** `"${deleted.title}" deleted`: the title in double quotes, then
      " deleted"; a null title prints as "null". */
  function DeletedMessage(b: Bookmark): (m: string)
    ensures |m| >= 2 + |" deleted"| && m[0] == '"' && m[|m| - |"\" deleted"|..] == "\" deleted"
    ensures m[1..|m| - |"\" deleted"|] == if b.title.Some? then b.title.value else "null"
  {
    "\"" + (if b.title.Some? then b.title.value else "null") + "\" deleted"
  }

  /** The toast of a finished favourite write. */
  function ToggleNotice(newValue: bool, failed: bool): (n: Notice)
    ensures failed ==> n.kind == "error"
    ensures !failed ==> n.duration == Some(ShortToast) && (n.kind == "success" <==> newValue)
  {
    if failed then Notice("Failed to update favourite", "error", None, None)
    else if newValue then Notice("Added to favourites", "success", Some(ShortToast), None)
    else Notice("Removed from favourites", "undo", Some(ShortToast), None)
  }

  predicate IsFavourite(b: Bookmark) {
    b.isFavorite
  }

  /** The favourites filter is empty exactly when no entry is a favourite. */
  lemma FavouritesCounted(bs: seq<Bookmark>)
    ensures |Filter(bs, IsFavourite)| == 0 <==> forall i :: 0 <= i < |bs| ==> !bs[i].isFavorite
  {
    if forall i :: 0 <= i < |bs| ==> !bs[i].isFavorite {
      FilterNoneKept(bs, IsFavourite);
    } else {
      var i :| 0 <= i < |bs| && bs[i].isFavorite;
      FilterMember(bs, IsFavourite, bs[i]);
    }
  }

  class DashboardState {
    /** The `bookmarks` state. */
    var bookmarks: seq<Bookmark>
    /** Every delete scheduled so far, in order. */
    var timers: seq<DeleteTimer>
    /** `deleteTimerRef.current` */
    var deleteTimerRef: Option<TimerRef>
    /** The ids `removeBookmark` has been called with, in order. */
    var remoteDeletes: seq<string>
    /** The ids `incrementClickCount` has been called with, in order. */
    var remoteClicks: seq<string>
    /** Every toast raised, in order. */
    var notices: seq<Notice>

    /** Each kept snapshot is the entry its delete removed, so it carries
        that delete's id; an Undo relies on this. */
    predicate Valid()
      reads this
    {
      forall k :: 0 <= k < |timers| ==> timers[k].snapshot.id == timers[k].id
    }

    /** The first render, from the server's `initialBookmarks`. */
    constructor (initial: seq<Bookmark>)
      ensures bookmarks == initial && timers == [] && deleteTimerRef.None?
      ensures remoteDeletes == [] && remoteClicks == [] && notices == []
      ensures Valid()
    {
      remoteClicks := [];
      bookmarks := initial;
      timers := [];
      deleteTimerRef := None;
      remoteDeletes := [];
      notices := [];
    }

    /** The realtime handler for one payload. */
    method OnRealtime(c: Change)
      requires Valid()
      modifies this
      ensures remoteClicks == old(remoteClicks)
      ensures Valid()
      ensures bookmarks == ApplyChange(old(bookmarks), c)
      ensures UniqueIds(old(bookmarks)) ==> UniqueIds(bookmarks)
      ensures timers == old(timers) && deleteTimerRef == old(deleteTimerRef)
      ensures remoteDeletes == old(remoteDeletes) && notices == old(notices)
    {
      if UniqueIds(bookmarks) {
        ApplyChangeKeepsUnique(bookmarks, c);
      }
      bookmarks := ApplyChange(bookmarks, c);
    }

    /** `addBookmark` after `insertBookmark` answered with `data` and
        `error`: the confirmed row is prepended unless its id is listed. */
    method AddBookmark(data: Option<Bookmark>, error: Option<string>) returns (err: Option<string>)
      requires Valid()
      modifies this
      ensures remoteClicks == old(remoteClicks)
      ensures Valid()
      ensures err == error
      ensures error.None? && data.Some? ==>
        && bookmarks == ApplyInsert(old(bookmarks), data.value)
        && notices == old(notices) + [Notice("Bookmark added", "success", None, None)]
      ensures error.Some? ==>
        bookmarks == old(bookmarks) && notices == old(notices) + [Notice("Failed to add bookmark", "error", None, None)]
      ensures error.None? && data.None? ==> bookmarks == old(bookmarks) && notices == old(notices)
      ensures UniqueIds(old(bookmarks)) ==> UniqueIds(bookmarks)
      ensures timers == old(timers) && deleteTimerRef == old(deleteTimerRef) && remoteDeletes == old(remoteDeletes)
    {
      if error.None? && data.Some? {
        ApplyInsertSpec(bookmarks, data.value);
        bookmarks := ApplyInsert(bookmarks, data.value);
        notices := notices + [Notice("Bookmark added", "success", None, None)];
      } else if error.Some? {
        notices := notices + [Notice("Failed to add bookmark", "error", None, None)];
      }
      err := error;
    }

    /** `deleteBookmark(id)`: the entry leaves the list at once; the remote
        delete waits for the timer; the toast carries the Undo action.
        `deleted` is captured inside the `setBookmarks` updater, so it is
        set by the `if (!deleted)` check only when React runs the updater at
        once. With `deferred` (an update already queued on the component)
        the updater runs later: the entry still goes, but no timer, remote
        delete or toast follows. */
    method DeleteBookmark(id: string, deferred: bool)
      requires Valid()
      modifies this
      ensures remoteClicks == old(remoteClicks)
      ensures Valid()
      ensures bookmarks == ApplyDelete(old(bookmarks), id)
      ensures deferred || !HasId(old(bookmarks), id) ==>
        timers == old(timers) && deleteTimerRef == old(deleteTimerRef) && notices == old(notices)
      ensures !deferred && HasId(old(bookmarks), id) ==>
        var d := FindById(old(bookmarks), id).value;
        && timers == old(timers) + [DeleteTimer(id, d, Scheduled)]
        && deleteTimerRef == Some(TimerRef(id, |old(timers)|))
        && notices == old(notices) + [Notice(DeletedMessage(d), "undo", Some(DeleteDelay), Some(|old(timers)|))]
      ensures remoteDeletes == old(remoteDeletes)
    {
      var deleted := if deferred then None else FindById(bookmarks, id);
      bookmarks := ApplyDelete(bookmarks, id);
      if deleted.None? {
        return;
      }
      var k := |timers|;
      timers := timers + [DeleteTimer(id, deleted.value, Scheduled)];
      deleteTimerRef := Some(TimerRef(id, k));
      notices := notices + [Notice(DeletedMessage(deleted.value), "undo", Some(DeleteDelay), Some(k))];
    }

    /** The timer of delete `k` runs out: the remote delete is issued and
        the ref is cleared, whichever delete it pointed at. */
    method FireDeleteTimer(k: nat)
      requires Valid()
      requires k < |timers| && timers[k].state == Scheduled
      modifies this
      ensures remoteClicks == old(remoteClicks)
      ensures Valid()
      ensures remoteDeletes == old(remoteDeletes) + [old(timers)[k].id]
      ensures timers == old(timers)[k := old(timers)[k].(state := Fired)]
      ensures deleteTimerRef.None?
      ensures bookmarks == old(bookmarks) && notices == old(notices)
    {
      remoteDeletes := remoteDeletes + [timers[k].id];
      timers := timers[k := timers[k].(state := Fired)];
      deleteTimerRef := None;
    }

    /** The Undo action of delete `k`'s toast. `clearTimeout` stops a timer
        that is still waiting and does nothing to one that has run; the
        snapshot goes back at the head either way. */
    method UndoDelete(k: nat)
      requires Valid()
      requires k < |timers|
      modifies this
      ensures remoteClicks == old(remoteClicks)
      ensures Valid()
      ensures bookmarks == [old(timers)[k].snapshot] + old(bookmarks)
      ensures bookmarks[0].id == old(timers)[k].id
      ensures old(timers)[k].state == Scheduled ==> timers == old(timers)[k := old(timers)[k].(state := Cleared)]
      ensures old(timers)[k].state != Scheduled ==> timers == old(timers)
      ensures deleteTimerRef.None?
      ensures notices == old(notices) + [Notice("Bookmark restored", "success", Some(ShortToast), None)]
      ensures remoteDeletes == old(remoteDeletes)
    {
      if timers[k].state == Scheduled {
        timers := timers[k := timers[k].(state := Cleared)];
      }
      deleteTimerRef := None;
      bookmarks := [timers[k].snapshot] + bookmarks;
      notices := notices + [Notice("Bookmark restored", "success", Some(ShortToast), None)];
    }

    /** `toggleFavourite(id, currentValue)` up to its `await`: the flag is
        flipped in the list first. */
    method BeginToggle(id: string, currentValue: bool)
      requires Valid()
      modifies this
      ensures remoteClicks == old(remoteClicks)
      ensures Valid()
      ensures bookmarks == SetFavourite(old(bookmarks), id, !currentValue)
      ensures UniqueIds(old(bookmarks)) ==> UniqueIds(bookmarks)
      ensures timers == old(timers) && deleteTimerRef == old(deleteTimerRef)
      ensures remoteDeletes == old(remoteDeletes) && notices == old(notices)
    {
      SetFavouriteSpec(bookmarks, id, !currentValue);
      bookmarks := SetFavourite(bookmarks, id, !currentValue);
    }

    /** The rest of `toggleFavourite` once the remote write has answered:
        on an error `currentValue` is written back. */
    method FinishToggle(id: string, currentValue: bool, failed: bool)
      requires Valid()
      modifies this
      ensures remoteClicks == old(remoteClicks)
      ensures Valid()
      ensures failed ==> bookmarks == SetFavourite(old(bookmarks), id, currentValue)
      ensures !failed ==> bookmarks == old(bookmarks)
      ensures notices == old(notices) + [ToggleNotice(!currentValue, failed)]
      ensures UniqueIds(old(bookmarks)) ==> UniqueIds(bookmarks)
      ensures timers == old(timers) && deleteTimerRef == old(deleteTimerRef) && remoteDeletes == old(remoteDeletes)
    {
      if failed {
        SetFavouriteSpec(bookmarks, id, currentValue);
        bookmarks := SetFavourite(bookmarks, id, currentValue);
      }
      notices := notices + [ToggleNotice(!currentValue, failed)];
    }

    /** `editBookmark` up to its `await`: the four fields are overwritten,
        and `old` keeps the last entry the map visited with that id. */
    method BeginEdit(id: string, title: string, url: string, category: string, tags: seq<string>)
      returns (prior: Option<Bookmark>)
      requires Valid()
      modifies this
      ensures remoteClicks == old(remoteClicks)
      ensures Valid()
      ensures prior == LastById(old(bookmarks), id)
      ensures bookmarks == ApplyEdit(old(bookmarks), id, title, url, category, tags)
      ensures UniqueIds(old(bookmarks)) ==> UniqueIds(bookmarks)
      ensures timers == old(timers) && deleteTimerRef == old(deleteTimerRef)
      ensures remoteDeletes == old(remoteDeletes) && notices == old(notices)
    {
      prior := LastById(bookmarks, id);
      ApplyEditSpec(bookmarks, id, title, url, category, tags);
      bookmarks := ApplyEdit(bookmarks, id, title, url, category, tags);
    }

    /** The rest of `editBookmark`: on an error with a saved entry the whole
        saved entry is written back. Any other outcome, an error without a
        saved entry included, reports the update as done. */
    method FinishEdit(id: string, prior: Option<Bookmark>, failed: bool)
      requires Valid()
      modifies this
      ensures remoteClicks == old(remoteClicks)
      ensures Valid()
      ensures failed && prior.Some? ==>
        && bookmarks == MapById(old(bookmarks), id, _ => prior.value)
        && notices == old(notices) + [Notice("Failed to update bookmark", "error", None, None)]
      ensures !(failed && prior.Some?) ==>
        && bookmarks == old(bookmarks)
        && notices == old(notices) + [Notice("Bookmark updated", "success", Some(ShortToast), None)]
      ensures timers == old(timers) && deleteTimerRef == old(deleteTimerRef) && remoteDeletes == old(remoteDeletes)
    {
      if failed && prior.Some? {
        bookmarks := MapById(bookmarks, id, _ => prior.value);
        notices := notices + [Notice("Failed to update bookmark", "error", None, None)];
      } else {
        notices := notices + [Notice("Bookmark updated", "success", Some(ShortToast), None)];
      }
    }

    /** `trackClick(id)`: the local count goes up by one at once and the
        remote increment is called; its answer is not read. */
    method TrackClick(id: string)
      requires Valid()
      modifies this
      ensures remoteClicks == old(remoteClicks) + [id]
      ensures Valid()
      ensures bookmarks == IncrementClick(old(bookmarks), id)
      ensures UniqueIds(old(bookmarks)) ==> UniqueIds(bookmarks)
      ensures timers == old(timers) && deleteTimerRef == old(deleteTimerRef)
      ensures remoteDeletes == old(remoteDeletes) && notices == old(notices)
    {
      IncrementClickSpec(bookmarks, id);
      bookmarks := IncrementClick(bookmarks, id);
      remoteClicks := remoteClicks + [id];
    }

    // -------------------------------------------------------------------
    // The memoised views

    /** The `categories` memo. */
    method Categories() returns (r: seq<(string, int)>)
      ensures r == CountEntries(CategoryList(bookmarks))
    {
      r := ComputeCategories(bookmarks);
    }

    /** The `allTags` memo. */
    method AllTags() returns (r: seq<(string, int)>)
      ensures r == CountEntries(TagEntries(bookmarks))
    {
      r := ComputeTags(bookmarks);
    }

    /** `totalFavourites` */
    function TotalFavourites(): (n: nat)
      reads this
      ensures n <= |bookmarks|
      ensures n == 0 <==> forall i :: 0 <= i < |bookmarks| ==> !bookmarks[i].isFavorite
    {
      FavouritesCounted(bookmarks);
      |Filter(bookmarks, IsFavourite)|
    }

    /** The `filteredBookmarks` memo, then the `sortedBookmarks` memo: a
        copy sorted in place by the primary comparator, with no pinned pass. */
    method SortedBookmarks(o: FilterOptions, sortBy: string, locale: Collation) returns (r: seq<Bookmark>)
      ensures r == PrimarySort(FilterBookmarks(bookmarks, o), sortBy, locale)
    {
      var filtered := FilterBookmarks(bookmarks, o);
      r := PrimarySorted(filtered, sortBy, locale);
    }
  }

  /** `[...filtered].sort(primary)`: a copy sorted in place. */
  method PrimarySorted(bs: seq<Bookmark>, sortBy: string, locale: Collation) returns (r: seq<Bookmark>)
    ensures r == PrimarySort(bs, sortBy, locale)
  {
    var sorted := new Bookmark[|bs|](i requires 0 <= i < |bs| => bs[i]);
    assert sorted[..] == bs;
    var primary := PrimaryCmp(sortBy, locale);
    if primary.Some? {
      SortInPlace(sorted, primary.value);
    }
    r := sorted[..];
  }

  // ---------------------------------------------------------------------
  // Properties of the dashboard's view and of undo

  /** The dashboard's view is a permutation of the filtered list, and for a
      known option it is in primary order. */
  lemma DashboardViewSpec(bs: seq<Bookmark>, sortBy: string, locale: Collation)
    ensures multiset(PrimarySort(bs, sortBy, locale)) == multiset(bs)
    ensures ValidCmp(locale) && PrimaryCmp(sortBy, locale).Some? ==>
      Sorted(PrimarySort(bs, sortBy, locale), PrimaryCmp(sortBy, locale).value)
  {
    match PrimaryCmp(sortBy, locale)
    case None =>
    case Some(cmp) =>
      SortByPermutes(bs, cmp);
      if ValidCmp(locale) {
        PrimaryCmpValid(sortBy, locale);
        SortBySorted(bs, cmp);
      }
  }

  /** Unlike `sortBookmarks`, the dashboard's view does not put pinned
      bookmarks first: by most visited, an unpinned bookmark with ten clicks
      precedes a pinned one with none. */
  lemma DashboardIgnoresPins(p: Bookmark, u: Bookmark, locale: Collation)
    requires p.isPinned && p.clickCount == Some(0)
    requires !u.isPinned && u.clickCount == Some(10)
    ensures PrimarySort([p, u], "most-visited", locale) == [u, p]
  {
    var cmp := PrimaryCmp("most-visited", locale).value;
    assert cmp(p, u) > 0;
    assert [p, u][..1] == [p];
    assert SortBy([p], cmp) == [p];
    assert Insert(u, [p], cmp) == [u, p];
  }

  /** An undo right after the delete restores the contents of the list
      (the entry returns at the head, not at its old place). */
  lemma DeleteThenUndo(bs: seq<Bookmark>, id: string)
    requires UniqueIds(bs) && HasId(bs, id)
    ensures var after := [FindById(bs, id).value] + ApplyDelete(bs, id);
      multiset(after) == multiset(bs) && UniqueIds(after)
  {
    UndoRestoresContents(bs, id);
    UndoKeepsUnique(bs, id);
  }

  /** Two successful favourite toggles, the second from the value the first
      left, give back the list the dashboard started with. */
  method ToggleTwice(bs: seq<Bookmark>, id: string, current: bool) returns (r: seq<Bookmark>)
    requires forall i :: 0 <= i < |bs| && bs[i].id == id ==> bs[i].isFavorite == current
    ensures r == bs
  {
    var d := new DashboardState(bs);
    d.BeginToggle(id, current);
    d.FinishToggle(id, current, false);
    d.BeginToggle(id, !current);
    d.FinishToggle(id, !current, false);
    ToggleRollbackRestores(bs, id, current);
    r := d.bookmarks;
  }

  /** Nothing stops a second Undo of the same delete: it lists the entry
      twice. */
  lemma DoubleUndoDuplicates(bs: seq<Bookmark>, d: Bookmark)
    ensures !UniqueIds([d] + ([d] + bs))
  {
    var u := [d] + ([d] + bs);
    assert u[0].id == u[1].id;
  }
}
