/** The extension's options page: the same bookmark list as the dashboard,
    kept by the shared core. A delete is immediate, a favourite write is
    never rolled back, and the view does use `sortBookmarks`. */
module OptionsPage {
  import opened Values
  import opened Seqs
  import opened Records
  import opened Counts
  import opened Bookmarks
  import opened Reconcile
  import opened ImportExport

  class OptionsState {
    /** The signed-in user's id, `None` while signed out. */
    var user: Option<string>
    /** The page shows only "Loading..." until the session check answers. */
    var loading: bool
    /** The `bookmarks` state. */
    var bookmarks: seq<Bookmark>
    /** The ids `storage.removeBookmark` has been called with, in order. */
    var remoteDeletes: seq<string>
    /** The `storage.toggleFavourite(id, next)` calls, in order. */
    var remoteFavourites: seq<(string, bool)>
    /** The ids `storage.incrementClick` has been called with, in order. */
    var remoteClicks: seq<string>

    constructor ()
      ensures user.None? && loading && bookmarks == []
      ensures remoteDeletes == [] && remoteFavourites == [] && remoteClicks == []
    {
      user := None;
      loading := true;
      bookmarks := [];
      remoteDeletes := [];
      remoteFavourites := [];
      remoteClicks := [];
    }

    /** The session check on mount up to its second `await`: the
        session's user `u` is set and loading ends. With a user,
        `getBookmarks` is called (`fetch`); its answer arrives in a later
        `ReceiveBookmarks` step, and the realtime channel is already open
        meanwhile. */
    method LoadSession(u: Option<string>) returns (fetch: bool)
      modifies this
      ensures user == u && !loading
      ensures fetch <==> u.Some?
      ensures bookmarks == old(bookmarks) && remoteDeletes == old(remoteDeletes)
      ensures remoteFavourites == old(remoteFavourites) && remoteClicks == old(remoteClicks)
    {
      user := u;
      loading := false;
      fetch := u.Some?;
    }

    /** `handleSignIn` up to the bookmark read: a thrown sign-in or session
        read (`failed`) changes nothing; otherwise the session's user is
        set and, with a user, `getBookmarks` is called. */
    method SignIn(failed: bool, u: Option<string>) returns (fetch: bool)
      modifies this
      ensures failed ==> user == old(user)
      ensures !failed ==> user == u
      ensures fetch <==> !failed && u.Some?
      ensures bookmarks == old(bookmarks) && loading == old(loading) && remoteDeletes == old(remoteDeletes)
      ensures remoteFavourites == old(remoteFavourites) && remoteClicks == old(remoteClicks)
    {
      if !failed {
        user := u;
      }
      fetch := !failed && u.Some?;
    }

    /** `setBookmarks(data || [])` once `getBookmarks` has answered `data`:
        the answer replaces the list, whatever reached it in the meantime. */
    method ReceiveBookmarks(data: Option<seq<Bookmark>>)
      modifies this
      ensures bookmarks == data.GetOr([])
      ensures user == old(user) && loading == old(loading) && remoteDeletes == old(remoteDeletes)
      ensures remoteFavourites == old(remoteFavourites) && remoteClicks == old(remoteClicks)
    {
      bookmarks := data.GetOr([]);
    }

    /** The Sign out button: the user is cleared at once, without waiting
        for `auth.signOut`; the list is left as it is. */
    method SignOut()
      modifies this
      ensures user.None? && bookmarks == old(bookmarks) && loading == old(loading)
      ensures remoteDeletes == old(remoteDeletes) && remoteFavourites == old(remoteFavourites)
      ensures remoteClicks == old(remoteClicks)
    {
      user := None;
    }

    /** A click on a listed bookmark: the remote count is incremented and
        the page opened; the local list is not bumped. */
    method OpenBookmark(id: string)
      modifies this
      ensures remoteClicks == old(remoteClicks) + [id]
      ensures user == old(user) && loading == old(loading) && bookmarks == old(bookmarks)
      ensures remoteDeletes == old(remoteDeletes) && remoteFavourites == old(remoteFavourites)
    {
      remoteClicks := remoteClicks + [id];
    }

    /** The realtime handler; there is no subscription while signed out. */
    method OnRealtime(c: Change)
      modifies this
      ensures user.Some? ==> bookmarks == ApplyChange(old(bookmarks), c)
      ensures user.None? ==> bookmarks == old(bookmarks)
      ensures UniqueIds(old(bookmarks)) ==> UniqueIds(bookmarks)
      ensures user == old(user) && loading == old(loading) && remoteDeletes == old(remoteDeletes)
      ensures remoteFavourites == old(remoteFavourites) && remoteClicks == old(remoteClicks)
    {
      if user.Some? {
        if UniqueIds(bookmarks) {
          ApplyChangeKeepsUnique(bookmarks, c);
        }
        bookmarks := ApplyChange(bookmarks, c);
      }
    }

    /** `handleDelete(id)`: removed at once and deleted remotely, with no
        undo and no rollback. */
    method HandleDelete(id: string)
      modifies this
      ensures bookmarks == ApplyDelete(old(bookmarks), id)
      ensures !HasId(bookmarks, id) && Subsequence(bookmarks, old(bookmarks))
      ensures remoteDeletes == old(remoteDeletes) + [id]
      ensures user == old(user) && loading == old(loading) && remoteFavourites == old(remoteFavourites)
      ensures remoteClicks == old(remoteClicks)
    {
      if bookmarks != [] {
        ApplyDeleteSpec(bookmarks, id, bookmarks[0]);
      }
      bookmarks := ApplyDelete(bookmarks, id);
      remoteDeletes := remoteDeletes + [id];
    }

    /** `handleToggleFav(id, current)`: the flag is flipped and written;
        the answer is not read, so a failed write is never reverted. */
    method HandleToggleFav(id: string, current: bool)
      modifies this
      ensures bookmarks == SetFavourite(old(bookmarks), id, !current)
      ensures remoteFavourites == old(remoteFavourites) + [(id, !current)]
      ensures user == old(user) && loading == old(loading) && remoteDeletes == old(remoteDeletes)
      ensures remoteClicks == old(remoteClicks)
    {
      bookmarks := SetFavourite(bookmarks, id, !current);
      remoteFavourites := remoteFavourites + [(id, !current)];
    }

    /** `handleExport`: the document to download, none for an empty list. */
    method HandleExport(exportedAt: string) returns (doc: Option<Object>)
      ensures doc.None? <==> bookmarks == []
      ensures doc.Some? ==> doc.value == ExportData(bookmarks, exportedAt)
    {
      if |bookmarks| == 0 {
        return None;
      }
      doc := Some(ExportData(bookmarks, exportedAt));
    }

    /** The `categories` memo. */
    method Categories() returns (r: seq<(string, int)>)
      ensures r == CountEntries(CategoryList(bookmarks))
    {
      r := ComputeCategories(bookmarks);
    }

    /** The `allTags` memo. */
    method AllTags() returns (r: seq<(string, int)>)
      ensures r == CountEntries(TagEntries(bookmarks))
    {
      r := ComputeTags(bookmarks);
    }

    /** The `filtered` and `sorted` memos. */
    method SortedBookmarks(o: FilterOptions, sortBy: string, locale: Collation) returns (r: seq<Bookmark>)
      ensures r == SortedView(FilterBookmarks(bookmarks, o), sortBy, locale)
    {
      r := SortBookmarks(FilterBookmarks(bookmarks, o), sortBy, locale);
    }
  }

  /** The options page lists exactly the bookmarks that pass the filter, each
      as often as in the list, pinned ones first. */
  lemma OptionsViewSpec(bs: seq<Bookmark>, o: FilterOptions, sortBy: string, locale: Collation)
    ensures var r := SortedView(FilterBookmarks(bs, o), sortBy, locale);
      && multiset(r) == multiset(FilterBookmarks(bs, o))
      && (forall b :: b in r <==> b in bs && Kept(b, o))
      && (forall i, j :: 0 <= i < j < |r| && r[j].isPinned ==> r[i].isPinned)
  {
    var f := FilterBookmarks(bs, o);
    var r := SortedView(f, sortBy, locale);
    SortedViewPermutes(f, sortBy, locale);
    forall b ensures b in r <==> b in bs && Kept(b, o) {
      assert b in r <==> b in multiset(r);
      assert b in f <==> b in multiset(f);
      FilterBookmarksSpec(bs, o, b);
    }
    forall i, j | 0 <= i < j < |r| && r[j].isPinned ensures r[i].isPinned {
      SortedViewPinnedFirst(f, sortBy, locale, i, j);
    }
  }

  /** A realtime INSERT that arrives while the first bookmark read is
      outstanding is shown, then lost when the read's older answer lands. */
  method StaleLoadOverwrites(uid: string, b: Bookmark, data: seq<Bookmark>)
    returns (during: seq<Bookmark>, after: seq<Bookmark>)
    requires !HasId(data, b.id)
    ensures HasId(during, b.id)
    ensures after == data && !HasId(after, b.id)
  {
    var page := new OptionsState();
    var fetch := page.LoadSession(Some(uid));
    page.OnRealtime(Inserted(b));
    ApplyInsertSpec([], b);
    during := page.bookmarks;
    page.ReceiveBookmarks(Some(data));
    after := page.bookmarks;
  }
}
