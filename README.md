# LinkNest core, modelled in Dafny

LinkNest is a bookmark manager. It has a web dashboard and a browser
extension with a popup and an options page. This project models the logic
those front ends share, and the state each keeps:

- the bookmark core: validation, normalisation, the tab/tag/search filter,
  the sort with pinned bookmarks first, and the category and tag tallies;
- the portable export record and the import parser;
- the URL helpers `extractDomain` and `getFaviconUrl`;
- the classifier's deterministic parts: the domain-table fallback, the
  clean-up of the language model's reply, and its reshaping;
- the rows and update objects the two storage adapters hand to the
  database, and the click count the extension writes itself;
- the dashboard's list: realtime reconciliation, optimistic favourite/edit
  with rollback, deferred delete with Undo, click tracking, the memoised views;
- the options page, the popup, the add form, the inline bookmark editor,
  and the toast queue.

Modules follow the source files:

| module | models |
|---|---|
| `Values` | JavaScript values, truthiness, `a \|\| b`, `!!x` |
| `Text` | `trim`, `toLowerCase`, `includes`, `replace`, number to string |
| `Seqs` | `filter`, a stable `Array.prototype.sort`, sums |
| `Records` | a stored bookmark row and its `b.x \|\| default` reads |
| `Bookmarks` | lib/core/bookmarks.js |
| `Counts` | `computeCategories` and `computeTags` |
| `ImportExport` | lib/core/importExport.js |
| `Url` | lib/core/url.js |
| `Ai` | lib/services/ai.js |
| `Storage` | both storage adapters |
| `Reconcile` | list updaters shared by the dashboard and the options page |
| `Dashboard` | DashboardClient.js |
| `OptionsPage` | Options.jsx |
| `Popup` | Popup.jsx |
| `AddForm` | AddBookmark.js |
| `BookmarkItem` | BookmarkItem.js |
| `Toasts` | Toast.js |

## How the model is built

**Stateful components are classes.** A React component whose handlers
update state is a class with those fields. Each handler is a method with a
`modifies` clause. Its `ensures` states the whole new state in terms of the
old state, through the specification functions of `Reconcile` and
`Bookmarks`.

**Asynchronous handlers are split.** A handler with an `await` between two
state writes is two steps: a `Begin…` step (or the session checks
`LoadSession` and `SignIn`) and a `Finish…` (or `Receive…`) step. The
remote answer (an error flag, the inserted row, the classifier's reply,
the bookmark list) is a parameter of the later step, and any other step may
run in between.

**Timers are steps.** A timer (the 5-second delete, the toast animation
and removal, the 3-second status resets) is a method the environment calls.
A counter or a list records what is scheduled.

**Pure code is functions.** Loops in the source are methods with loop
invariants proved against those functions:
- `validateBookmark`;
- the loop of `parseImportFile`;
- the tallies;
- the in-place insertion sorts.

**Inputs that are not code here are parameters:**
- the URL parser is `parseHost`, where `None` means `new URL` throws;
- `localeCompare` is a `Collation`, assumed a total preorder where the
  order matters;
- the domain table is a sequence of `(key, category)` pairs;
- JSON parsing of a file is the `Json` datatype;
- the clock reading of an export is a string.

**Values.** JavaScript values (import items, storage rows, classifier
replies) are the `Value` datatype, and objects are `map<string, Value>`.
So "the row has no `is_pinned` column" is a statement about key sets. Rows
read back from the database are the typed `Bookmark` datatype, with
nullable columns as `Option`.

**Behaviour of the code worth knowing, as the model states it:**
- The options page sorts with `sortBookmarks`, so pinned bookmarks go
  first. The dashboard's comparator switch has no pinned pass
  (`DashboardIgnoresPins`, `PinnedBeatsClicksScenario`).
- A realtime INSERT is ignored only when its id is already listed.
- Undo after the delete timer has fired is not blocked: the snapshot is put
  back although the remote delete was already issued. A second Undo of the
  same delete lists the entry twice (`DoubleUndoDuplicates`).
- The restored entry goes to the head of the list, not back to its old
  position (`DeleteThenUndo`).
- The import keeps duplicate URLs. Re-importing an export loses the pinned
  flag, because neither the import entry nor `bulkInsert` carries
  `is_pinned` (`ReimportLosesPin`).
- The dashboard has no pin toggle.
- A bookmark read that is still outstanding when a realtime change or a
  save lands overwrites it on arrival (`StaleLoadOverwrites`,
  `StaleRecentOverwrites`).
- The inline editor keeps its draft across re-renders, and Cancel resets it
  from the latest prop (`CancelAfterSave`).

## Model

| member | source | states |
|---|---|---|
| Bookmarks.ValidateBookmark | lib/core/bookmarks.js:10-32 | each message is reported iff its check fails (url missing or not a string, url rejected by the URL parser, truthy non-string title, truthy non-array tags), in check order, at most three; valid iff no message |
| Bookmarks.ReportedInOrder | lib/core/bookmarks.js:13-31 | the report is at most one url message, then the title message, then the tags message |
| Bookmarks.NormalizeBookmark | lib/core/bookmarks.js:40-52 | the row has exactly the nine columns; user as given; url copied; title, category, summary and click count copied when truthy, else the url, null, null and 0; array tags copied, else []; boolean flags |
| Bookmarks.NormalizeValid | lib/core/bookmarks.js:40-52 | an input that passes validation normalises to a row with a non-empty string url the parser accepts, a non-empty string title, and array tags |
| Bookmarks.FilterBookmarksIsFilter | lib/core/bookmarks.js:70-96 | the three filter stages equal one filter by `Kept`: tab, then active tag, then active search over title, url, category, summary and tags |
| Bookmarks.FilterBookmarksSpec | lib/core/bookmarks.js:70-96 | a bookmark is listed iff it is in the input and passes every active test; order is kept (subsequence) |
| Bookmarks.FilterBookmarksNoOp | lib/core/bookmarks.js:73-83 | with tab "all", no tag or the empty tag, and a blank query the list is returned unchanged |
| Bookmarks.DesignSearchScenario | lib/core/bookmarks.js:83-92 | searching "design" keeps a bookmark by its category and another by its tag |
| Bookmarks.SortBookmarks | lib/core/bookmarks.js:101-126 | the copy sorted by the primary comparator and then by the pinned comparator equals `SortedView` |
| Bookmarks.PrimaryCmpValid | lib/core/bookmarks.js:103-122 | each of the six comparators is a total preorder when the collation is |
| Bookmarks.SortedViewPartitions | lib/core/bookmarks.js:124 | the pinned pass is a stable partition: pinned bookmarks in primary order, then the others in primary order |
| Bookmarks.SortedViewPermutes | lib/core/bookmarks.js:101-126 | the sorted view is a permutation of its input |
| Bookmarks.SortedViewPinnedFirst | lib/core/bookmarks.js:123-124 | no unpinned bookmark precedes a pinned one |
| Bookmarks.SortedViewGroupsSorted | lib/core/bookmarks.js:103-124 | for a known option both groups are sorted by the primary comparator |
| Bookmarks.UnknownSortPartitions | lib/core/bookmarks.js:103-124 | an unknown option only moves pinned bookmarks to the front, stably |
| Bookmarks.PinnedBeatsClicksScenario | lib/core/bookmarks.js:116-124 | by most visited, a pinned bookmark with 0 clicks precedes an unpinned one with 10 |
| Counts.ComputeCategories | lib/core/bookmarks.js:131-138 | the tally loop returns `CountEntries` of the bookmarks' categories, "Other" for a missing one |
| Counts.ComputeTags | lib/core/bookmarks.js:143-151 | the nested tally loop returns `CountEntries` of all tag entries in order |
| Counts.CountEntriesSpec | lib/core/bookmarks.js:137 | each distinct element once, with its number of occurrences, sorted by count descending, counts summing to the input length |
| Counts.TallyKeys | lib/core/bookmarks.js:133-136 | the tally's properties are the distinct elements, without repeats |
| Counts.TallyCounts | lib/core/bookmarks.js:135 | each property's value is the element's number of occurrences |
| Counts.OwnKeysPermutes | lib/core/bookmarks.js:137 | `Object.entries` order (integer-like keys ascending, then insertion order) is a permutation of the keys |
| Counts.CategoryCountsSum | lib/core/bookmarks.js:131-138 | category counts add up to the number of bookmarks and every bookmark's category is listed |
| Counts.TagCountsSum | lib/core/bookmarks.js:143-151 | tag counts add up to the total number of tag entries |
| Counts.SortedEntries | lib/core/bookmarks.js:137 | sorting the entry array in place yields the stable sort by count |
| ImportExport.ExportRecord | lib/core/importExport.js:17-27 | the record has exactly the nine portable columns, with no id and no user_id |
| ImportExport.ExportRecordValues | lib/core/importExport.js:18-26 | title, url, tags and created_at are copied; an empty or missing category or summary is null; the favourite and pin flags are booleans; a missing click count is 0 |
| ImportExport.ExportData | lib/core/importExport.js:13-28 | the document names the app, counts the bookmarks and holds one record per bookmark in order |
| ImportExport.OrNull | lib/core/importExport.js:20-22 | a nullable string becomes null when missing or empty, else itself |
| ImportExport.ParseImportFile | lib/core/importExport.js:50-88 | equals `ParseImport`: invalid JSON and an empty or missing item list each give their one error; the loop keeps `ImportFrom` of the prefix |
| ImportExport.ImportEntrySpec | lib/core/importExport.js:76-84 | an entry has exactly the seven columns; title falls back to url; a truthy category, summary or click count is copied, a falsy one becomes null, null or 0; non-array tags become []; boolean favourite; no pin, id, owner or creation time |
| ImportExport.ImportFromSpec | lib/core/importExport.js:71-85 | the import throws iff some item is nullish; else the entries are those of the items with a url, in order, and entries plus errors account for every item |
| ImportExport.ImportFromThrows | lib/core/importExport.js:72 | reading `item.url` throws iff some item is null or undefined |
| ImportExport.ImportErrorsNamed | lib/core/importExport.js:72-74 | every error names a 1-based item without a string url, and every such item is named |
| ImportExport.TypeErrorPersists | lib/core/importExport.js:71-72 | once an item has thrown, the later items do not change the outcome |
| ImportExport.ExportImportRoundTrip | lib/core/importExport.js:13-88 | an exported non-empty collection parses back to the entries of its bookmarks with a url, one error for each other |
| ImportExport.ReimportedEntry | lib/core/importExport.js:17-27 | an exported bookmark re-imports with url, category, tags, summary, favourite and clicks as exported, and no pin flag or creation time |
| Url.ExtractDomainUnparsable | lib/core/url.js:14-20 | an unparsable url gives "" |
| Url.ExtractDomainNoWww | lib/core/url.js:16 | a hostname without "www." is returned as it is |
| Url.ExtractDomainFirstWww | lib/core/url.js:16 | otherwise exactly the first "www." is cut, wherever it occurs |
| Url.ExtractDomainLeadingWww | lib/core/url.js:16 | a leading "www." is removed |
| Url.ExtractDomainShorter | lib/core/url.js:14-20 | the domain is never longer than the hostname |
| Url.FaviconUrlSpec | lib/core/url.js:5-12 | null iff the url does not parse; otherwise the fixed service prefix, the hostname, and "&sz=32" |
| Ai.FallbackCategorySpec | lib/services/ai.js:13-18 | the exact key wins, else the first loosely matching entry in table order, else "Other"; an empty category on the first loose match gives "Other" without trying later matches; never empty |
| Ai.DomainFallbackSpec | lib/services/ai.js:10-27 | five fields; the category of the table lookup (never empty); exactly the one tag `domain.split(".")[0]`; summary "Bookmarked from " plus the domain; title from page title, user title, domain in that order |
| Ai.FirstWhere | lib/services/ai.js:15-17 | `find` returns the first index satisfying the test, or none when none does |
| Ai.ReshapeSpec | lib/services/ai.js:120-126 | a nullish reply throws; otherwise five fields, "Other" for a missing category, the first four tags (all if fewer, none without an array), the reply's summary when truthy, else ""; title fallback chain |
| Ai.CleanFencedReply | lib/services/ai.js:113-117 | a reply fenced as a json code block yields exactly its body |
| Ai.CleanPlainReply | lib/services/ai.js:113-117 | a trimmed reply without backticks is passed on unchanged |
| Ai.CloseFenceFrom | lib/services/ai.js:116 | the leftmost position where a fence followed only by white space starts |
| Storage.InsertRowSpec | lib/adapters/web/storage.js:29-43 | the insert row has exactly six columns; title, url and user as given; category, tags and summary null when falsy; a null aiData throws |
| Storage.UpdateObjectSpec | lib/adapters/web/storage.js:50-56 | title and url always; category and tags exactly when not undefined; nothing else |
| Storage.ToggleUpdatesSpec | lib/adapters/web/storage.js:58-72 | a favourite or pin write changes exactly its one column |
| Storage.CategoryUpdateSpec | lib/adapters/web/storage.js:79-82 | a bulk category write changes exactly the category column |
| Storage.BulkRowsSpec | lib/adapters/web/storage.js:84-97 | one row per item in order, each with the eight columns, the user, a boolean favourite, clicks default 0 and no pin column; throws iff some item is nullish |
| Storage.BulkRowOfImportEntry | lib/adapters/extension/storage.js:75-88 | an imported entry is written as it is, plus the user |
| Storage.ReimportLosesPin | lib/adapters/extension/storage.js:77-86 | an exported bookmark's re-import keeps favourite, clicks and url but writes no pin column |
| Storage.NextClickCountAgrees | lib/adapters/extension/storage.js:108 | the direct path writes the current count (0 when missing) plus one |
| Storage.ClickWrite | lib/adapters/extension/storage.js:90-117 | the API path writes nothing itself; the direct path writes the read count plus one, 1 for a null row; no path throws |
| Reconcile.ApplyInsertSpec | components/bookmarks/DashboardClient.js:51-55 | an INSERT whose id is listed changes nothing; otherwise the row goes first; unique ids stay unique |
| Reconcile.ApplyInsertIdempotent | components/bookmarks/DashboardClient.js:51-55 | applying the same INSERT twice is the same as once |
| Reconcile.ApplyDeleteSpec | components/bookmarks/DashboardClient.js:56-59 | a DELETE removes every entry with the id and keeps the others in order |
| Reconcile.ApplyUpdateSpec | components/bookmarks/DashboardClient.js:60-63 | an UPDATE replaces exactly the entries with the row's id; ids are kept |
| Reconcile.ApplyChangeKeepsUnique | components/bookmarks/DashboardClient.js:50-65 | every realtime payload keeps ids unique; unknown event types change nothing |
| Reconcile.SetFavouriteSpec | components/bookmarks/DashboardClient.js:165-167 | only `is_favorite` of that id's entries changes |
| Reconcile.ToggleRollbackRestores | components/bookmarks/DashboardClient.js:163-174 | the optimistic flip followed by the rollback restores the list |
| Reconcile.ApplyEditSpec | components/bookmarks/DashboardClient.js:186-194 | the edit writes exactly title, url, category and tags of that id's entries |
| Reconcile.EditRestoreRestores | components/bookmarks/DashboardClient.js:184-200 | writing the saved entry back restores every field of the list |
| Reconcile.IncrementClickSpec | components/bookmarks/DashboardClient.js:207-212 | that id's click count rises by exactly one (missing counts as 0); nothing else changes |
| Reconcile.FindById | components/bookmarks/DashboardClient.js:132 | found iff some entry has the id, and then the entry at the first index with that id |
| Reconcile.LastById | components/bookmarks/DashboardClient.js:187-193 | the edit's saved entry exists iff some entry has the id, and it is the entry at the last index with that id |
| Reconcile.UndoRestoresContents | components/bookmarks/DashboardClient.js:131-154 | putting the removed entry back gives a permutation of the list before the delete |
| Reconcile.UndoKeepsUnique | components/bookmarks/DashboardClient.js:154 | the restored list keeps unique ids |
| Dashboard.DashboardState.constructor | components/bookmarks/DashboardClient.js:17-30 | the list starts as the server's bookmarks, with no delete pending and no toast |
| Dashboard.DashboardState.OnRealtime | components/bookmarks/DashboardClient.js:50-65 | the list becomes `ApplyChange` of the payload; unique ids are kept |
| Dashboard.DashboardState.AddBookmark | components/bookmarks/DashboardClient.js:109-125 | a confirmed row is inserted unless listed, with a success toast; an error gives an error toast; the error is returned |
| Dashboard.DashboardState.DeleteBookmark | components/bookmarks/DashboardClient.js:127-161 | the entry leaves the list; when React runs the updater at once and the id is listed, a timer is scheduled for the first entry with it, the ref names it, and an Undo toast of 5000 ms is raised; a deferred updater leaves `deleted` unset, so nothing is scheduled |
| Dashboard.DashboardState.FireDeleteTimer | components/bookmarks/DashboardClient.js:139-142 | the remote delete is issued and the ref cleared |
| Dashboard.DashboardState.UndoDelete | components/bookmarks/DashboardClient.js:151-156 | a waiting timer is cleared, the ref reset, the snapshot prepended (it carries the undone delete's id), and a 2000 ms toast raised |
| Dashboard.DashboardState.BeginToggle | components/bookmarks/DashboardClient.js:163-167 | the flag is flipped optimistically |
| Dashboard.DashboardState.FinishToggle | components/bookmarks/DashboardClient.js:169-181 | on error the old value is written back with an error toast; otherwise a 2000 ms success or undo toast |
| Dashboard.DashboardState.BeginEdit | components/bookmarks/DashboardClient.js:184-194 | the four fields are overwritten and the last matching entry is saved |
| Dashboard.DashboardState.FinishEdit | components/bookmarks/DashboardClient.js:196-203 | on error with a saved entry it is written back; any other outcome reports success |
| Dashboard.DashboardState.TrackClick | components/bookmarks/DashboardClient.js:207-214 | the local click count of that id goes up by one, and the remote `incrementClickCount(id)` call is recorded |
| Dashboard.DashboardState.Categories | components/bookmarks/DashboardClient.js:75-82 | the category memo equals the core tally |
| Dashboard.DashboardState.AllTags | components/bookmarks/DashboardClient.js:85-93 | the tag memo equals the core tally |
| Dashboard.DashboardState.TotalFavourites | components/bookmarks/DashboardClient.js:217 | at most the list length, and 0 iff no entry is a favourite |
| Dashboard.DashboardState.SortedBookmarks | components/bookmarks/DashboardClient.js:219-267 | the view is the filtered list sorted by the primary comparator only |
| Dashboard.PrimarySorted | components/bookmarks/DashboardClient.js:249-267 | sorting a copy in place gives `PrimarySort` |
| Dashboard.DashboardViewSpec | components/bookmarks/DashboardClient.js:249-267 | the view is a permutation of the filtered list, in primary order for a known option |
| Dashboard.DashboardIgnoresPins | components/bookmarks/DashboardClient.js:260-261 | by most visited, an unpinned bookmark with 10 clicks precedes a pinned one with 0 |
| Dashboard.DeleteThenUndo | components/bookmarks/DashboardClient.js:127-156 | delete then undo restores the list's contents with unique ids |
| Dashboard.ToggleTwice | components/bookmarks/DashboardClient.js:163-181 | two successful toggles, the second from the value the first left, give back the starting list |
| Dashboard.DoubleUndoDuplicates | components/bookmarks/DashboardClient.js:151-154 | a second Undo lists the entry twice |
| Dashboard.DeletedMessage | components/bookmarks/DashboardClient.js:146 | the deleted toast is the title between double quotes, "null" for a missing one, followed by " deleted" |
| Dashboard.ToggleNotice | components/bookmarks/DashboardClient.js:175-180 | the error toast on failure; otherwise a 2000 ms toast, success exactly when now a favourite |
| OptionsPage.OptionsState.constructor | extension/options/Options.jsx:18-24 | signed out, loading, no bookmarks |
| OptionsPage.OptionsState.LoadSession | extension/options/Options.jsx:28-35 | the session's user is set and loading ends at once; the bookmark read is started iff there is a user |
| OptionsPage.OptionsState.SignIn | extension/options/Options.jsx:88-94 | a thrown sign-in or session read changes nothing; otherwise the user is set; the bookmark read is started iff it did not throw and there is a user |
| OptionsPage.OptionsState.ReceiveBookmarks | extension/options/Options.jsx:34-35 | the read's answer replaces the list (null as []), whatever changed it meanwhile |
| OptionsPage.StaleLoadOverwrites | extension/options/Options.jsx:28-60 | a realtime INSERT during the first read is listed, then lost when the read's answer lands |
| OptionsPage.OptionsState.SignOut | extension/options/Options.jsx:135 | the user is cleared; the list stays |
| OptionsPage.OptionsState.OnRealtime | extension/options/Options.jsx:42-59 | signed in, the list becomes `ApplyChange` of the payload; signed out nothing changes |
| OptionsPage.OptionsState.HandleDelete | extension/options/Options.jsx:70-73 | removed at once and deleted remotely, no undo |
| OptionsPage.OptionsState.HandleToggleFav | extension/options/Options.jsx:75-81 | the flag is flipped and written; never rolled back |
| OptionsPage.OptionsState.OpenBookmark | extension/options/Options.jsx:245-248 | the remote click is recorded; the local list is not bumped |
| OptionsPage.OptionsState.HandleExport | extension/options/Options.jsx:83-86 | no document for an empty list, else the export document |
| OptionsPage.OptionsState.Categories | extension/options/Options.jsx:61 | equals the core category tally |
| OptionsPage.OptionsState.AllTags | extension/options/Options.jsx:62 | equals the core tag tally |
| OptionsPage.OptionsState.SortedBookmarks | extension/options/Options.jsx:64-68 | the view is `sortBookmarks` of `filterBookmarks` |
| OptionsPage.OptionsViewSpec | extension/options/Options.jsx:64-68 | the view lists exactly the bookmarks that pass the filter, as often as in the list, pinned first |
| Popup.FirstRecent | extension/popup/Popup.jsx:25 | the first five bookmarks (fewer if fewer), null as none |
| Popup.PushRecent | extension/popup/Popup.jsx:118 | the new row first, then at most four of the previous ones in order |
| Popup.PushRecentTwice | extension/popup/Popup.jsx:118 | two saves put the newest first and keep the older ones after |
| Popup.SaveTitleSpec | extension/popup/Popup.jsx:104-107 | tab title, else the suggested title, else the url; truthy when the url is |
| Popup.PageTitleOnlyInForm | extension/popup/Popup.jsx:104-107 | with only a page title from the classifier, the form uses it and the popup uses the url |
| Popup.PopupState.constructor | extension/popup/Popup.jsx:7-13 | signed out, loading, nothing saved, empty tab and list |
| Popup.PopupState.LoadSession | extension/popup/Popup.jsx:16-30 | a thrown check leaves the user; otherwise the session's user is set; the bookmark read is started iff there is a user, and otherwise loading ends at once |
| Popup.PopupState.FinishLoadSession | extension/popup/Popup.jsx:24-30 | the read's first five bookmarks are listed (a thrown read leaves the list), and loading ends |
| Popup.PopupState.SignIn | extension/popup/Popup.jsx:66-76 | a thrown sign-in or session read leaves the user; otherwise the user is set; the bookmark read is started iff there is a user |
| Popup.PopupState.ReceiveRecent | extension/popup/Popup.jsx:76-77 | the read's first five bookmarks replace the recent list (a thrown read leaves it), whatever a save put there |
| Popup.StaleRecentOverwrites | extension/popup/Popup.jsx:66-127 | a save completed during the sign-in's read is listed, then lost when the read answers null |
| Popup.PopupState.SignOut | extension/popup/Popup.jsx:84-88 | user and recent list cleared unless the sign-out threw |
| Popup.PopupState.SetTab | extension/popup/Popup.jsx:36-64 | the current tab is replaced |
| Popup.PopupState.BeginSave | extension/popup/Popup.jsx:90-94 | nothing when signed out, without a url or while saving; otherwise saving and analysing |
| Popup.PopupState.FinishSave | extension/popup/Popup.jsx:96-127 | a thrown classification skips the insert; the insert call's title and aiData; a confirmed row is pushed to the recent list; saving ends and the status reset is scheduled on every path |
| Popup.PopupState.ResetSaved | extension/popup/Popup.jsx:119 | the saved flag clears |
| Popup.PopupState.ResetStatus | extension/popup/Popup.jsx:126 | the status line clears |
| AddForm.FinalTitleSpec | components/bookmarks/AddBookmark.js:23-27 | typed title, else suggested title, else page title, else url; truthy when the url is |
| AddForm.FinalTitleWithoutAi | components/bookmarks/AddBookmark.js:23-27 | without a classifier answer the title is the typed one or the url |
| AddForm.SubmitRequest | components/bookmarks/AddBookmark.js:14-20 | no request iff the trimmed url is blank; otherwise the trimmed title and url |
| AddForm.AddBookmarkForm.constructor | components/bookmarks/AddBookmark.js:7-10 | empty inputs, idle, no status |
| AddForm.AddBookmarkForm.TypeTitle | components/bookmarks/AddBookmark.js:78 | the title input changes, nothing else |
| AddForm.AddBookmarkForm.TypeUrl | components/bookmarks/AddBookmark.js:85 | the url input changes, nothing else |
| AddForm.AddBookmarkForm.BeginSubmit | components/bookmarks/AddBookmark.js:12-17 | a blank url changes nothing; otherwise loading and analysing |
| AddForm.AddBookmarkForm.FinishSubmit | components/bookmarks/AddBookmark.js:19-40 | a thrown classification skips `onAdd`; the call's title is truthy and aiData not null; inputs clear only after a successful add; loading ends and a reset is scheduled on every path |
| AddForm.AddBookmarkForm.ClearStatus | components/bookmarks/AddBookmark.js:39 | the status clears |
| AddForm.OverlappingReset | components/bookmarks/AddBookmark.js:37-40 | an earlier submit's reset clears the status of a later submit still analysing |
| BookmarkItem.NormalizeTag | components/bookmarks/BookmarkItem.js:48 | no longer than the input, and no upper-case ASCII letter |
| BookmarkItem.AddTagSpec | components/bookmarks/BookmarkItem.js:47-53 | the normalised tag is appended iff it is non-empty and new; earlier tags are kept |
| BookmarkItem.AddTagScenario | components/bookmarks/BookmarkItem.js:48 | "#Design " becomes "design" |
| BookmarkItem.NextTags | components/bookmarks/BookmarkItem.js:47-51 | the new draft is `AddTagTo`, and a duplicate-free draft stays duplicate-free |
| BookmarkItem.RemoveTagSpec | components/bookmarks/BookmarkItem.js:55-57 | every copy of the tag goes, the others stay in order, no duplicates appear |
| BookmarkItem.BookmarkEditor.constructor | components/bookmarks/BookmarkItem.js:21-26 | not editing; the draft holds the bookmark's values ("Other", [] defaults) |
| BookmarkItem.BookmarkEditor.Rerender | components/bookmarks/BookmarkList.js:29-32 | a new prop with the same id reaches the instance; the draft keeps its values |
| BookmarkItem.BookmarkEditor.StartEditing | components/bookmarks/BookmarkItem.js:294 | editing starts; the draft is untouched |
| BookmarkItem.BookmarkEditor.TypeTitle | components/bookmarks/BookmarkItem.js:72 | the draft title changes, nothing else |
| BookmarkItem.BookmarkEditor.TypeUrl | components/bookmarks/BookmarkItem.js:80 | the draft url changes, nothing else |
| BookmarkItem.BookmarkEditor.ChooseCategory | components/bookmarks/BookmarkItem.js:92 | the draft category changes, nothing else |
| BookmarkItem.BookmarkEditor.TypeTag | components/bookmarks/BookmarkItem.js:126 | the tag input changes, nothing else |
| BookmarkItem.BookmarkEditor.AddTag | components/bookmarks/BookmarkItem.js:47-53 | tags become `AddTagTo` of the input, the input clears |
| BookmarkItem.BookmarkEditor.RemoveTag | components/bookmarks/BookmarkItem.js:55-57 | tags become `RemoveTagFrom` |
| BookmarkItem.BookmarkEditor.HandleSave | components/bookmarks/BookmarkItem.js:32-36 | saved iff trimmed title and url are non-empty, with the trimmed values; a null title throws |
| BookmarkItem.BookmarkEditor.HandleCancel | components/bookmarks/BookmarkItem.js:38-45 | the draft is reset to the current prop's values and editing ends |
| BookmarkItem.CancelAfterSave | components/bookmarks/BookmarkItem.js:32-45 | after saving a title over the bookmark's own and a re-render, typing another and cancelling leaves the saved (trimmed) title, not the first one |
| Toasts.ToastQueue.constructor | components/ui/Toast.js:14 | no toasts |
| Toasts.ToastQueue.AddToast | components/ui/Toast.js:16-20 | one toast appended with the defaults "success" and 4000; its id is fresh |
| Toasts.ToastQueue.RemoveToast | components/ui/Toast.js:22-24 | the list becomes `RemoveById`; ids stay unique |
| Toasts.ToastQueue.Show | components/ui/Toast.js:71 | the item becomes visible |
| Toasts.ToastQueue.Dismiss | components/ui/Toast.js:73-84 | the item starts exiting and its removal is scheduled |
| Toasts.ToastQueue.HandleAction | components/ui/Toast.js:86-91 | the action runs if present, then the toast is dismissed |
| Toasts.ToastQueue.FireRemoval | components/ui/Toast.js:75 | the scheduled toast is removed |
| Toasts.RemoveByIdSpec | components/ui/Toast.js:22-24 | exactly the toasts with that id go, the others stay in order |
| Toasts.RemoveOneToast | components/ui/Toast.js:23 | with unique ids, exactly one entry goes |
| Toasts.RemoveTwice | components/ui/Toast.js:22-24 | a second removal of the same id changes nothing |

## Left out

- Supabase and network I/O are not modelled: the client singletons, queries, the realtime transport, `fetch` and the API routes. Remote answers are parameters of the step that receives them.
- The language-model call, its prompt and the `JSON.parse` of its reply are not modelled. The parsed reply is an input of `Ai.Reshape`; a reply that does not parse is a thrown classification in the handlers.
- `fetchPageMetadata` (HTML fetch and regex scraping) is not modelled. The page title is an input.
- The contents of the domain table are not modelled. It is a parameter, listed in `Object.entries` order.
- DOM and UI plumbing are not modelled: the Blob download and file name of `exportBookmarks`, layout measurement, rendering, the PWA, the extension background and content scripts, Chrome messaging, OAuth and the build scripts.
- `localeCompare` is an abstract `Collation`, and `created_at` is an integer timestamp. Date parsing is not modelled.
- `toLowerCase` and the `i` flag of the fence pattern fold ASCII letters only.
- Object-prototype keys are not modelled. A tally of a property such as "constructor" behaves as a plain dictionary here.
- Toasts.ToastQueue.AddToast: ids come from a counter instead of `Date.now() + Math.random()`. The model keeps only the freshness of ids, not their values.
- Wall-clock time is not modelled. Timers are steps the environment may take in any order, so orderings that real delays exclude are also allowed.
- The dashboard's reset of the list when `initialBookmarks` changes is not modelled: a new server render is a new `DashboardState`.
- The non-atomic read-modify-write of the click API route is not modelled. Only the extension's own direct write is.
- Popup.PopupState.FinishSave: an insert that throws (rather than returning an error) is not distinguished from one that returns an error. Both leave the recent list alone; the thrown case would also set the status to "error".
- AddForm.AddBookmarkForm.FinishSubmit: an `onAdd` that throws is treated as one that reports an error. The thrown case would also set the status to "error".
- `bulkDelete` is not modelled: it builds no row, only an id filter for the database.
- Numbers are integers: `Value.Num` holds an `int`, so a fractional `click_count` in an imported file is not modelled.
