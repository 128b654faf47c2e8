/** The platform-independent bookmark logic: validation and normalisation of
    a raw bookmark object, and the view projection (filter by tab, tag and
    search text; sort with pinned entries first). */
module Bookmarks {
  import opened Values
  import opened Text
  import opened Seqs
  import opened Records

  // ---------------------------------------------------------------------
  // Validation

  const UrlRequired := "URL is required and must be a string."
  const UrlInvalid := "URL is not a valid URL."
  const TitleNotString := "Title must be a string."
  const TagsNotArray := "Tags must be an array."

  /** Every message validation can report, in the order it checks them. */
  const ValidationMessages := [UrlRequired, UrlInvalid, TitleNotString, TagsNotArray]

  /** `bookmark.url` is truthy and a string. */
  predicate UrlPresent(raw: Object) {
    Get(raw, "url").Str? && Get(raw, "url").s != ""
  }

  /** What a caller must supply for validation to pass: a non-empty string
      url the URL parser accepts, a title that is absent/falsy or a string,
      and tags that are absent/falsy or an array. */
  predicate ValidInput(raw: Object, parseHost: string -> Option<string>) {
    && UrlPresent(raw)
    && parseHost(Get(raw, "url").s).Some?
    && (!Truthy(Get(raw, "title")) || Get(raw, "title").Str?)
    && (!Truthy(Get(raw, "tags")) || Get(raw, "tags").Arr?)
  }

  /** The condition under which each message is reported. */
  predicate Reported(m: string, raw: Object, parseHost: string -> Option<string>) {
    || (m == UrlRequired && !UrlPresent(raw))
    || (m == UrlInvalid && UrlPresent(raw) && parseHost(Get(raw, "url").s).None?)
    || (m == TitleNotString && Truthy(Get(raw, "title")) && !Get(raw, "title").Str?)
    || (m == TagsNotArray && Truthy(Get(raw, "tags")) && !Get(raw, "tags").Arr?)
  }

  /** `validateBookmark(bookmark)`: `new URL(s)` succeeds exactly when
      `parseHost(s)` is `Some`. */
  method ValidateBookmark(raw: Object, parseHost: string -> Option<string>)
    returns (valid: bool, errors: seq<string>)
    ensures errors == Filter(ValidationMessages, m => Reported(m, raw, parseHost))
    ensures valid <==> errors == []
    ensures valid <==> ValidInput(raw, parseHost)
    ensures UrlRequired in errors <==> !UrlPresent(raw)
    ensures UrlInvalid in errors <==> UrlPresent(raw) && parseHost(Get(raw, "url").s).None?
    ensures TitleNotString in errors <==> Truthy(Get(raw, "title")) && !Get(raw, "title").Str?
    ensures TagsNotArray in errors <==> Truthy(Get(raw, "tags")) && !Get(raw, "tags").Arr?
    ensures |errors| <= 3
  {
    errors := [];
    var url := Get(raw, "url");
    if !url.Str? || url.s == "" {
      errors := errors + [UrlRequired];
    } else if parseHost(url.s).None? {
      errors := errors + [UrlInvalid];
    }
    var title := Get(raw, "title");
    if Truthy(title) && !title.Str? {
      errors := errors + [TitleNotString];
    }
    var tags := Get(raw, "tags");
    if Truthy(tags) && !tags.Arr? {
      errors := errors + [TagsNotArray];
    }
    valid := |errors| == 0;
    ReportedInOrder(raw, parseHost);
  }

  /** Filtering the message list by `Reported` yields at most one url message,
      then the title message, then the tags message. */
  lemma ReportedInOrder(raw: Object, parseHost: string -> Option<string>)
    ensures var p := (m: string) => Reported(m, raw, parseHost);
      Filter(ValidationMessages, p) ==
        (if !UrlPresent(raw) then [UrlRequired]
         else if parseHost(Get(raw, "url").s).None? then [UrlInvalid] else [])
        + (if Truthy(Get(raw, "title")) && !Get(raw, "title").Str? then [TitleNotString] else [])
        + (if Truthy(Get(raw, "tags")) && !Get(raw, "tags").Arr? then [TagsNotArray] else [])
  {
    var p := (m: string) => Reported(m, raw, parseHost);
    var ms := ValidationMessages;
    assert ms[..3] == [UrlRequired, UrlInvalid, TitleNotString];
    assert ms[..3][..2] == [UrlRequired, UrlInvalid];
    assert ms[..3][..2][..1] == [UrlRequired];
    assert ms[..3][..2][..1][..0] == [];
    assert |UrlRequired| != |UrlInvalid| && |UrlRequired| != |TitleNotString|;
    assert |UrlRequired| != |TagsNotArray| && |UrlInvalid| != |TagsNotArray|;
    assert |TitleNotString| != |TagsNotArray| && UrlInvalid[0] != TitleNotString[0];
    assert p(UrlRequired) == !UrlPresent(raw);
    assert p(UrlInvalid) == (UrlPresent(raw) && parseHost(Get(raw, "url").s).None?);
    assert p(TitleNotString) == (Truthy(Get(raw, "title")) && !Get(raw, "title").Str?);
    assert p(TagsNotArray) == (Truthy(Get(raw, "tags")) && !Get(raw, "tags").Arr?);
    var f1 := if p(UrlRequired) then [UrlRequired] else [];
    var f2 := f1 + if p(UrlInvalid) then [UrlInvalid] else [];
    var f3 := f2 + if p(TitleNotString) then [TitleNotString] else [];
    assert Filter([UrlRequired], p) == f1;
    assert Filter([UrlRequired, UrlInvalid], p) == f2;
    assert Filter(ms[..3], p) == f3;
    assert Filter(ms, p) == f3 + if p(TagsNotArray) then [TagsNotArray] else [];
  }

  // ---------------------------------------------------------------------
  // Normalisation

  /** The properties of a normalised bookmark row. */
  const RowKeys := {"user_id", "title", "url", "category", "tags", "ai_summary",
                    "is_favorite", "is_pinned", "click_count"}

  /** `normalizeBookmark(raw, userId)` */
  function NormalizeBookmark(raw: Object, userId: string): (row: Object)
    ensures row.Keys == RowKeys
    ensures row["user_id"] == Str(userId)
    ensures row["url"] == Get(raw, "url")
    ensures Truthy(Get(raw, "title")) ==> row["title"] == Get(raw, "title")
    ensures !Truthy(Get(raw, "title")) ==> row["title"] == Get(raw, "url")
    ensures Truthy(Get(raw, "category")) ==> row["category"] == Get(raw, "category")
    ensures !Truthy(Get(raw, "category")) ==> row["category"] == Null
    ensures Get(raw, "tags").Arr? ==> row["tags"] == Get(raw, "tags")
    ensures !Get(raw, "tags").Arr? ==> row["tags"] == Arr([])
    ensures Truthy(Get(raw, "ai_summary")) ==> row["ai_summary"] == Get(raw, "ai_summary")
    ensures !Truthy(Get(raw, "ai_summary")) ==> row["ai_summary"] == Null
    ensures row["is_favorite"] == Bool(Truthy(Get(raw, "is_favorite")))
    ensures row["is_pinned"] == Bool(Truthy(Get(raw, "is_pinned")))
    ensures Truthy(Get(raw, "click_count")) ==> row["click_count"] == Get(raw, "click_count")
    ensures !Truthy(Get(raw, "click_count")) ==> row["click_count"] == Num(0)
  {
    map[
      "user_id" := Str(userId),
      "title" := Or(Get(raw, "title"), Get(raw, "url")),
      "url" := Get(raw, "url"),
      "category" := Or(Get(raw, "category"), Null),
      "tags" := ArrayOrEmpty(Get(raw, "tags")),
      "ai_summary" := Or(Get(raw, "ai_summary"), Null),
      "is_favorite" := ToBool(Get(raw, "is_favorite")),
      "is_pinned" := ToBool(Get(raw, "is_pinned")),
      "click_count" := Or(Get(raw, "click_count"), Num(0))
    ]
  }

  /** A raw bookmark that passes validation normalises to a row whose title
      and url are non-empty strings, the url one the parser accepts. */
  lemma NormalizeValid(raw: Object, userId: string, parseHost: string -> Option<string>)
    requires ValidInput(raw, parseHost)
    ensures var row := NormalizeBookmark(raw, userId);
      && row["url"].Str? && row["url"].s != "" && parseHost(row["url"].s).Some?
      && row["title"].Str? && row["title"].s != ""
      && row["tags"].Arr?
  {
  }

  // ---------------------------------------------------------------------
  // Filtering

  /** The view state that selects which bookmarks are listed. `tagFilter`
      is the selected tag, `None` (JavaScript `null`) when there is none. */
  datatype FilterOptions = FilterOptions(filter: string, tagFilter: Option<string>, searchQuery: string)

  /** The tab test: "favourites", "all", or a category (missing is "Other"). */
  predicate InTab(b: Bookmark, filter: string) {
    if filter == "favourites" then b.isFavorite
    else filter == "all" || CategoryOrOther(b) == filter
  }

  /** `if (tagFilter)`: a non-empty selected tag. */
  predicate TagActive(tagFilter: Option<string>) {
    tagFilter.Some? && tagFilter.value != ""
  }

  /** `if (searchQuery.trim())` */
  predicate SearchActive(query: string) {
    Trim(query) != ""
  }

  /** `s?.toLowerCase().includes(q)` for a nullable field. */
  predicate FieldMatches(s: Option<string>, q: string) {
    s.Some? && Contains(Lower(s.value), q)
  }

  /** The search test against the lower-cased query `q`: any of title, url,
      category, summary or a tag contains it, ignoring ASCII case. A missing
      category is not read as "Other" here. */
  predicate Matches(b: Bookmark, q: string) {
    || FieldMatches(b.title, q)
    || Contains(Lower(b.url), q)
    || FieldMatches(b.category, q)
    || FieldMatches(b.aiSummary, q)
    || exists i :: 0 <= i < |TagList(b)| && Contains(Lower(TagList(b)[i]), q)
  }

  /** `filterBookmarks(bookmarks, { filter, tagFilter, searchQuery })`: the
      three stages applied one after another. */
  function FilterBookmarks(bs: seq<Bookmark>, o: FilterOptions): (r: seq<Bookmark>)
    ensures |r| <= |bs|
  {
    var byTab :=
      if o.filter == "favourites" then Filter(bs, (b: Bookmark) => b.isFavorite)
      else if o.filter != "all" then Filter(bs, b => CategoryOrOther(b) == o.filter)
      else bs;
    var byTag :=
      if TagActive(o.tagFilter) then Filter(byTab, b => o.tagFilter.value in TagList(b))
      else byTab;
    if SearchActive(o.searchQuery) then
      var q := Lower(o.searchQuery);
      Filter(byTag, b => Matches(b, q))
    else byTag
  }

  /** A bookmark is listed exactly when it passes every active test. */
  predicate Kept(b: Bookmark, o: FilterOptions) {
    && InTab(b, o.filter)
    && (TagActive(o.tagFilter) ==> o.tagFilter.value in TagList(b))
    && (SearchActive(o.searchQuery) ==> Matches(b, Lower(o.searchQuery)))
  }

  /** The staged filter is one filter by the conjunction of the tests. */
  lemma FilterBookmarksIsFilter(bs: seq<Bookmark>, o: FilterOptions)
    ensures FilterBookmarks(bs, o) == Filter(bs, b => Kept(b, o))
  {
    var tab := (b: Bookmark) => InTab(b, o.filter);
    var tag := (b: Bookmark) => TagActive(o.tagFilter) ==> o.tagFilter.value in TagList(b);
    var search := (b: Bookmark) => SearchActive(o.searchQuery) ==> Matches(b, Lower(o.searchQuery));
    var tabTag := (b: Bookmark) => tab(b) && tag(b);
    var byTab := Filter(bs, tab);
    if o.filter == "favourites" {
      FilterSame(bs, (b: Bookmark) => b.isFavorite, tab);
    } else if o.filter != "all" {
      FilterSame(bs, b => CategoryOrOther(b) == o.filter, tab);
    } else {
      FilterAllKept(bs, tab);
    }
    var byTag := Filter(byTab, tag);
    if TagActive(o.tagFilter) {
      FilterSame(byTab, b => o.tagFilter.value in TagList(b), tag);
    } else {
      FilterAllKept(byTab, tag);
    }
    FilterFilter(bs, tab, tag, tabTag);
    if SearchActive(o.searchQuery) {
      var q := Lower(o.searchQuery);
      FilterSame(byTag, b => Matches(b, q), search);
    } else {
      FilterAllKept(byTag, search);
    }
    FilterFilter(bs, tabTag, search, b => Kept(b, o));
  }

  /** Two tests that agree everywhere filter alike. */
  lemma {:induction false} FilterSame<T>(s: seq<T>, p: T -> bool, q: T -> bool)
    requires forall x :: p(x) == q(x)
    ensures Filter(s, p) == Filter(s, q)
    decreases |s|
  {
    if s != [] {
      FilterSame(s[..|s| - 1], p, q);
    }
  }

  /** The listed bookmarks keep their relative order, and a bookmark is
      listed exactly when it is in the input and passes every active test. */
  lemma FilterBookmarksSpec(bs: seq<Bookmark>, o: FilterOptions, b: Bookmark)
    ensures Subsequence(FilterBookmarks(bs, o), bs)
    ensures b in FilterBookmarks(bs, o) <==> b in bs && Kept(b, o)
  {
    FilterBookmarksIsFilter(bs, o);
    FilterIsSubsequence(bs, b => Kept(b, o));
    FilterMember(bs, b => Kept(b, o), b);
  }

  /** With the "all" tab, no tag (none, or the empty one) and a blank query
      the list is unchanged. */
  lemma FilterBookmarksNoOp(bs: seq<Bookmark>, tagFilter: Option<string>, query: string)
    requires !TagActive(tagFilter) && !SearchActive(query)
    ensures FilterBookmarks(bs, FilterOptions("all", tagFilter, query)) == bs
  {
    var o := FilterOptions("all", tagFilter, query);
    forall i | 0 <= i < |bs| ensures Kept(bs[i], o) {
      KeptUnfiltered(bs[i], o);
    }
    FilterBookmarksAllKept(bs, o);
  }

  lemma KeptUnfiltered(b: Bookmark, o: FilterOptions)
    requires o.filter == "all" && !TagActive(o.tagFilter) && !SearchActive(o.searchQuery)
    ensures Kept(b, o)
  {
  }

  /** Searching for "design" lists both a bookmark in category "Design" and
      one tagged "design-tools". */
  lemma DesignSearchScenario(a: Bookmark, b: Bookmark, o: FilterOptions)
    requires a.category == Some("Design")
    requires b.tags == Some(["design-tools"])
    requires o == FilterOptions("all", None, "design")
    ensures FilterBookmarks([a, b], o) == [a, b]
  {
    DesignKept(a, o);
    DesignKept(b, o);
    PairAllKept(a, b, o);
  }

  /** Both entries of a pair pass the tests, so the pair is listed unchanged. */
  lemma PairAllKept(a: Bookmark, b: Bookmark, o: FilterOptions)
    requires Kept(a, o) && Kept(b, o)
    ensures FilterBookmarks([a, b], o) == [a, b]
  {
    var bs := [a, b];
    forall i | 0 <= i < |bs| ensures Kept(bs[i], o) {
      assert bs[i] == if i == 0 then a else b;
    }
    FilterBookmarksAllKept(bs, o);
  }

  lemma DesignKept(x: Bookmark, o: FilterOptions)
    requires x.category == Some("Design") || x.tags == Some(["design-tools"])
    requires o == FilterOptions("all", None, "design")
    ensures Kept(x, o)
  {
    if x.category == Some("Design") {
      DesignCategoryMatches(x);
    } else {
      DesignTagMatches(x);
    }
    DesignQuery();
    assert Lower(o.searchQuery) == "design";
  }

  /** A list whose every entry passes the tests is listed unchanged. */
  lemma FilterBookmarksAllKept(bs: seq<Bookmark>, o: FilterOptions)
    requires forall i :: 0 <= i < |bs| ==> Kept(bs[i], o)
    ensures FilterBookmarks(bs, o) == bs
  {
    var p := (b: Bookmark) => Kept(b, o);
    FilterBookmarksIsFilter(bs, o);
    assert FilterBookmarks(bs, o) == Filter(bs, p);
    FilterAllKept(bs, p);
  }

  lemma DesignCategoryMatches(a: Bookmark)
    requires a.category == Some("Design")
    ensures Matches(a, "design")
  {
    LowerDesign("Design");
    assert OccursAt(Lower("Design"), "design", 0);
    assert FieldMatches(a.category, "design");
  }

  lemma DesignTagMatches(b: Bookmark)
    requires b.tags == Some(["design-tools"])
    ensures Matches(b, "design")
  {
    LowerDesign("design-tools");
    assert TagList(b)[0] == "design-tools";
    assert OccursAt(Lower(TagList(b)[0]), "design", 0);
  }

  lemma DesignQuery()
    ensures Lower("design") == "design" && SearchActive("design")
  {
    assert !IsSpace('d') && !IsSpace('n');
    assert TrimEnd("design") == "design";
    assert TrimStart("design") == "design";
  }

  lemma LowerDesign(s: string)
    requires |s| >= 6 && s[1..6] == "esign" && (s[0] == 'd' || s[0] == 'D')
    ensures Lower(s)[..6] == "design"
  {
    assert Lower(s)[0] == 'd';
    forall i | 1 <= i < 6 ensures Lower(s)[i] == "design"[i] {
      assert s[i] == "design"[i];
    }
  }

  // ---------------------------------------------------------------------
  // Sorting

  /** `localeCompare`: an abstract string comparison. */
  type Collation = (string, string) -> int

  /** The primary comparator of each known sort option; `None` for any
      other value, which leaves the order as it is. */
  function PrimaryCmp(sortBy: string, locale: Collation): Option<(Bookmark, Bookmark) -> int> {
    if sortBy == "newest" then Some((a: Bookmark, b: Bookmark) => b.createdAt - a.createdAt)
    else if sortBy == "oldest" then Some((a: Bookmark, b: Bookmark) => a.createdAt - b.createdAt)
    else if sortBy == "title-az" then Some((a: Bookmark, b: Bookmark) => locale(TitleText(a), TitleText(b)))
    else if sortBy == "title-za" then Some((a: Bookmark, b: Bookmark) => locale(TitleText(b), TitleText(a)))
    else if sortBy == "most-visited" then Some((a: Bookmark, b: Bookmark) => Clicks(b) - Clicks(a))
    else if sortBy == "least-visited" then Some((a: Bookmark, b: Bookmark) => Clicks(a) - Clicks(b))
    else None
  }

  predicate IsPinned(b: Bookmark) {
    b.isPinned
  }

  /** `(a, b) => (b.is_pinned ? 1 : 0) - (a.is_pinned ? 1 : 0)` */
  function PinCmp(a: Bookmark, b: Bookmark): int {
    (if b.isPinned then 1 else 0) - (if a.isPinned then 1 else 0)
  }

  /** The primary sort alone (the dashboard's own view stops here). */
  function PrimarySort(bs: seq<Bookmark>, sortBy: string, locale: Collation): (r: seq<Bookmark>)
    ensures |r| == |bs|
  {
    match PrimaryCmp(sortBy, locale)
    case None => bs
    case Some(cmp) => SortBy(bs, cmp)
  }

  /** The result of `sortBookmarks`: the primary sort, then the pinned pass. */
  function SortedView(bs: seq<Bookmark>, sortBy: string, locale: Collation): (r: seq<Bookmark>)
    ensures |r| == |bs|
  {
    SortBy(PrimarySort(bs, sortBy, locale), PinCmp)
  }

  /** `sortBookmarks(bookmarks, sortBy)`: copy into a fresh array, sort it in
      place by the primary comparator, then again by the pinned comparator. */
  method SortBookmarks(bs: seq<Bookmark>, sortBy: string, locale: Collation) returns (r: seq<Bookmark>)
    ensures r == SortedView(bs, sortBy, locale)
  {
    var sorted := new Bookmark[|bs|](i requires 0 <= i < |bs| => bs[i]);
    assert sorted[..] == bs;
    var primary := PrimaryCmp(sortBy, locale);
    if primary.Some? {
      SortInPlace(sorted, primary.value);
    }
    SortInPlace(sorted, PinCmp);
    r := sorted[..];
  }

  /** For a collation that is a total preorder, every primary comparator is. */
  lemma PrimaryCmpValid(sortBy: string, locale: Collation)
    requires ValidCmp(locale)
    requires PrimaryCmp(sortBy, locale).Some?
    ensures ValidCmp(PrimaryCmp(sortBy, locale).value)
  {
    var cmp := PrimaryCmp(sortBy, locale).value;
    if sortBy == "title-az" {
      forall a: Bookmark, b: Bookmark | cmp(a, b) > 0 ensures cmp(b, a) < 0 {
        assert locale(TitleText(a), TitleText(b)) > 0;
      }
      forall a: Bookmark, b: Bookmark, c: Bookmark | cmp(a, b) <= 0 && cmp(b, c) <= 0
        ensures cmp(a, c) <= 0
      {
        assert locale(TitleText(a), TitleText(b)) <= 0 && locale(TitleText(b), TitleText(c)) <= 0;
      }
    } else if sortBy == "title-za" {
      forall a: Bookmark, b: Bookmark | cmp(a, b) > 0 ensures cmp(b, a) < 0 {
        assert locale(TitleText(b), TitleText(a)) > 0;
      }
      forall a: Bookmark, b: Bookmark, c: Bookmark | cmp(a, b) <= 0 && cmp(b, c) <= 0
        ensures cmp(a, c) <= 0
      {
        assert locale(TitleText(c), TitleText(b)) <= 0 && locale(TitleText(b), TitleText(a)) <= 0;
      }
    }
  }

  /** The pinned pass is a stable partition of the primary order: first the
      pinned bookmarks, then the others, each group in primary order. */
  lemma SortedViewPartitions(bs: seq<Bookmark>, sortBy: string, locale: Collation)
    ensures var p := PrimarySort(bs, sortBy, locale);
      SortedView(bs, sortBy, locale) == Filter(p, IsPinned) + Reject(p, IsPinned)
  {
    KeySortPartitions(PrimarySort(bs, sortBy, locale), IsPinned, PinCmp);
  }

  /** The view is a permutation of the input. */
  lemma SortedViewPermutes(bs: seq<Bookmark>, sortBy: string, locale: Collation)
    ensures multiset(SortedView(bs, sortBy, locale)) == multiset(bs)
  {
    SortByPermutes(PrimarySort(bs, sortBy, locale), PinCmp);
    match PrimaryCmp(sortBy, locale)
    case None =>
    case Some(cmp) => SortByPermutes(bs, cmp);
  }

  /** Every pinned bookmark comes before every unpinned one. */
  lemma SortedViewPinnedFirst(bs: seq<Bookmark>, sortBy: string, locale: Collation, i: int, j: int)
    requires 0 <= i < j < |bs|
    requires SortedView(bs, sortBy, locale)[j].isPinned
    ensures SortedView(bs, sortBy, locale)[i].isPinned
  {
    var p := PrimarySort(bs, sortBy, locale);
    var r := SortedView(bs, sortBy, locale);
    SortedViewPartitions(bs, sortBy, locale);
    var front, back := Filter(p, IsPinned), Reject(p, IsPinned);
    if j >= |front| {
      assert r[j] == back[j - |front|];
      RejectMember(p, IsPinned, r[j]);
    }
    assert r[i] == front[i];
    FilterMember(p, IsPinned, r[i]);
  }

  /** For a known sort option each group is in primary order. */
  lemma SortedViewGroupsSorted(bs: seq<Bookmark>, sortBy: string, locale: Collation)
    requires ValidCmp(locale)
    requires PrimaryCmp(sortBy, locale).Some?
    ensures var cmp := PrimaryCmp(sortBy, locale).value;
      var p := PrimarySort(bs, sortBy, locale);
      Sorted(Filter(p, IsPinned), cmp) && Sorted(Reject(p, IsPinned), cmp)
  {
    var cmp := PrimaryCmp(sortBy, locale).value;
    PrimaryCmpValid(sortBy, locale);
    SortBySorted(bs, cmp);
    FilterSorted(SortBy(bs, cmp), IsPinned, cmp);
    RejectSorted(SortBy(bs, cmp), IsPinned, cmp);
  }

  /** An unknown sort option only moves pinned bookmarks to the front. */
  lemma UnknownSortPartitions(bs: seq<Bookmark>, sortBy: string, locale: Collation)
    requires PrimaryCmp(sortBy, locale).None?
    ensures SortedView(bs, sortBy, locale) == Filter(bs, IsPinned) + Reject(bs, IsPinned)
  {
    SortedViewPartitions(bs, sortBy, locale);
  }

  /** Sorting by most visited puts a pinned bookmark with no clicks before an
      unpinned one with ten. */
  lemma PinnedBeatsClicksScenario(p: Bookmark, u: Bookmark, locale: Collation)
    requires p.isPinned && p.clickCount == Some(0)
    requires !u.isPinned && u.clickCount == Some(10)
    ensures SortedView([p, u], "most-visited", locale) == [p, u]
  {
    var cmp := PrimaryCmp("most-visited", locale).value;
    assert cmp(p, u) > 0;
    assert [p, u][..1] == [p];
    assert SortBy([p], cmp) == [p];
    assert Insert(u, [p], cmp) == [u, p];
    assert PrimarySort([p, u], "most-visited", locale) == [u, p];
    SortedViewPartitions([p, u], "most-visited", locale);
    assert [u, p][..1] == [u];
    assert Filter([u, p], IsPinned) == [p];
    assert Reject([u, p], IsPinned) == [u];
  }
}
