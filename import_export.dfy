/** The portable file format: the record written for each bookmark on
    export, and the parsing and validation of an imported file. The text of
    the file is already parsed: `Invalid` stands for text `JSON.parse`
    rejects. */
module ImportExport {
  import opened Values
  import opened Text
  import opened Seqs
  import opened Records

  // ---------------------------------------------------------------------
  // Export

  const ExportKeys := {"title", "url", "category", "tags", "ai_summary",
                       "is_favorite", "is_pinned", "click_count", "created_at"}

  /** `b || null` for a nullable string column. */
  function OrNull(s: Option<string>): (r: Value)
    ensures s.Some? && s.value != "" ==> r == Str(s.value)
    ensures s.None? || s.value == "" ==> r == Null
  {
    Or(OptStr(s), Null)
  }

  /** The record written for one bookmark; it leaves out `id` and `user_id`. */
  function ExportRecord(b: Bookmark): (r: Object)
    ensures r.Keys == ExportKeys
    ensures "id" !in r && "user_id" !in r
  {
    map[
      "title" := OptStr(b.title),
      "url" := Str(b.url),
      "category" := OrNull(b.category),
      "tags" := StrArray(TagList(b)),
      "ai_summary" := OrNull(b.aiSummary),
      "is_favorite" := Bool(b.isFavorite),
      "is_pinned" := Bool(b.isPinned),
      "click_count" := Num(Clicks(b)),
      "created_at" := Num(b.createdAt)
    ]
  }

  /** The exported values: the title and url are copied, an empty or
      missing category or summary becomes `null`, missing tags become `[]`,
      the two flags are booleans, a missing click count is 0 and the
      creation time is copied. */
  lemma ExportRecordValues(b: Bookmark)
    ensures var r := ExportRecord(b);
      && (b.title.Some? ==> r["title"] == Str(b.title.value))
      && (b.title.None? ==> r["title"] == Null)
      && r["url"] == Str(b.url)
      && (b.category.Some? && b.category.value != "" ==> r["category"] == Str(b.category.value))
      && (b.category.None? || b.category.value == "" ==> r["category"] == Null)
      && (b.aiSummary.Some? && b.aiSummary.value != "" ==> r["ai_summary"] == Str(b.aiSummary.value))
      && (b.aiSummary.None? || b.aiSummary.value == "" ==> r["ai_summary"] == Null)
    ensures var r := ExportRecord(b);
      && r["tags"].Arr? && |r["tags"].items| == |TagList(b)|
      && (forall i :: 0 <= i < |TagList(b)| ==> r["tags"].items[i] == Str(b.tags.value[i]))
      && (b.tags.None? ==> r["tags"] == Arr([]))
      && r["is_favorite"] == Bool(b.isFavorite) && r["is_pinned"] == Bool(b.isPinned)
      && (b.clickCount.Some? ==> r["click_count"] == Num(b.clickCount.value))
      && (b.clickCount.None? ==> r["click_count"] == Num(0))
      && r["created_at"] == Num(b.createdAt)
  {
  }

  /** The exported document; `exportedAt` is the clock reading. */
  function ExportData(bs: seq<Bookmark>, exportedAt: string): (r: Object)
    ensures r.Keys == {"app", "exportedAt", "count", "bookmarks"}
    ensures r["app"] == Str("LinkNest") && r["count"] == Num(|bs|)
    ensures r["bookmarks"].Arr? && |r["bookmarks"].items| == |bs|
    ensures forall i :: 0 <= i < |bs| ==> r["bookmarks"].items[i] == Obj(ExportRecord(bs[i]))
  {
    map[
      "app" := Str("LinkNest"),
      "exportedAt" := Str(exportedAt),
      "count" := Num(|bs|),
      "bookmarks" := Arr(seq(|bs|, i requires 0 <= i < |bs| => Obj(ExportRecord(bs[i]))))
    ]
  }

  // ---------------------------------------------------------------------
  // Import

  /** The file's text: rejected by `JSON.parse`, or the value it parsed to. */
  datatype Json = Invalid | Parsed(value: Value)

  /** `parseImportFile` either returns its two lists or, on a `null` or
      missing item, throws the `TypeError` of reading `item.url`. */
  datatype ImportOutcome = Imported(bookmarks: seq<Object>, errors: seq<string>) | TypeError

  const InvalidJson := "Invalid JSON file."
  const NoBookmarks := "No bookmarks found. Expected a JSON array or { bookmarks: [...] }."

  function ItemError(n: nat): string {
    "Item " + NatToString(n) + ": missing or invalid \"url\"."
  }

  const ImportKeys := {"title", "url", "category", "tags", "ai_summary", "is_favorite", "click_count"}

  /** `Array.isArray(raw) ? raw : raw?.bookmarks` */
  function ImportItems(raw: Value): Value {
    if raw.Arr? then raw
    else if raw.Obj? then Get(raw.fields, "bookmarks")
    else Undefined
  }

  /** `item.url` on a non-null item: only an object can have the property. */
  function ItemUrl(item: Value): Value {
    if item.Obj? then Get(item.fields, "url") else Undefined
  }

  /** The item has a truthy string url. */
  predicate HasUrl(item: Value) {
    ItemUrl(item).Str? && ItemUrl(item).s != ""
  }

  /** The entry built for an accepted item. */
  function ImportEntry(item: Value): Object {
    map[
      "title" := Or(Field(item, "title"), ItemUrl(item)),
      "url" := ItemUrl(item),
      "category" := Or(Field(item, "category"), Null),
      "tags" := ArrayOrEmpty(Field(item, "tags")),
      "ai_summary" := Or(Field(item, "ai_summary"), Null),
      "is_favorite" := ToBool(Field(item, "is_favorite")),
      "click_count" := Or(Field(item, "click_count"), Num(0))
    ]
  }

  /** The entry has exactly the seven columns; the url is the item's, the
      title falls back to the url, a truthy category, summary or click count
      is copied and a falsy one becomes `null`, `null` or 0, non-array tags
      become `[]` and the favourite flag is a boolean; no id, owner, pin
      flag or creation time is taken from the item. */
  lemma ImportEntrySpec(item: Value)
    ensures var e := ImportEntry(item);
      && e.Keys == ImportKeys
      && "is_pinned" !in e && "created_at" !in e && "id" !in e && "user_id" !in e
      && e["url"] == ItemUrl(item)
      && (Truthy(Field(item, "title")) ==> e["title"] == Field(item, "title"))
      && (!Truthy(Field(item, "title")) ==> e["title"] == ItemUrl(item))
      && (Truthy(Field(item, "category")) ==> e["category"] == Field(item, "category"))
      && (!Truthy(Field(item, "category")) ==> e["category"] == Null)
      && (!Field(item, "tags").Arr? ==> e["tags"] == Arr([]))
      && (Field(item, "tags").Arr? ==> e["tags"] == Field(item, "tags"))
      && e["is_favorite"] == Bool(Truthy(Field(item, "is_favorite")))
      && (Truthy(Field(item, "ai_summary")) ==> e["ai_summary"] == Field(item, "ai_summary"))
      && (!Truthy(Field(item, "ai_summary")) ==> e["ai_summary"] == Null)
      && (Truthy(Field(item, "click_count")) ==> e["click_count"] == Field(item, "click_count"))
      && (!Truthy(Field(item, "click_count")) ==> e["click_count"] == Num(0))
  {
  }

  /** The `forEach` over the items: item `n` (1-based) without a url adds
      an error, any other adds an entry; a nullish item throws. */
  function ImportFrom(items: seq<Value>): ImportOutcome
    decreases |items|
  {
    if items == [] then Imported([], [])
    else
      match ImportFrom(items[..|items| - 1])
      case TypeError => TypeError
      case Imported(valid, errors) =>
        var item := items[|items| - 1];
        if IsNullish(item) then TypeError
        else if !HasUrl(item) then Imported(valid, errors + [ItemError(|items|)])
        else Imported(valid + [ImportEntry(item)], errors)
  }

  /** The result of `parseImportFile(jsonString)`. */
  function ParseImport(json: Json): ImportOutcome {
    match json
    case Invalid => Imported([], [InvalidJson])
    case Parsed(raw) =>
      var items := ImportItems(raw);
      if !items.Arr? || items.items == [] then Imported([], [NoBookmarks])
      else ImportFrom(items.items)
  }

  /** `parseImportFile(jsonString)` */
  method ParseImportFile(json: Json) returns (outcome: ImportOutcome)
    ensures outcome == ParseImport(json)
    ensures json.Invalid? ==> outcome == Imported([], [InvalidJson])
    ensures json.Parsed? && !(ImportItems(json.value).Arr? && ImportItems(json.value).items != []) ==>
      outcome == Imported([], [NoBookmarks])
  {
    if json.Invalid? {
      return Imported([], [InvalidJson]);
    }
    var items := ImportItems(json.value);
    if !items.Arr? || |items.items| == 0 {
      return Imported([], [NoBookmarks]);
    }
    var xs := items.items;
    var valid: seq<Object> := [];
    var errors: seq<string> := [];
    for i := 0 to |xs|
      invariant ImportFrom(xs[..i]) == Imported(valid, errors)
    {
      assert xs[..i + 1][..i] == xs[..i];
      var item := xs[i];
      if IsNullish(item) {
        TypeErrorPersists(xs, i + 1);
        return TypeError;
      }
      var url := ItemUrl(item);
      if !url.Str? || url.s == "" {
        errors := errors + [ItemError(i + 1)];
      } else {
        valid := valid + [ImportEntry(item)];
      }
    }
    assert xs[..|xs|] == xs;
    outcome := Imported(valid, errors);
  }

  /** Once an item has thrown, the later items do not change the outcome. */
  lemma {:induction false} TypeErrorPersists(xs: seq<Value>, n: nat)
    requires n <= |xs| && ImportFrom(xs[..n]) == TypeError
    ensures ImportFrom(xs) == TypeError
    decreases |xs| - n
  {
    if n < |xs| {
      assert xs[..n + 1][..n] == xs[..n];
      TypeErrorPersists(xs, n + 1);
    } else {
      assert xs[..n] == xs;
    }
  }

  function MapEntries(items: seq<Value>): (r: seq<Object>)
    ensures |r| == |items|
    ensures forall i :: 0 <= i < |items| ==> r[i] == ImportEntry(items[i])
  {
    seq(|items|, i requires 0 <= i < |items| => ImportEntry(items[i]))
  }

  /** The import throws exactly when some item is `null` or `undefined`;
      otherwise the entries are those of the items with a url, in order, one
      error stands for each other item, and every item is accounted for. */
  lemma ImportFromSpec(items: seq<Value>)
    ensures ImportFrom(items).TypeError? <==> exists i :: 0 <= i < |items| && IsNullish(items[i])
    ensures ImportFrom(items).Imported? ==>
      && ImportFrom(items).bookmarks == MapEntries(Filter(items, HasUrl))
      && |ImportFrom(items).errors| == |Reject(items, HasUrl)|
      && |ImportFrom(items).bookmarks| + |ImportFrom(items).errors| == |items|
  {
    ImportFromThrows(items);
    if ImportFrom(items).Imported? {
      ImportFromEntries(items);
    }
  }

  lemma {:induction false} ImportFromThrows(items: seq<Value>)
    ensures ImportFrom(items).TypeError? <==> SomeNullish(items)
    decreases |items|
  {
    if items != [] {
      ImportFromThrows(items[..|items| - 1]);
      ThrowsStep(items);
      SomeNullishSnoc(items);
    }
  }

  /** A list throws when all but its last item throw, or its last item is nullish. */
  lemma ThrowsStep(items: seq<Value>)
    requires items != []
    ensures ImportFrom(items).TypeError? <==>
      ImportFrom(items[..|items| - 1]).TypeError? || IsNullish(items[|items| - 1])
  {
  }

  predicate SomeNullish(items: seq<Value>) {
    exists i :: 0 <= i < |items| && IsNullish(items[i])
  }

  lemma SomeNullishSnoc(items: seq<Value>)
    requires items != []
    ensures SomeNullish(items) <==> SomeNullish(items[..|items| - 1]) || IsNullish(items[|items| - 1])
  {
    var init := items[..|items| - 1];
    if exists i :: 0 <= i < |items| && IsNullish(items[i]) {
      var i :| 0 <= i < |items| && IsNullish(items[i]);
      if i < |init| {
        assert init[i] == items[i];
      }
    }
    if exists i :: 0 <= i < |init| && IsNullish(init[i]) {
      var i :| 0 <= i < |init| && IsNullish(init[i]);
      assert items[i] == init[i];
    }
  }

  lemma {:induction false} ImportFromEntries(items: seq<Value>)
    requires ImportFrom(items).Imported?
    ensures ImportFrom(items).bookmarks == MapEntries(Filter(items, HasUrl))
    ensures |ImportFrom(items).errors| == |Reject(items, HasUrl)|
    ensures |ImportFrom(items).bookmarks| + |ImportFrom(items).errors| == |items|
    decreases |items|
  {
    if items != [] {
      var init, x := items[..|items| - 1], items[|items| - 1];
      ImportFromLast(items);
      ImportFromEntries(init);
      var f0 := Filter(init, HasUrl);
      assert Filter(items, HasUrl) == f0 + (if HasUrl(x) then [x] else []);
      if HasUrl(x) {
        MapEntriesSnoc(f0, x);
      }
    }
  }

  /** The outcome of a non-empty list that does not throw, from that of all
      but its last item. */
  lemma ImportFromLast(items: seq<Value>)
    requires items != [] && ImportFrom(items).Imported?
    ensures var init, x := items[..|items| - 1], items[|items| - 1];
      && ImportFrom(init).Imported? && !IsNullish(x)
      && ImportFrom(items).bookmarks == ImportFrom(init).bookmarks + (if HasUrl(x) then [ImportEntry(x)] else [])
      && ImportFrom(items).errors == ImportFrom(init).errors + (if HasUrl(x) then [] else [ItemError(|items|)])
  {
  }

  lemma MapEntriesSnoc(xs: seq<Value>, x: Value)
    ensures MapEntries(xs + [x]) == MapEntries(xs) + [ImportEntry(x)]
  {
    var l, r := MapEntries(xs + [x]), MapEntries(xs) + [ImportEntry(x)];
    forall i | 0 <= i < |l| ensures l[i] == r[i] {
      if i < |xs| {
        assert (xs + [x])[i] == xs[i];
      }
    }
  }

  /** Every error names an item (1-based) that has no url, and every such
      item is named. */
  lemma ImportErrorsNamed(items: seq<Value>)
    requires ImportFrom(items).Imported?
    ensures forall e :: e in ImportFrom(items).errors ==>
      exists n :: 1 <= n <= |items| && !HasUrl(items[n - 1]) && e == ItemError(n)
    ensures forall n :: 1 <= n <= |items| && !HasUrl(items[n - 1]) ==> ItemError(n) in ImportFrom(items).errors
  {
    ErrorsNameMissing(items);
    MissingNamed(items);
  }

  lemma {:induction false} ErrorsNameMissing(items: seq<Value>)
    requires ImportFrom(items).Imported?
    ensures forall e :: e in ImportFrom(items).errors ==>
      exists n :: 1 <= n <= |items| && !HasUrl(items[n - 1]) && e == ItemError(n)
    decreases |items|
  {
    if items != [] {
      var init := items[..|items| - 1];
      ImportFromLast(items);
      ErrorsNameMissing(init);
      var errs0 := ImportFrom(init).errors;
      forall e | e in ImportFrom(items).errors
        ensures exists n :: 1 <= n <= |items| && !HasUrl(items[n - 1]) && e == ItemError(n)
      {
        if e in errs0 {
          var n :| 1 <= n <= |init| && !HasUrl(init[n - 1]) && e == ItemError(n);
          assert items[n - 1] == init[n - 1];
        } else {
          assert e == ItemError(|items|) && !HasUrl(items[|items| - 1]);
        }
      }
    }
  }

  lemma {:induction false} MissingNamed(items: seq<Value>)
    requires ImportFrom(items).Imported?
    ensures forall n :: 1 <= n <= |items| && !HasUrl(items[n - 1]) ==> ItemError(n) in ImportFrom(items).errors
    decreases |items|
  {
    if items != [] {
      var init := items[..|items| - 1];
      ImportFromLast(items);
      MissingNamed(init);
      forall n | 1 <= n <= |items| && !HasUrl(items[n - 1]) ensures ItemError(n) in ImportFrom(items).errors {
        if n <= |init| {
          assert items[n - 1] == init[n - 1];
        }
      }
    }
  }

  /** An exported collection read back: entries for the bookmarks whose url
      is not empty, in order, and one error for each of the others. */
  lemma ExportImportRoundTrip(bs: seq<Bookmark>, exportedAt: string)
    requires bs != []
    ensures var out := ParseImport(Parsed(Obj(ExportData(bs, exportedAt))));
      var items := seq(|bs|, i requires 0 <= i < |bs| => Obj(ExportRecord(bs[i])));
      && out.Imported?
      && out.bookmarks == MapEntries(Filter(items, HasUrl))
      && |out.bookmarks| + |out.errors| == |bs|
  {
    var items := seq(|bs|, i requires 0 <= i < |bs| => Obj(ExportRecord(bs[i])));
    assert ImportItems(Obj(ExportData(bs, exportedAt))) == Arr(items);
    ImportFromSpec(items);
  }

  /** What an exported bookmark becomes when imported again: url, category,
      tags, summary, favourite flag and click count as exported, the title
      falling back to the url, and no pinned flag or creation time. */
  lemma ReimportedEntry(b: Bookmark)
    requires b.url != ""
    ensures var item := Obj(ExportRecord(b));
      var e := ImportEntry(item);
      && HasUrl(item)
      && e["url"] == Str(b.url)
      && e["title"] == (if b.title.Some? && b.title.value != "" then Str(b.title.value) else Str(b.url))
      && e["category"] == OrNull(b.category)
      && e["tags"] == StrArray(TagList(b))
      && e["ai_summary"] == OrNull(b.aiSummary)
      && e["is_favorite"] == Bool(b.isFavorite)
      && e["click_count"] == Num(Clicks(b))
      && "is_pinned" !in e && "created_at" !in e
  {
  }
}
