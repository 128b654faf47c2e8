/** The storage adapters' row builders: the objects handed to the database
    by `insertBookmark`, `updateBookmark`, `toggleFavourite`, `togglePin`
    and `bulkInsert`, and the click count the extension writes when it
    updates the row itself. The web and extension adapters build the same
    objects; the database calls are not modelled. */
module Storage {
  import opened Values
  import opened Records
  import opened ImportExport

  const InsertKeys := {"title", "url", "user_id", "category", "tags", "ai_summary"}
  const BulkKeys := {"user_id", "title", "url", "category", "tags", "ai_summary", "is_favorite", "click_count"}

  /** The row of `insertBookmark(userId, title, url, aiData = {})`: `None`
      where reading a property of a `null` `aiData` throws; a missing
      `aiData` is the default `{}`. */
  function InsertRow(userId: string, title: Value, url: Value, aiData: Value): Option<Object> {
    if aiData.Null? then None
    else Some(map[
      "title" := title,
      "url" := url,
      "user_id" := Str(userId),
      "category" := Or(Field(aiData, "category"), Null),
      "tags" := Or(Field(aiData, "tags"), Null),
      "ai_summary" := Or(Field(aiData, "summary"), Null)
    ])
  }

  /** The inserted row carries the title, url and user as given; category,
      tags and the summary (from the AI data's `summary`) come from the AI
      data and are `null` where it has nothing truthy. */
  lemma InsertRowSpec(userId: string, title: Value, url: Value, aiData: Value)
    ensures InsertRow(userId, title, url, aiData).None? <==> aiData.Null?
    ensures InsertRow(userId, title, url, aiData).Some? ==>
      var r := InsertRow(userId, title, url, aiData).value;
      && r.Keys == InsertKeys
      && r["title"] == title && r["url"] == url && r["user_id"] == Str(userId)
      && r["category"] == (if Truthy(Field(aiData, "category")) then Field(aiData, "category") else Null)
      && r["tags"] == (if Truthy(Field(aiData, "tags")) then Field(aiData, "tags") else Null)
      && r["ai_summary"] == (if Truthy(Field(aiData, "summary")) then Field(aiData, "summary") else Null)
  {
  }

  /** The `updates` object of `updateBookmark`: title and url always,
      category and tags only when they are not `undefined`. */
  function UpdateObject(title: Value, url: Value, category: Value, tags: Value): Object {
    var base := map["title" := title, "url" := url];
    var withCategory := if category.Undefined? then base else base["category" := category];
    if tags.Undefined? then withCategory else withCategory["tags" := tags]
  }

  /** The update always sets title and url, sets category (tags) exactly
      when that argument is not `undefined` (so a `null` is written), and
      writes nothing else. */
  lemma UpdateObjectSpec(title: Value, url: Value, category: Value, tags: Value)
    ensures var u := UpdateObject(title, url, category, tags);
      && u["title"] == title && u["url"] == url
      && ("category" in u <==> !category.Undefined?)
      && ("tags" in u <==> !tags.Undefined?)
      && ("category" in u ==> u["category"] == category)
      && ("tags" in u ==> u["tags"] == tags)
      && u.Keys <= {"title", "url", "category", "tags"}
  {
  }

  /** `{ is_favorite: isFavorite }` */
  function FavouriteUpdate(isFavorite: bool): Object {
    map["is_favorite" := Bool(isFavorite)]
  }

  /** `{ is_pinned: isPinned }` */
  function PinUpdate(isPinned: bool): Object {
    map["is_pinned" := Bool(isPinned)]
  }

  /** `{ category }` of `bulkUpdateCategory`, written to every selected row. */
  function CategoryUpdate(category: Value): Object {
    map["category" := category]
  }

  /** An update applied to a stored row: the given columns are overwritten. */
  function ApplyUpdate(row: Object, u: Object): Object {
    row + u
  }

  /** A favourite or pin write changes exactly its one column of a row. */
  lemma ToggleUpdatesSpec(row: Object, b: bool)
    ensures ApplyUpdate(row, FavouriteUpdate(b)).Keys == row.Keys + {"is_favorite"}
    ensures ApplyUpdate(row, FavouriteUpdate(b))["is_favorite"] == Bool(b)
    ensures forall k :: k in row && k != "is_favorite" ==> ApplyUpdate(row, FavouriteUpdate(b))[k] == row[k]
    ensures ApplyUpdate(row, PinUpdate(b)).Keys == row.Keys + {"is_pinned"}
    ensures ApplyUpdate(row, PinUpdate(b))["is_pinned"] == Bool(b)
    ensures forall k :: k in row && k != "is_pinned" ==> ApplyUpdate(row, PinUpdate(b))[k] == row[k]
  {
  }

  /** So does a bulk category write, on each row it selects. */
  lemma CategoryUpdateSpec(row: Object, category: Value)
    ensures ApplyUpdate(row, CategoryUpdate(category)).Keys == row.Keys + {"category"}
    ensures ApplyUpdate(row, CategoryUpdate(category))["category"] == category
    ensures forall k :: k in row && k != "category" ==> ApplyUpdate(row, CategoryUpdate(category))[k] == row[k]
  {
  }

  /** One row of `bulkInsert`; `None` where the item is nullish (reading
      its properties throws). */
  function BulkRow(userId: string, item: Value): Option<Object> {
    if IsNullish(item) then None
    else Some(map[
      "user_id" := Str(userId),
      "title" := Field(item, "title"),
      "url" := Field(item, "url"),
      "category" := Or(Field(item, "category"), Null),
      "tags" := Or(Field(item, "tags"), Null),
      "ai_summary" := Or(Field(item, "ai_summary"), Null),
      "is_favorite" := ToBool(Field(item, "is_favorite")),
      "click_count" := Or(Field(item, "click_count"), Num(0))
    ])
  }

  /** `bookmarksArray.map(...)`: `None` where some item throws. */
  function BulkRows(userId: string, items: seq<Value>): Option<seq<Object>>
    decreases |items|
  {
    if items == [] then Some([])
    else match (BulkRows(userId, items[..|items| - 1]), BulkRow(userId, items[|items| - 1]))
      case (Some(rs), Some(r)) => Some(rs + [r])
      case _ => None
  }

  /** `bulkInsert` builds one row per item, in order, each for the given
      user, with a boolean favourite flag, a click count defaulting to 0 and
      no pin column; it fails exactly when some item is nullish. */
  lemma BulkRowsSpec(userId: string, items: seq<Value>)
    ensures BulkRows(userId, items).Some? <==> forall i :: 0 <= i < |items| ==> !IsNullish(items[i])
    ensures BulkRows(userId, items).Some? ==>
      var rs := BulkRows(userId, items).value;
      && |rs| == |items|
      && forall i :: 0 <= i < |rs| ==>
           && BulkRow(userId, items[i]) == Some(rs[i])
           && rs[i].Keys == BulkKeys && "is_pinned" !in rs[i]
           && rs[i]["user_id"] == Str(userId)
           && rs[i]["is_favorite"].Bool?
           && (!Truthy(Field(items[i], "click_count")) ==> rs[i]["click_count"] == Num(0))
  {
    BulkRowsEach(userId, items);
    if BulkRows(userId, items).Some? {
      var rs := BulkRows(userId, items).value;
      forall i | 0 <= i < |rs|
        ensures rs[i].Keys == BulkKeys && "is_pinned" !in rs[i]
        ensures rs[i]["user_id"] == Str(userId) && rs[i]["is_favorite"].Bool?
        ensures !Truthy(Field(items[i], "click_count")) ==> rs[i]["click_count"] == Num(0)
      {
        BulkRowKeys(userId, items[i]);
        BulkRowValues(userId, items[i]);
      }
    }
  }

  /** The columns of the row of one non-nullish item. */
  lemma BulkRowKeys(userId: string, item: Value)
    requires !IsNullish(item)
    ensures BulkRow(userId, item).Some?
    ensures BulkRow(userId, item).value.Keys == BulkKeys
  {
  }

  /** The user, favourite and click columns of one non-nullish item's row. */
  lemma BulkRowValues(userId: string, item: Value)
    requires !IsNullish(item)
    ensures BulkRow(userId, item).Some?
    ensures var r := BulkRow(userId, item).value;
      && r["user_id"] == Str(userId)
      && r["is_favorite"].Bool?
      && (!Truthy(Field(item, "click_count")) ==> r["click_count"] == Num(0))
  {
  }

  /** The rows are the items' rows, one for one. */
  lemma {:induction false} BulkRowsEach(userId: string, items: seq<Value>)
    ensures BulkRows(userId, items).Some? <==> forall i :: 0 <= i < |items| ==> !IsNullish(items[i])
    ensures BulkRows(userId, items).Some? ==>
      var rs := BulkRows(userId, items).value;
      && |rs| == |items|
      && forall i :: 0 <= i < |rs| ==> BulkRow(userId, items[i]) == Some(rs[i])
    decreases |items|
  {
    if items != [] {
      var init := items[..|items| - 1];
      BulkRowsEach(userId, init);
      forall i | 0 <= i < |init| ensures init[i] == items[i] {
      }
      if BulkRows(userId, items).Some? {
        var rs := BulkRows(userId, items).value;
        var rs' := BulkRows(userId, init).value;
        assert rs == rs' + [BulkRow(userId, items[|items| - 1]).value];
      }
    }
  }

  /** An imported entry reaches the database as it is, plus the user. */
  lemma BulkRowOfImportEntry(userId: string, item: Value)
    ensures BulkRow(userId, Obj(ImportEntry(item))) == Some(ImportEntry(item)["user_id" := Str(userId)])
  {
    var e := ImportEntry(item);
    ImportEntrySpec(item);
    BulkRowKeys(userId, Obj(e));
    var r := BulkRow(userId, Obj(e)).value;
    var expected := e["user_id" := Str(userId)];
    assert expected.Keys == BulkKeys;
    forall k | k in r ensures r[k] == expected[k] {
      ImportEntryColumn(userId, item, k);
    }
    assert r == expected;
  }

  /** One column of the row of an imported entry. */
  lemma ImportEntryColumn(userId: string, item: Value, k: string)
    requires k in BulkKeys
    ensures BulkRow(userId, Obj(ImportEntry(item))).value[k] == ImportEntry(item)["user_id" := Str(userId)][k]
  {
    var e := ImportEntry(item);
    var r := BulkRow(userId, Obj(e)).value;
    if k != "user_id" {
      assert k in e;
      assert Field(Obj(e), k) == e[k];
      if k == "category" || k == "ai_summary" {
        assert r[k] == Or(e[k], Null);
      } else if k == "click_count" {
        assert r[k] == Or(e[k], Num(0));
      } else if k == "tags" {
        assert r[k] == Or(e[k], Null) && e[k].Arr?;
      }
    }
  }

  /** An exported bookmark imported again is written with its favourite flag
      and click count but no longer pinned: the pin column is not sent. */
  lemma ReimportLosesPin(userId: string, b: Bookmark)
    requires b.url != ""
    ensures var r := BulkRow(userId, Obj(ImportEntry(Obj(ExportRecord(b))))).value;
      && r["is_favorite"] == Bool(b.isFavorite)
      && r["click_count"] == Num(Clicks(b))
      && r["url"] == Str(b.url)
      && "is_pinned" !in r
  {
    ReimportedEntry(b);
    BulkRowOfImportEntry(userId, Obj(ExportRecord(b)));
  }

  /** `(bookmark?.click_count || 0) + 1` for the row the extension reads,
      where `None` is a `null` answer or a `null` count. */
  function NextClickCount(read: Option<int>): int {
    (if read.Some? && read.value != 0 then read.value else 0) + 1
  }

  /** The extension writes the same count as the dashboard's optimistic
      bump of the row, so the two agree on every row read back whole. */
  lemma NextClickCountAgrees(b: Bookmark)
    ensures NextClickCount(b.clickCount) == Clicks(b) + 1
    ensures NextClickCount(b.clickCount) == 1 <==> Clicks(b) == 0
  {
  }

  /** What `incrementClick` in the extension does with a configured API base
      or, without one, with the row it reads back. */
  datatype ClickPath = ViaApi | Direct(read: Option<int>)

  /** The count `incrementClick` writes itself, if any. Every failure along
      either path is caught, so the call always completes. */
  function ClickWrite(path: ClickPath): (written: Option<int>)
    ensures path.ViaApi? ==> written.None?
    ensures path.Direct? && path.read.None? ==> written == Some(1)
    ensures path.Direct? && path.read.Some? ==> written == Some(path.read.value + 1)
  {
    match path
    case ViaApi => None
    case Direct(read) => Some(NextClickCount(read))
  }
}
