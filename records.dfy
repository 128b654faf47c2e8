/** A bookmark row as the client holds it: the columns of the `bookmarks`
    table, with the nullable ones as options. The accessors are the
    `b.x || default` reads the views and the export perform. */
module Records {
  import opened Values

  datatype Bookmark = Bookmark(
    id: string,
    userId: string,
    title: Option<string>,
    url: string,
    category: Option<string>,
    tags: Option<seq<string>>,
    aiSummary: Option<string>,
    isFavorite: bool,
    isPinned: bool,
    clickCount: Option<int>,
    createdAt: int)

  /** `s || d` for a nullable string: `null` and `""` both give `d`. */
  function OrElse(s: Option<string>, d: string): (r: string)
    ensures s.Some? && s.value != "" ==> r == s.value
    ensures s.None? || s.value == "" ==> r == d
  {
    if s.Some? && s.value != "" then s.value else d
  }

  /** `b.title || ""` */
  function TitleText(b: Bookmark): string {
    OrElse(b.title, "")
  }

  /** `b.category || "Other"` */
  function CategoryOrOther(b: Bookmark): string {
    OrElse(b.category, "Other")
  }

  /** `b.tags || []` */
  function TagList(b: Bookmark): seq<string> {
    if b.tags.Some? then b.tags.value else []
  }

  /** `b.click_count || 0` */
  function Clicks(b: Bookmark): int {
    if b.clickCount.Some? then b.clickCount.value else 0
  }

  /** The ids of a list of bookmarks, in order. */
  function Ids(bs: seq<Bookmark>): (r: seq<string>)
    ensures |r| == |bs|
    ensures forall i :: 0 <= i < |bs| ==> r[i] == bs[i].id
  {
    seq(|bs|, i requires 0 <= i < |bs| => bs[i].id)
  }

  /** `bs.some((b) => b.id === id)` */
  predicate HasId(bs: seq<Bookmark>, id: string) {
    exists i :: 0 <= i < |bs| && bs[i].id == id
  }

  /** No two entries share an id. */
  predicate UniqueIds(bs: seq<Bookmark>) {
    forall i, j :: 0 <= i < j < |bs| ==> bs[i].id != bs[j].id
  }
}
