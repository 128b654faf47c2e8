/** The inline editor of a listed bookmark: a draft of its title, url,
    category and tags, the tag being typed, and the save and cancel
    actions. */
module BookmarkItem {
  import opened Values
  import opened Text
  import opened Seqs
  import opened Records

  /** `raw.trim().toLowerCase().replace(/^#/, "")`: one leading "#" goes. */
  function NormalizeTag(raw: string): (tag: string)
    ensures |tag| <= |raw|
    ensures forall i :: 0 <= i < |tag| ==> !('A' <= tag[i] <= 'Z')
  {
    var t := Lower(Trim(raw));
    TrimShorter(raw);
    if StartsWith(t, "#") then t[1..] else t
  }

  lemma TrimShorter(s: string)
    ensures |Trim(s)| <= |s|
  {
  }

  /** The draft tags after `addTag` with input `raw`. */
  function AddTagTo(tags: seq<string>, raw: string): seq<string> {
    var tag := NormalizeTag(raw);
    if tag != "" && tag !in tags then tags + [tag] else tags
  }

  /** `editTags.filter((t) => t !== tag)` */
  function RemoveTagFrom(tags: seq<string>, tag: string): seq<string> {
    Filter(tags, (t: string) => t != tag)
  }

  /** `addTag` appends the normalised tag exactly when it is not empty and
      not yet a draft tag, keeping the earlier tags in order. */
  lemma AddTagSpec(tags: seq<string>, raw: string)
    ensures var tag := NormalizeTag(raw);
      && (tag != "" && tag !in tags ==> AddTagTo(tags, raw) == tags + [tag])
      && (tag == "" || tag in tags ==> AddTagTo(tags, raw) == tags)
      && (tag != "" ==> tag in AddTagTo(tags, raw))
  {
  }

  /** ... so a duplicate-free draft stays free of duplicates. */
  lemma AddTagKeepsNoDup(tags: seq<string>, tag: string)
    requires NoDup(tags) && tag !in tags
    ensures NoDup(tags + [tag])
  {
    var r := tags + [tag];
    forall i, j | 0 <= i < j < |r| ensures r[i] != r[j] {
      assert r[i] == tags[i];
      if j < |tags| {
        assert r[j] == tags[j];
      }
    }
  }

  /** The body of `addTag` before the input is cleared. */
  method NextTags(tags: seq<string>, raw: string) returns (r: seq<string>)
    ensures r == AddTagTo(tags, raw)
    ensures NoDup(tags) ==> NoDup(r)
  {
    var tag := NormalizeTag(raw);
    r := tags;
    if tag != "" && tag !in tags {
      if NoDup(tags) {
        AddTagKeepsNoDup(tags, tag);
      }
      r := tags + [tag];
    }
  }

  /** "#Design " is added as "design". */
  lemma AddTagScenario()
    ensures NormalizeTag("#Design ") == "design"
  {
    var s := "#Design ";
    assert IsSpace(s[|s| - 1]);
    assert s[..|s| - 1] == "#Design";
    assert !IsSpace('n') && !IsSpace('#');
    assert TrimEnd("#Design") == "#Design";
    assert TrimEnd(s) == "#Design";
    assert TrimStart("#Design") == "#Design";
    var l := Lower("#Design");
    assert l[0] == '#' && l[1] == 'd';
    assert l[1..] == "design";
  }

  /** `removeTag` drops every copy of the tag and keeps the others in order,
      so a duplicate-free draft stays so. */
  lemma RemoveTagSpec(tags: seq<string>, tag: string, t: string)
    ensures tag !in RemoveTagFrom(tags, tag)
    ensures t in RemoveTagFrom(tags, tag) <==> t in tags && t != tag
    ensures Subsequence(RemoveTagFrom(tags, tag), tags)
    ensures NoDup(tags) ==> NoDup(RemoveTagFrom(tags, tag))
  {
    var p := (x: string) => x != tag;
    FilterMember(tags, p, t);
    FilterMember(tags, p, tag);
    FilterIsSubsequence(tags, p);
    if NoDup(tags) {
      SubsequenceNoDup(RemoveTagFrom(tags, tag), tags);
    }
  }

  /** What `handleSave` does: nothing for a blank title or url, the
      `onEdit(id, title, url, category, tags)` call otherwise, and a thrown
      `TypeError` when the draft title is still the bookmark's `null`. */
  datatype SaveOutcome =
    | NotSaved
    | Saved(id: string, title: string, url: string, category: string, tags: seq<string>)
    | Threw

  class BookmarkEditor {
    /** The `bookmark` prop of the latest render. */
    var bookmark: Bookmark
    var editing: bool
    var editTitle: Option<string>
    var editUrl: string
    var editCategory: string
    var editTags: seq<string>
    var tagInput: string

    /** The draft holds the bookmark's values. */
    predicate IsReset()
      reads this
    {
      && editTitle == bookmark.title
      && editUrl == bookmark.url
      && editCategory == CategoryOrOther(bookmark)
      && editTags == TagList(bookmark)
      && tagInput == ""
    }

    /** The initial state: not editing, the draft from the bookmark with
        "Other" for a missing category and no tags for missing tags. */
    constructor (b: Bookmark)
      ensures bookmark == b && !editing && IsReset()
    {
      bookmark := b;
      editing := false;
      editTitle := b.title;
      editUrl := b.url;
      editCategory := CategoryOrOther(b);
      editTags := TagList(b);
      tagInput := "";
    }

    /** A later render of the same item: the list keys items by id, so a
        changed entry with that id (an edit that was saved, a realtime
        UPDATE) reaches this instance as a new prop while the draft state
        keeps its values. */
    method Rerender(b: Bookmark)
      requires b.id == bookmark.id
      modifies this
      ensures bookmark == b
      ensures editing == old(editing) && editTitle == old(editTitle) && editUrl == old(editUrl)
      ensures editCategory == old(editCategory) && editTags == old(editTags) && tagInput == old(tagInput)
    {
      bookmark := b;
    }

    /** The Edit button. */
    method StartEditing()
      modifies this
      ensures bookmark == old(bookmark)
      ensures editing
      ensures editTitle == old(editTitle) && editUrl == old(editUrl) && editCategory == old(editCategory)
      ensures editTags == old(editTags) && tagInput == old(tagInput)
    {
      editing := true;
    }

    /** The inputs' `onChange` handlers. */
    method TypeTitle(s: string)
      modifies this
      ensures bookmark == old(bookmark)
      ensures editTitle == Some(s)
      ensures editing == old(editing) && editUrl == old(editUrl) && editCategory == old(editCategory)
      ensures editTags == old(editTags) && tagInput == old(tagInput)
    {
      editTitle := Some(s);
    }

    method TypeUrl(s: string)
      modifies this
      ensures bookmark == old(bookmark)
      ensures editUrl == s
      ensures editing == old(editing) && editTitle == old(editTitle) && editCategory == old(editCategory)
      ensures editTags == old(editTags) && tagInput == old(tagInput)
    {
      editUrl := s;
    }

    method ChooseCategory(c: string)
      modifies this
      ensures bookmark == old(bookmark)
      ensures editCategory == c
      ensures editing == old(editing) && editTitle == old(editTitle) && editUrl == old(editUrl)
      ensures editTags == old(editTags) && tagInput == old(tagInput)
    {
      editCategory := c;
    }

    method TypeTag(s: string)
      modifies this
      ensures bookmark == old(bookmark)
      ensures tagInput == s
      ensures editing == old(editing) && editTitle == old(editTitle) && editUrl == old(editUrl)
      ensures editCategory == old(editCategory) && editTags == old(editTags)
    {
      tagInput := s;
    }

    /** `addTag`, on Enter in the tag input: the input is always cleared. */
    method AddTag()
      modifies this
      ensures bookmark == old(bookmark)
      ensures editTags == AddTagTo(old(editTags), old(tagInput))
      ensures NoDup(old(editTags)) ==> NoDup(editTags)
      ensures tagInput == ""
      ensures editing == old(editing) && editTitle == old(editTitle) && editUrl == old(editUrl)
      ensures editCategory == old(editCategory)
    {
      var tags, raw := editTags, tagInput;
      var r := NextTags(tags, raw);
      editTags, tagInput := r, "";
    }

    /** `removeTag(tag)`, from a tag's remove button. */
    method RemoveTag(tag: string)
      modifies this
      ensures bookmark == old(bookmark)
      ensures editTags == RemoveTagFrom(old(editTags), tag)
      ensures NoDup(old(editTags)) ==> NoDup(editTags)
      ensures editing == old(editing) && editTitle == old(editTitle) && editUrl == old(editUrl)
      ensures editCategory == old(editCategory) && tagInput == old(tagInput)
    {
      if editTags != [] {
        RemoveTagSpec(editTags, tag, editTags[0]);
      } else {
        assert NoDup(RemoveTagFrom(editTags, tag));
      }
      editTags := RemoveTagFrom(editTags, tag);
    }

    /** `handleSave` */
    method HandleSave() returns (outcome: SaveOutcome)
      modifies this
      ensures bookmark == old(bookmark)
      ensures old(editTitle).None? ==> outcome == Threw && editing == old(editing)
      ensures old(editTitle).Some? && (Trim(old(editTitle).value) == "" || Trim(old(editUrl)) == "") ==>
        outcome == NotSaved && editing == old(editing)
      ensures outcome.Saved? <==>
        old(editTitle).Some? && Trim(old(editTitle).value) != "" && Trim(old(editUrl)) != ""
      ensures outcome.Saved? ==>
        && outcome == Saved(bookmark.id, Trim(old(editTitle).value), Trim(old(editUrl)), old(editCategory), old(editTags))
        && !editing
      ensures editTitle == old(editTitle) && editUrl == old(editUrl) && editCategory == old(editCategory)
      ensures editTags == old(editTags) && tagInput == old(tagInput)
    {
      if editTitle.None? {
        return Threw;
      }
      if Trim(editTitle.value) == "" || Trim(editUrl) == "" {
        return NotSaved;
      }
      outcome := Saved(bookmark.id, Trim(editTitle.value), Trim(editUrl), editCategory, editTags);
      editing := false;
    }

    /** `handleCancel`: the draft goes back to the values of the current
        `bookmark` prop. */
    method HandleCancel()
      modifies this
      ensures bookmark == old(bookmark)
      ensures IsReset() && !editing
    {
      editTitle := bookmark.title;
      editUrl := bookmark.url;
      editCategory := CategoryOrOther(bookmark);
      editTags := TagList(bookmark);
      tagInput := "";
      editing := false;
    }
  }

  /** A cancel restores the latest prop, not the first one: save title `t`
      over the bookmark's own, let the list render the saved entry, then type
      `c` and cancel; the draft title is the saved `t`, trimmed, whatever the
      bookmark's first title was. */
  method CancelAfterSave(b: Bookmark, t: string, c: string) returns (title: Option<string>)
    requires Trim(t) != "" && Trim(b.url) != ""
    ensures title == Some(Trim(t))
  {
    var e := new BookmarkEditor(b);
    e.StartEditing();
    e.TypeTitle(t);
    var outcome := e.HandleSave();
    assert outcome.Saved?;
    e.Rerender(b.(title := Some(outcome.title), url := outcome.url,
                  category := Some(outcome.category), tags := Some(outcome.tags)));
    e.StartEditing();
    e.TypeTitle(c);
    e.HandleCancel();
    title := e.editTitle;
  }
}
