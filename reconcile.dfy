/** The list updates the dashboard and the options page apply to their
    bookmark list, each keyed by id: the realtime INSERT / UPDATE / DELETE
    handlers, the favourite flag, the edit, the click count. */
module Reconcile {
  import opened Values
  import opened Seqs
  import opened Records

  /** `prev.map((b) => (b.id === id ? f(b) : b))` */
  function MapById(bs: seq<Bookmark>, id: string, f: Bookmark -> Bookmark): (r: seq<Bookmark>)
    ensures |r| == |bs|
    ensures forall i :: 0 <= i < |bs| ==> r[i] == if bs[i].id == id then f(bs[i]) else bs[i]
  {
    seq(|bs|, i requires 0 <= i < |bs| => if bs[i].id == id then f(bs[i]) else bs[i])
  }

  /** A realtime INSERT: prepend the new row unless its id is already listed. */
  function ApplyInsert(bs: seq<Bookmark>, b: Bookmark): seq<Bookmark> {
    if HasId(bs, b.id) then bs else [b] + bs
  }

  /** A realtime DELETE, and the optimistic removal of a deleted bookmark. */
  function ApplyDelete(bs: seq<Bookmark>, id: string): seq<Bookmark> {
    Filter(bs, OtherId(id))
  }

  /** `(b) => b.id !== id` */
  function OtherId(id: string): Bookmark -> bool {
    (b: Bookmark) => b.id != id
  }

  /** A realtime UPDATE: the entry with the row's id is replaced by the row. */
  function ApplyUpdate(bs: seq<Bookmark>, b: Bookmark): seq<Bookmark> {
    MapById(bs, b.id, _ => b)
  }

  /** A realtime `postgres_changes` payload: its `eventType` with the row
      (`payload.new`) or the id of the removed row (`payload.old.id`). Any
      other event type is `Ignored`. */
  datatype Change = Inserted(row: Bookmark) | Deleted(id: string) | Updated(row: Bookmark) | Ignored

  /** The state updater the realtime handler installs for one payload. */
  function ApplyChange(bs: seq<Bookmark>, c: Change): seq<Bookmark> {
    match c
    case Inserted(row) => ApplyInsert(bs, row)
    case Deleted(id) => ApplyDelete(bs, id)
    case Updated(row) => ApplyUpdate(bs, row)
    case Ignored => bs
  }

  /** `{ ...b, is_favorite: v }` on the entry with that id. */
  function SetFavourite(bs: seq<Bookmark>, id: string, v: bool): seq<Bookmark> {
    MapById(bs, id, (b: Bookmark) => b.(isFavorite := v))
  }

  /** `{ ...b, title, url, category, tags }` on the entry with that id. */
  function ApplyEdit(bs: seq<Bookmark>, id: string, title: string, url: string,
                     category: string, tags: seq<string>): seq<Bookmark> {
    MapById(bs, id, (b: Bookmark) => b.(title := Some(title), url := url, category := Some(category), tags := Some(tags)))
  }

  /** `{ ...b, click_count: (b.click_count || 0) + 1 }` on the entry with that id. */
  function IncrementClick(bs: seq<Bookmark>, id: string): seq<Bookmark> {
    MapById(bs, id, (b: Bookmark) => b.(clickCount := Some(Clicks(b) + 1)))
  }

  /** `i` is the first index of an entry with that id. */
  predicate FirstWithId(bs: seq<Bookmark>, id: string, i: int) {
    0 <= i < |bs| && bs[i].id == id && forall j :: 0 <= j < i ==> bs[j].id != id
  }

  /** `i` is the last index of an entry with that id. */
  predicate LastWithId(bs: seq<Bookmark>, id: string, i: int) {
    0 <= i < |bs| && bs[i].id == id && forall j :: i < j < |bs| ==> bs[j].id != id
  }

  /** `prev.find((b) => b.id === id)`: the first entry with that id. */
  function FindById(bs: seq<Bookmark>, id: string): (r: Option<Bookmark>)
    ensures r.Some? <==> HasId(bs, id)
    ensures r.Some? ==> r.value in bs && r.value.id == id
    ensures r.Some? ==> exists i :: FirstWithId(bs, id, i) && bs[i] == r.value
    decreases |bs|
  {
    if bs == [] then None
    else if bs[0].id == id then
      assert FirstWithId(bs, id, 0);
      Some(bs[0])
    else
      var r := FindById(bs[1..], id);
      assert r.Some? ==> r.value in bs;
      assert r.Some? ==> exists i :: FirstWithId(bs, id, i) && bs[i] == r.value by {
        if r.Some? {
          var i :| FirstWithId(bs[1..], id, i) && bs[1..][i] == r.value;
          assert FirstWithId(bs, id, i + 1) by {
            forall j | 0 <= j < i + 1 ensures bs[j].id != id {
              if j > 0 {
                assert bs[j] == bs[1..][j - 1];
              }
            }
          }
        }
      }
      assert HasId(bs[1..], id) ==> HasId(bs, id) by {
        if HasId(bs[1..], id) {
          var i :| 0 <= i < |bs[1..]| && bs[1..][i].id == id;
          assert bs[i + 1].id == id;
        }
      }
      assert HasId(bs, id) ==> HasId(bs[1..], id) by {
        if HasId(bs, id) {
          var i :| 0 <= i < |bs| && bs[i].id == id;
          assert bs[1..][i - 1].id == id;
        }
      }
      r
  }

  /** The entry the edit's `old = b` holds after `map` has run: the last
      entry with that id. */
  function LastById(bs: seq<Bookmark>, id: string): (r: Option<Bookmark>)
    ensures r.Some? <==> HasId(bs, id)
    ensures r.Some? ==> r.value in bs && r.value.id == id
    ensures r.Some? ==> exists i :: LastWithId(bs, id, i) && bs[i] == r.value
    decreases |bs|
  {
    if bs == [] then None
    else if bs[|bs| - 1].id == id then
      assert LastWithId(bs, id, |bs| - 1);
      Some(bs[|bs| - 1])
    else
      var r := LastById(bs[..|bs| - 1], id);
      LastByIdStep(bs, id, r);
      r
  }

  /** The step of `LastById` past a last entry with another id. */
  lemma LastByIdStep(bs: seq<Bookmark>, id: string, r: Option<Bookmark>)
    requires bs != [] && bs[|bs| - 1].id != id
    requires var init := bs[..|bs| - 1];
      && (r.Some? <==> HasId(init, id))
      && (r.Some? ==> r.value in init && exists i :: LastWithId(init, id, i) && init[i] == r.value)
    ensures r.Some? <==> HasId(bs, id)
    ensures r.Some? ==> r.value in bs && exists i :: LastWithId(bs, id, i) && bs[i] == r.value
  {
    var init := bs[..|bs| - 1];
    assert bs == init + [bs[|bs| - 1]];
    if r.Some? {
      var i :| LastWithId(init, id, i) && init[i] == r.value;
      assert bs[i] == init[i];
      assert LastWithId(bs, id, i) by {
        forall j | i < j < |bs| ensures bs[j].id != id {
          if j < |bs| - 1 {
            assert bs[j] == init[j];
          }
        }
      }
    }
    assert HasId(init, id) ==> HasId(bs, id) by {
      if HasId(init, id) {
        var i :| 0 <= i < |init| && init[i].id == id;
        assert bs[i].id == id;
      }
    }
    assert HasId(bs, id) ==> HasId(init, id) by {
      if HasId(bs, id) {
        var i :| 0 <= i < |bs| && bs[i].id == id;
        assert init[i].id == id;
      }
    }
  }

  // ---------------------------------------------------------------------
  // Properties

  /** An INSERT of a listed id changes nothing; otherwise the row goes first. */
  lemma ApplyInsertSpec(bs: seq<Bookmark>, b: Bookmark)
    ensures HasId(bs, b.id) ==> ApplyInsert(bs, b) == bs
    ensures !HasId(bs, b.id) ==> ApplyInsert(bs, b) == [b] + bs && |ApplyInsert(bs, b)| == |bs| + 1
    ensures UniqueIds(bs) ==> UniqueIds(ApplyInsert(bs, b))
    ensures HasId(ApplyInsert(bs, b), b.id)
  {
    var r := ApplyInsert(bs, b);
    if !HasId(bs, b.id) {
      assert r[0].id == b.id;
      if UniqueIds(bs) {
        forall i, j | 0 <= i < j < |r| ensures r[i].id != r[j].id {
          assert r[j] == bs[j - 1];
          if i > 0 {
            assert r[i] == bs[i - 1];
          }
        }
      }
    }
  }

  /** Applying the same INSERT twice is applying it once. */
  lemma ApplyInsertIdempotent(bs: seq<Bookmark>, b: Bookmark)
    ensures ApplyInsert(ApplyInsert(bs, b), b) == ApplyInsert(bs, b)
  {
    ApplyInsertSpec(bs, b);
  }

  /** A DELETE removes every entry with the id and keeps the others in order. */
  lemma ApplyDeleteSpec(bs: seq<Bookmark>, id: string, b: Bookmark)
    ensures !HasId(ApplyDelete(bs, id), id)
    ensures b in ApplyDelete(bs, id) <==> b in bs && b.id != id
    ensures Subsequence(ApplyDelete(bs, id), bs)
    ensures !HasId(bs, id) ==> ApplyDelete(bs, id) == bs
    ensures UniqueIds(bs) ==> UniqueIds(ApplyDelete(bs, id))
  {
    var p := OtherId(id);
    var r := ApplyDelete(bs, id);
    FilterMember(bs, p, b);
    FilterIsSubsequence(bs, p);
    if HasId(r, id) {
      var i :| 0 <= i < |r| && r[i].id == id;
      FilterMember(bs, p, r[i]);
    }
    if !HasId(bs, id) {
      FilterAllKept(bs, p);
    }
    if UniqueIds(bs) {
      SubsequenceUnique(r, bs);
    }
  }

  /** An order-preserving subsequence of a list with unique ids has unique ids. */
  lemma {:induction false} SubsequenceUnique(a: seq<Bookmark>, b: seq<Bookmark>)
    requires Subsequence(a, b) && UniqueIds(b)
    ensures UniqueIds(a)
    decreases |b|
  {
    if a != [] && b != [] {
      var b' := b[..|b| - 1];
      assert UniqueIds(b') by {
        forall i, j | 0 <= i < j < |b'| ensures b'[i].id != b'[j].id {
          assert b'[i] == b[i] && b'[j] == b[j];
        }
      }
      if a[|a| - 1] == b[|b| - 1] {
        var a' := a[..|a| - 1];
        SubsequenceUnique(a', b');
        SubsequenceMembers(a', b');
        forall i | 0 <= i < |a'| ensures a'[i].id != a[|a| - 1].id {
          assert a'[i] in a';
          var k :| 0 <= k < |b'| && b'[k] == a'[i];
          assert b[k] == a'[i];
        }
        forall i, j | 0 <= i < j < |a| ensures a[i].id != a[j].id {
          if j < |a| - 1 {
            assert a[i] == a'[i] && a[j] == a'[j];
          } else {
            assert a[i] == a'[i];
          }
        }
      } else {
        SubsequenceUnique(a, b');
      }
    }
  }

  /** Every map by id keeps the list's length, order and ids when the new
      entry keeps the id, so unique ids stay unique. */
  lemma MapByIdKeepsIds(bs: seq<Bookmark>, id: string, f: Bookmark -> Bookmark)
    requires forall b: Bookmark :: b.id == id ==> f(b).id == id
    ensures Ids(MapById(bs, id, f)) == Ids(bs)
    ensures UniqueIds(bs) ==> UniqueIds(MapById(bs, id, f))
    ensures forall i :: 0 <= i < |bs| && bs[i].id != id ==> MapById(bs, id, f)[i] == bs[i]
  {
    var r := MapById(bs, id, f);
    forall i | 0 <= i < |bs| ensures r[i].id == bs[i].id {
    }
  }

  /** A map by an id nobody has changes nothing. */
  lemma MapByAbsentId(bs: seq<Bookmark>, id: string, f: Bookmark -> Bookmark)
    requires !HasId(bs, id)
    ensures MapById(bs, id, f) == bs
  {
  }

  /** An UPDATE replaces exactly the entries with the row's id by the row,
      keeping length, order and ids; an UPDATE for an absent id is a no-op. */
  lemma ApplyUpdateSpec(bs: seq<Bookmark>, b: Bookmark)
    ensures |ApplyUpdate(bs, b)| == |bs| && Ids(ApplyUpdate(bs, b)) == Ids(bs)
    ensures forall i :: 0 <= i < |bs| ==> ApplyUpdate(bs, b)[i] == if bs[i].id == b.id then b else bs[i]
    ensures !HasId(bs, b.id) ==> ApplyUpdate(bs, b) == bs
    ensures UniqueIds(bs) ==> UniqueIds(ApplyUpdate(bs, b))
  {
    MapByIdKeepsIds(bs, b.id, _ => b);
  }

  /** The favourite write touches only `is_favorite` of that id's entries. */
  lemma SetFavouriteSpec(bs: seq<Bookmark>, id: string, v: bool)
    ensures Ids(SetFavourite(bs, id, v)) == Ids(bs)
    ensures forall i :: 0 <= i < |bs| ==>
      SetFavourite(bs, id, v)[i] == if bs[i].id == id then bs[i].(isFavorite := v) else bs[i]
    ensures UniqueIds(bs) ==> UniqueIds(SetFavourite(bs, id, v))
  {
    MapByIdKeepsIds(bs, id, (b: Bookmark) => b.(isFavorite := v));
  }

  /** The optimistic flip followed by the rollback restores the list when the
      caller's current value was the entry's flag. */
  lemma ToggleRollbackRestores(bs: seq<Bookmark>, id: string, current: bool)
    requires forall i :: 0 <= i < |bs| && bs[i].id == id ==> bs[i].isFavorite == current
    ensures SetFavourite(SetFavourite(bs, id, !current), id, current) == bs
  {
    var r := SetFavourite(SetFavourite(bs, id, !current), id, current);
    forall i | 0 <= i < |bs| ensures r[i] == bs[i] {
    }
  }

  /** The edit writes exactly the four fields of that id's entries. */
  lemma ApplyEditSpec(bs: seq<Bookmark>, id: string, title: string, url: string,
                      category: string, tags: seq<string>)
    ensures Ids(ApplyEdit(bs, id, title, url, category, tags)) == Ids(bs)
    ensures forall i :: 0 <= i < |bs| ==>
      (ApplyEdit(bs, id, title, url, category, tags)[i] ==
         if bs[i].id == id
         then bs[i].(title := Some(title), url := url, category := Some(category), tags := Some(tags))
         else bs[i])
    ensures UniqueIds(bs) ==> UniqueIds(ApplyEdit(bs, id, title, url, category, tags))
  {
    MapByIdKeepsIds(bs, id, (b: Bookmark) => b.(title := Some(title), url := url, category := Some(category), tags := Some(tags)));
  }

  /** Writing the saved entry back over the edited one restores the list:
      every field, not only the four the edit changed. */
  lemma EditRestoreRestores(bs: seq<Bookmark>, id: string, title: string, url: string,
                            category: string, tags: seq<string>)
    requires UniqueIds(bs) && HasId(bs, id)
    ensures var prior := LastById(bs, id).value;
      MapById(ApplyEdit(bs, id, title, url, category, tags), id, _ => prior) == bs
  {
    var prior := LastById(bs, id).value;
    var e := ApplyEdit(bs, id, title, url, category, tags);
    var r := MapById(e, id, _ => prior);
    forall i | 0 <= i < |bs| ensures r[i] == bs[i] {
      if bs[i].id == id {
        var k :| 0 <= k < |bs| && bs[k] == prior;
        assert k == i;
      }
    }
  }

  /** The click increment raises the count of that id's entries by exactly
      one, a missing count counting as 0, and changes nothing else. */
  lemma IncrementClickSpec(bs: seq<Bookmark>, id: string)
    ensures Ids(IncrementClick(bs, id)) == Ids(bs)
    ensures forall i :: 0 <= i < |bs| && bs[i].id == id ==>
      && Clicks(IncrementClick(bs, id)[i]) == Clicks(bs[i]) + 1
      && IncrementClick(bs, id)[i] == bs[i].(clickCount := Some(Clicks(bs[i]) + 1))
    ensures forall i :: 0 <= i < |bs| && bs[i].id != id ==> IncrementClick(bs, id)[i] == bs[i]
    ensures UniqueIds(bs) ==> UniqueIds(IncrementClick(bs, id))
  {
    MapByIdKeepsIds(bs, id, (b: Bookmark) => b.(clickCount := Some(Clicks(b) + 1)));
  }

  /** Every realtime payload keeps the ids of the list unique. */
  lemma ApplyChangeKeepsUnique(bs: seq<Bookmark>, c: Change)
    requires UniqueIds(bs)
    ensures UniqueIds(ApplyChange(bs, c))
    ensures c.Ignored? ==> ApplyChange(bs, c) == bs
  {
    match c
    case Inserted(row) => ApplyInsertSpec(bs, row);
    case Deleted(id) => if bs != [] { ApplyDeleteSpec(bs, id, bs[0]); }
    case Updated(row) => ApplyUpdateSpec(bs, row);
    case Ignored =>
  }

  /** Putting the removed entry back at the head gives a permutation of the
      list before the delete, when ids were unique. */
  lemma UndoRestoresContents(bs: seq<Bookmark>, id: string)
    requires UniqueIds(bs) && HasId(bs, id)
    ensures var d := FindById(bs, id).value;
      multiset([d] + ApplyDelete(bs, id)) == multiset(bs)
  {
    var d := FindById(bs, id).value;
    FilterRejectPermutes(bs, OtherId(id));
    var k :| 0 <= k < |bs| && bs[k] == d;
    OnlyOneWithId(bs, id, k);
  }

  /** ... and the restored list still has unique ids. */
  lemma UndoKeepsUnique(bs: seq<Bookmark>, id: string)
    requires UniqueIds(bs) && HasId(bs, id)
    ensures UniqueIds([FindById(bs, id).value] + ApplyDelete(bs, id))
  {
    var d := FindById(bs, id).value;
    ApplyDeleteSpec(bs, id, d);
    PrependUnique(d, ApplyDelete(bs, id));
  }

  /** An entry whose id the list lacks can go at its head. */
  lemma PrependUnique(d: Bookmark, r: seq<Bookmark>)
    requires UniqueIds(r) && !HasId(r, d.id)
    ensures UniqueIds([d] + r)
  {
    var u := [d] + r;
    forall i, j | 0 <= i < j < |u| ensures u[i].id != u[j].id {
      assert u[j] == r[j - 1];
      if i > 0 {
        assert u[i] == r[i - 1];
      }
    }
  }

  /** With unique ids, the entries with the id are exactly the one at `k`. */
  lemma OnlyOneWithId(bs: seq<Bookmark>, id: string, k: int)
    requires UniqueIds(bs) && 0 <= k < |bs| && bs[k].id == id
    ensures Reject(bs, OtherId(id)) == [bs[k]]
  {
    var p := OtherId(id);
    RejectIsFilter(bs, p);
    RejectSingle(bs, p, k);
  }

  lemma {:induction false} RejectSingle(bs: seq<Bookmark>, p: Bookmark -> bool, k: int)
    requires 0 <= k < |bs| && !p(bs[k])
    requires forall i :: 0 <= i < |bs| && i != k ==> p(bs[i])
    ensures Reject(bs, p) == [bs[k]]
    decreases |bs|
  {
    var init := bs[..|bs| - 1];
    if k == |bs| - 1 {
      RejectNone(init, p);
    } else {
      RejectSingle(init, p, k);
    }
  }

  lemma {:induction false} RejectNone(bs: seq<Bookmark>, p: Bookmark -> bool)
    requires forall i :: 0 <= i < |bs| ==> p(bs[i])
    ensures Reject(bs, p) == []
    decreases |bs|
  {
    if bs != [] {
      RejectNone(bs[..|bs| - 1], p);
    }
  }
}
