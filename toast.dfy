/** The toast queue: `addToast` appends, `removeToast` removes by id, and
    each toast item is shown, marked exiting when its duration runs out or
    it is dismissed, and removed 300 ms later. The timers are steps taken by
    the environment; a counter stands in for the generated ids. */
module Toasts {
  import opened Values
  import opened Seqs

  const DefaultType := "success"
  const DefaultDuration := 4000
  const ExitDelay := 300

  /** A toast with the item's two animation flags. `action` is the label of
      its action button, if it has one. */
  datatype Toast = Toast(id: nat, message: string, kind: string, duration: nat,
                         action: Option<string>, visible: bool, exiting: bool)

  /** `prev.filter((t) => t.id !== id)` */
  function RemoveById(ts: seq<Toast>, id: nat): seq<Toast> {
    Filter(ts, OtherToast(id))
  }

  /** `(t) => t.id !== id` */
  function OtherToast(id: nat): Toast -> bool {
    (t: Toast) => t.id != id
  }

  /** The toasts' ids, in order. */
  function ToastIds(ts: seq<Toast>): (r: seq<nat>)
    ensures |r| == |ts|
    ensures forall i :: 0 <= i < |ts| ==> r[i] == ts[i].id
  {
    seq(|ts|, i requires 0 <= i < |ts| => ts[i].id)
  }

  /** One item's flags updated, the list otherwise as it was. */
  function SetFlags(ts: seq<Toast>, id: nat, f: Toast -> Toast): (r: seq<Toast>)
    ensures |r| == |ts|
    ensures forall i :: 0 <= i < |ts| ==> r[i] == if ts[i].id == id then f(ts[i]) else ts[i]
  {
    seq(|ts|, i requires 0 <= i < |ts| => if ts[i].id == id then f(ts[i]) else ts[i])
  }

  /** The item of that id shows. */
  function MarkVisible(ts: seq<Toast>, id: nat): seq<Toast> {
    SetFlags(ts, id, (t: Toast) => t.(visible := true))
  }

  /** The item of that id starts its exit. */
  function MarkExiting(ts: seq<Toast>, id: nat): seq<Toast> {
    SetFlags(ts, id, (t: Toast) => t.(exiting := true))
  }

  /** No two toasts share an id and every id was issued before `next`. */
  predicate IdsBelow(ts: seq<Toast>, next: nat) {
    && (forall i, j :: 0 <= i < j < |ts| ==> ts[i].id != ts[j].id)
    && (forall i :: 0 <= i < |ts| ==> ts[i].id < next)
  }

  /** Removal drops exactly the toast with that id, keeps the others in
      their order, and does nothing for an id that is not listed. */
  lemma RemoveByIdSpec(ts: seq<Toast>, id: nat, t: Toast)
    ensures t in RemoveById(ts, id) <==> t in ts && t.id != id
    ensures Subsequence(RemoveById(ts, id), ts)
    ensures (forall i :: 0 <= i < |ts| ==> ts[i].id != id) ==> RemoveById(ts, id) == ts
  {
    var p := OtherToast(id);
    FilterMember(ts, p, t);
    FilterIsSubsequence(ts, p);
    if forall i :: 0 <= i < |ts| ==> ts[i].id != id {
      FilterAllKept(ts, p);
    }
  }

  /** With unique ids, removing one toast removes exactly one entry. */
  lemma RemoveOneToast(ts: seq<Toast>, k: int)
    requires 0 <= k < |ts|
    requires forall i, j :: 0 <= i < j < |ts| ==> ts[i].id != ts[j].id
    ensures RemoveById(ts, ts[k].id) == ts[..k] + ts[k + 1..]
  {
    var x := ts[k];
    var p := OtherToast(x.id);
    var before, after := ts[..k], ts[k + 1..];
    forall i | 0 <= i < |before| ensures p(before[i]) {
      assert before[i] == ts[i];
    }
    forall i | 0 <= i < |after| ensures p(after[i]) {
      assert after[i] == ts[k + 1 + i];
    }
    assert ts == before + [x] + after;
    FilterDropsOne(before, x, after, p);
  }

  /** A second removal of the same id changes nothing. */
  lemma RemoveTwice(ts: seq<Toast>, id: nat)
    ensures RemoveById(RemoveById(ts, id), id) == RemoveById(ts, id)
  {
    var r := RemoveById(ts, id);
    forall i | 0 <= i < |r| ensures r[i].id != id {
      assert r[i] in r;
      RemoveByIdSpec(ts, id, r[i]);
    }
    FilterAllKept(r, OtherToast(id));
  }

  /** Unique ids below the counter survive removal. */
  lemma RemoveKeepsIds(ts: seq<Toast>, id: nat, next: nat)
    requires IdsBelow(ts, next)
    ensures IdsBelow(RemoveById(ts, id), next)
  {
    var r := RemoveById(ts, id);
    FilterIsSubsequence(ts, OtherToast(id));
    SubsequenceIdsBelow(r, ts, next);
  }

  lemma {:induction false} SubsequenceIdsBelow(a: seq<Toast>, b: seq<Toast>, next: nat)
    requires Subsequence(a, b) && IdsBelow(b, next)
    ensures IdsBelow(a, next)
    decreases |b|
  {
    if a != [] && b != [] {
      var b' := b[..|b| - 1];
      assert IdsBelow(b', next) by {
        forall i, j | 0 <= i < j < |b'| ensures b'[i].id != b'[j].id {
          assert b'[i] == b[i] && b'[j] == b[j];
        }
        forall i | 0 <= i < |b'| ensures b'[i].id < next {
          assert b'[i] == b[i];
        }
      }
      if a[|a| - 1] == b[|b| - 1] {
        var a' := a[..|a| - 1];
        SubsequenceIdsBelow(a', b', next);
        SubsequenceMembers(a', b');
        forall i | 0 <= i < |a'| ensures a'[i].id != a[|a| - 1].id {
          assert a'[i] in a';
          var k :| 0 <= k < |b'| && b'[k] == a'[i];
          assert b[k] == a'[i];
        }
        forall i, j | 0 <= i < j < |a| ensures a[i].id != a[j].id {
          if j < |a| - 1 {
            assert a[i] == a'[i] && a[j] == a'[j];
          } else {
            assert a[i] == a'[i];
          }
        }
        forall i | 0 <= i < |a| ensures a[i].id < next {
          if i < |a| - 1 {
            assert a[i] == a'[i];
          }
        }
      } else {
        SubsequenceIdsBelow(a, b', next);
      }
    }
  }

  /** Changing flags keeps the ids. */
  lemma SetFlagsKeepsIds(ts: seq<Toast>, id: nat, f: Toast -> Toast, next: nat)
    requires forall t: Toast :: f(t).id == t.id
    ensures ToastIds(SetFlags(ts, id, f)) == ToastIds(ts)
    ensures IdsBelow(ts, next) ==> IdsBelow(SetFlags(ts, id, f), next)
  {
  }

  class ToastQueue {
    /** The `toasts` state. */
    var toasts: seq<Toast>
    /** The next id the counter hands out. */
    var nextId: nat
    /** The ids of the removals scheduled 300 ms after an exit began. */
    var pendingRemovals: seq<nat>
    /** The ids of the toasts whose action callback has run, in order. */
    var actionsRun: seq<nat>

    predicate Valid()
      reads this
    {
      IdsBelow(toasts, nextId)
    }

    constructor ()
      ensures Valid()
      ensures toasts == [] && pendingRemovals == [] && actionsRun == []
    {
      toasts := [];
      nextId := 0;
      pendingRemovals := [];
      actionsRun := [];
    }

    /** `addToast(message, { type, duration, action })`: one toast at the
        end, with the defaults for a missing type or duration. */
    method AddToast(message: string, kind: Option<string>, duration: Option<nat>, action: Option<string>)
      returns (id: nat)
      requires Valid()
      modifies this
      ensures Valid()
      ensures toasts == old(toasts) + [Toast(id, message, kind.GetOr(DefaultType), duration.GetOr(DefaultDuration), action, false, false)]
      ensures forall i :: 0 <= i < |old(toasts)| ==> old(toasts)[i].id != id
      ensures pendingRemovals == old(pendingRemovals) && actionsRun == old(actionsRun)
    {
      id := nextId;
      toasts := toasts + [Toast(id, message, kind.GetOr(DefaultType), duration.GetOr(DefaultDuration), action, false, false)];
      nextId := nextId + 1;
    }

    /** `removeToast(id)` */
    method RemoveToast(id: nat)
      requires Valid()
      modifies this
      ensures Valid()
      ensures toasts == RemoveById(old(toasts), id)
      ensures nextId == old(nextId) && pendingRemovals == old(pendingRemovals) && actionsRun == old(actionsRun)
    {
      RemoveKeepsIds(toasts, id, nextId);
      toasts := RemoveById(toasts, id);
    }

    /** The animation frame after mounting: the item shows. */
    method Show(id: nat)
      requires Valid()
      modifies this
      ensures Valid()
      ensures toasts == MarkVisible(old(toasts), id)
      ensures nextId == old(nextId) && pendingRemovals == old(pendingRemovals) && actionsRun == old(actionsRun)
    {
      SetFlagsKeepsIds(toasts, id, (t: Toast) => t.(visible := true), nextId);
      toasts := MarkVisible(toasts, id);
    }

    /** `handleDismiss`, and the end of a toast's duration, which does the
        same: the item starts its exit and its removal is scheduled. */
    method Dismiss(id: nat)
      requires Valid()
      modifies this
      ensures Valid()
      ensures toasts == MarkExiting(old(toasts), id)
      ensures pendingRemovals == old(pendingRemovals) + [id]
      ensures nextId == old(nextId) && actionsRun == old(actionsRun)
    {
      SetFlagsKeepsIds(toasts, id, (t: Toast) => t.(exiting := true), nextId);
      toasts := MarkExiting(toasts, id);
      pendingRemovals := pendingRemovals + [id];
    }

    /** `handleAction` on the item of toast `k`: its callback runs, if it
        has an action, and then the toast is dismissed. */
    method HandleAction(k: nat)
      requires Valid()
      requires k < |toasts|
      modifies this
      ensures Valid()
      ensures actionsRun == old(actionsRun) + (if old(toasts)[k].action.Some? then [old(toasts)[k].id] else [])
      ensures toasts == MarkExiting(old(toasts), old(toasts)[k].id)
      ensures pendingRemovals == old(pendingRemovals) + [old(toasts)[k].id]
      ensures nextId == old(nextId)
    {
      var t := toasts[k];
      if t.action.Some? {
        actionsRun := actionsRun + [t.id];
      }
      Dismiss(t.id);
    }

    /** The 300 ms timer of scheduled removal `k` runs out. */
    method FireRemoval(k: nat)
      requires Valid()
      requires k < |pendingRemovals|
      modifies this
      ensures Valid()
      ensures toasts == RemoveById(old(toasts), old(pendingRemovals)[k])
      ensures pendingRemovals == old(pendingRemovals)[..k] + old(pendingRemovals)[k + 1..]
      ensures nextId == old(nextId) && actionsRun == old(actionsRun)
    {
      var id := pendingRemovals[k];
      pendingRemovals := pendingRemovals[..k] + pendingRemovals[k + 1..];
      RemoveToast(id);
    }
  }
}
