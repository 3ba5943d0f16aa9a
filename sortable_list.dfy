/**
 * The checklist component of src/feature/sorted_lists/components/SortableList.tsx:
 * committing the open textfield, line and item clicks, drag-and-drop, and the
 * delete-with-undo scheduler. Timers are explicit: `timers` holds every timer that is
 * scheduled and neither cleared nor fired, `pendingDeletes` is the component's
 * id-to-timer map, and a timer fires only when `FireTimer` is called.
 */
module SortableListComponent {
  import opened Wrappers
  import opened ListEnums
  import opened JsText
  import opened SortedListHook

  /** The items after a textfield with content is committed: its status is dropped and,
      with a shift direction, a fresh textfield opens below it or above it. */
  function CommitTextfield(s: seq<ListItem>, t: ListItem, shift: Option<ShiftDirection>, freshId: string): seq<ListItem> {
    var s1 := UpdateItem(s, t.(status := None));
    match shift
    case None => s1
    case Some(dir) => MoveTextfield(s1, if dir == Below then t.id else GetParentId(s1, t.id), freshId)
  }

  /** A list holding at most one textfield opens it first. */
  lemma {:induction false} SingleTextfield(s: seq<ListItem>, x: ListItem)
    requires TextfieldCount(s) <= 1 && x in s && IsTextfield(x)
    ensures GetTextfield(s) == Some(x)
  {
    if s[0] != x {
      assert x in s[1..];
      if IsTextfield(s[0]) {
        NoTextfieldIffZero(s[1..]);
        assert false;
      } else {
        SingleTextfield(s[1..], x);
      }
    }
  }

  /** In a list with unique ids, an item is found by its id. */
  lemma ItemById(s: seq<ListItem>, x: ListItem)
    requires UniqueIds(s) && x in s
    ensures GetItemById(s, x.id) == Some(x)
  {
    var k :| 0 <= k < |s| && s[k] == x;
    IndexOfUnique(s, k);
  }

  /** The parent id of an item is the head sentinel or the id of an item of the list. */
  lemma ParentIdIn(s: seq<ListItem>, id: string)
    ensures GetParentId(s, id) == Head || GetParentId(s, id) in Ids(s)
  {
    match IndexOf(s, id)
    case None =>
    case Some(i) => if i > 0 { assert s[i - 1].id in Ids(s); }
  }

  /** Dropping the open textfield's status leaves a well-formed list with no textfield,
      in which that item keeps its place and every other item stays. */
  lemma DropStatusFacts(s: seq<ListItem>, t: ListItem)
    requires WellFormed(s) && GetTextfield(s) == Some(t)
    ensures var s1 := UpdateItem(s, t.(status := None));
      && WellFormed(s1) && GetTextfield(s1).None? && Ids(s1) == Ids(s)
      && GetItemById(s1, t.id) == Some(t.(status := None))
      && GetParentId(s1, t.id) == GetParentId(s, t.id)
      && (forall x :: x in s && x.id != t.id ==> x in s1)
  {
    TheTextfield(s);
    var k := IndexOf(s, t.id).value;
    var t' := t.(status := None);
    var s1 := UpdateItem(s, t');
    UpdateTextfieldCount(s, k, t');
    UpdateWellFormed(s, t');
    UpdateKeepsPlaces(s, t', t.id);
    NoTextfieldIffZero(s1);
    assert s1[k] == t';
    ItemById(s1, t');
    forall x | x in s && x.id != t.id ensures x in s1 {
      var i :| 0 <= i < |s| && s[i] == x;
      assert s1[i] == x;
    }
  }

  /** Opening a fresh textfield in a list without one leaves it the one open textfield,
      placed after `p` (or first), with every item kept. */
  lemma OpenTextfieldFacts(s: seq<ListItem>, p: string, freshId: string)
    requires WellFormed(s) && GetTextfield(s).None? && freshId != Head && freshId !in Ids(s)
    ensures var r := AddNewTextfield(s, p, freshId);
      && WellFormed(r) && GetTextfield(r) == Some(NewTextfield(freshId))
      && Ids(r) == Ids(s) + {freshId}
      && (forall x :: x in s ==> x in r)
      && GetParentId(r, freshId) == if p in Ids(s) then p else Head
  {
    var nt := NewTextfield(freshId);
    InsertAfterFacts(s, p, nt);
    NoTextfieldIffZero(s);
    SingleTextfield(AddNewTextfield(s, p, freshId), nt);
  }

  /** Inserting after an item's parent puts the new item directly above it. */
  lemma InsertAboveFacts(s: seq<ListItem>, k: nat, x: ListItem)
    requires UniqueIds(s) && k < |s| && Head !in Ids(s) && x.id !in Ids(s)
    ensures GetParentId(InsertAfter(s, GetParentId(s, s[k].id), x), s[k].id) == x.id
  {
    var p := GetParentId(s, s[k].id);
    ParentPos(s, k);
    InsertAfterAt(s, p, x);
    var r := s[..k] + [x] + s[k..];
    InsertAtUnique(s, k, x);
    assert r[k + 1] == s[k] && r[k] == x;
    IndexOfUnique(r, k + 1);
  }

  /** An item's parent is inserted after at the item's own position. */
  lemma ParentPos(s: seq<ListItem>, k: nat)
    requires UniqueIds(s) && k < |s| && Head !in Ids(s)
    ensures InsertPos(s, GetParentId(s, s[k].id)) == k
  {
    IndexOfUnique(s, k);
    if k > 0 {
      IndexOfUnique(s, k - 1);
    }
  }

  /** Committing a textfield with content keeps the item without a status; with a shift, the
      one open textfield afterwards is a fresh empty one, directly below (BELOW) or directly
      above (ABOVE) the committed item; every other item stays. */
  lemma CommitTextfieldFacts(s: seq<ListItem>, t: ListItem, shift: Option<ShiftDirection>, freshId: string)
    requires WellFormed(s) && GetTextfield(s) == Some(t)
    requires shift.Some? ==> freshId != Head && freshId !in Ids(s)
    ensures var r := CommitTextfield(s, t, shift, freshId);
      && WellFormed(r)
      && GetItemById(r, t.id) == Some(t.(status := None))
      && (forall x :: x in s && x.id != t.id ==> x in r)
      && (shift.None? ==> GetTextfield(r).None? && Ids(r) == Ids(s))
      && (shift.Some? ==> GetTextfield(r) == Some(NewTextfield(freshId)) && Ids(r) == Ids(s) + {freshId})
      && (shift == Some(Below) ==> GetParentId(r, freshId) == t.id)
      && (shift == Some(Above) ==> GetParentId(r, t.id) == freshId && GetParentId(r, freshId) == GetParentId(s, t.id))
  {
    var t' := t.(status := None);
    var s1 := UpdateItem(s, t');
    DropStatusFacts(s, t);
    if shift.Some? {
      var p := if shift.value == Below then t.id else GetParentId(s1, t.id);
      var r := AddNewTextfield(s1, p, freshId);
      assert CommitTextfield(s, t, shift, freshId) == r;
      OpenTextfieldFacts(s1, p, freshId);
      assert t' in s1;
      ItemById(r, t');
      if shift.value == Above {
        ParentIdIn(s1, t.id);
        var k := IndexOf(s1, t.id).value;
        InsertAboveFacts(s1, k, NewTextfield(freshId));
      }
    }
  }

  /** The id of the line above the drop position: the item before it, or the head sentinel. */
  function DropParent(data: seq<ListItem>, to: nat): string
    requires to < |data|
  {
    if to > 0 then data[to - 1].id else Head
  }

  /** The items after a drag ends; `data` is the reordered list the draggable list hands back. */
  function DropItems(s: seq<ListItem>, data: seq<ListItem>, from: nat, to: nat): seq<ListItem>
    requires from < |data| && to < |data|
  {
    var dragged := data[to];
    var s1 := if from != to then MoveItem(s, dragged, DropParent(data, to)) else s;
    UpdateItem(s1, dragged.(status := None))
  }

  /** Moving an item of a well-formed list keeps it well-formed, with the same ids. */
  lemma MoveWellFormed(s: seq<ListItem>, d: ListItem, p: string)
    requires WellFormed(s) && d in s
    ensures var s1 := MoveItem(s, d, p);
      && WellFormed(s1) && Ids(s1) == Ids(s) && d in s1
      && GetParentId(s1, d.id) == (if p in Ids(s) && p != d.id then p else Head)
  {
    var j :| 0 <= j < |s| && s[j] == d;
    MoveItemFacts(s, d, p);
    MoveItemTextfieldCount(s, j, d, p);
  }

  /** Clearing the status of an item of a well-formed list keeps it well-formed and in place. */
  lemma ClearStatusFacts(s: seq<ListItem>, d: ListItem)
    requires WellFormed(s) && d in s
    ensures var r := UpdateItem(s, d.(status := None));
      && WellFormed(r) && Ids(r) == Ids(s)
      && GetItemById(r, d.id) == Some(d.(status := None))
      && GetParentId(r, d.id) == GetParentId(s, d.id)
      && forall i :: 0 <= i < |s| ==> r[i].id == s[i].id
  {
    var d' := d.(status := None);
    var k :| 0 <= k < |s| && s[k] == d;
    UpdateWellFormed(s, d');
    UpdateKeepsPlaces(s, d', d.id);
    var r := UpdateItem(s, d');
    assert r[k] == d';
    ItemById(r, d');
  }

  /** A drop keeps every item other than the dragged one. */
  lemma DropKeepsOthers(s: seq<ListItem>, data: seq<ListItem>, from: nat, to: nat)
    requires UniqueIds(s) && from < |data| && to < |data|
    ensures forall x :: x in s && x.id != data[to].id ==> x in DropItems(s, data, from, to)
  {
    var d := data[to];
    var s1 := if from != to then MoveItem(s, d, DropParent(data, to)) else s;
    if from != to {
      MoveItemFacts(s, d, DropParent(data, to));
    }
    UpdateKeepsOthers(s1, d.(status := None));
  }

  /** After a drop the dragged item is in the list without a status, no id is gained or lost, and
      it sits after the item before the drop position (or first) when it was moved; an unmoved
      drop changes no position. */
  lemma DropItemsFacts(s: seq<ListItem>, data: seq<ListItem>, from: nat, to: nat)
    requires WellFormed(s) && multiset(data) == multiset(s) && from < |data| && to < |data|
    ensures var r := DropItems(s, data, from, to);
      && WellFormed(r)
      && Ids(r) == Ids(s)
      && GetItemById(r, data[to].id) == Some(data[to].(status := None))
      && (from == to ==> |r| == |s| && forall i :: 0 <= i < |s| ==> r[i].id == s[i].id)
      && (from != to ==>
            GetParentId(r, data[to].id) ==
            (if DropParent(data, to) in Ids(s) && DropParent(data, to) != data[to].id then DropParent(data, to) else Head))
      && (forall x :: x in s && x.id != data[to].id ==> x in r)
  {
    var d := data[to];
    DropKeepsOthers(s, data, from, to);
    assert d in multiset(s);
    if from != to {
      MoveWellFormed(s, d, DropParent(data, to));
      ClearStatusFacts(MoveItem(s, d, DropParent(data, to)), d);
    } else {
      ClearStatusFacts(s, d);
    }
  }

  /** Two different items of a list with unique ids have different ids. */
  lemma DistinctIds(s: seq<ListItem>, x: ListItem, y: ListItem)
    requires UniqueIds(s) && x in s && y in s && x != y
    ensures x.id != y.id
  {
    var i :| 0 <= i < |s| && s[i] == x;
    var j :| 0 <= j < |s| && s[j] == y;
    assert i != j;
  }

  /** The items after the open textfield is committed (`handleUpdateList`): with content it is
      kept without a status and, with a shift, a fresh textfield opens beside it; an empty NEW
      item is removed; an empty EDIT item turns DELETING. */
  function CommitItems(s: seq<ListItem>, shift: Option<ShiftDirection>, freshId: string): seq<ListItem> {
    match GetTextfield(s)
    case None => s
    case Some(t) =>
      if HasContent(t.value) then CommitTextfield(s, t, shift, freshId)
      else if t.status == Some(New) then DeleteItem(s, t.id)
      else UpdateItem(s, t.(status := Some(Deleting)))
  }

  /** Removing the open textfield (an empty NEW item) leaves a well-formed list with no textfield
      and every other item; only its id is gone. */
  lemma RemoveTextfieldFacts(s: seq<ListItem>, t: ListItem)
    requires WellFormed(s) && GetTextfield(s) == Some(t)
    ensures var r := DeleteItem(s, t.id);
      && WellFormed(r) && GetTextfield(r).None? && Ids(r) == Ids(s) - {t.id}
      && (forall x :: x in s && !IsTextfield(x) ==> x in r)
  {
    var r := DeleteItem(s, t.id);
    TheTextfield(s);
    forall x | x in s && !IsTextfield(x) ensures x.id != t.id {
      DistinctIds(s, x, t);
    }
    DeleteKeepsUnique(s, t.id);
    DeleteTextfieldCount(s, IndexOf(s, t.id).value);
    NoTextfieldIffZero(r);
  }

  /** Turning the open textfield (an empty EDIT item) DELETING leaves a well-formed list with no
      textfield, the same ids, and every other item. */
  lemma MarkDeletingFacts(s: seq<ListItem>, t: ListItem)
    requires WellFormed(s) && GetTextfield(s) == Some(t)
    ensures var r := UpdateItem(s, t.(status := Some(Deleting)));
      && WellFormed(r) && GetTextfield(r).None? && Ids(r) == Ids(s)
      && (forall x :: x in s && !IsTextfield(x) ==> x in r)
  {
    var d := t.(status := Some(Deleting));
    var r := UpdateItem(s, d);
    TheTextfield(s);
    var k := IndexOf(s, t.id).value;
    UpdateTextfieldCount(s, k, d);
    UpdateWellFormed(s, d);
    UpdateKeepsPlaces(s, d, t.id);
    NoTextfieldIffZero(r);
    forall x | x in s && !IsTextfield(x) ensures x in r {
      DistinctIds(s, x, t);
      var i :| 0 <= i < |s| && s[i] == x;
      assert r[i] == x;
    }
  }

  /** Committing keeps the list well-formed and loses no item that is not the textfield; without
      a shift, no textfield is left open and no id is gained. With no textfield nothing changes;
      a textfield with content is kept without a status, an empty NEW one is removed, and an
      empty EDIT one turns DELETING in place. */
  lemma CommitItemsFacts(s: seq<ListItem>, shift: Option<ShiftDirection>, freshId: string)
    requires WellFormed(s) && (shift.Some? ==> freshId != Head && freshId !in Ids(s))
    ensures var r := CommitItems(s, shift, freshId);
      && WellFormed(r)
      && (forall x :: x in s && !IsTextfield(x) ==> x in r)
      && (shift.None? ==> GetTextfield(r).None? && Ids(r) <= Ids(s))
      && (GetTextfield(s).None? ==> r == s)
      && (GetTextfield(s).Some? ==>
            var t := GetTextfield(s).value;
            && (HasContent(t.value) ==> GetItemById(r, t.id) == Some(t.(status := None)))
            && (!HasContent(t.value) && t.status == Some(New) ==> t.id !in Ids(r))
            && (!HasContent(t.value) && t.status == Some(Edit) ==> r == UpdateItem(s, t.(status := Some(Deleting)))))
  {
    match GetTextfield(s)
    case None =>
    case Some(t) =>
      if HasContent(t.value) {
        CommitTextfieldFacts(s, t, shift, freshId);
        forall x | x in s && !IsTextfield(x) ensures x.id != t.id {
          DistinctIds(s, x, t);
        }
      } else if t.status == Some(New) {
        RemoveTextfieldFacts(s, t);
      } else {
        MarkDeletingFacts(s, t);
      }
  }

  /** Committing the open textfield schedules a delete: it is an empty EDIT item. */
  predicate CommitSchedulesDelete(s: seq<ListItem>) {
    GetTextfield(s).Some? && !HasContent(GetTextfield(s).value.value) && GetTextfield(s).value.status == Some(Edit)
  }

  /** A commit without a shift leaves no textfield open, and changes nothing when none is open. */
  lemma CommitWithoutShift(s: seq<ListItem>)
    requires WellFormed(s)
    ensures GetTextfield(CommitItems(s, None, "")).None?
    ensures GetTextfield(s).None? ==> CommitItems(s, None, "") == s
  {
    CommitItemsFacts(s, None, "");
  }

  /** Committing an empty EDIT textfield turns it DELETING in place, and is the one commit
      that schedules a delete. */
  lemma EmptyEditCommit(s: seq<ListItem>, shift: Option<ShiftDirection>, freshId: string, t: ListItem)
    requires GetTextfield(s) == Some(t) && t.status == Some(Edit) && !HasContent(t.value)
    ensures CommitItems(s, shift, freshId) == UpdateItem(s, t.(status := Some(Deleting)))
    ensures CommitSchedulesDelete(s)
  {
  }

  /** A click just below or just above an empty open textfield, which `handleLineClick` ignores. */
  predicate ClickIgnored(s: seq<ListItem>, parentId: string) {
    match GetTextfield(s)
    case None => false
    case Some(t) => !HasContent(t.value) && (parentId == t.id || parentId == GetParentId(s, t.id))
  }

  /** The items after a click on the line below `parentId` (`handleLineClick`). */
  function LineClickItems(s: seq<ListItem>, parentId: string, freshId: string): seq<ListItem> {
    match GetTextfield(s)
    case None => AddNewTextfield(s, parentId, freshId)
    case Some(t) =>
      if parentId == t.id then
        (if HasContent(t.value) then CommitTextfield(s, t, Some(Below), freshId) else s)
      else if parentId == GetParentId(s, t.id) then
        (if HasContent(t.value) then CommitTextfield(s, t, Some(Above), freshId) else s)
      else MoveItem(s, t, parentId)
  }

  /** Unless it is ignored, a line click leaves exactly one textfield open, directly below the
      clicked line (first when `parentId` is not in the list); no item that is not the
      textfield is lost. With no textfield open, a fresh one is added; a click beside a
      textfield with content commits it and opens a fresh one; a click elsewhere moves the
      open textfield itself, text and all. */
  lemma LineClickFacts(s: seq<ListItem>, parentId: string, freshId: string)
    requires WellFormed(s) && freshId != Head && freshId !in Ids(s)
    ensures var r := LineClickItems(s, parentId, freshId);
      && WellFormed(r)
      && (forall x :: x in s && !IsTextfield(x) ==> x in r)
      && (ClickIgnored(s, parentId) ==> r == s)
      && (!ClickIgnored(s, parentId) ==>
            GetTextfield(r).Some? &&
            GetParentId(r, GetTextfield(r).value.id) == (if parentId in Ids(s) then parentId else Head))
      && (GetTextfield(s).None? ==> GetTextfield(r) == Some(NewTextfield(freshId)) && Ids(r) == Ids(s) + {freshId})
      && (GetTextfield(s).Some? ==>
            var t := GetTextfield(s).value;
            && ((parentId == t.id || parentId == GetParentId(s, t.id)) && HasContent(t.value) ==>
                  && GetItemById(r, t.id) == Some(t.(status := None))
                  && GetTextfield(r) == Some(NewTextfield(freshId)) && Ids(r) == Ids(s) + {freshId})
            && (parentId != t.id && parentId != GetParentId(s, t.id) ==>
                  GetTextfield(r) == Some(t) && Ids(r) == Ids(s)))
  {
    match GetTextfield(s)
    case None =>
      OpenTextfieldFacts(s, parentId, freshId);
    case Some(t) =>
      forall x | x in s && !IsTextfield(x) ensures x.id != t.id {
        DistinctIds(s, x, t);
      }
      if parentId == t.id {
        if HasContent(t.value) {
          CommitTextfieldFacts(s, t, Some(Below), freshId);
          assert t in s;
        }
      } else if parentId == GetParentId(s, t.id) {
        if HasContent(t.value) {
          CommitTextfieldFacts(s, t, Some(Above), freshId);
          ParentIdIn(s, t.id);
        }
      } else {
        MoveWellFormed(s, t, parentId);
        SingleTextfield(MoveItem(s, t, parentId), t);
      }
  }

  /** The items after a click on an item's text (`handleItemClick`). */
  function ItemClickItems(s: seq<ListItem>, item: ListItem): seq<ListItem> {
    if item.status == Some(Deleting) then s
    else UpdateItem(CommitItems(s, None, ""), item.(status := Some(Edit)))
  }

  /** An item click keeps the list well-formed; unless the item is DELETING, the clicked item is
      afterwards the one open textfield, in EDIT (if it is still in the list), and no id is gained. */
  lemma ItemClickFacts(s: seq<ListItem>, item: ListItem)
    requires WellFormed(s)
    ensures var r := ItemClickItems(s, item);
      && WellFormed(r)
      && (item.status == Some(Deleting) ==> r == s)
      && (item.status != Some(Deleting) ==>
            && Ids(r) <= Ids(s)
            && (item.id in Ids(r) ==> GetTextfield(r) == Some(item.(status := Some(Edit))))
            && (item.id !in Ids(r) ==> GetTextfield(r).None?)
            && ItemClickKeeps(s, item, r))
  {
    if item.status != Some(Deleting) {
      ItemClickCommitsFirst(s, item);
      var s1 := CommitItems(s, None, "");
      CommitItemsFacts(s, None, "");
      var e := item.(status := Some(Edit));
      var r := UpdateItem(s1, e);
      UpdateWellFormed(s1, e);
      UpdateKeepsPlaces(s1, e, e.id);
      if item.id in Ids(r) {
        var k := IndexOf(s1, item.id).value;
        assert r[k] == e;
        SingleTextfield(r, e);
      } else {
        assert r == s1 by {
          forall i | 0 <= i < |s1| ensures r[i] == s1[i] {
            assert s1[i].id in Ids(s1);
          }
        }
      }
    }
  }

  /** After an item click, every item other than the textfield and the clicked item is kept;
      an open textfield other than the clicked item is committed first: kept without a status
      when it has content, removed when it is an empty NEW item, and marked DELETING when it is
      an empty EDIT item. */
  predicate ItemClickKeeps(s: seq<ListItem>, item: ListItem, r: seq<ListItem>) {
    && (forall x :: x in s && !IsTextfield(x) && x.id != item.id ==> x in r)
    && (GetTextfield(s).Some? ==>
          var t := GetTextfield(s).value;
          && (t.id != item.id && HasContent(t.value) ==> GetItemById(r, t.id) == Some(t.(status := None)))
          && (!HasContent(t.value) && t.status == Some(New) ==> t.id !in Ids(r))
          && (t.id != item.id && !HasContent(t.value) && t.status == Some(Edit) ==>
                GetItemById(r, t.id) == Some(t.(status := Some(Deleting)))))
  }

  lemma ItemClickCommitsFirst(s: seq<ListItem>, item: ListItem)
    requires WellFormed(s) && item.status != Some(Deleting)
    ensures ItemClickKeeps(s, item, ItemClickItems(s, item))
  {
    var s1 := CommitItems(s, None, "");
    CommitItemsFacts(s, None, "");
    var e := item.(status := Some(Edit));
    UpdateKeepsOthers(s1, e);
    UpdateKeepsPlaces(s1, e, e.id);
    if GetTextfield(s).Some? {
      var t := GetTextfield(s).value;
      UpdateFinds(s1, e, t.id);
      if !HasContent(t.value) && t.status == Some(Edit) {
        EmptyEditCommitted(s, t);
      }
    }
  }

  /** Committing an empty EDIT textfield leaves it in place, DELETING. */
  lemma EmptyEditCommitted(s: seq<ListItem>, t: ListItem)
    requires WellFormed(s) && GetTextfield(s) == Some(t)
    requires !HasContent(t.value) && t.status == Some(Edit)
    ensures GetItemById(CommitItems(s, None, ""), t.id) == Some(t.(status := Some(Deleting)))
  {
    CommitItemsFacts(s, None, "");
    TheTextfield(s);
    UpdateFinds(s, t.(status := Some(Deleting)), t.id);
  }

  datatype TimerKind =
    | Scheduled    // set when a delete is scheduled: deletes the item unconditionally
    | Rescheduled  // set by a reschedule pass: deletes the item only if it still exists

  datatype Timer = Timer(itemId: string, delay: nat, kind: TimerKind)

  /** The grace period, in milliseconds, before a DELETING item is removed. */
  const DeleteDelay: nat := 3000

  /** The state after a reschedule pass from pending map `p0`, live timers `t0` and next handle
      `n0`: the same ids are pending, each with a fresh guarded timer of the full grace period;
      the timers they had are cancelled, every other live timer is kept, and no other timer
      is created. */
  ghost predicate RescheduledFrom(p0: map<string, nat>, t0: map<nat, Timer>, n0: nat,
                                  p: map<string, nat>, t: map<nat, Timer>)
  {
    && p.Keys == p0.Keys
    && (forall id :: id in p ==> n0 <= p[id] && p[id] in t && t[p[id]] == Timer(id, DeleteDelay, Rescheduled))
    && (forall h :: h in t && h < n0 ==> h in t0 && h !in p0.Values && t[h] == t0[h])
    && (forall h :: h in t && n0 <= h ==> t[h].itemId in p && p[t[h].itemId] == h)
    && (forall h :: h in t0 && h !in p0.Values ==> h in t)
  }

  /** The state after scheduling the delete of `id` with timer `timer`: a reschedule pass, then
      the new timer recorded as `id`'s pending timer. A rescheduled timer that `id` itself had is
      overwritten in the map without being cleared, and stays live as a stray timer. */
  ghost predicate ScheduledFrom(p0: map<string, nat>, t0: map<nat, Timer>, n0: nat,
                                p: map<string, nat>, t: map<nat, Timer>, id: string, timer: Timer)
  {
    && p.Keys == p0.Keys + {id}
    && n0 <= p[id] && p[id] in t && t[p[id]] == timer
    && (forall o :: o in p && o != id ==> n0 <= p[o] && p[o] in t && t[p[o]] == Timer(o, DeleteDelay, Rescheduled))
    && (forall h :: h in t && h < n0 ==> h in t0 && h !in p0.Values && t[h] == t0[h])
    && (forall h :: h in t && n0 <= h ==>
          t[h].itemId in p && (p[t[h].itemId] == h || (id in p0 && t[h] == Timer(id, DeleteDelay, Rescheduled))))
    && (forall h :: h in t0 && h !in p0.Values ==> h in t)
    && (id in p0 ==> exists h :: h in t && n0 <= h && h != p[id] && t[h] == Timer(id, DeleteDelay, Rescheduled))
  }

  /** Every live timer and every pending delete has a handle below the next one. */
  ghost predicate HandlesBelow(p: map<string, nat>, t: map<nat, Timer>, n: nat) {
    && (forall h :: h in t ==> h < n)
    && (forall id :: id in p ==> p[id] < n)
  }

  /** Recording a fresh timer after a reschedule pass is a scheduled delete. */
  lemma ScheduleAfterReschedule(p0: map<string, nat>, t0: map<nat, Timer>, n0: nat,
                                p1: map<string, nat>, t1: map<nat, Timer>, n1: nat, id: string, timer: Timer)
    requires RescheduledFrom(p0, t0, n0, p1, t1) && n0 <= n1 && (forall h :: h in t1 ==> h < n1)
    requires timer.itemId == id
    ensures ScheduledFrom(p0, t0, n0, p1[id := n1], t1[n1 := timer], id, timer)
  {
    if id in p0 {
      // the rescheduled timer of `id` is the stray one
      var h := p1[id];
      assert h in t1[n1 := timer] && n0 <= h && h != n1;
    }
  }

  /** A reschedule pass after a scheduled delete: the pending ids are the old ones and the
      scheduled one, and every timer older than both is one that was live and not pending. */
  lemma ScheduleThenReschedule(p0: map<string, nat>, t0: map<nat, Timer>, n0: nat,
                               p1: map<string, nat>, t1: map<nat, Timer>, n1: nat,
                               p2: map<string, nat>, t2: map<nat, Timer>, id: string, timer: Timer)
    requires HandlesBelow(p0, t0, n0)
    requires ScheduledFrom(p0, t0, n0, p1, t1, id, timer) && n0 <= n1 && RescheduledFrom(p1, t1, n1, p2, t2)
    ensures p2.Keys == p0.Keys + {id}
    ensures forall h :: h in t2 && h < n0 ==> h in t0 && h !in p0.Values && t2[h] == t0[h]
    ensures forall h :: h in t0 && h !in p0.Values ==> h in t2
    ensures forall h :: h in t2 && n0 <= h ==>
      t2[h].itemId in p2 &&
      (p2[t2[h].itemId] == h || (t2[h].itemId in p0 && t2[h] == Timer(t2[h].itemId, DeleteDelay, Rescheduled)))
  {
  }

  /** Part way through a reschedule pass: the ids in `done` have their fresh guarded timers,
      the others still have the timers they had. */
  ghost predicate ReschedulePartial(p0: map<string, nat>, t0: map<nat, Timer>, n0: nat, done: set<string>,
                                    p: map<string, nat>, t: map<nat, Timer>)
  {
    && done <= p0.Keys && p.Keys == p0.Keys
    && (forall id :: id in p0 ==> p0[id] < n0)
    && (forall id :: id in p && id !in done ==> p[id] == p0[id])
    && (forall id :: id in done ==> n0 <= p[id] && p[id] in t && t[p[id]] == Timer(id, DeleteDelay, Rescheduled))
    && (forall h :: h in t && h < n0 ==> h in t0 && t[h] == t0[h] && forall id :: id in done ==> p0[id] != h)
    && (forall h :: h in t && n0 <= h ==> t[h].itemId in done && p[t[h].itemId] == h)
    && (forall h :: h in t0 && h !in p0.Values ==> h in t)
  }

  lemma RescheduleStart(p0: map<string, nat>, t0: map<nat, Timer>, n0: nat)
    requires HandlesBelow(p0, t0, n0)
    ensures ReschedulePartial(p0, t0, n0, {}, p0, t0)
  {
  }

  /** One step of the pass: clear the id's timer and record a fresh guarded one. */
  lemma RescheduleStep(p0: map<string, nat>, t0: map<nat, Timer>, n0: nat, done: set<string>,
                       p: map<string, nat>, t: map<nat, Timer>, n: nat, id: string)
    requires ReschedulePartial(p0, t0, n0, done, p, t)
    requires id in p && id !in done && n0 <= n && HandlesBelow(p, t, n)
    ensures ReschedulePartial(p0, t0, n0, done + {id}, p[id := n], (t - {p[id]})[n := Timer(id, DeleteDelay, Rescheduled)])
  {
  }

  /** One step of the pass keeps every handle below the next one. */
  lemma RescheduleStepBelow(p: map<string, nat>, t: map<nat, Timer>, n: nat, id: string)
    requires id in p && HandlesBelow(p, t, n)
    ensures HandlesBelow(p[id := n], (t - {p[id]})[n := Timer(id, DeleteDelay, Rescheduled)], n + 1)
  {
  }

  /** A pass that has visited every pending id is a reschedule. */
  lemma RescheduleDone(p0: map<string, nat>, t0: map<nat, Timer>, n0: nat, p: map<string, nat>, t: map<nat, Timer>)
    requires ReschedulePartial(p0, t0, n0, p0.Keys, p, t)
    ensures RescheduledFrom(p0, t0, n0, p, t)
  {
  }

  /** The live timers once the pending timer of `id` (if any) is cleared. */
  function CancelPending(p: map<string, nat>, t: map<nat, Timer>, id: string): map<nat, Timer> {
    if id in p then t - {p[id]} else t
  }

  class SortableList {
    const listId: string
    /** The ordered items the list hook holds. */
    var items: seq<ListItem>
    /** The id of the list that currently has the editing focus (shared context). */
    var currentList: string
    /** Item id to the handle of its pending delete timer. */
    var pendingDeletes: map<string, nat>
    /** Every scheduled timer that has been neither cleared nor fired, by handle. */
    var timers: map<nat, Timer>
    /** The next timer handle to hand out. */
    var nextHandle: nat

    ghost predicate Valid()
      reads this
    {
      && WellFormed(items)
      && HandlesBelow(pendingDeletes, timers, nextHandle)
    }

    constructor (listId: string, listItems: seq<ListItem>, currentList: string)
      requires WellFormed(listItems)
      ensures Valid() && this.listId == listId && items == listItems && this.currentList == currentList
      ensures pendingDeletes == map[] && timers == map[]
    {
      this.listId := listId;
      items := listItems;
      this.currentList := currentList;
      pendingDeletes := map[];
      timers := map[];
      nextHandle := 0;
    }

    /** Clears every pending delete timer and sets a fresh guarded one of the full grace period. */
    method RescheduleAllDeletes()
      requires Valid()
      modifies this
      ensures Valid()
      ensures items == old(items) && currentList == old(currentList) && old(nextHandle) <= nextHandle
      ensures RescheduledFrom(old(pendingDeletes), old(timers), old(nextHandle), pendingDeletes, timers)
    {
      ghost var p0, t0, n0 := pendingDeletes, timers, nextHandle;
      var todo := pendingDeletes.Keys;
      ghost var done: set<string> := {};
      RescheduleStart(p0, t0, n0);
      while todo != {}
        invariant todo !! done && todo + done == p0.Keys
        invariant items == old(items) && currentList == old(currentList) && n0 <= nextHandle
        invariant Valid()
        invariant ReschedulePartial(p0, t0, n0, done, pendingDeletes, timers)
        decreases todo
      {
        var id :| id in todo;
        RescheduleStep(p0, t0, n0, done, pendingDeletes, timers, nextHandle, id);
        RescheduleStepBelow(pendingDeletes, timers, nextHandle, id);
        RescheduleOne(id);
        todo := todo - {id};
        done := done + {id};
      }
      RescheduleDone(p0, t0, n0, pendingDeletes, timers);
    }

    /** Clears the pending timer of `id` and records a fresh guarded one of the full grace period. */
    method RescheduleOne(id: string)
      requires Valid() && id in pendingDeletes
      modifies this
      ensures timers == (old(timers) - {old(pendingDeletes)[id]})[old(nextHandle) := Timer(id, DeleteDelay, Rescheduled)]
      ensures pendingDeletes == old(pendingDeletes)[id := old(nextHandle)] && nextHandle == old(nextHandle) + 1
      ensures items == old(items) && currentList == old(currentList)
    {
      timers := timers - {pendingDeletes[id]};
      var h := nextHandle;
      nextHandle := nextHandle + 1;
      timers := timers[h := Timer(id, DeleteDelay, Rescheduled)];
      pendingDeletes := pendingDeletes[id := h];
    }

    /** The scheduling half of `toggleDeleteItem`, for an item that is not DELETING: the item
        turns DELETING, every pending delete is rescheduled, and then the item gets its own
        unconditional timer (0 ms when immediate); the focus moves to this list. */
    method ScheduleDelete(item: ListItem, immediate: bool)
      requires Valid() && item.status != Some(Deleting)
      modifies this
      ensures Valid() && currentList == listId && old(nextHandle) <= nextHandle
      ensures items == UpdateItem(old(items), item.(status := Some(Deleting)))
      ensures ScheduledFrom(old(pendingDeletes), old(timers), old(nextHandle), pendingDeletes, timers,
                            item.id, Timer(item.id, if immediate then 0 else DeleteDelay, Scheduled))
    {
      var updated := item.(status := Some(Deleting));
      UpdateWellFormed(items, updated);
      items := UpdateItem(items, updated);
      ghost var p0, t0, n0 := pendingDeletes, timers, nextHandle;
      RescheduleAllDeletes();
      var timer := Timer(item.id, if immediate then 0 else DeleteDelay, Scheduled);
      ScheduleAfterReschedule(p0, t0, n0, pendingDeletes, timers, nextHandle, item.id, timer);
      RecordTimer(item.id, timer);
      currentList := listId;
    }

    /** Sets `timer` under the next handle and records it as the pending timer of `id`. */
    method RecordTimer(id: string, timer: Timer)
      requires Valid()
      modifies this
      ensures Valid() && items == old(items) && currentList == old(currentList)
      ensures timers == old(timers)[old(nextHandle) := timer]
      ensures pendingDeletes == old(pendingDeletes)[id := old(nextHandle)] && nextHandle == old(nextHandle) + 1
    {
      var h := nextHandle;
      nextHandle := nextHandle + 1;
      timers := timers[h := timer];
      pendingDeletes := pendingDeletes[id := h];
    }

    /** The undo half of `toggleDeleteItem`, for a DELETING item: its status is cleared, its own
        timer (if any) is cleared, and the remaining pending deletes are rescheduled; the focus
        moves to this list. */
    method UndoDelete(item: ListItem)
      requires Valid() && item.status == Some(Deleting)
      modifies this
      ensures Valid() && currentList == listId && old(nextHandle) <= nextHandle
      ensures items == UpdateItem(old(items), item.(status := None))
      ensures RescheduledFrom(old(pendingDeletes) - {item.id}, CancelPending(old(pendingDeletes), old(timers), item.id),
                              old(nextHandle), pendingDeletes, timers)
    {
      var updated := item.(status := None);
      UpdateWellFormed(items, updated);
      items := UpdateItem(items, updated);
      CancelPendingDelete(item.id);
      RescheduleAllDeletes();
      currentList := listId;
    }

    /** Clears the pending timer of `id`, if there is one, and forgets the id. */
    method CancelPendingDelete(id: string)
      requires Valid()
      modifies this
      ensures Valid() && items == old(items) && currentList == old(currentList) && nextHandle == old(nextHandle)
      ensures timers == CancelPending(old(pendingDeletes), old(timers), id)
      ensures pendingDeletes == old(pendingDeletes) - {id}
    {
      if id in pendingDeletes {
        timers := timers - {pendingDeletes[id]};
        pendingDeletes := pendingDeletes - {id};
      }
    }

    /** Flips an item in or out of DELETING (see `ScheduleDelete` and `UndoDelete`). */
    method ToggleDeleteItem(item: ListItem, immediate: bool)
      requires Valid()
      modifies this
      ensures Valid() && currentList == listId && old(nextHandle) <= nextHandle
      ensures item.status != Some(Deleting) ==>
        && items == UpdateItem(old(items), item.(status := Some(Deleting)))
        && ScheduledFrom(old(pendingDeletes), old(timers), old(nextHandle), pendingDeletes, timers,
                         item.id, Timer(item.id, if immediate then 0 else DeleteDelay, Scheduled))
      ensures item.status == Some(Deleting) ==>
        && items == UpdateItem(old(items), item.(status := None))
        && RescheduledFrom(old(pendingDeletes) - {item.id}, CancelPending(old(pendingDeletes), old(timers), item.id),
                           old(nextHandle), pendingDeletes, timers)
    {
      if item.status == Some(Deleting) {
        UndoDelete(item);
      } else {
        ScheduleDelete(item, immediate);
      }
    }

    /** A timer fires: a scheduled one deletes its item and forgets the id; a rescheduled one does
        so only if the item still exists, and otherwise does nothing. */
    method FireTimer(h: nat)
      requires Valid() && h in timers
      modifies this
      ensures Valid()
      ensures timers == old(timers) - {h} && nextHandle == old(nextHandle) && currentList == old(currentList)
      ensures var t := old(timers)[h];
        if t.kind == Scheduled || GetItemById(old(items), t.itemId).Some? then
          && items == DeleteItem(old(items), t.itemId) && t.itemId !in Ids(items)
          && pendingDeletes == old(pendingDeletes) - {t.itemId}
        else
          items == old(items) && pendingDeletes == old(pendingDeletes)
    {
      var t := timers[h];
      timers := timers - {h};
      if t.kind == Scheduled || GetItemById(items, t.itemId).Some? {
        DeleteKeepsUnique(items, t.itemId);
        if t.itemId in Ids(items) {
          DeleteTextfieldCount(items, IndexOf(items, t.itemId).value);
        }
        items := DeleteItem(items, t.itemId);
        pendingDeletes := pendingDeletes - {t.itemId};
      }
    }

    /** A commit that schedules no delete: the items become the committed items and nothing
        else changes. */
    method CommitKeepingTimers(shift: Option<ShiftDirection>, freshId: string)
      requires Valid() && !CommitSchedulesDelete(items)
      requires shift.Some? ==> freshId != Head && freshId !in Ids(items)
      modifies this
      ensures Valid() && items == CommitItems(old(items), shift, freshId)
      ensures pendingDeletes == old(pendingDeletes) && timers == old(timers)
      ensures nextHandle == old(nextHandle) && currentList == old(currentList)
    {
      CommitItemsFacts(items, shift, freshId);
      items := CommitItems(items, shift, freshId);
    }

    /** The commit of an empty EDIT textfield: `toggleDeleteItem(textfield, true)`, which turns
        the item DELETING with an immediate delete and moves the focus here. */
    method CommitSchedulingDelete(shift: Option<ShiftDirection>, freshId: string)
      requires Valid() && CommitSchedulesDelete(items)
      modifies this
      ensures Valid() && old(nextHandle) <= nextHandle && currentList == listId
      ensures items == CommitItems(old(items), shift, freshId)
      ensures ScheduledFrom(old(pendingDeletes), old(timers), old(nextHandle), pendingDeletes, timers,
                            GetTextfield(old(items)).value.id, Timer(GetTextfield(old(items)).value.id, 0, Scheduled))
    {
      var t := GetTextfield(items).value;
      EmptyEditCommit(items, shift, freshId, t);
      ScheduleDelete(t, true);
    }

    /** Commits the open textfield (see `CommitItems`). An empty EDIT item is scheduled for
        immediate deletion, which also moves the focus here; otherwise the focus moves here
        unless this is a last update. With no textfield open nothing happens. */
    method HandleUpdateList(shift: Option<ShiftDirection>, lastUpdate: bool, freshId: string)
      requires Valid()
      requires shift.Some? ==> freshId != Head && freshId !in Ids(items)
      modifies this
      ensures Valid() && old(nextHandle) <= nextHandle
      ensures items == CommitItems(old(items), shift, freshId)
      ensures CommitSchedulesDelete(old(items)) ==>
        ScheduledFrom(old(pendingDeletes), old(timers), old(nextHandle), pendingDeletes, timers,
                      GetTextfield(old(items)).value.id, Timer(GetTextfield(old(items)).value.id, 0, Scheduled))
      ensures !CommitSchedulesDelete(old(items)) ==> pendingDeletes == old(pendingDeletes) && timers == old(timers)
      ensures currentList ==
        if GetTextfield(old(items)).Some? && (!lastUpdate || CommitSchedulesDelete(old(items))) then listId else old(currentList)
    {
      var open := GetTextfield(items).Some?;
      if CommitSchedulesDelete(items) {
        CommitSchedulingDelete(shift, freshId);
      } else {
        CommitKeepingTimers(shift, freshId);
      }
      if open && !lastUpdate {
        currentList := listId;
      }
    }

    /** A click on the line below `parentId` (see `LineClickItems`); it takes the focus and never
        touches the pending deletes. */
    method HandleLineClick(parentId: string, freshId: string)
      requires Valid() && freshId != Head && freshId !in Ids(items)
      modifies this
      ensures Valid() && currentList == listId
      ensures items == LineClickItems(old(items), parentId, freshId)
      ensures pendingDeletes == old(pendingDeletes) && timers == old(timers)
    {
      currentList := listId;
      var current := GetTextfield(items);
      if current.Some? {
        LineClickOnTextfield(current.value, parentId, freshId);
      } else {
        OpenNewTextfield(parentId, freshId);
      }
    }

    /** A line click while textfield `t` is open: just below or just above it, a textfield with
        content is committed with a shift and an empty one is left alone; elsewhere it moves. */
    method LineClickOnTextfield(t: ListItem, parentId: string, freshId: string)
      requires Valid() && freshId != Head && freshId !in Ids(items)
      requires GetTextfield(items) == Some(t) && currentList == listId
      modifies this
      ensures Valid() && currentList == listId
      ensures items == LineClickItems(old(items), parentId, freshId)
      ensures pendingDeletes == old(pendingDeletes) && timers == old(timers)
    {
      if parentId == t.id {
        if HasContent(t.value) {
          CommitAndShift(Below, freshId);
        } else {
          return;
        }
      } else if parentId == GetParentId(items, t.id) {
        if HasContent(t.value) {
          CommitAndShift(Above, freshId);
        } else {
          return;
        }
      } else {
        MoveWithin(t, parentId);
      }
    }

    /** `handleUpdateList` with a shift, on a textfield with content: it is committed, a fresh
        textfield opens beside it, the focus moves here and no timer changes. */
    method CommitAndShift(dir: ShiftDirection, freshId: string)
      requires Valid() && freshId != Head && freshId !in Ids(items)
      requires GetTextfield(items).Some? && HasContent(GetTextfield(items).value.value)
      modifies this
      ensures Valid() && currentList == listId
      ensures items == CommitTextfield(old(items), GetTextfield(old(items)).value, Some(dir), freshId)
      ensures pendingDeletes == old(pendingDeletes) && timers == old(timers)
    {
      HandleUpdateList(Some(dir), false, freshId);
    }

    /** An item of the list moves directly below `parentId` (first when that is not in the list). */
    method MoveWithin(d: ListItem, parentId: string)
      requires Valid() && d in items
      modifies this
      ensures Valid() && items == MoveItem(old(items), d, parentId) && d in items
      ensures pendingDeletes == old(pendingDeletes) && timers == old(timers)
      ensures nextHandle == old(nextHandle) && currentList == old(currentList)
    {
      MoveWellFormed(items, d, parentId);
      items := MoveItem(items, d, parentId);
    }

    /** With no textfield open, a NEW textfield with a fresh id opens below `parentId`. */
    method OpenNewTextfield(parentId: string, freshId: string)
      requires Valid() && GetTextfield(items).None? && freshId != Head && freshId !in Ids(items)
      modifies this
      ensures Valid() && items == AddNewTextfield(old(items), parentId, freshId)
      ensures pendingDeletes == old(pendingDeletes) && timers == old(timers)
      ensures nextHandle == old(nextHandle) && currentList == old(currentList)
    {
      OpenTextfieldFacts(items, parentId, freshId);
      items := AddNewTextfield(items, parentId, freshId);
    }

    /** A click on an item's text (see `ItemClickItems`); it takes the focus. Committing an open
        empty EDIT item on the way schedules its immediate deletion. */
    method HandleItemClick(item: ListItem)
      requires Valid()
      modifies this
      ensures Valid() && currentList == listId && old(nextHandle) <= nextHandle
      ensures items == ItemClickItems(old(items), item)
      ensures item.status == Some(Deleting) || !CommitSchedulesDelete(old(items)) ==>
        pendingDeletes == old(pendingDeletes) && timers == old(timers)
      ensures item.status != Some(Deleting) && CommitSchedulesDelete(old(items)) ==>
        ScheduledFrom(old(pendingDeletes), old(timers), old(nextHandle), pendingDeletes, timers,
                      GetTextfield(old(items)).value.id, Timer(GetTextfield(old(items)).value.id, 0, Scheduled))
    {
      currentList := listId;
      if item.status == Some(Deleting) {
        return;
      }
      CommitWithoutShift(items);
      if GetTextfield(items).Some? {
        HandleUpdateList(None, false, "");
      }
      OpenForEdit(item);
    }

    /** The clicked item turns EDIT in place, once no textfield is open. */
    method OpenForEdit(item: ListItem)
      requires Valid() && GetTextfield(items).None?
      modifies this
      ensures Valid() && items == UpdateItem(old(items), item.(status := Some(Edit)))
      ensures pendingDeletes == old(pendingDeletes) && timers == old(timers)
      ensures nextHandle == old(nextHandle) && currentList == old(currentList)
    {
      UpdateWellFormed(items, item.(status := Some(Edit)));
      items := UpdateItem(items, item.(status := Some(Edit)));
    }

    /** A drag ends: the dragged item `data[to]` moves after `data[to - 1]` (or first) when its
        position changed, and loses its status either way (see `DropItemsFacts`). */
    method HandleDropItem(data: seq<ListItem>, from: nat, to: nat)
      requires Valid() && multiset(data) == multiset(items) && from < |data| && to < |data|
      modifies this
      ensures Valid()
      ensures items == DropItems(old(items), data, from, to)
      ensures currentList == old(currentList) && pendingDeletes == old(pendingDeletes) && timers == old(timers)
    {
      var dragged := data[to];
      assert dragged in multiset(items);
      if from != to {
        MoveWithin(dragged, DropParent(data, to));
      }
      ClearStatus(dragged);
    }

    /** An item of the list loses its status in place. */
    method ClearStatus(d: ListItem)
      requires Valid() && d in items
      modifies this
      ensures Valid() && items == UpdateItem(old(items), d.(status := None))
      ensures pendingDeletes == old(pendingDeletes) && timers == old(timers)
      ensures nextHandle == old(nextHandle) && currentList == old(currentList)
    {
      ClearStatusFacts(items, d);
      items := UpdateItem(items, d.(status := None));
    }

    /** The focus moves to list `newList`: focus on another list commits this list's textfield as a
        last update, then every pending delete is rescheduled, so each pending id, including one
        just scheduled, ends with a fresh guarded timer of the full grace period. */
    method OnCurrentListChange(newList: string)
      requires Valid()
      modifies this
      ensures Valid()
      ensures items == if newList == listId then old(items) else CommitItems(old(items), None, "")
      ensures newList != listId ==> GetTextfield(items).None?
      ensures currentList == if newList != listId && CommitSchedulesDelete(old(items)) then listId else newList
      ensures old(pendingDeletes).Keys <= pendingDeletes.Keys
      ensures pendingDeletes.Keys == old(pendingDeletes).Keys +
        if newList != listId && CommitSchedulesDelete(old(items)) then {GetTextfield(old(items)).value.id} else {}
      ensures forall id :: id in pendingDeletes ==>
        old(nextHandle) <= pendingDeletes[id] && pendingDeletes[id] in timers
        && timers[pendingDeletes[id]] == Timer(id, DeleteDelay, Rescheduled)
      ensures forall h :: h in timers && h < old(nextHandle) ==>
        h in old(timers) && h !in old(pendingDeletes).Values && timers[h] == old(timers)[h]
      ensures forall h :: h in old(timers) && h !in old(pendingDeletes).Values ==> h in timers
      ensures forall h :: h in timers && old(nextHandle) <= h ==>
        timers[h].itemId in pendingDeletes &&
        (pendingDeletes[timers[h].itemId] == h ||
         (timers[h].itemId in old(pendingDeletes) && timers[h] == Timer(timers[h].itemId, DeleteDelay, Rescheduled)))
    {
      CommitItemsFacts(items, None, "");
      ghost var p0, t0, n0 := pendingDeletes, timers, nextHandle;
      ghost var schedules := newList != listId && CommitSchedulesDelete(items);
      ghost var id := if schedules then GetTextfield(items).value.id else "";
      currentList := newList;
      if newList != listId {
        HandleUpdateList(None, true, "");
      }
      ghost var p1, t1, n1 := pendingDeletes, timers, nextHandle;
      RescheduleAllDeletes();
      if schedules {
        ScheduleThenReschedule(p0, t0, n0, p1, t1, n1, pendingDeletes, timers, id, Timer(id, 0, Scheduled));
      }
    }
  }
}
