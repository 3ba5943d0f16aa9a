/**
 * The operations of the `useSortedList` hook that `SortableList.tsx` calls, over the
 * ordered item sequence the hook holds. The hook's source is not part of this model:
 * each operation is given the smallest definition its callers rely on (replace by id,
 * remove by id, place after a given id), and the sequence order stands for the
 * sort-key order.
 */
module SortedListHook {
  import opened Wrappers
  import opened ListEnums

  datatype ListItem = ListItem(id: string, value: string, status: Option<ItemStatus>)

  /** The parent id of the line above the first row. */
  const Head: string := "TODO"

  /** A row is rendered as a textfield when its status is EDIT or NEW. */
  predicate IsTextfield(item: ListItem) {
    item.status == Some(Edit) || item.status == Some(New)
  }

  function TextfieldWeight(item: ListItem): nat {
    if IsTextfield(item) then 1 else 0
  }

  function Ids(s: seq<ListItem>): set<string> {
    set i | 0 <= i < |s| :: s[i].id
  }

  predicate UniqueIds(s: seq<ListItem>) {
    forall i, j :: 0 <= i < j < |s| ==> s[i].id != s[j].id
  }

  function TextfieldCount(s: seq<ListItem>): nat {
    if s == [] then 0 else TextfieldWeight(s[0]) + TextfieldCount(s[1..])
  }

  /** The invariant of a list: unique ids, none equal to the head sentinel, at most one textfield. */
  predicate WellFormed(s: seq<ListItem>) {
    UniqueIds(s) && Head !in Ids(s) && TextfieldCount(s) <= 1
  }

  /** `getTextfield`: the first item that is NEW or EDIT, if any. */
  function GetTextfield(s: seq<ListItem>): (r: Option<ListItem>)
    ensures r.None? <==> forall x :: x in s ==> !IsTextfield(x)
    ensures r.Some? ==> r.value in s && IsTextfield(r.value)
  {
    if s == [] then None
    else if IsTextfield(s[0]) then Some(s[0])
    else GetTextfield(s[1..])
  }

  /** The position of the first item with the given id. */
  function IndexOf(s: seq<ListItem>, id: string): (r: Option<nat>)
    ensures r.None? <==> id !in Ids(s)
    ensures r.Some? ==> r.value < |s| && s[r.value].id == id
    ensures r.Some? ==> forall j :: 0 <= j < r.value ==> s[j].id != id
  {
    if s == [] then None
    else if s[0].id == id then Some(0)
    else match IndexOf(s[1..], id)
      case None => None
      case Some(k) => Some(k + 1)
  }

  /** `getItemById`. */
  function GetItemById(s: seq<ListItem>, id: string): Option<ListItem> {
    match IndexOf(s, id)
    case None => None
    case Some(i) => Some(s[i])
  }

  /** `getParentId`: the id of the item just above, or the head sentinel for the first (or an absent) item. */
  function GetParentId(s: seq<ListItem>, id: string): string {
    match IndexOf(s, id)
    case Some(i) => if i > 0 then s[i - 1].id else Head
    case None => Head
  }

  /** `updateItem`: every item with the given item's id is replaced by it; nothing moves. */
  function UpdateItem(s: seq<ListItem>, x: ListItem): (r: seq<ListItem>)
    ensures |r| == |s|
    ensures forall i :: 0 <= i < |s| ==> r[i] == if s[i].id == x.id then x else s[i]
  {
    if s == [] then [] else [if s[0].id == x.id then x else s[0]] + UpdateItem(s[1..], x)
  }

  /** `deleteItem`: drops every item with the given id, keeping the others in order. */
  function DeleteItem(s: seq<ListItem>, id: string): (r: seq<ListItem>)
    ensures forall x :: x in r <==> x in s && x.id != id
    ensures id !in Ids(s) ==> r == s
  {
    if s == [] then []
    else if s[0].id == id then DeleteItem(s[1..], id)
    else [s[0]] + DeleteItem(s[1..], id)
  }

  /** `DeleteItem` is the order-keeping filter: it distributes over concatenation (see
      `DeleteItemSingle` for one item). */
  lemma {:induction false} DeleteItemConcat(a: seq<ListItem>, b: seq<ListItem>, id: string)
    ensures DeleteItem(a + b, id) == DeleteItem(a, id) + DeleteItem(b, id)
  {
    if a == [] {
      assert a + b == b;
    } else {
      var c := a + b;
      assert c[0] == a[0] && c[1..] == a[1..] + b;
      DeleteItemConcat(a[1..], b, id);
    }
  }

  /** A single item is dropped exactly when it has the id. */
  lemma DeleteItemSingle(x: ListItem, id: string)
    ensures DeleteItem([x], id) == if x.id == id then [] else [x]
  {
    assert [x][1..] == [];
  }

  /** Places an item just after the item with id `parentId`, or at the head when there is none. */
  function InsertAfter(s: seq<ListItem>, parentId: string, x: ListItem): seq<ListItem> {
    match IndexOf(s, parentId)
    case Some(i) => s[..i + 1] + [x] + s[i + 1..]
    case None => [x] + s
  }

  /** `moveItem`: takes the item out and places it after `parentId`. */
  function MoveItem(s: seq<ListItem>, x: ListItem, parentId: string): seq<ListItem> {
    InsertAfter(DeleteItem(s, x.id), parentId, x)
  }

  function NewTextfield(id: string): ListItem {
    ListItem(id, "", Some(New))
  }

  /** `addNewTextfield`: a fresh, empty NEW item after `parentId`. */
  function AddNewTextfield(s: seq<ListItem>, parentId: string, freshId: string): seq<ListItem> {
    InsertAfter(s, parentId, NewTextfield(freshId))
  }

  /** `moveTextfield`: moves the open textfield after `parentId`, or opens a fresh one there. */
  function MoveTextfield(s: seq<ListItem>, parentId: string, freshId: string): seq<ListItem> {
    match GetTextfield(s)
    case Some(t) => MoveItem(s, t, parentId)
    case None => AddNewTextfield(s, parentId, freshId)
  }

  // ----- Lemmas about the hook operations -----

  lemma {:induction false} TextfieldCountConcat(a: seq<ListItem>, b: seq<ListItem>)
    ensures TextfieldCount(a + b) == TextfieldCount(a) + TextfieldCount(b)
  {
    if a != [] {
      assert (a + b)[1..] == a[1..] + b;
      TextfieldCountConcat(a[1..], b);
    } else {
      assert a + b == b;
    }
  }

  /** No textfield is open exactly when the count of textfields is zero. */
  lemma {:induction false} NoTextfieldIffZero(s: seq<ListItem>)
    ensures GetTextfield(s).None? <==> TextfieldCount(s) == 0
  {
    if s != [] {
      NoTextfieldIffZero(s[1..]);
    }
  }

  /** In a list with unique ids, the position of an id is where it occurs. */
  lemma IndexOfUnique(s: seq<ListItem>, k: nat)
    requires UniqueIds(s) && k < |s|
    ensures IndexOf(s, s[k].id) == Some(k)
  {
  }

  lemma UniqueTail(s: seq<ListItem>)
    requires s != [] && UniqueIds(s)
    ensures UniqueIds(s[1..]) && s[0].id !in Ids(s[1..])
  {
  }

  lemma UniqueCons(x: ListItem, t: seq<ListItem>)
    requires UniqueIds(t) && x.id !in Ids(t)
    ensures UniqueIds([x] + t)
  {
    var s := [x] + t;
    forall i, j | 0 <= i < j < |s| ensures s[i].id != s[j].id {
      assert s[j] == t[j - 1];
      if i > 0 {
        assert s[i] == t[i - 1];
      } else {
        assert t[j - 1] in t;
      }
    }
  }

  /** Deleting by id keeps the ids unique and removes exactly that id. */
  lemma {:induction false} DeleteKeepsUnique(s: seq<ListItem>, id: string)
    requires UniqueIds(s)
    ensures UniqueIds(DeleteItem(s, id))
    ensures Ids(DeleteItem(s, id)) == Ids(s) - {id}
  {
    var r := DeleteItem(s, id);
    assert Ids(r) == Ids(s) - {id} by {
      forall y | y in Ids(s) - {id} ensures y in Ids(r) {
        var x :| x in s && x.id == y;
        assert x in r;
      }
    }
    if s != [] {
      UniqueTail(s);
      DeleteKeepsUnique(s[1..], id);
      if s[0].id != id {
        UniqueCons(s[0], DeleteItem(s[1..], id));
      }
    }
  }

  /** Deleting the item with a (unique) id removes exactly its share of textfields. */
  lemma {:induction false} DeleteTextfieldCount(s: seq<ListItem>, k: nat)
    requires UniqueIds(s) && k < |s|
    ensures TextfieldCount(DeleteItem(s, s[k].id)) + TextfieldWeight(s[k]) == TextfieldCount(s)
  {
    UniqueTail(s);
    if k == 0 {
      assert DeleteItem(s[1..], s[0].id) == s[1..];
    } else {
      assert s[1..][k - 1] == s[k];
      DeleteTextfieldCount(s[1..], k - 1);
    }
  }

  /** Replacing the item with a (unique) id trades its share of textfields for the new item's. */
  lemma {:induction false} UpdateTextfieldCount(s: seq<ListItem>, k: nat, x: ListItem)
    requires UniqueIds(s) && k < |s| && s[k].id == x.id
    ensures TextfieldCount(UpdateItem(s, x)) + TextfieldWeight(s[k]) == TextfieldCount(s) + TextfieldWeight(x)
  {
    UniqueTail(s);
    var r := UpdateItem(s, x);
    assert r[1..] == UpdateItem(s[1..], x);
    if k == 0 {
      assert UpdateItem(s[1..], x) == s[1..] by {
        forall i | 0 <= i < |s[1..]| ensures s[1..][i].id != x.id {
          assert s[1..][i] in s[1..];
        }
      }
    } else {
      assert s[1..][k - 1] == s[k];
      UpdateTextfieldCount(s[1..], k - 1, x);
    }
  }

  /** An update never changes which id sits where. */
  lemma UpdateKeepsPlaces(s: seq<ListItem>, x: ListItem, id: string)
    ensures IndexOf(UpdateItem(s, x), id) == IndexOf(s, id)
    ensures GetParentId(UpdateItem(s, x), id) == GetParentId(s, id)
    ensures Ids(UpdateItem(s, x)) == Ids(s)
  {
    SameIdsSamePlaces(s, UpdateItem(s, x), id);
  }

  /** After an update, looking up the updated id finds the new item, and any other id finds what
      it found before. */
  lemma UpdateFinds(s: seq<ListItem>, x: ListItem, id: string)
    ensures GetItemById(UpdateItem(s, x), id) == if id == x.id && id in Ids(s) then Some(x) else GetItemById(s, id)
  {
    UpdateKeepsPlaces(s, x, id);
  }

  /** Updating one item keeps every item with another id, each where it was. */
  lemma UpdateKeepsOthers(s: seq<ListItem>, e: ListItem)
    ensures forall x :: x in s && x.id != e.id ==> x in UpdateItem(s, e)
    ensures forall id :: id != e.id && IndexOf(s, id).Some? ==> UpdateItem(s, e)[IndexOf(s, id).value] == s[IndexOf(s, id).value]
  {
    var r := UpdateItem(s, e);
    forall x | x in s && x.id != e.id ensures x in r {
      var i :| 0 <= i < |s| && s[i] == x;
      assert r[i] == x;
    }
  }

  /** Two lists with the same ids at the same places agree on where every id is. */
  lemma {:induction false} SameIdsSamePlaces(s: seq<ListItem>, r: seq<ListItem>, id: string)
    requires |r| == |s| && forall i :: 0 <= i < |s| ==> r[i].id == s[i].id
    ensures IndexOf(r, id) == IndexOf(s, id)
    ensures GetParentId(r, id) == GetParentId(s, id)
    ensures Ids(r) == Ids(s)
  {
    if s != [] {
      SameIdsSamePlaces(s[1..], r[1..], id);
    }
  }

  /** Updating keeps the list well formed as long as at most one textfield results. */
  lemma UpdateWellFormed(s: seq<ListItem>, x: ListItem)
    requires WellFormed(s)
    requires IsTextfield(x) ==> GetTextfield(s).None?
    ensures UniqueIds(UpdateItem(s, x)) && Head !in Ids(UpdateItem(s, x))
    ensures TextfieldCount(UpdateItem(s, x)) <= TextfieldCount(s) + TextfieldWeight(x)
    ensures !IsTextfield(x) ==> TextfieldCount(UpdateItem(s, x)) <= TextfieldCount(s)
    ensures WellFormed(UpdateItem(s, x))
  {
    var r := UpdateItem(s, x);
    UpdateKeepsPlaces(s, x, x.id);
    assert UniqueIds(r) by {
      forall i, j | 0 <= i < j < |r| ensures r[i].id != r[j].id {
        assert r[i].id == s[i].id && r[j].id == s[j].id;
      }
    }
    NoTextfieldIffZero(s);
    match IndexOf(s, x.id)
    case None =>
      assert r == s by {
        forall i | 0 <= i < |s| ensures r[i] == s[i] {
          assert s[i].id in Ids(s);
        }
      }
    case Some(k) =>
      UpdateTextfieldCount(s, k, x);
  }

  lemma InsertAtUnique(s: seq<ListItem>, k: nat, x: ListItem)
    requires UniqueIds(s) && k <= |s| && x.id !in Ids(s)
    ensures UniqueIds(s[..k] + [x] + s[k..])
  {
    var r := s[..k] + [x] + s[k..];
    forall i, j | 0 <= i < j < |r| ensures r[i].id != r[j].id {
      if j < k {
        assert r[i] == s[i] && r[j] == s[j];
      } else if j == k {
        assert r[i] == s[i] && r[j] == x;
      } else if i < k {
        assert r[i] == s[i] && r[j] == s[j - 1];
      } else if i == k {
        assert r[i] == x && r[j] == s[j - 1];
      } else {
        assert r[i] == s[i - 1] && r[j] == s[j - 1];
      }
    }
  }

  lemma InsertAtIds(s: seq<ListItem>, k: nat, x: ListItem)
    requires k <= |s|
    ensures Ids(s[..k] + [x] + s[k..]) == Ids(s) + {x.id}
  {
    var r := s[..k] + [x] + s[k..];
    forall y | y in Ids(s) ensures y in Ids(r) {
      var i :| 0 <= i < |s| && s[i].id == y;
      if i < k { assert r[i] == s[i]; } else { assert r[i + 1] == s[i]; }
    }
    forall y | y in Ids(r) ensures y in Ids(s) + {x.id} {
      var j :| 0 <= j < |r| && r[j].id == y;
      if j < k { assert r[j] == s[j]; } else if j > k { assert r[j] == s[j - 1]; }
    }
    assert r[k] == x;
  }

  lemma InsertAtCount(s: seq<ListItem>, k: nat, x: ListItem)
    requires k <= |s|
    ensures TextfieldCount(s[..k] + [x] + s[k..]) == TextfieldCount(s) + TextfieldWeight(x)
  {
    TextfieldCountConcat(s[..k] + [x], s[k..]);
    TextfieldCountConcat(s[..k], [x]);
    TextfieldCountConcat(s[..k], s[k..]);
    assert s[..k] + s[k..] == s;
    assert TextfieldCount([x]) == TextfieldWeight(x) by {
      assert [x][1..] == [];
    }
  }

  /** Inserting an item with a new id keeps the ids unique and adds its share of textfields. */
  lemma InsertAtFacts(s: seq<ListItem>, k: nat, x: ListItem)
    requires UniqueIds(s) && k <= |s| && x.id !in Ids(s)
    ensures UniqueIds(s[..k] + [x] + s[k..])
    ensures Ids(s[..k] + [x] + s[k..]) == Ids(s) + {x.id}
    ensures TextfieldCount(s[..k] + [x] + s[k..]) == TextfieldCount(s) + TextfieldWeight(x)
  {
    InsertAtUnique(s, k, x);
    InsertAtIds(s, k, x);
    InsertAtCount(s, k, x);
  }

  /** The position `InsertAfter` gives the new item: just after `parentId`, or first. */
  function InsertPos(s: seq<ListItem>, parentId: string): (k: nat)
    ensures k <= |s|
    ensures k > 0 <==> parentId in Ids(s)
    ensures k > 0 ==> s[k - 1].id == parentId
  {
    match IndexOf(s, parentId)
    case Some(i) => i + 1
    case None => 0
  }

  /** `InsertAfter` is an insertion at `InsertPos`. */
  lemma InsertAfterAt(s: seq<ListItem>, parentId: string, x: ListItem)
    ensures InsertAfter(s, parentId, x) == s[..InsertPos(s, parentId)] + [x] + s[InsertPos(s, parentId)..]
  {
    if InsertPos(s, parentId) == 0 {
      assert s[..0] == [] && s[0..] == s;
    }
  }

  /** Where `InsertAfter` puts an item with a new id. */
  lemma InsertAfterFacts(s: seq<ListItem>, parentId: string, x: ListItem)
    requires UniqueIds(s) && x.id !in Ids(s)
    ensures UniqueIds(InsertAfter(s, parentId, x))
    ensures Ids(InsertAfter(s, parentId, x)) == Ids(s) + {x.id}
    ensures TextfieldCount(InsertAfter(s, parentId, x)) == TextfieldCount(s) + TextfieldWeight(x)
    ensures GetParentId(InsertAfter(s, parentId, x), x.id) == if parentId in Ids(s) then parentId else Head
    ensures forall y :: y in InsertAfter(s, parentId, x) <==> y in s || y == x
  {
    var k := InsertPos(s, parentId);
    InsertAfterAt(s, parentId, x);
    InsertAtFacts(s, k, x);
    InsertAfterParent(s, k, x);
    InsertAtMembers(s, k, x);
  }

  /** After an insertion with a new id at `k`, the parent of the new item is the item before it. */
  lemma InsertAfterParent(s: seq<ListItem>, k: nat, x: ListItem)
    requires UniqueIds(s) && x.id !in Ids(s) && k <= |s|
    ensures GetParentId(s[..k] + [x] + s[k..], x.id) == if k > 0 then s[k - 1].id else Head
  {
    var r := s[..k] + [x] + s[k..];
    InsertAtUnique(s, k, x);
    assert r[k] == x;
    IndexOfUnique(r, k);
    if k > 0 {
      assert r[k - 1] == s[k - 1];
    }
  }

  /** The items after an insertion are the old ones and the new one. */
  lemma InsertAtMembers(s: seq<ListItem>, k: nat, x: ListItem)
    requires k <= |s|
    ensures forall y :: y in s[..k] + [x] + s[k..] <==> y in s || y == x
  {
    assert s == s[..k] + s[k..];
  }

  /** Moving an item keeps the list's ids and places the item after `parentId`. */
  lemma MoveItemFacts(s: seq<ListItem>, x: ListItem, parentId: string)
    requires UniqueIds(s)
    ensures UniqueIds(MoveItem(s, x, parentId))
    ensures Ids(MoveItem(s, x, parentId)) == Ids(s) + {x.id}
    ensures GetParentId(MoveItem(s, x, parentId), x.id) ==
              if parentId in Ids(s) && parentId != x.id then parentId else Head
    ensures forall y :: y in MoveItem(s, x, parentId) <==> (y in s && y.id != x.id) || y == x
  {
    DeleteKeepsUnique(s, x.id);
    InsertAfterFacts(DeleteItem(s, x.id), parentId, x);
  }

  /** The textfield count after moving: the moved item's share replaces the old share of its id. */
  lemma MoveItemTextfieldCount(s: seq<ListItem>, k: nat, x: ListItem, parentId: string)
    requires UniqueIds(s) && k < |s| && s[k].id == x.id
    ensures TextfieldCount(MoveItem(s, x, parentId)) + TextfieldWeight(s[k]) == TextfieldCount(s) + TextfieldWeight(x)
  {
    DeleteKeepsUnique(s, x.id);
    DeleteTextfieldCount(s, k);
    InsertAfterFacts(DeleteItem(s, x.id), parentId, x);
  }

  /** In a well-formed list the open textfield is the only one, and its id is found at its place. */
  lemma TheTextfield(s: seq<ListItem>)
    requires WellFormed(s) && GetTextfield(s).Some?
    ensures var t := GetTextfield(s).value;
      && IndexOf(s, t.id).Some? && s[IndexOf(s, t.id).value] == t
      && TextfieldCount(s) == 1
  {
    var t := GetTextfield(s).value;
    var k :| 0 <= k < |s| && s[k] == t;
    IndexOfUnique(s, k);
    NoTextfieldIffZero(s);
  }
}
