/**
 * List persistence of src/feature/sorted_lists/storage/listStorage.tsx over a key-value
 * store. The store is a map from key to the record that `JSON.stringify` would write
 * (JSON round trips are the identity here); the folder storage the module calls into is a
 * second map, from folder id to folder.
 */
module ListStorage {
  import opened Wrappers
  import opened SortedListHook

  datatype FolderItemKind = FolderKind | ListKind

  /** An entry of a folder; `listId` is the id of the folder that holds it. */
  datatype FolderItem = FolderItem(id: string, listId: string, value: string, sortId: real,
                                   childrenCount: nat, kind: FolderItemKind)

  /** What a stored record carries under `items`: a list's items or, once `deleteList` has
      written a folder through `saveList`, a folder's entries. */
  datatype Contents = ListContents(listItems: seq<ListItem>) | FolderContents(folderItems: seq<FolderItem>)

  /** A record of the list key space: the folder-item fields, the parent folder id ("" when
      absent) and the items. */
  datatype Record = Record(info: FolderItem, parentFolderId: string, contents: Contents)

  datatype Folder = Folder(info: FolderItem, items: seq<FolderItem>)

  /** `getListKey`: distinct list ids have distinct keys, each prefixed "list_". */
  function ListKey(listId: string): (k: string)
    ensures |k| == |listId| + 5 && k[..5] == "list_" && k[5..] == listId
  {
    "list_" + listId
  }

  /** `getList`: nothing for a missing or empty id, or for an id whose key is not stored. */
  function GetList(lists: map<string, Record>, listId: Option<string>): (r: Option<Record>)
    ensures r.Some? <==> listId.Some? && listId.value != "" && ListKey(listId.value) in lists
    ensures r.Some? ==> r.value == lists[ListKey(listId.value)]
  {
    if listId.None? || listId.value == "" then None
    else if ListKey(listId.value) in lists then Some(lists[ListKey(listId.value)])
    else None
  }

  /** The folder storage's `getFolder`. */
  function GetFolder(folders: map<string, Folder>, folderId: string): Option<Folder> {
    if folderId in folders then Some(folders[folderId]) else None
  }

  /** `items.filter(item => item.id !== id)`. */
  function RemoveEntry(items: seq<FolderItem>, id: string): (r: seq<FolderItem>)
    ensures forall x :: x in r <==> x in items && x.id != id
    ensures |r| <= |items|
  {
    if items == [] then []
    else if items[0].id == id then RemoveEntry(items[1..], id)
    else [items[0]] + RemoveEntry(items[1..], id)
  }

  /** `RemoveEntry` is the order-keeping filter: it distributes over concatenation (see
      `RemoveEntrySingle` for one entry). */
  lemma {:induction false} RemoveEntryConcat(a: seq<FolderItem>, b: seq<FolderItem>, id: string)
    ensures RemoveEntry(a + b, id) == RemoveEntry(a, id) + RemoveEntry(b, id)
  {
    if a == [] {
      assert a + b == b;
    } else {
      var c := a + b;
      assert c[0] == a[0] && c[1..] == a[1..] + b;
      RemoveEntryConcat(a[1..], b, id);
    }
  }

  /** A single entry is dropped exactly when it has the id. */
  lemma RemoveEntrySingle(x: FolderItem, id: string)
    ensures RemoveEntry([x], id) == if x.id == id then [] else [x]
  {
    assert [x][1..] == [];
  }

  /** `items.findIndex(item => item.id === id)`: the first index holding the id, or -1. */
  function FindIndex(items: seq<FolderItem>, id: string): (r: int)
    ensures -1 <= r < |items|
    ensures r == -1 <==> forall i :: 0 <= i < |items| ==> items[i].id != id
    ensures r >= 0 ==> items[r].id == id && forall i :: 0 <= i < r ==> items[i].id != id
  {
    if items == [] then -1
    else if items[0].id == id then 0
    else
      var k := FindIndex(items[1..], id);
      if k == -1 then -1 else k + 1
  }

  /** A parent id that JavaScript treats as present (not undefined, not ""). */
  predicate Truthy(id: Option<string>) {
    id.Some? && id.value != ""
  }

  /** The folders after a re-parent: the entry's id is filtered out of the old parent, then the
      entry is appended to the new parent as it reads after that first write. */
  function Reparented(folders: map<string, Folder>, oldParentId: string, newParentId: string, entry: FolderItem): map<string, Folder> {
    var f1 := if oldParentId in folders
      then folders[oldParentId := folders[oldParentId].(items := RemoveEntry(folders[oldParentId].items, entry.id))]
      else folders;
    if newParentId in f1 then f1[newParentId := f1[newParentId].(items := f1[newParentId].items + [entry])] else f1
  }

  /** A re-parent keeps the folder set and every folder's own fields; the entry ends last in a
      present new parent, is filtered out of a present old parent that differs, appears
      exactly once (at the end) when both parents are the same folder, and no other folder
      changes. */
  lemma ReparentedFacts(folders: map<string, Folder>, oldParentId: string, newParentId: string, entry: FolderItem)
    ensures var r := Reparented(folders, oldParentId, newParentId, entry);
      && r.Keys == folders.Keys
      && (forall k :: k in r ==> r[k].info == folders[k].info)
      && (forall k :: k in r && k != oldParentId && k != newParentId ==> r[k] == folders[k])
      && (newParentId in folders ==> |r[newParentId].items| > 0 && r[newParentId].items[|r[newParentId].items| - 1] == entry)
      && (oldParentId in folders && oldParentId != newParentId ==>
            && (forall x :: x in r[oldParentId].items ==> x.id != entry.id)
            && r[oldParentId].items == RemoveEntry(folders[oldParentId].items, entry.id))
      && (oldParentId in folders && oldParentId == newParentId ==>
            r[newParentId].items == RemoveEntry(folders[oldParentId].items, entry.id) + [entry])
      && (newParentId in folders && oldParentId != newParentId ==>
            r[newParentId].items == folders[newParentId].items + [entry])
  {
  }

  /** The folders after `saveListItems` patches the parent entry of `list`: the first entry with
      the list's id takes the new children count. */
  function PatchChildrenCount(folders: map<string, Folder>, list: Record, n: nat): map<string, Folder> {
    match GetFolder(folders, list.parentFolderId)
    case None => folders
    case Some(p) =>
      var i := FindIndex(p.items, list.info.id);
      if i == -1 || p.info.id !in folders then folders
      else folders[p.info.id := folders[p.info.id].(items := p.items[i := p.items[i].(childrenCount := n)])]
  }

  /** In a folder store whose folders sit under their own ids, the parent's first entry for the
      list gets count n and every other entry and folder is unchanged. */
  lemma PatchChildrenCountFacts(folders: map<string, Folder>, list: Record, n: nat)
    requires forall k :: k in folders ==> folders[k].info.id == k
    ensures var r := PatchChildrenCount(folders, list, n);
      && r.Keys == folders.Keys
      && (forall k :: k in r && k != list.parentFolderId ==> r[k] == folders[k])
      && (list.parentFolderId in folders ==>
            var p := folders[list.parentFolderId];
            var q := r[list.parentFolderId];
            && q.info == p.info && |q.items| == |p.items|
            && (forall i :: 0 <= i < |p.items| && i != FindIndex(p.items, list.info.id) ==> q.items[i] == p.items[i])
            && (FindIndex(p.items, list.info.id) >= 0 ==>
                  q.items[FindIndex(p.items, list.info.id)] == p.items[FindIndex(p.items, list.info.id)].(childrenCount := n)))
  {
  }

  /** The list key space after `deleteList` as written: the parent folder, filtered, is written
      through `saveList` (under the parent's list key), then the list's key is deleted. */
  function DeleteListAsWritten(lists: map<string, Record>, folders: map<string, Folder>, listId: string): map<string, Record> {
    var written := match GetList(lists, Some(listId))
      case None => lists
      case Some(l) =>
        if l.parentFolderId != "" && GetFolder(folders, l.parentFolderId).Some? then
          var p := GetFolder(folders, l.parentFolderId).value;
          lists[ListKey(p.info.id) := Record(p.info, "", FolderContents(RemoveEntry(p.items, listId)))]
        else lists;
    written - {ListKey(listId)}
  }

  /** As written, deleting a list removes its record and puts the parent's filtered entries, as a
      folder record, into the list key space under the parent's id. `DeleteList` writes nothing
      else, so the folder storage still lists the deleted list. */
  lemma DeleteListLeavesEntry(lists: map<string, Record>, folders: map<string, Folder>, listId: string)
    requires listId != "" && ListKey(listId) in lists
    requires var pid := lists[ListKey(listId)].parentFolderId;
      pid != "" && pid in folders && folders[pid].info.id == pid && pid != listId
    ensures var pid := lists[ListKey(listId)].parentFolderId;
      var r := DeleteListAsWritten(lists, folders, listId);
      && ListKey(listId) !in r
      && ListKey(pid) in r && r[ListKey(pid)].contents.FolderContents?
      && r[ListKey(pid)].contents.folderItems == RemoveEntry(folders[pid].items, listId)
  {
  }

  /** The folders after `deleteList` as evidently intended: the parent folder, filtered, is saved
      as a folder. */
  function DeleteListFolders(lists: map<string, Record>, folders: map<string, Folder>, listId: string): map<string, Folder> {
    match GetList(lists, Some(listId))
    case None => folders
    case Some(l) =>
      if l.parentFolderId != "" && GetFolder(folders, l.parentFolderId).Some? then
        var p := GetFolder(folders, l.parentFolderId).value;
        folders[p.info.id := p.(items := RemoveEntry(p.items, listId))]
      else folders
  }

  /** With the intended write, no entry for the deleted list is left in its parent folder and
      every other folder is unchanged. */
  lemma DeleteListFoldersFacts(lists: map<string, Record>, folders: map<string, Folder>, listId: string)
    requires forall k :: k in folders ==> folders[k].info.id == k
    ensures var r := DeleteListFolders(lists, folders, listId);
      && r.Keys == folders.Keys
      && (forall k :: k in r ==> r[k].info == folders[k].info)
      && (GetList(lists, Some(listId)).Some? && GetList(lists, Some(listId)).value.parentFolderId != "" &&
          GetList(lists, Some(listId)).value.parentFolderId in folders ==>
            forall x :: x in r[GetList(lists, Some(listId)).value.parentFolderId].items ==> x.id != listId)
      && (forall k :: k in r && (GetList(lists, Some(listId)).None? || k != GetList(lists, Some(listId)).value.parentFolderId) ==>
            r[k] == folders[k])
  {
  }

  class ListStore {
    /** The list key space of the store. */
    var lists: map<string, Record>
    /** The folder storage, by folder id. */
    var folders: map<string, Folder>

    /** Every record sits under its own list key and every folder under its own id. */
    ghost predicate Valid()
      reads this
    {
      && (forall k :: k in lists ==> k == ListKey(lists[k].info.id))
      && (forall k :: k in folders ==> folders[k].info.id == k)
    }

    constructor ()
      ensures Valid() && lists == map[] && folders == map[]
    {
      lists := map[];
      folders := map[];
    }

    /** `saveList`: writes the record under its own list key. */
    method SaveList(list: Record)
      requires Valid()
      modifies this
      ensures Valid()
      ensures lists == old(lists)[ListKey(list.info.id) := list] && folders == old(folders)
    {
      lists := lists[ListKey(list.info.id) := list];
    }

    /** The folder storage's `saveFolder`. */
    method SaveFolder(folder: Folder)
      requires Valid()
      modifies this
      ensures Valid()
      ensures folders == old(folders)[folder.info.id := folder] && lists == old(lists)
    {
      folders := folders[folder.info.id := folder];
    }

    /** The folder storage's `saveFolderItems`: replaces the entries of a stored folder. */
    method SaveFolderItems(folderId: string, items: seq<FolderItem>)
      requires Valid()
      modifies this
      ensures Valid() && lists == old(lists)
      ensures folders == if folderId in old(folders) then old(folders)[folderId := old(folders)[folderId].(items := items)] else old(folders)
    {
      if folderId in folders {
        folders := folders[folderId := folders[folderId].(items := items)];
      }
    }

    /** `createList`: stores an empty list under the given parent; it is then what `getList` reads. */
    method CreateList(parentId: string, newListData: FolderItem)
      requires Valid()
      modifies this
      ensures Valid() && folders == old(folders)
      ensures lists == old(lists)[ListKey(newListData.id) := Record(newListData, parentId, ListContents([]))]
      ensures newListData.id != "" ==>
        GetList(lists, Some(newListData.id)) == Some(Record(newListData, parentId, ListContents([])))
    {
      SaveList(Record(newListData, parentId, ListContents([])));
    }

    /** `updateList`: nothing for a missing list; otherwise `newData`'s fields override the stored
        ones and, with a new parent id, the list is re-parented in the folder storage. */
    method UpdateList(newData: FolderItem, newParentId: Option<string>)
      requires Valid()
      modifies this
      ensures Valid()
      ensures GetList(old(lists), Some(newData.id)).None? ==> lists == old(lists) && folders == old(folders)
      ensures GetList(old(lists), Some(newData.id)).Some? ==>
        var l := GetList(old(lists), Some(newData.id)).value;
        && lists == old(lists)[ListKey(newData.id) :=
             l.(info := newData, parentFolderId := if Truthy(newParentId) then newParentId.value else l.parentFolderId)]
        && folders == if Truthy(newParentId) then Reparented(old(folders), l.parentFolderId, newParentId.value, newData) else old(folders)
    {
      var list := GetList(lists, Some(newData.id));
      if list.Some? {
        var newList := list.value.(info := newData);
        if newParentId.Some? && newParentId.value != "" {
          newList := newList.(parentFolderId := newParentId.value);
          var oldParentFolder := GetFolder(folders, list.value.parentFolderId);
          if oldParentFolder.Some? {
            SaveFolder(oldParentFolder.value.(items := RemoveEntry(oldParentFolder.value.items, newData.id)));
          }
          var parentFolder := GetFolder(folders, newParentId.value);
          if parentFolder.Some? {
            SaveFolder(parentFolder.value.(items := parentFolder.value.items + [newData]));
          }
        }
        SaveList(newList);
      }
    }

    /** `deleteList` as written: the filtered parent folder goes to the list key space, and the
        list's key is gone afterwards whatever the parent. */
    method DeleteList(listId: string)
      requires Valid()
      modifies this
      ensures Valid()
      ensures lists == DeleteListAsWritten(old(lists), old(folders), listId) && folders == old(folders)
      ensures ListKey(listId) !in lists
    {
      var list := GetList(lists, Some(listId));
      if list.Some? && list.value.parentFolderId != "" {
        var parentFolder := GetFolder(folders, list.value.parentFolderId);
        if parentFolder.Some? {
          SaveList(Record(parentFolder.value.info, "", FolderContents(RemoveEntry(parentFolder.value.items, listId))));
        }
      }
      lists := lists - {ListKey(listId)};
    }

    /** `deleteList` with the parent folder saved as a folder. */
    method DeleteListCorrected(listId: string)
      requires Valid()
      modifies this
      ensures Valid()
      ensures lists == old(lists) - {ListKey(listId)}
      ensures folders == DeleteListFolders(old(lists), old(folders), listId)
    {
      var list := GetList(lists, Some(listId));
      if list.Some? && list.value.parentFolderId != "" {
        var parentFolder := GetFolder(folders, list.value.parentFolderId);
        if parentFolder.Some? {
          SaveFolder(parentFolder.value.(items := RemoveEntry(parentFolder.value.items, listId)));
        }
      }
      lists := lists - {ListKey(listId)};
    }

    /** `saveListItems`: nothing for a missing list; otherwise its items are replaced wholesale and
        the parent folder's entry for it takes the new item count. */
    method SaveListItems(listId: string, newListItems: seq<ListItem>)
      requires Valid()
      modifies this
      ensures Valid()
      ensures GetList(old(lists), Some(listId)).None? ==> lists == old(lists) && folders == old(folders)
      ensures GetList(old(lists), Some(listId)).Some? ==>
        var l := GetList(old(lists), Some(listId)).value;
        && lists == old(lists)[ListKey(listId) := l.(contents := ListContents(newListItems))]
        && folders == PatchChildrenCount(old(folders), l, |newListItems|)
    {
      var listKey := ListKey(listId);
      var list := GetList(lists, Some(listId));
      if list.Some? {
        lists := lists[listKey := list.value.(contents := ListContents(newListItems))];
        var parentFolder := GetFolder(folders, list.value.parentFolderId);
        if parentFolder.Some? {
          var p := parentFolder.value;
          var listIndex := FindIndex(p.items, list.value.info.id);
          if listIndex != -1 {
            var newList := new FolderItem[|p.items|](i requires 0 <= i < |p.items| => p.items[i]);
            newList[listIndex] := newList[listIndex].(childrenCount := |newListItems|);
            assert newList[..] == p.items[listIndex := p.items[listIndex].(childrenCount := |newListItems|)];
            SaveFolderItems(p.info.id, newList[..]);
          }
        }
      }
    }
  }
}
