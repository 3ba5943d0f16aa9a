# Sorted lists, list storage and planner events, modelled in Dafny

This project models the core of a React Native outline and planner app: ordered lists whose
rows are either committed items or the one open textfield. It covers five parts of the app.

- **Checklist component** (`SortableList.tsx`). It handles:
  - committing the open textfield, with or without opening a fresh one below or above it;
  - clicks on the lines between rows and clicks on an item's text;
  - drag-and-drop;
  - the delete-with-undo scheduler. Every toggle of a DELETING item restarts the 3-second
    grace period of every pending delete.
- **List storage** (`listStorage.tsx`). It covers creating, reading, updating and deleting lists
  in the key-value store. Updates can re-parent a list between folders, and saving a list's
  items also patches the item count shown in the parent folder.
- **Time picker** (`TimeSelector.tsx`). It reads an initial `"HH:MM"` into a 12-hour hour, a
  minute and an AM/PM indicator, writes the three back as `"HH:MM"`, and labels the hour and
  minute wheels.
- **Day planner** (`SortedPlanner.tsx`) and **recurring weekday planner**
  (`SortedRecurringPlanner.tsx`). Typing into an event may pick up a start time, which re-sorts
  the event. The time modal's save recomputes the sort id. The planners also show collapse
  controls, a plan count, a hidden clock icon, and new recurring events linked to themselves.
  When the surrounding modal closes, the open recurring textfield is saved.

The modules follow the program's structure:

| file | module | models |
|---|---|---|
| `wrappers.dfy` | `Wrappers` | optional values (`undefined`) |
| `enums.dfy` | `ListEnums` | item statuses and textfield shift directions |
| `js_text.dfy` | `JsText` | the JavaScript `trim`, `padStart`, `String(n)` and digit strings the core relies on |
| `sorted_list_hook.dfy` | `SortedListHook` | the smallest model of the `useSortedList` operations the checklist calls |
| `sortable_list.dfy` | `SortableListComponent` | the checklist component: pure outcome functions, and the class `SortableList` with its timers |
| `list_storage.dfy` | `ListStorage` | the class `ListStore` over the list key space and the folder storage |
| `time_selector.dfy` | `TimeSelector` | parse, format and labels of the time picker |
| `planner_events.dfy` | `PlannerEvents` | planner events and the value-change rule both planners share |
| `sorted_planner.dfy` | `SortedPlannerComponent` | the day planner, class `SortedPlanner` |
| `sorted_recurring_planner.dfy` | `SortedRecurringPlannerComponent` | the recurring weekday planner, class `SortedRecurringPlanner` |

Some conventions hold throughout the model.

- **Timers.** `timers` maps each live handle to its timer: scheduled, not yet cleared and not
  yet fired. `pendingDeletes` is the component's id-to-handle map. A timer fires only when
  `FireTimer` is called on a live handle, so every interleaving of fires and user actions is
  covered.
  - A timer set when a delete is scheduled (`Scheduled`) deletes its item unconditionally.
  - A timer set by a reschedule pass (`Rescheduled`) deletes its item only if the item still
    exists.
  - Handles stand for the host's timer ids, which are never 0, so the source's truthiness test
    on a stored timer id is the test that the id has a pending timer.
- **The list.** The hook's items are a sequence; its order stands for the sort-key order.
  `'TODO'` is the parent id of the first row. A list is `WellFormed` when:
  - its ids are unique;
  - `'TODO'` is not an id;
  - at most one row is a textfield (NEW or EDIT).
- **Unseen helpers.** The time extractor `extractTimeValue` and the sort-id allocator
  `generateSortIdByTimestamp` are function-typed parameters. Every property about events
  therefore holds whatever those two helpers do.

## Model

| member | source | states |
|---|---|---|
| SortedListHook.GetTextfield | src/feature/sorted_lists/components/SortableList.tsx:230 | the textfield is an item of the list whose status is EDIT or NEW; there is none exactly when no item has either status |
| SortedListHook.DeleteItemConcat | src/feature/sorted_lists/components/SortableList.tsx:55 | deleting an id distributes over concatenation, so the other items keep their order |
| SortedListHook.DeleteItemSingle | src/feature/sorted_lists/components/SortableList.tsx:55 | a single item is dropped exactly when it has the id |
| SortableListComponent.CommitTextfieldFacts | src/feature/sorted_lists/components/SortableList.tsx:46-53 | committing a textfield with content keeps it in the list without a status and keeps every other item. Without a shift no textfield is left. With BELOW, a fresh empty textfield sits directly below the committed item; with ABOVE, directly above it, after the item's old parent |
| SortableListComponent.CommitItemsFacts | src/feature/sorted_lists/components/SortableList.tsx:41-76 | with no textfield nothing changes. A textfield with content stays, found by its id, without a status; an empty NEW one is removed; an empty EDIT one turns DELETING in place. The list stays well-formed and no item that is not the textfield is lost; without a shift no textfield is left open and no id is gained |
| SortableListComponent.LineClickFacts | src/feature/sorted_lists/components/SortableList.tsx:94-116 | a click just below or just above an empty textfield changes nothing. With none open, a fresh NEW textfield is added. Just below or above a textfield with content, that item is kept without a status and a fresh textfield opens. Elsewhere the open textfield itself, text included, moves and the ids are unchanged. Unless ignored, the one open textfield sits directly below the clicked line (first when the parent id is not in the list); the list stays well-formed and loses no other item |
| SortableListComponent.ItemClickFacts | src/feature/sorted_lists/components/SortableList.tsx:129-137 | a click on a DELETING item changes nothing. Otherwise the clicked item, if it is still in the list, becomes the one open textfield, in EDIT; the list stays well-formed and gains no id; and the `ItemClickKeeps` facts hold (below) |
| SortableListComponent.ItemClickCommitsFirst | src/feature/sorted_lists/components/SortableList.tsx:133-136 | an open textfield is committed before the clicked item opens: one with content (other than the clicked item) stays without a status, an empty NEW one is removed, an empty EDIT one other than the clicked item stays in place marked DELETING, and every item that is neither a textfield nor the clicked item stays |
| SortableListComponent.DropItemsFacts | src/feature/sorted_lists/components/SortableList.tsx:191-201 | after a drop, the dragged item is in the list without a status and no id is gained or lost; every other item stays. A moved item sits after the row before the drop position, or first; an unmoved drop changes no position |
| SortableListComponent.DropKeepsOthers | src/feature/sorted_lists/components/SortableList.tsx:191-201 | a drop keeps every item whose id is not the dragged item's |
| SortableListComponent.RescheduleStep | src/feature/sorted_lists/components/SortableList.tsx:143-152 | one step of the reschedule pass clears one id's timer and records a fresh guarded timer for it, and keeps the pass invariant |
| SortableListComponent.ScheduleAfterReschedule | src/feature/sorted_lists/components/SortableList.tsx:167-174 | a reschedule pass followed by a fresh timer recorded for the item is a scheduled delete: every other pending id has a fresh guarded 3000 ms timer and the item has the new one; old timers that were not pending stay, and a new timer that is not its id's pending one can only be the stale 3000 ms timer of an item that was already pending, and for such an item that stale timer is live |
| SortableListComponent.SortableList.RescheduleAllDeletes | src/feature/sorted_lists/components/SortableList.tsx:142-154 | the same ids stay pending and each gets a fresh guarded 3000 ms timer. The timers they had are cleared, and every other live timer is kept |
| SortableListComponent.SortableList.RescheduleOne | src/feature/sorted_lists/components/SortableList.tsx:143-151 | one pending id's timer is cleared; the id gets the next handle, which holds a guarded 3000 ms timer; items and focus are unchanged |
| SortableListComponent.SortableList.ScheduleDelete | src/feature/sorted_lists/components/SortableList.tsx:162-174 | an item that is not DELETING turns DELETING, every pending delete is rescheduled, then the item gets its own unconditional timer of 0 ms (immediate) or 3000 ms; the focus moves here. The only timer left live beside the pending ones and the untouched older ones is the item's own earlier 3000 ms timer when it was already pending |
| SortableListComponent.SortableList.UndoDelete | src/feature/sorted_lists/components/SortableList.tsx:175-185 | a DELETING item loses its status, its own pending timer (if any) is cleared and forgotten, and the remaining pending deletes are rescheduled; the focus moves here |
| SortableListComponent.SortableList.RecordTimer | src/feature/sorted_lists/components/SortableList.tsx:168-173 | the timer is live under the next handle and is the id's pending timer; items and focus are unchanged |
| SortableListComponent.SortableList.CancelPendingDelete | src/feature/sorted_lists/components/SortableList.tsx:176-180 | the id's pending timer, if any, is no longer live and the id is no longer pending; nothing else changes |
| SortableListComponent.SortableList.ToggleDeleteItem | src/feature/sorted_lists/components/SortableList.tsx:162-186 | scheduling marks the item DELETING and reschedules every pending delete; then the item gets an unconditional timer of 0 ms (immediate) or 3000 ms, and a stale timer survives only for an item that was already pending. Undo clears the status and the item's timer, then reschedules the rest. Either way the focus moves to this list |
| SortableListComponent.SortableList.FireTimer | src/feature/sorted_lists/components/SortableList.tsx:145-151 | a fired scheduled timer deletes its item and forgets the id. A fired rescheduled timer does so only while the item exists, and otherwise changes nothing. The timer is no longer live |
| SortableListComponent.SortableList.HandleUpdateList | src/feature/sorted_lists/components/SortableList.tsx:41-76 | the items become the committed items. An empty EDIT textfield instead schedules an immediate delete, where a stale 3000 ms timer can survive only when that item was already pending; no other case touches the timers. The focus moves here unless it is a last update, and always when a delete is scheduled |
| SortableListComponent.SortableList.HandleLineClick | src/feature/sorted_lists/components/SortableList.tsx:94-116 | the items become the line-click outcome above, the focus moves here, and no pending delete changes |
| SortableListComponent.SortableList.LineClickOnTextfield | src/feature/sorted_lists/components/SortableList.tsx:97-112 | with a textfield open, the items become the line-click outcome: commit with a shift BELOW or ABOVE when the textfield has content, nothing when it is empty, otherwise the textfield moves; no timer changes |
| SortableListComponent.SortableList.HandleItemClick | src/feature/sorted_lists/components/SortableList.tsx:129-137 | the items become the item-click outcome above and the focus moves here. When the commit on the way schedules nothing, the timers and pending deletes are unchanged; when it commits an empty EDIT textfield, that item gets an immediate (0 ms) scheduled delete after a reschedule pass, and a stale 3000 ms timer survives only when that item was already pending |
| SortableListComponent.SortableList.HandleDropItem | src/feature/sorted_lists/components/SortableList.tsx:191-201 | the items become the drop outcome above; focus and timers are unchanged |
| SortableListComponent.SortableList.OnCurrentListChange | src/feature/sorted_lists/components/SortableList.tsx:31-35 | when the focus moves to another list, this list's textfield is committed as a last update and none is left open. The pending ids are the old ones plus the committed empty EDIT item when that is scheduled for deletion; each has a fresh guarded 3000 ms timer. Every timer that was live and not pending stays, every older timer still live is one of those, so every earlier pending timer, a 0 ms one included, is cleared; every new timer is its id's pending timer or a stale 3000 ms timer of an id that was pending before |
| SortableListComponent.ScheduleThenReschedule | src/feature/sorted_lists/components/SortableList.tsx:31-35 | a reschedule pass after a scheduled delete leaves the old pending ids plus the scheduled one, clears every timer that was pending before and keeps every other old timer; every new timer is its id's pending timer or a stale 3000 ms timer of an id pending before |
| ListStorage.ListKey | src/feature/sorted_lists/storage/listStorage.tsx:8 | a key is "list_" followed by the id, so distinct ids give distinct keys |
| ListStorage.GetList | src/feature/sorted_lists/storage/listStorage.tsx:21-34 | a list is found exactly when the id is present, not empty, and stored under its key; the stored record is returned |
| ListStorage.FindIndex | src/feature/sorted_lists/storage/listStorage.tsx:95 | the first index whose entry has the id, or -1 exactly when no entry has it |
| ListStorage.RemoveEntry | src/feature/sorted_lists/storage/listStorage.tsx:50 | the entries kept are exactly those whose id differs |
| ListStorage.RemoveEntryConcat | src/feature/sorted_lists/storage/listStorage.tsx:50 | the filter distributes over concatenation, so the kept entries keep their order |
| ListStorage.RemoveEntrySingle | src/feature/sorted_lists/storage/listStorage.tsx:50 | a single entry is dropped exactly when it has the id |
| ListStorage.ReparentedFacts | src/feature/sorted_lists/storage/listStorage.tsx:43-61 | a re-parent leaves the entry last in a present new parent. A different, present old parent becomes its own items filtered by the entry's id, so it keeps its other entries in order. When both parents are one folder, the entry appears once, at the end. No other folder changes |
| ListStorage.PatchChildrenCountFacts | src/feature/sorted_lists/storage/listStorage.tsx:93-101 | the parent folder's first entry for the list takes the new count; every other entry and folder is unchanged |
| ListStorage.DeleteListLeavesEntry | src/feature/sorted_lists/storage/listStorage.tsx:66-78 | as written, deleting a list removes its record and writes the parent's filtered entries as a folder record into the list key space under the parent's key. With `DeleteList` leaving the folder storage unchanged, the parent folder still lists the deleted list |
| ListStorage.DeleteListFoldersFacts | src/feature/sorted_lists/storage/listStorage.tsx:66-78 | with the parent saved as a folder, the deleted list is no longer an entry of its parent and no other folder changes |
| ListStorage.ListStore.SaveList | src/feature/sorted_lists/storage/listStorage.tsx:10-11 | the record is written under its own list key; nothing else changes |
| ListStorage.ListStore.CreateList | src/feature/sorted_lists/storage/listStorage.tsx:13-19 | an empty list under the given parent is stored, and reading it back gives that list |
| ListStorage.ListStore.UpdateList | src/feature/sorted_lists/storage/listStorage.tsx:36-64 | a missing list changes nothing. Otherwise the new fields override the stored ones, and a present new parent id re-parents the list in the folder storage |
| ListStorage.ListStore.DeleteList | src/feature/sorted_lists/storage/listStorage.tsx:66-78 | as written: the filtered parent folder is written into the list key space, the folder storage is untouched, and the list's key is gone |
| ListStorage.ListStore.DeleteListCorrected | src/feature/sorted_lists/storage/listStorage.tsx:66-78 | the list's key is gone and the parent folder, filtered, is saved in the folder storage |
| ListStorage.ListStore.SaveListItems | src/feature/sorted_lists/storage/listStorage.tsx:81-103 | a missing list changes nothing. Otherwise the list's items are replaced and the parent's entry for it takes the new item count |
| JsText.HasContentIff | src/feature/sorted_lists/components/SortableList.tsx:46 | a trimmed text is non-empty exactly when some character is not whitespace |
| JsText.NatToString | src/feature/planner/components/modal/TimeSelector.tsx:34 | `String(n)` is a digit string reading back as n, one character exactly below 10, with no leading zero |
| JsText.PadStart | src/feature/planner/components/modal/TimeSelector.tsx:34 | padding keeps the text as a suffix, fills the front with the pad character, and reaches the width unless the text is longer |
| JsText.Pad2Digits | src/feature/planner/components/modal/TimeSelector.tsx:34 | a number below 100, padded to two, is two digits reading back as the number |
| TimeSelector.Segments | src/feature/planner/components/modal/TimeSelector.tsx:24 | the first part ends at the first ':'. The second part is missing exactly when there is no ':', and otherwise ends at the next ':' or at the end |
| TimeSelector.FoldHour | src/feature/planner/components/modal/TimeSelector.tsx:28-30 | for an hour 0..23 the picker hour is below 12; the indicator is PM exactly from 12 on; hour plus 12 in PM gives back the hour; the minute is kept. A NaN hour stays NaN with AM |
| TimeSelector.ParseTimeString | src/feature/planner/components/modal/TimeSelector.tsx:24-30 | reading "HH:MM" for hour 0..23 and minute 0..59 reads exactly that hour and minute |
| TimeSelector.FormatTimeFacts | src/feature/planner/components/modal/TimeSelector.tsx:34 | the written value is five characters with ':' at index 2. The first half reads as hour+12 in PM unless the hour is 12, and as the hour otherwise; the second half reads as the minute |
| TimeSelector.RoundTrip | src/feature/planner/components/modal/TimeSelector.tsx:24-34 | writing back what was read gives the same "HH:MM" for every hour 0..23 and minute 0..59 |
| TimeSelector.NoColonMinute | src/feature/planner/components/modal/TimeSelector.tsx:24-34 | without a ':' the minute is NaN, and the written value ends in "NaN" |
| TimeSelector.HourLabel | src/feature/planner/components/modal/TimeSelector.tsx:49 | option 0 is labelled "12", every other option by its own number |
| TimeSelector.MinuteLabel | src/feature/planner/components/modal/TimeSelector.tsx:63 | a minute label is two digits reading back as the option |
| PlannerEvents.ValueChange | src/feature/planners/components/lists/SortedPlanner.tsx:145-159 | an event that has a start time, or whose text yields none, only takes the new text. Otherwise it takes the extracted start time, the stripped text, and a sort id allocated for that new event among the neighbours. Id, list, status and recurrence never change, and the sort id changes only when a start time is picked up |
| PlannerEvents.TimedEventKeepsPlace | src/feature/planners/components/lists/SortedPlanner.tsx:150 | once an edit has given an event a start time, later edits only replace its text |
| PlannerEvents.ValueChangeShowsIcon | src/feature/planners/components/lists/SortedPlanner.tsx:162 | an edit that leaves an event with a start time never hides its clock icon |
| PlannerEvents.RecomputeSortId | src/feature/planners/components/lists/SortedPlanner.tsx:179 | the event object's sort id, alone among its fields, is reassigned in place, allocated against the items followed by the event |
| SortedPlannerComponent.PlanCount | src/feature/planners/components/lists/SortedPlanner.tsx:123 | the plan count is at most the number of events. It equals that number exactly when no event is NEW, and is 0 exactly when every event is NEW |
| SortedPlannerComponent.PlanCountConcat | src/feature/planners/components/lists/SortedPlanner.tsx:199 | counting plans over two runs of events adds up |
| SortedPlannerComponent.SortedPlanner.HandleValueChange | src/feature/planners/components/lists/SortedPlanner.tsx:145-159 | the value-change rule, with the sort id allocated among all of the planner's events |
| SortedPlannerComponent.SortedPlanner.ShowsTopCollapse | src/feature/planners/components/lists/SortedPlanner.tsx:108 | the top collapse control never shows for a collapsed list or for 15 events or fewer; whenever it shows, the bottom control shows too |
| SortedPlannerComponent.SortedPlanner.OnSave | src/feature/planners/components/lists/SortedPlanner.tsx:178-181 | the saved event's sort id is reallocated against the events followed by the event; the time modal flips; the same object is returned |
| SortedRecurringPlannerComponent.InitializeNewEvent | src/feature/planner/components/lists/SortedRecurringPlanner.tsx:22-29 | a new event keeps every field of the item and recurs under the item's own id |
| SortedRecurringPlannerComponent.SortedRecurringPlanner.HandleValueChange | src/feature/planner/components/lists/SortedRecurringPlanner.tsx:71-87 | the value-change rule. A picked-up start time allocates the sort id among the planner's events when the item is EDIT, and among the events followed by the item otherwise |
| SortedRecurringPlannerComponent.SortedRecurringPlanner.OnModalOpenChange | src/feature/planner/components/lists/SortedRecurringPlanner.tsx:38-43 | when the modal closes with a textfield open, that event is persisted as STATIC and the textfield is cleared. Otherwise nothing changes |
| SortedRecurringPlannerComponent.SortedRecurringPlanner.OnSave | src/feature/planner/components/lists/SortedRecurringPlanner.tsx:94-97 | the saved event's sort id is reallocated against the events followed by the event; the time modal flips; the same object is returned |

## Left out

- Rendering: rows, icons, colours, cards, chips, the draggable list, the empty labels and the
  collapse layout. Only the conditions that decide what is shown are modelled.
- Screens, navigation and the planner storage module. They hold no logic of the core.
- The `useSortedList` hook, the folder storage, `extractTimeValue` and
  `generateSortIdByTimestamp` are not part of this model.
  - The hook operations are given minimal definitions over a sequence.
  - The folder storage is a map from folder id to folder, with `getFolder`, `saveFolder` and
    `saveFolderItems` as lookups and writes.
  - The extractor and the allocator are parameters; no property about sort-key order between
    neighbours is claimed.
  - The planners' `persistItemToStorage` stores the event under its id. How the hook writes it
    further is not modelled.
- Clocks, `setTimeout` delays and async ordering. Timer firing and focus change are explicit
  method calls. The delay a timer was set with is recorded, but which live timer fires first is
  left open.
- React effects, context and re-renders. Each handler and effect is one method call; shared
  context values (`currentList`, `currentTextfield`) are fields of the class.
- Fresh ids. A new textfield's id is a parameter, required to be new to the list.
- JSON: `JSON.stringify` followed by `JSON.parse` is the identity, so the store holds records.
- Fields a spread copies beyond those of the model's records (for example an item's `sortId` in
  the checklist) are not modelled.
- TimeSelector.Number: models `Number(...)` only on a missing part, the empty string and digit
  strings; whitespace, signs, decimals and exponents read as NaN here.
- SortableListComponent.SortableList.HandleDropItem: requires the dropped list to be a
  permutation of the items; the draggable list guarantees this, and the component does not check
  it.
- ListStorage.ListStore.SaveListItems: the source mutates the parent entry object in place
  before saving. Folders are values here, so only the saved result is modelled.
- The checklist's `onChangeText` (the textfield's value update) and the planners' icons other
  than the hidden clock are rendering details and are left out.

## Findings

| source | as written | input that shows it | evidently intended | confidence | as-written member | corrected member |
|---|---|---|---|---|---|---|
| src/feature/sorted_lists/storage/listStorage.tsx:71 | `deleteList` writes the filtered parent folder with `saveList`, into the list key space under `list_<folderId>`, and never writes the folder storage | delete list "a" whose record has parent folder "f", where folder "f" lists "a": afterwards folder "f" still lists "a", and a record of kind folder appears under "list_f" | save the filtered folder with the folder storage's `saveFolder`, so the parent no longer lists the deleted list | not executed | ListStorage.ListStore.DeleteList (exhibited by ListStorage.DeleteListLeavesEntry) | ListStorage.ListStore.DeleteListCorrected (proved by ListStorage.DeleteListFoldersFacts) |

Some behaviour is kept exactly as written, because it is not clearly unintended:

- An empty EDIT textfield that is committed is scheduled with a 0 ms delete. The next reschedule
  pass, for example one run by the focus-change effect, turns it into a guarded 3000 ms timer.
- Scheduling a delete for an id that is already pending overwrites the id's handle without
  clearing the old timer. That timer stays live: `ScheduledFrom` requires a second 3000 ms
  guarded timer for the id beside its new pending one.
- Dragging a DELETING item clears its status, but its pending delete stays scheduled.
- `toggleDeleteItem` moves the focus to its own list even during a last update.
- Undo sets the status to none, not to the status the item had before.
