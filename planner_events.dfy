/**
 * Planner events and the rules the day planner (SortedPlanner.tsx) and the recurring
 * weekday planner (SortedRecurringPlanner.tsx) share: how typing into an event's
 * textfield may pick up a start time, the time modal's sort-id recompute, and when the
 * clock icon is hidden.
 *
 * The time extractor and the timestamp-aware sort-id allocator live in a file that is not
 * part of this model; both are parameters here, so every property holds whatever they do.
 */
module PlannerEvents {
  import opened Wrappers
  import opened ListEnums

  /** A start time, "HH:MM" on the 24-hour clock. */
  datatype TimeConfig = TimeConfig(startTime: string)

  datatype RecurringConfig = RecurringConfig(recurringId: string)

  /** A list item of a planner: an all-day event when it has no time configuration. */
  datatype Event = Event(
    id: string,
    listId: string,
    value: string,
    sortId: real,
    status: Option<ItemStatus>,
    timeConfig: Option<TimeConfig>,
    recurringConfig: Option<RecurringConfig>)

  /** What the extractor makes of a text: the start time it found, if any, and the text
      with the time removed. */
  datatype Extraction = Extraction(timeConfig: Option<TimeConfig>, updatedText: string)

  /** `extractTimeValue`. */
  type Extractor = string -> Extraction

  /** `generateSortIdByTimestamp(event, neighbours)`. */
  type SortIdAllocator = (Event, seq<Event>) -> real

  /** The event with the typed text and, when it had no start time, the start time the
      extractor finds in the text. */
  function Typed(text: string, item: Event, extract: Extractor): Event {
    var x := extract(text);
    if item.timeConfig.None? && x.timeConfig.Some? then
      item.(value := x.updatedText, timeConfig := x.timeConfig)
    else
      item.(value := text)
  }

  /** The value-change handler of a planner textfield, given the neighbours the new sort id
      is computed against. An event that already has a start time, or whose text holds none,
      only takes the new text. Otherwise it takes the extracted start time and the text
      without it, and a sort id computed from that new event (still with its old sort id)
      among the neighbours. Identity, status and recurrence never change. */
  function ValueChange(text: string, item: Event, neighbours: seq<Event>,
                       extract: Extractor, allocate: SortIdAllocator): (r: Event)
    ensures r.id == item.id && r.listId == item.listId && r.status == item.status
    ensures r.recurringConfig == item.recurringConfig
    ensures item.timeConfig.Some? || extract(text).timeConfig.None? ==> r == item.(value := text)
    ensures item.timeConfig.None? && extract(text).timeConfig.Some? ==>
      && r.timeConfig == extract(text).timeConfig
      && r.value == extract(text).updatedText
      && r.sortId == allocate(Typed(text, item, extract), neighbours)
    ensures r.sortId != item.sortId ==> item.timeConfig.None? && r.timeConfig.Some?
  {
    var newEvent := item.(value := text);
    if item.timeConfig.None? then
      var x := extract(text);
      if x.timeConfig.Some? then
        var timed := newEvent.(timeConfig := x.timeConfig, value := x.updatedText);
        timed.(sortId := allocate(timed, neighbours))
      else
        newEvent
    else
      newEvent
  }

  /** Once an event has a start time, later edits only replace its text: the sort id and the
      start time the first edit picked up stay. */
  lemma TimedEventKeepsPlace(text1: string, text2: string, item: Event,
      neighbours1: seq<Event>, neighbours2: seq<Event>, extract: Extractor, allocate: SortIdAllocator)
    requires ValueChange(text1, item, neighbours1, extract, allocate).timeConfig.Some?
    ensures var once := ValueChange(text1, item, neighbours1, extract, allocate);
      ValueChange(text2, once, neighbours2, extract, allocate) == once.(value := text2)
  {
  }

  /** The right-hand clock icon is hidden exactly for a resting event without a start time. */
  predicate HidesRightIcon(item: Event) {
    item.status == Some(Static) && item.timeConfig.None?
  }

  /** An edit that leaves an event with a start time always shows its clock icon. */
  lemma ValueChangeShowsIcon(text: string, item: Event, neighbours: seq<Event>,
                             extract: Extractor, allocate: SortIdAllocator)
    requires item.timeConfig.Some? || extract(text).timeConfig.Some?
    ensures !HidesRightIcon(ValueChange(text, item, neighbours, extract, allocate))
  {
  }

  /** A JavaScript event object the time modal hands back, whose fields can be assigned. */
  class EventObject {
    var id: string
    var listId: string
    var value: string
    var sortId: real
    var status: Option<ItemStatus>
    var timeConfig: Option<TimeConfig>
    var recurringConfig: Option<RecurringConfig>

    constructor (e: Event)
      ensures Snapshot() == e
    {
      id := e.id;
      listId := e.listId;
      value := e.value;
      sortId := e.sortId;
      status := e.status;
      timeConfig := e.timeConfig;
      recurringConfig := e.recurringConfig;
    }

    /** The object's current fields as a value. */
    function Snapshot(): Event
      reads this
    {
      Event(id, listId, value, sortId, status, timeConfig, recurringConfig)
    }
  }

  /** The sort-id part of a time modal's save: the updated event's sort id is recomputed, in
      place, against the list's items followed by the event itself; nothing else changes and
      the same object is returned. */
  method RecomputeSortId(updated: EventObject, items: seq<Event>, allocate: SortIdAllocator)
      returns (r: EventObject)
    modifies updated
    ensures r == updated
    ensures updated.Snapshot() ==
      old(updated.Snapshot()).(sortId := allocate(old(updated.Snapshot()), items + [old(updated.Snapshot())]))
  {
    var before := updated.Snapshot();
    updated.sortId := allocate(before, items + [before]);
    r := updated;
  }
}
