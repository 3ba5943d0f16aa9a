/**
 * The recurring weekday planner of
 * src/feature/planner/components/lists/SortedRecurringPlanner.tsx: new events linked to
 * the planner, the value-change rule with its status-dependent neighbours, the save of the
 * open textfield when the surrounding modal closes, and the time modal's save.
 */
module SortedRecurringPlannerComponent {
  import opened Wrappers
  import opened ListEnums
  import opened PlannerEvents

  /** A new textfield of the recurring planner: the item, recurring under its own id. */
  function InitializeNewEvent(item: Event): (r: Event)
    ensures r.recurringConfig == Some(RecurringConfig(item.id))
    ensures r.(recurringConfig := item.recurringConfig) == item
  {
    item.(recurringConfig := Some(RecurringConfig(item.id)))
  }

  /** The recurring weekday planner: the events its list hook holds, the textfield open in
      the shared list context, the events persisted by id, and whether the time modal is open. */
  class SortedRecurringPlanner {
    const extract: Extractor
    const allocate: SortIdAllocator
    var items: seq<Event>
    var currentTextfield: Option<Event>
    var persisted: map<string, Event>
    var timeModalOpen: bool

    constructor (items: seq<Event>, persisted: map<string, Event>, currentTextfield: Option<Event>,
                 extract: Extractor, allocate: SortIdAllocator)
      ensures this.items == items && this.persisted == persisted
      ensures this.currentTextfield == currentTextfield
      ensures this.extract == extract && this.allocate == allocate && !timeModalOpen
    {
      this.items := items;
      this.persisted := persisted;
      this.currentTextfield := currentTextfield;
      this.extract := extract;
      this.allocate := allocate;
      timeModalOpen := false;
    }

    /** The textfield's value change: a new start time re-sorts the event among the planner's
        events, which include the event itself when it is being edited and get it appended
        when it is new. */
    function HandleValueChange(text: string, item: Event): (r: Event)
      reads this
      ensures r.id == item.id && r.status == item.status && r.recurringConfig == item.recurringConfig
      ensures item.timeConfig.Some? || extract(text).timeConfig.None? ==> r == item.(value := text)
      ensures item.timeConfig.None? && extract(text).timeConfig.Some? ==>
        && r.timeConfig == extract(text).timeConfig
        && r.value == extract(text).updatedText
        && (item.status == Some(Edit) ==> r.sortId == allocate(Typed(text, item, extract), items))
        && (item.status != Some(Edit) ==> r.sortId == allocate(Typed(text, item, extract), items + [item]))
    {
      var eventsWithItem := if item.status == Some(Edit) then items else items + [item];
      ValueChange(text, item, eventsWithItem, extract, allocate)
    }

    /** The persist of `persistItemToStorage`: the event is stored under its id. */
    method Persist(item: Event)
      modifies this
      ensures persisted == old(persisted)[item.id := item]
      ensures items == old(items) && currentTextfield == old(currentTextfield)
      ensures timeModalOpen == old(timeModalOpen)
    {
      persisted := persisted[item.id := item];
    }

    /** The effect on the surrounding modal's open flag: when it closes with a textfield open,
        the textfield is persisted as a resting event and closed; otherwise nothing changes. */
    method OnModalOpenChange(modalOpen: bool)
      modifies this
      ensures !modalOpen && old(currentTextfield).Some? ==>
        && persisted == old(persisted)[old(currentTextfield).value.id :=
             old(currentTextfield).value.(status := Some(Static))]
        && currentTextfield == None
      ensures modalOpen || old(currentTextfield).None? ==>
        persisted == old(persisted) && currentTextfield == old(currentTextfield)
      ensures items == old(items) && timeModalOpen == old(timeModalOpen)
    {
      if !modalOpen && currentTextfield.Some? {
        Persist(currentTextfield.value.(status := Some(Static)));
        currentTextfield := None;
      }
    }

    method ToggleTimeModal()
      modifies this
      ensures timeModalOpen == !old(timeModalOpen)
      ensures items == old(items) && persisted == old(persisted)
      ensures currentTextfield == old(currentTextfield)
    {
      timeModalOpen := !timeModalOpen;
    }

    /** The time modal's save: the event's sort id is recomputed against the planner's events
        followed by the event, the modal is toggled, and the same event object is returned. */
    method OnSave(updated: EventObject) returns (r: EventObject)
      modifies this, updated
      ensures r == updated
      ensures updated.Snapshot() ==
        old(updated.Snapshot()).(sortId := allocate(old(updated.Snapshot()), items + [old(updated.Snapshot())]))
      ensures timeModalOpen == !old(timeModalOpen)
      ensures items == old(items) && persisted == old(persisted)
      ensures currentTextfield == old(currentTextfield)
    {
      r := RecomputeSortId(updated, items, allocate);
      ToggleTimeModal();
    }
  }
}
