/**
 * The day planner of src/feature/planners/components/lists/SortedPlanner.tsx: its events'
 * value-change rule, the time modal's save, the collapse controls and the plan count.
 */
module SortedPlannerComponent {
  import opened Wrappers
  import opened ListEnums
  import opened PlannerEvents

  /** The number of plans the collapse controls show: the events that are not new. */
  function PlanCount(items: seq<Event>): (r: nat)
    ensures r <= |items|
    ensures r == |items| <==> forall i :: 0 <= i < |items| ==> items[i].status != Some(New)
    ensures r == 0 <==> forall i :: 0 <= i < |items| ==> items[i].status == Some(New)
  {
    if items == [] then 0
    else
      var rest := PlanCount(items[1..]);
      assert forall i :: 1 <= i < |items| ==> items[i] == items[1..][i - 1];
      (if items[0].status != Some(New) then 1 else 0) + rest
  }

  /** Counting plans over two runs of events adds up. */
  lemma {:induction false} PlanCountConcat(a: seq<Event>, b: seq<Event>)
    ensures PlanCount(a + b) == PlanCount(a) + PlanCount(b)
  {
    if a == [] {
      assert a + b == b;
    } else {
      assert (a + b)[1..] == a[1..] + b;
      PlanCountConcat(a[1..], b);
    }
  }

  /** The day planner of one date: the events its list hook holds, whether the list is
      collapsed and whether the time modal is open. */
  class SortedPlanner {
    const timestamp: string
    const extract: Extractor
    const allocate: SortIdAllocator
    var items: seq<Event>
    var collapsed: bool
    var timeModalOpen: bool

    constructor (timestamp: string, items: seq<Event>, extract: Extractor, allocate: SortIdAllocator)
      ensures this.timestamp == timestamp && this.items == items
      ensures this.extract == extract && this.allocate == allocate
      ensures !collapsed && !timeModalOpen
    {
      this.timestamp := timestamp;
      this.items := items;
      this.extract := extract;
      this.allocate := allocate;
      collapsed := false;
      timeModalOpen := false;
    }

    /** The textfield's value change: a new start time in the text re-sorts the event among
        all the planner's events. */
    function HandleValueChange(text: string, item: Event): (r: Event)
      reads this
      ensures r.id == item.id && r.status == item.status && r.recurringConfig == item.recurringConfig
      ensures item.timeConfig.Some? || extract(text).timeConfig.None? ==> r == item.(value := text)
      ensures item.timeConfig.None? && extract(text).timeConfig.Some? ==>
        && r.timeConfig == extract(text).timeConfig
        && r.value == extract(text).updatedText
        && r.sortId == allocate(Typed(text, item, extract), items)
    {
      ValueChange(text, item, items, extract, allocate)
    }

    /** The collapse control above the list shows only for a long, expanded list; whenever it
        shows, the one below the list shows too. */
    function ShowsTopCollapse(): (r: bool)
      reads this
      ensures r ==> ShowsBottomCollapse()
      ensures collapsed || |items| <= 15 ==> !r
    {
      |items| > 15 && !collapsed
    }

    /** The control below the list shows whenever there are events; otherwise the empty label. */
    predicate ShowsBottomCollapse()
      reads this
    {
      |items| > 0
    }

    method ToggleCollapsed()
      modifies this
      ensures collapsed == !old(collapsed)
      ensures items == old(items) && timeModalOpen == old(timeModalOpen)
    {
      collapsed := !collapsed;
    }

    method ToggleTimeModal()
      modifies this
      ensures timeModalOpen == !old(timeModalOpen)
      ensures items == old(items) && collapsed == old(collapsed)
    {
      timeModalOpen := !timeModalOpen;
    }

    /** The time modal's save: the event's sort id is recomputed against the planner's events
        followed by the event, the modal is toggled, and the same event object is returned. */
    method OnSave(updated: EventObject) returns (r: EventObject)
      modifies this, updated
      ensures r == updated
      ensures updated.Snapshot() ==
        old(updated.Snapshot()).(sortId := allocate(old(updated.Snapshot()), items + [old(updated.Snapshot())]))
      ensures timeModalOpen == !old(timeModalOpen)
      ensures items == old(items) && collapsed == old(collapsed)
    {
      r := RecomputeSortId(updated, items, allocate);
      ToggleTimeModal();
    }
  }
}
