/**
 * The queue of one lane: pending items in FIFO order with a `count`, and the
 * active items with an `activeCount`. Whether the lane is blocked is decided
 * outside (the lane descriptor's blocking rule) and comes in as a parameter.
 */
class ItemQueue {
  const processor: QueueProcessor
  const itemType: ItemType
  var queue: seq<QueueItem>
  var activeItems: set<QueueItem>
  var count: int
  var activeCount: int

  /** The counters are in step with the collections they count. */
  ghost predicate Valid()
    reads this
  {
    count == |queue| && activeCount == |activeItems|
  }

  constructor (processor: QueueProcessor, itemType: ItemType)
    ensures this.processor == processor && this.itemType == itemType
    ensures Valid() && queue == [] && activeItems == {}
  {
    this.processor := processor;
    this.itemType := itemType;
    queue := [];
    activeItems := {};
    count := 0;
    activeCount := 0;
  }

  /** The number of pending items. */
  function Count(): (n: int)
    reads this
    ensures Valid() ==> n == |queue|
  {
    count
  }

  /** Nothing pending and nothing active. */
  function IsIdle(): (idle: bool)
    reads this
    ensures Valid() ==> (idle <==> queue == [] && activeItems == {})
  {
    count == 0 && activeCount == 0
  }

  /**
   * The admission rule: under the cap, something pending, the lane not
   * blocked, and no active item still holding dependents to release.
   */
  function IsAvailable(blocked: bool): (available: bool)
    reads this, activeItems
    ensures available ==> activeCount < itemType.maxConcurrentItems && count > 0 && !blocked
    ensures Valid() ==>
      (available <==> |activeItems| < itemType.maxConcurrentItems && queue != [] && !blocked
                      && forall x :: x in activeItems ==> x.dependents == [])
  {
    activeCount < itemType.maxConcurrentItems && count > 0 && !blocked
    && !(exists x :: x in activeItems && x.dependents != [])
  }

  /** Appends `item` at the tail of the pending queue. */
  method Enqueue(item: QueueItem)
    requires Valid()
    modifies this`count, this`queue
    ensures Valid()
    ensures queue == old(queue) + [item] && count == old(count) + 1
  {
    count := count + 1;
    queue := queue + [item];
  }

  /**
   * Removes and returns the head of the pending queue. The counter is
   * decremented first; on an empty queue the removal then throws (`None`),
   * leaving the queue as it was and the counter one too low.
   */
  method Dequeue() returns (item: Option<QueueItem>)
    modifies this`count, this`queue
    ensures count == old(count) - 1
    ensures old(queue) != [] ==> item == Some(old(queue)[0]) && queue == old(queue)[1..]
    ensures old(queue) == [] ==> item.None? && queue == old(queue)
    ensures old(Valid()) ==> (Valid() <==> old(queue) != [])
  {
    count := count - 1;
    if queue == [] {
      item := None;
    } else {
      item := Some(queue[0]);
      queue := queue[1..];
    }
  }

  /**
   * Adds `item` to the active set. The counter moves whatever the set does,
   * so it stays in step exactly when the item was not already active.
   */
  method Activate(item: QueueItem)
    requires Valid()
    modifies this`activeCount, this`activeItems
    ensures activeItems == old(activeItems) + {item} && activeCount == old(activeCount) + 1
    ensures Valid() <==> item !in old(activeItems)
  {
    activeCount := activeCount + 1;
    activeItems := activeItems + {item};
  }

  /**
   * Removes `item` from the active set; the counter stays in step exactly
   * when the item was active.
   */
  method Deactivate(item: QueueItem)
    requires Valid()
    modifies this`activeCount, this`activeItems
    ensures activeItems == old(activeItems) - {item} && activeCount == old(activeCount) - 1
    ensures Valid() <==> item in old(activeItems)
  {
    activeCount := activeCount - 1;
    activeItems := activeItems - {item};
  }

  /**
   * Sets every pending item to Waiting through the State setter; nothing but
   * the pending items' states and notifications changes.
   */
  method MarkWaiting()
    modifies queue`state, queue`notifications
    ensures forall x :: x in queue ==> x.state == Waiting
    ensures forall x :: x in queue ==>
      x.notifications == old(x.notifications) + if old(x.state) != Waiting && x.hasObserver then [Waiting] else []
  {
    var i := 0;
    while i < |queue|
      invariant 0 <= i <= |queue|
      invariant forall x :: x in queue[..i] ==> x.state == Waiting
      invariant forall x :: x in queue ==>
        x.notifications == old(x.notifications) + if old(x.state) != Waiting && x.hasObserver && x in queue[..i] then [Waiting] else []
      invariant forall x :: x in queue && x !in queue[..i] ==> x.state == old(x.state)
    {
      assert queue[..i + 1] == queue[..i] + [queue[i]];
      var _ := queue[i].SetState(Waiting);
      i := i + 1;
    }
    assert queue[..|queue|] == queue;
  }

  /** Binds `item` to this lane and its processor (first binding wins). */
  method InitializeItem(item: QueueItem)
    modifies item`isInitialized, item`processor, item`queue
    ensures item.isInitialized
    ensures !old(item.isInitialized) ==> item.processor == processor && item.queue == this
    ensures old(item.isInitialized) ==> item.processor == old(item.processor) && item.queue == old(item.queue)
  {
    item.InitializeItem(processor, this);
  }

  /**
   * One admission step of the scheduling loop for this lane: when the lane is
   * available, the head is dequeued and activated. Admitting only under
   * `IsAvailable` keeps the active count within the cap.
   */
  method TryAdmit(blocked: bool) returns (admitted: Option<QueueItem>)
    requires Valid() && activeCount <= itemType.maxConcurrentItems
    modifies this`count, this`queue, this`activeCount, this`activeItems
    ensures activeCount <= itemType.maxConcurrentItems
    ensures admitted.Some? <==> old(IsAvailable(blocked))
    ensures admitted.Some? ==>
      admitted.value == old(queue)[0] && queue == old(queue)[1..]
      && activeItems == old(activeItems) + {admitted.value} && activeCount == old(activeCount) + 1
      && count == old(count) - 1
    ensures admitted.None? ==>
      queue == old(queue) && activeItems == old(activeItems) && activeCount == old(activeCount) && count == old(count)
    ensures Valid() <==> admitted.None? || admitted.value !in old(activeItems)
  {
    if IsAvailable(blocked) {
      var item := Dequeue();
      Activate(item.value);
      admitted := item;
    } else {
      admitted := None;
    }
  }
}

/**
 * Items enqueued on an empty lane come back out of it in submission order.
 */
method SubmissionOrder(lane: ItemQueue, items: seq<QueueItem>) returns (drained: seq<QueueItem>)
  requires lane.Valid() && lane.queue == []
  modifies lane
  ensures drained == items
  ensures lane.Valid() && lane.queue == [] && lane.activeItems == old(lane.activeItems)
{
  var i := 0;
  while i < |items|
    invariant 0 <= i <= |items|
    invariant lane.Valid() && lane.queue == items[..i] && lane.activeItems == old(lane.activeItems)
  {
    assert items[..i + 1] == items[..i] + [items[i]];
    lane.Enqueue(items[i]);
    i := i + 1;
  }
  drained := [];
  while lane.queue != []
    invariant lane.Valid() && drained + lane.queue == items && lane.activeItems == old(lane.activeItems)
    decreases |lane.queue|
  {
    var item := lane.Dequeue();
    drained := drained + [item.value];
  }
}
