import opened Types
import opened Dependencies

/** The outstanding-dependency lists of the given items, as a map. */
ghost function DependenciesOf(ds: seq<QueueItem>): (m: map<QueueItem, seq<QueueItem>>)
  reads ds`dependencies
  ensures Covers(ds, m)
  ensures forall d :: d in ds ==> m[d] == d.dependencies
{
  map d | d in ds :: d.dependencies
}

/**
 * One unit of work. The user action is not stored: its effect is the
 * `Outcome` passed to `Execute`. Subscription to the StateChanged event is the
 * `hasObserver` flag, and each notification that would be delivered is
 * appended to `notifications`.
 */
class QueueItem {
  const itemType: ItemType
  var error: Option<string>
  var processor: QueueProcessor?
  var queue: ItemQueue?
  var state: ItemState
  var isInitialized: bool
  /** Items released when this one finishes, in registration order. */
  var dependents: seq<QueueItem>
  /** Items that must finish before this one may run. */
  var dependencies: seq<QueueItem>
  var hasObserver: bool
  var notifications: seq<ItemState>

  constructor (itemType: ItemType)
    ensures this.itemType == itemType
    ensures state == Pending && error == None
    ensures dependents == [] && dependencies == []
    ensures processor == null && queue == null && !isInitialized
    ensures !hasObserver && notifications == []
  {
    this.itemType := itemType;
    error := None;
    processor := null;
    queue := null;
    state := Pending;
    isInitialized := false;
    dependents := [];
    dependencies := [];
    hasObserver := false;
    notifications := [];
  }

  /** Binds the item to a processor and a lane, on the first call only. */
  method InitializeItem(processor: QueueProcessor, queue: ItemQueue)
    modifies this`isInitialized, this`processor, this`queue
    ensures isInitialized
    ensures !old(isInitialized) ==> this.processor == processor && this.queue == queue
    ensures old(isInitialized) ==> this.processor == old(this.processor) && this.queue == old(this.queue)
  {
    if !isInitialized {
      isInitialized := true;
      this.processor := processor;
      this.queue := queue;
    }
  }

  /** Subscribes an observer to state changes. */
  method Subscribe()
    modifies this`hasObserver
    ensures hasObserver
  {
    hasObserver := true;
  }

  /**
   * The State setter: the new value is always stored; it counts as a change,
   * and a notification is raised for a subscribed observer, exactly when it
   * differs from the previous value.
   */
  method SetState(value: ItemState) returns (changed: bool)
    modifies this`state, this`notifications
    ensures state == value
    ensures changed <==> old(state) != value
    ensures notifications == old(notifications) + if changed && hasObserver then [value] else []
  {
    changed := state != value;
    state := value;
    if changed && hasObserver {
      notifications := notifications + [value];
    }
  }

  /** Registers `dependent` to be released when this item finishes. */
  method EnqueueDependent(dependent: QueueItem)
    requires processor != null
    modifies this`dependents
    ensures dependents == old(dependents) + [dependent]
  {
    dependents := dependents + [dependent];
  }

  /** Records that `dependency` must finish before this item may run. */
  method AddDependency(dependency: QueueItem)
    requires processor != null
    modifies this`dependencies
    ensures dependencies == old(dependencies) + [dependency]
  {
    dependencies := dependencies + [dependency];
  }

  /** What releasing the current dependents would do to the dependency graph. */
  ghost function PendingRelease(): (map<QueueItem, seq<QueueItem>>, seq<QueueItem>)
    reads this`dependents, dependents`dependencies
  {
    Release(this, dependents, DependenciesOf(dependents))
  }

  /**
   * Runs the item. A thrown exception is recorded and the item ends Errored
   * with its dependents untouched; otherwise it ends Finished and releases its
   * dependents. The state passes through Running first.
   */
  method Execute(outcome: Outcome)
    requires processor != null
    modifies this`state, this`notifications, this`error, this`dependents
    modifies processor`queue, processor`submitted, dependents`dependencies, dependents`processor
    ensures processor == old(processor)
    ensures error == if outcome.Throws? then Some(outcome.message) else old(error)
    ensures state == if error.Some? then Errored else Finished
    ensures notifications == old(notifications)
      + (if old(state) != Running && hasObserver then [Running] else [])
      + (if hasObserver then [state] else [])
    // failure: nothing released
    ensures error.Some? ==> dependents == old(dependents)
    ensures error.Some? ==> processor.queue == old(processor.queue) && processor.submitted == old(processor.submitted)
    ensures error.Some? ==> forall d :: d in old(dependents) ==> d.dependencies == old(d.dependencies) && d.processor == old(d.processor)
    // success: dependents consumed and released
    ensures error.None? ==> dependents == []
    ensures error.None? ==> processor.queue == old(processor.queue) + old(PendingRelease()).1
    ensures error.None? ==> processor.submitted == old(processor.submitted) + old(PendingRelease()).1
    ensures error.None? ==> forall d :: d in old(dependents) ==>
      && d.dependencies == old(PendingRelease()).0[d]
      && d.processor == (if d in old(PendingRelease()).1 then processor else old(d.processor))
  {
    var _ := SetState(Running);
    if outcome.Throws? {
      error := Some(outcome.message);
    }
    Settle();
  }

  /**
   * The end of a run: Errored when an error was recorded, otherwise Finished
   * followed by the release of the dependents.
   */
  method Settle()
    requires processor != null
    modifies this`state, this`notifications, this`dependents
    modifies processor`queue, processor`submitted, dependents`dependencies, dependents`processor
    ensures processor == old(processor)
    ensures state == if error.Some? then Errored else Finished
    ensures notifications == old(notifications) + if old(state) != state && hasObserver then [state] else []
    ensures error.Some? ==> dependents == old(dependents)
    ensures error.Some? ==> processor.queue == old(processor.queue) && processor.submitted == old(processor.submitted)
    ensures error.Some? ==> forall d :: d in old(dependents) ==> d.dependencies == old(d.dependencies) && d.processor == old(d.processor)
    ensures error.None? ==> dependents == []
    ensures error.None? ==> processor.queue == old(processor.queue) + old(PendingRelease()).1
    ensures error.None? ==> processor.submitted == old(processor.submitted) + old(PendingRelease()).1
    ensures error.None? ==> forall d :: d in old(dependents) ==>
      && d.dependencies == old(PendingRelease()).0[d]
      && d.processor == (if d in old(PendingRelease()).1 then processor else old(d.processor))
  {
    if error.Some? {
      var _ := SetState(Errored);
    } else {
      var _ := SetState(Finished);
      // Dispatch runs inline.
      ReleaseDependents();
    }
  }

  /**
   * The action dispatched by a successful Execute: take the dependents,
   * clear the list, and release each dependent in registration order.
   */
  method ReleaseDependents()
    requires processor != null
    modifies this`dependents, processor`queue, processor`submitted, dependents`dependencies, dependents`processor
    ensures dependents == []
    ensures processor == old(processor)
    ensures processor.queue == old(processor.queue) + old(PendingRelease()).1
    ensures processor.submitted == old(processor.submitted) + old(PendingRelease()).1
    ensures forall d :: d in old(dependents) ==>
      && d.dependencies == old(PendingRelease()).0[d]
      && d.processor == (if d in old(PendingRelease()).1 then processor else old(d.processor))
    ensures this !in old(dependents) ==> dependencies == old(dependencies)
  {
    var ds := dependents;
    dependents := [];
    ReleaseEach(ds, processor);
    assert this in ds ==> processor == old(processor);
  }

  /**
   * The loop of the release: each of `ds`, in order, loses one occurrence of
   * this item from its dependencies and goes to `p` once it has none left.
   */
  method ReleaseEach(ds: seq<QueueItem>, p: QueueProcessor)
    modifies p`queue, p`submitted, ds`dependencies, ds`processor
    ensures p.queue == old(p.queue) + Release(this, ds, old(DependenciesOf(ds))).1
    ensures p.submitted == old(p.submitted) + Release(this, ds, old(DependenciesOf(ds))).1
    ensures forall d {:trigger d in ds} :: d in ds ==>
      && d.dependencies == Release(this, ds, old(DependenciesOf(ds))).0[d]
      && d.processor == (if d in Release(this, ds, old(DependenciesOf(ds))).1 then p else old(d.processor))
  {
    ghost var deps := DependenciesOf(ds);
    var i := 0;
    while i < |ds|
      invariant 0 <= i <= |ds|
      invariant p.queue == old(p.queue) + ReleaseUpTo(this, ds, i, deps).1
      invariant p.submitted == old(p.submitted) + ReleaseUpTo(this, ds, i, deps).1
      invariant forall d {:trigger d in ds} :: d in ds ==>
        && d.dependencies == ReleaseUpTo(this, ds, i, deps).0[d]
        && d.processor == (if d in ReleaseUpTo(this, ds, i, deps).1 then p else old(d.processor))
    {
      var d := ds[i];
      assert d in ds;
      ghost var prev := ReleaseUpTo(this, ds, i, deps);
      var freed := ReleaseOne(d, p);
      ghost var next := ReleaseUpTo(this, ds, i + 1, deps);
      forall e {:trigger e in ds} | e in ds
        ensures e.dependencies == next.0[e]
        ensures e.processor == (if e in next.1 then p else old(e.processor))
      {
        if e != d {
          assert e.dependencies == prev.0[e];
        }
      }
      if freed {
        assert old(p.queue) + prev.1 + [d] == old(p.queue) + (prev.1 + [d]);
        assert old(p.submitted) + prev.1 + [d] == old(p.submitted) + (prev.1 + [d]);
      }
      i := i + 1;
    }
  }

  /**
   * The loop body of the release: `this` is taken out of `d`'s dependencies,
   * and `d` goes to the processor when none are left.
   */
  method ReleaseOne(d: QueueItem, p: QueueProcessor) returns (freed: bool)
    modifies d`dependencies, d`processor, p`queue, p`submitted
    ensures d.dependencies == RemoveFirst(old(d.dependencies), this)
    ensures freed <==> d.dependencies == []
    ensures freed ==> d.processor == p && p.queue == old(p.queue) + [d] && p.submitted == old(p.submitted) + [d]
    ensures !freed ==> d.processor == old(d.processor) && p.queue == old(p.queue) && p.submitted == old(p.submitted)
  {
    d.dependencies := RemoveFirst(d.dependencies, this);
    freed := d.dependencies == [];
    if freed {
      p.Enqueue(d);
    }
  }
}
