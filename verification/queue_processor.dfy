import opened Sequences

/** One event seen by the processing loop. */
datatype Step =
  | RunRound(outcome: Outcome)        // the loop reaches its check of the stop flag; a round dequeues an item whose action ends with `outcome`
  | EnqueueArrives(item: QueueItem)   // Enqueue(item) is called from outside
  | StopArrives                       // Stop() is called from outside

/** The processor's counters and logs at one moment. */
datatype Snapshot = Snapshot(
  submitted: seq<QueueItem>, stopRequested: bool, stopSignals: seq<bool>,
  rounds: nat, idleSignals: nat, idleMark: nat)

/**
 * The index of the step at which the loop exits: the first round step
 * reached once a stop has been requested (`requested` says whether one was
 * already pending at the start), or `|steps|` when the loop never exits.
 */
function ExitIndex(steps: seq<Step>, requested: bool): (n: nat)
  ensures n <= |steps|
  ensures n < |steps| ==> steps[n].RunRound? && (requested || StopArrives in steps[..n])
  ensures forall k :: 0 <= k < n && steps[k].RunRound? ==> !requested && StopArrives !in steps[..k]
{
  if steps == [] then 0
  else if steps[0].RunRound? && requested then 0
  else
    var m := ExitIndex(steps[1..], requested || steps[0] == StopArrives);
    assert forall k :: 0 < k <= |steps| ==> steps[..k] == [steps[0]] + steps[1..][..k - 1];
    1 + m
}

/** The number of rounds in `steps`. */
function RoundCount(steps: seq<Step>): (n: nat)
  ensures n <= |steps|
  ensures n == |steps| <==> forall k :: 0 <= k < |steps| ==> steps[k].RunRound?
{
  if steps == [] then 0
  else RoundCount(steps[..|steps| - 1]) + if steps[|steps| - 1].RunRound? then 1 else 0
}

/** The number of Stop() calls in `steps`. */
function StopCount(steps: seq<Step>): (n: nat)
  ensures n <= |steps|
  ensures n == 0 <==> StopArrives !in steps
{
  if steps == [] then 0
  else
    assert steps == steps[..|steps| - 1] + [steps[|steps| - 1]];
    StopCount(steps[..|steps| - 1]) + if steps[|steps| - 1] == StopArrives then 1 else 0
}

/** The items enqueued from outside in `steps`, in call order. */
function Arrivals(steps: seq<Step>): (r: seq<QueueItem>)
  ensures |r| <= |steps|
  ensures forall j :: 0 <= j < |r| ==> EnqueueArrives(r[j]) in steps
  ensures forall k :: 0 <= k < |steps| && steps[k].EnqueueArrives? ==> steps[k].item in r
{
  if steps == [] then []
  else
    assert steps == steps[..|steps| - 1] + [steps[|steps| - 1]];
    Arrivals(steps[..|steps| - 1]) + if steps[|steps| - 1].EnqueueArrives? then [steps[|steps| - 1].item] else []
}

/**
 * The arrivals keep call order: those of a prefix of the schedule are a
 * prefix of the arrivals of the whole schedule.
 */
lemma {:induction false} ArrivalsInOrder(steps: seq<Step>, n: nat)
  requires n <= |steps|
  ensures Arrivals(steps[..n]) <= Arrivals(steps)
  decreases |steps|
{
  if n < |steps| {
    var init := steps[..|steps| - 1];
    ArrivalsInOrder(init, n);
    assert init[..n] == steps[..n];
  } else {
    assert steps[..n] == steps;
  }
}

/** How the schedule summaries grow by one step. */
lemma StepSummaries(steps: seq<Step>, i: nat)
  requires i < |steps|
  ensures RoundCount(steps[..i + 1]) == RoundCount(steps[..i]) + if steps[i].RunRound? then 1 else 0
  ensures StopCount(steps[..i + 1]) == StopCount(steps[..i]) + if steps[i].StopArrives? then 1 else 0
  ensures Arrivals(steps[..i + 1]) == Arrivals(steps[..i]) + if steps[i].EnqueueArrives? then [steps[i].item] else []
  ensures StopArrives in steps[..i + 1] <==> StopArrives in steps[..i] || steps[i].StopArrives?
{
  assert steps[..i + 1][..i] == steps[..i];
  assert steps[..i + 1] == steps[..i] + [steps[i]];
}

/** One step arms one more unresolved stop signal exactly when it is a Stop() call. */
lemma StopSignalsGrow(armed: seq<bool>, steps: seq<Step>, i: nat)
  requires i < |steps|
  ensures armed + Unresolved(StopCount(steps[..i + 1]))
    == armed + Unresolved(StopCount(steps[..i])) + if steps[i].StopArrives? then [false] else []
{
  StepSummaries(steps, i);
}

/** `n` freshly armed stop signals, none of them resolved. */
function Unresolved(n: nat): (r: seq<bool>)
  ensures |r| == n && forall k :: 0 <= k < n ==> !r[k]
{
  if n == 0 then [] else Unresolved(n - 1) + [false]
}

/** The latest stop signal resolved; the earlier ones as they were. */
function ResolveLast(s: seq<bool>): (r: seq<bool>)
  requires s != []
  ensures |r| == |s| && r[|s| - 1]
  ensures forall k :: 0 <= k < |s| - 1 ==> r[k] == s[k]
{
  s[..|s| - 1] + [true]
}

/**
 * The processor: a FIFO of items run one at a time. `submitted` logs every
 * enqueued item and `executed` every item run, both in order; `idleSignals`
 * counts the resolutions of the idle signal, each followed by a fresh one,
 * and `idleMark` is the length of `submitted` at the latest of them. Each
 * Stop() call arms a signal of its own, recorded in `stopSignals`.
 */
class QueueProcessor {
  var queue: seq<QueueItem>
  /** The cancellation token of the loop has been cancelled. */
  var stopRequested: bool
  /** One entry per Stop() call, in call order: whether the task it returned has completed. */
  var stopSignals: seq<bool>
  var idleSignals: nat
  ghost var submitted: seq<QueueItem>
  ghost var executed: seq<QueueItem>
  ghost var idleMark: nat
  ghost var rounds: nat

  /**
   * Items run in enqueue order: those run, followed by those waiting, are
   * exactly those enqueued. Everything enqueued before the latest idle
   * signal has run. A stop request comes from a Stop() call.
   */
  ghost predicate Valid()
    reads this
  {
    && executed + queue == submitted
    && idleMark <= |executed|
    && (stopRequested <==> stopSignals != [])
  }

  /** Every queued item is bound to this processor. */
  ghost predicate Owns()
    reads this, queue
  {
    forall x :: x in queue ==> x.processor == this
  }

  /** The items in `items` register dependents only among themselves. */
  static ghost predicate Closed(items: set<QueueItem>)
    reads items
  {
    forall x, d :: x in items && d in x.dependents ==> d in items
  }

  /** The processor's counters and logs at one moment. */
  ghost function Snap(): Snapshot
    reads this
  {
    Snapshot(submitted, stopRequested, stopSignals, rounds, idleSignals, idleMark)
  }

  /**
   * What performing the first `i` steps of `steps` from `start` has done:
   * the loop has not passed its exit, the enqueued items are in the log in
   * call order, each Stop() call has armed a signal, each round is counted,
   * and an idle signal since the start marks everything enqueued before it.
   */
  ghost predicate Progressed(start: Snapshot, steps: seq<Step>, i: nat)
    reads this
  {
    && i <= ExitIndex(steps, start.stopRequested)
    && start.submitted <= submitted && start.idleMark <= idleMark
    && Subsequence(Arrivals(steps[..i]), submitted[|start.submitted|..])
    && stopRequested == (start.stopRequested || StopArrives in steps[..i])
    && stopSignals == start.stopSignals + Unresolved(StopCount(steps[..i]))
    && rounds == start.rounds + RoundCount(steps[..i])
    && (idleSignals > start.idleSignals ==> |start.submitted| <= idleMark)
  }

  constructor ()
    ensures Valid() && Owns()
    ensures queue == [] && submitted == [] && executed == []
    ensures !stopRequested && stopSignals == [] && idleSignals == 0 && idleMark == 0 && rounds == 0
  {
    queue := [];
    stopRequested := false;
    stopSignals := [];
    idleSignals := 0;
    submitted := [];
    executed := [];
    idleMark := 0;
    rounds := 0;
  }

  /** Binds `item` to this processor and appends it to the tail of the queue. */
  method Enqueue(item: QueueItem)
    modifies this`queue, this`submitted, item`processor
    ensures item.processor == this
    ensures queue == old(queue) + [item] && submitted == old(submitted) + [item]
  {
    item.processor := this;
    queue := queue + [item];
    submitted := submitted + [item];
  }

  /**
   * Requests a stop: the loop's token is cancelled and a fresh "stopped"
   * signal is armed, replacing the one an earlier call armed.
   */
  method Stop()
    modifies this`stopRequested, this`stopSignals
    ensures stopRequested && stopSignals == old(stopSignals) + [false]
  {
    stopSignals := stopSignals + [false];
    stopRequested := true;
  }

  /**
   * What a busy round did: the head was dequeued, logged as executed and run
   * to completion, ending Errored with the error the action threw or Finished.
   */
  twostate predicate HeadRan(outcome: Outcome, items: set<QueueItem>)
    reads this, items
  {
    && HeadSettled(items)
    && var head := old(queue)[0];
       && head.error == (if outcome.Throws? then Some(outcome.message) else old(head.error))
       && head.state == (if head.error.Some? then Errored else Finished)
       && head.notifications == old(head.notifications)
            + (if old(head.state) != Running && head.hasObserver then [Running] else [])
            + (if head.hasObserver then [head.state] else [])
  }

  /**
   * The head was dequeued and logged as executed; a successful run appended
   * the dependents it released, which are also the only other items it
   * touched, and only in their dependencies and their binding to the
   * processor. The head keeps its lane, its binding, its observer and,
   * unless it is its own dependent, its dependencies.
   */
  twostate predicate HeadSettled(items: set<QueueItem>)
    reads this, items
  {
    && old(queue) != [] && old(queue)[0] in items
    && var head := old(queue)[0];
       && executed == old(executed) + [head]
       && (head.error.Some? ==> queue == old(queue)[1..] && submitted == old(submitted))
       && (head.error.None? ==>
            queue == old(queue)[1..] + old(head.PendingRelease()).1 && submitted == old(submitted) + old(head.PendingRelease()).1)
       && head.dependents == (if head.error.None? then [] else old(head.dependents))
       && head.processor == old(head.processor)
       && head.queue == old(head.queue) && head.isInitialized == old(head.isInitialized) && head.hasObserver == old(head.hasObserver)
       && (head !in old(head.dependents) ==> head.dependencies == old(head.dependencies))
       && (forall x :: x in items && x != head && x !in old(head.dependents) ==> unchanged(x))
       && (forall d :: d in items && d != head && d in old(head.dependents) ==>
            && unchanged(d`state, d`error, d`notifications, d`dependents, d`queue, d`isInitialized, d`hasObserver)
            && d.dependencies == (if head.error.None? then old(head.PendingRelease()).0[d] else old(d.dependencies))
            && d.processor == (if head.error.None? && d in old(head.PendingRelease()).1 then this else old(d.processor)))
  }

  /**
   * A busy round keeps the processor's invariants: the released items are
   * dependents of the head, so they belong to the processor and to `items`.
   */
  twostate lemma HeadSettledKeepsInvariants(items: set<QueueItem>)
    requires old(Valid() && Owns() && Closed(items))
    requires old(forall x :: x in queue ==> x in items)
    requires idleMark == old(idleMark) && stopRequested == old(stopRequested) && stopSignals == old(stopSignals)
    requires HeadSettled(items)
    ensures Valid() && Owns() && Closed(items)
    ensures forall x :: x in queue ==> x in items
  {
    var head := old(queue)[0];
    ReleasedAreFree(head, old(head.dependents), old(DependenciesOf(head.dependents)));
    assert executed + queue == old(executed) + ([head] + old(queue)[1..]) + queue[|old(queue)| - 1..];
    assert [head] + old(queue)[1..] == old(queue);
  }

  /**
   * One round of the processing loop: run the head of the queue to
   * completion, or, when the queue is empty, resolve the idle signal and arm
   * a fresh one.
   */
  method Round(outcome: Outcome, ghost items: set<QueueItem>)
    requires Valid() && Owns() && Closed(items)
    requires forall x :: x in queue ==> x in items
    modifies this`queue, this`submitted, this`executed, this`idleSignals, this`idleMark, this`rounds, items
    ensures Valid() && Owns() && Closed(items)
    ensures forall x :: x in queue ==> x in items
    ensures rounds == old(rounds) + 1
    ensures old(queue) == [] ==>
      && idleSignals == old(idleSignals) + 1 && idleMark == |submitted|
      && queue == [] && submitted == old(submitted) && executed == old(executed) && unchanged(items)
    ensures old(queue) != [] ==>
      idleSignals == old(idleSignals) && idleMark == old(idleMark) && HeadRan(outcome, items)
  {
    if queue != [] {
      RunHead(outcome, items);
      HeadSettledKeepsInvariants(items);
    } else {
      idleSignals := idleSignals + 1;
      idleMark := |submitted|;
      rounds := rounds + 1;
    }
  }

  /**
   * A round that finds an item waiting: the head is taken off the queue,
   * logged as executed and run.
   */
  method RunHead(outcome: Outcome, ghost items: set<QueueItem>)
    requires Owns() && Closed(items) && queue != []
    requires forall x :: x in queue ==> x in items
    modifies this`queue, this`submitted, this`executed, this`rounds, items
    ensures rounds == old(rounds) + 1
    ensures HeadRan(outcome, items)
  {
    var item := Dequeue();
    item.Execute(outcome);
    rounds := rounds + 1;
  }

  /** Takes the head off the queue and logs it as executed. */
  method Dequeue() returns (item: QueueItem)
    requires queue != []
    modifies this`queue, this`executed
    ensures item == old(queue)[0] && queue == old(queue)[1..] && executed == old(executed) + [item]
  {
    item := queue[0];
    queue := queue[1..];
    executed := executed + [item];
  }

  /**
   * Carries out one step of the schedule: a round, or an Enqueue() or Stop()
   * call made from outside.
   */
  method Perform(step: Step, ghost items: set<QueueItem>)
    requires Valid() && Owns() && Closed(items)
    requires forall x :: x in queue ==> x in items
    requires step.EnqueueArrives? ==> step.item in items
    modifies this, items
    ensures Valid() && Owns() && Closed(items)
    ensures forall x :: x in queue ==> x in items
    ensures old(executed) <= executed
    ensures step.RunRound? ==>
      && rounds == old(rounds) + 1 && unchanged(this`stopRequested, this`stopSignals)
      && (old(queue) == [] ==>
           && idleSignals == old(idleSignals) + 1 && idleMark == |submitted|
           && queue == [] && submitted == old(submitted) && executed == old(executed) && unchanged(items))
      && (old(queue) != [] ==>
           idleSignals == old(idleSignals) && idleMark == old(idleMark) && HeadRan(step.outcome, items))
    ensures step.EnqueueArrives? ==>
      && queue == old(queue) + [step.item] && submitted == old(submitted) + [step.item]
      && step.item.processor == this
      && unchanged(this`executed, this`idleSignals, this`idleMark, this`rounds, this`stopRequested, this`stopSignals)
      && (forall x :: x in items && x != step.item ==> unchanged(x))
      && unchanged(step.item`state, step.item`error, step.item`notifications, step.item`dependents,
                   step.item`dependencies, step.item`queue, step.item`isInitialized, step.item`hasObserver)
    ensures step.StopArrives? ==>
      && stopRequested && stopSignals == old(stopSignals) + [false]
      && unchanged(this`queue, this`submitted, this`executed, this`idleSignals, this`idleMark, this`rounds)
      && unchanged(items)
  {
    match step {
      case RunRound(outcome) =>
        Round(outcome, items);
      case EnqueueArrives(item) =>
        assert executed + queue + [item] == executed + (queue + [item]);
        Enqueue(item);
      case StopArrives =>
        Stop();
    }
  }

  /**
   * The processing loop. `steps` interleaves the loop's rounds with Enqueue()
   * and Stop() calls made from outside; the stop flag is checked at each
   * round step, and the first check that finds it set ends the loop and
   * resolves the latest stopped signal. The steps after that one are not
   * performed: they happen after the loop has ended, so an Enqueue() among
   * them would still append to the queue in the source, but no round would
   * ever take that item.
   */
  method Process(steps: seq<Step>, ghost items: set<QueueItem>) returns (ghost idleAt: seq<nat>)
    requires Valid() && Owns() && Closed(items)
    requires forall x :: x in queue ==> x in items
    requires forall k :: 0 <= k < |steps| && steps[k].EnqueueArrives? ==> steps[k].item in items
    modifies this, items
    ensures Valid() && Owns() && Closed(items)
    ensures forall x :: x in queue ==> x in items
    ensures old(submitted) <= submitted && submitted[..idleMark] <= executed
    ensures var exit := ExitIndex(steps, old(stopRequested));
      && Subsequence(Arrivals(steps[..exit]), submitted[|old(submitted)|..])
      && rounds == old(rounds) + RoundCount(steps[..exit])
      && stopRequested == (old(stopRequested) || StopArrives in steps[..exit])
      && var armed := old(stopSignals) + Unresolved(StopCount(steps[..exit]));
         stopSignals == if exit < |steps| then ResolveLast(armed) else armed
    ensures old(idleMark) <= idleMark
    ensures idleSignals > old(idleSignals) ==> |old(submitted)| <= idleMark
    ensures idleSignals == old(idleSignals) + |idleAt|
    ensures IdleLogged(steps, ExitIndex(steps, old(stopRequested)), idleAt, executed)
  {
    var exit;
    exit, idleAt := RunSteps(steps, items);
    if exit < |steps| {
      stopSignals := ResolveLast(stopSignals);
    }
    assert submitted[..idleMark] == executed[..idleMark];
  }

  /**
   * The loop itself: performs the steps in order up to the first round step
   * that finds a stop requested, and returns that step's index.
   */
  method RunSteps(steps: seq<Step>, ghost items: set<QueueItem>) returns (i: nat, ghost idleAt: seq<nat>)
    requires Valid() && Owns() && Closed(items)
    requires forall x :: x in queue ==> x in items
    requires forall k :: 0 <= k < |steps| && steps[k].EnqueueArrives? ==> steps[k].item in items
    modifies this, items
    ensures Valid() && Owns() && Closed(items)
    ensures forall x :: x in queue ==> x in items
    ensures i == ExitIndex(steps, old(stopRequested))
    ensures Progressed(old(Snap()), steps, i)
    ensures idleSignals == old(idleSignals) + |idleAt|
    ensures IdleLogged(steps, i, idleAt, executed)
  {
    ghost var start := Snap();
    i := 0;
    idleAt := [];
    assert submitted[|start.submitted|..] == [];
    while i < |steps| && !(steps[i].RunRound? && stopRequested)
      invariant Valid() && Owns() && Closed(items)
      invariant forall x :: x in queue ==> x in items
      invariant Progressed(start, steps, i)
      invariant idleSignals == start.idleSignals + |idleAt|
      invariant IdleLogged(steps, i, idleAt, executed)
    {
      ghost var ran := executed;
      ghost var idled := Advance(steps, i, start, items);
      IdleLogGrows(steps, i, idleAt, ran, executed, idled);
      idleAt := idleAt + if idled then [i] else [];
      i := i + 1;
    }
    assert i < |steps| ==> steps[i].RunRound? && stopRequested;
  }

  /**
   * One iteration of the processing loop: step `i` is performed, and the
   * summary of the schedule so far moves on by one step.
   */
  method Advance(steps: seq<Step>, i: nat, ghost start: Snapshot, ghost items: set<QueueItem>) returns (ghost idled: bool)
    requires Valid() && Owns() && Closed(items)
    requires forall x :: x in queue ==> x in items
    requires Progressed(start, steps, i)
    requires i < |steps| && !(steps[i].RunRound? && stopRequested)
    requires steps[i].EnqueueArrives? ==> steps[i].item in items
    modifies this, items
    ensures Valid() && Owns() && Closed(items)
    ensures forall x :: x in queue ==> x in items
    ensures Progressed(start, steps, i + 1)
    ensures old(executed) <= executed
    ensures idleSignals == old(idleSignals) + if idled then 1 else 0
    ensures idled ==> steps[i].RunRound? && forall x :: x in Arrivals(steps[..i]) ==> x in executed
  {
    ghost var before := submitted;
    idled := steps[i].RunRound? && queue == [];
    assert i <= ExitIndex(steps, start.stopRequested);
    assert !(steps[i].RunRound? && (start.stopRequested || StopArrives in steps[..i]));
    StepSummaries(steps, i);
    Perform(steps[i], items);
    GrowthKeepsArrivals(Arrivals(steps[..i]), before, submitted, |start.submitted|, steps[i]);
    StopSignalsGrow(start.stopSignals, steps, i);
    if idled {
      assert executed + [] == before;
      RunBeforeIdle(Arrivals(steps[..i]), before, |start.submitted|, executed);
    }
  }
}

/**
 * `idleAt` lists, in increasing order, round steps before step `n` at which
 * the idle signal was resolved, and every item that arrived before one of
 * them is in the log `ran` of items run.
 */
ghost predicate IdleLogged(steps: seq<Step>, n: nat, idleAt: seq<nat>, ran: seq<QueueItem>)
{
  && (forall j :: 0 <= j < |idleAt| ==> idleAt[j] < n && n <= |steps| && steps[idleAt[j]].RunRound?)
  && (forall j :: 0 < j < |idleAt| ==> idleAt[j - 1] < idleAt[j])
  && (forall j, x :: 0 <= j < |idleAt| && idleAt[j] <= |steps| && x in Arrivals(steps[..idleAt[j]]) ==> x in ran)
}

/**
 * One step keeps the idle log: the items run only grow, and an idle round
 * at step `i` has run every item that arrived before it.
 */
lemma IdleLogGrows(steps: seq<Step>, i: nat, idleAt: seq<nat>, before: seq<QueueItem>, after: seq<QueueItem>, idled: bool)
  requires i < |steps| && IdleLogged(steps, i, idleAt, before) && before <= after
  requires idled ==> steps[i].RunRound? && forall x :: x in Arrivals(steps[..i]) ==> x in after
  ensures IdleLogged(steps, i + 1, idleAt + if idled then [i] else [], after)
{
  forall j, x | 0 <= j < |idleAt| && idleAt[j] <= |steps| && x in Arrivals(steps[..idleAt[j]])
    ensures x in after
  {
    assert x in before;
  }
}

/**
 * When the queue is empty, every item that arrived has run.
 */
lemma RunBeforeIdle(arrived: seq<QueueItem>, submitted: seq<QueueItem>, n: nat, executed: seq<QueueItem>)
  requires n <= |submitted| && Subsequence(arrived, submitted[n..]) && executed == submitted
  ensures forall x :: x in arrived ==> x in executed
{
  SubsequenceMembers(arrived, submitted[n..]);
  assert forall x :: x in submitted[n..] ==> x in submitted;
}

/**
 * One step's growth of the submission log keeps the arrivals so far embedded
 * in it, and adds the step's own arrival at its end.
 */
lemma GrowthKeepsArrivals(arrived: seq<QueueItem>, before: seq<QueueItem>, after: seq<QueueItem>, n: nat, step: Step)
  requires n <= |before| && before <= after
  requires step.EnqueueArrives? ==> after == before + [step.item]
  requires Subsequence(arrived, before[n..])
  ensures Subsequence(arrived + if step.EnqueueArrives? then [step.item] else [], after[n..])
{
  if step.EnqueueArrives? {
    assert after[n..] == before[n..] + [step.item];
    SubsequenceAppendBoth(arrived, before[n..], step.item);
  } else {
    assert after[n..] == before[n..] + after[|before|..];
    assert arrived + [] == arrived;
    SubsequenceExtend(arrived, before[n..], after[|before|..]);
  }
}

/**
 * The single-item scenario in the order the source's test uses: the loop is
 * started, and its first round may find the queue empty (`startFirst`),
 * before the item is enqueued; the idle signal awaited is the one armed when
 * waiting begins. Its resolution comes only after the item has run and
 * finished.
 */
method RunOneItem(startFirst: bool) returns (item: QueueItem, processor: QueueProcessor, awaited: nat)
  ensures awaited == if startFirst then 1 else 0
  ensures processor.executed == [item] && processor.queue == []
  ensures processor.idleSignals == awaited + 1
  ensures item.state == Finished && item.error == None
{
  item := new QueueItem(ItemType("test", 1));
  processor := new QueueProcessor();
  if startFirst {
    processor.Round(Completes, {item});
  }
  processor.Enqueue(item);
  awaited := processor.idleSignals;
  processor.Round(Completes, {item});
  processor.Round(Completes, {item});
}

/**
 * The same scenario under any schedule of rounds and Stop() calls: whenever
 * the awaited idle signal is resolved, the item has run.
 */
method RunOneItemUntilIdle(startFirst: bool, steps: seq<Step>) returns (item: QueueItem, processor: QueueProcessor, awaited: nat)
  requires forall k :: 0 <= k < |steps| ==> !steps[k].EnqueueArrives?
  ensures processor.idleSignals > awaited ==> item in processor.executed
{
  item := new QueueItem(ItemType("test", 1));
  processor := new QueueProcessor();
  if startFirst {
    processor.Round(Completes, {item});
  }
  processor.Enqueue(item);
  assert processor.Valid() by {
    assert processor.executed + processor.queue == processor.submitted;
  }
  awaited := processor.idleSignals;
  ghost var enqueued := processor.submitted;
  ghost var idleAt := processor.Process(steps, {item});
  if processor.idleSignals > awaited {
    LatestEnqueuedRan(enqueued, processor.submitted, processor.idleMark, processor.executed);
  }
}

/**
 * An item enqueued last before an idle mark has run, once the log up to the
 * mark is a prefix of the items run.
 */
lemma LatestEnqueuedRan(before: seq<QueueItem>, after: seq<QueueItem>, mark: nat, ran: seq<QueueItem>)
  requires before != [] && before <= after && |before| <= mark <= |after| && after[..mark] <= ran
  ensures before[|before| - 1] in ran
{
}

/**
 * Two Stop() calls before the loop next checks its flag: each arms a signal
 * of its own, and the loop, on exiting, resolves only the latest one, so the
 * task the first call returned never completes.
 */
method StopTwice() returns (processor: QueueProcessor)
  ensures processor.stopSignals == [false, true]
  ensures processor.rounds == 0
{
  processor := new QueueProcessor();
  processor.Stop();
  processor.Stop();
  ghost var idleAt := processor.Process([RunRound(Completes)], {});
  assert [RunRound(Completes)][..0] == [];
}

/**
 * The test's order run wholly by the loop: a round finds the queue empty,
 * the item is enqueued, and two more rounds follow. Any idle signal after
 * the first one comes only once the item has run.
 */
method EnqueueDuringLoop() returns (item: QueueItem, processor: QueueProcessor)
  ensures processor.idleSignals > 1 ==> item in processor.executed
{
  item := new QueueItem(ItemType("test", 1));
  processor := new QueueProcessor();
  var steps := [RunRound(Completes), EnqueueArrives(item), RunRound(Completes), RunRound(Completes)];
  ghost var idleAt := processor.Process(steps, {item});
  if processor.idleSignals > 1 {
    SecondIdleAfterArrival(steps, ExitIndex(steps, false), idleAt, processor.executed);
  }
}

/** In that schedule, the second idle round comes after the enqueue. */
lemma SecondIdleAfterArrival(steps: seq<Step>, n: nat, idleAt: seq<nat>, ran: seq<QueueItem>)
  requires |steps| == 4 && steps[1].EnqueueArrives? && IdleLogged(steps, n, idleAt, ran) && |idleAt| > 1
  ensures steps[1].item in ran
{
  assert idleAt[0] < idleAt[1] && steps[idleAt[1]].RunRound?;
  assert steps[..idleAt[1]][1] == steps[1];
}
