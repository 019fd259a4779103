/**
 * The discrete-event scheduler (Server/Core/Simulation.cs): a heap of pending events,
 * one LIFO pool of retired events per event type, and Tick, which drains every event
 * due at one reading of the clock. The clock is an integer number of milliseconds
 * passed in by the caller; the float seconds of the source are not modelled.
 */
module Simulations {
  import opened Wrappers
  import opened SimEvents
  import opened HeapQueues

  /** No event occurs twice in the list. */
  predicate Distinct(s: seq<Event>)
  {
    forall e :: e in s ==> multiset(s)[e] == 1
  }

  /** The queued events due by `now`. */
  function DueSet(s: seq<Event>, now: int): set<Event>
    reads s
  {
    set e | e in s && e.tick <= now
  }

  /** Popping an event off a queue without repeats removes it from the events due. */
  lemma DuePop(items: seq<Event>, rest: seq<Event>, ev: Event, now: int)
    requires multiset(rest) + multiset{ev} == multiset(items) && ev !in rest
    ensures DueSet(rest, now) <= DueSet(items, now) - {ev}
  {
    forall e | e in DueSet(rest, now)
      ensures e in DueSet(items, now)
    {
      assert e in multiset(items);
    }
  }

  /** Putting an event back only past `now` adds nothing to the events due. */
  lemma DueRequeue(rest: seq<Event>, items: seq<Event>, ev: Event, now: int, requeued: bool)
    requires multiset(items) == multiset(rest) + (if requeued then multiset{ev} else multiset{})
    requires requeued ==> ev.tick > now
    ensures DueSet(items, now) <= DueSet(rest, now)
  {
    forall e | e in DueSet(items, now)
      ensures e in DueSet(rest, now)
    {
      assert e in multiset(items);
    }
  }

  /** A set inside another one with one of its elements removed is strictly smaller. */
  lemma DueSmaller(after: set<Event>, before: set<Event>, ev: Event)
    requires after <= before - {ev} && ev in before
    ensures |after| < |before|
  {
    SubsetSize(after, before - {ev});
  }

  /** A subset is no larger than its superset. */
  lemma {:induction false} SubsetSize<T>(a: set<T>, b: set<T>)
    requires a <= b
    ensures |a| <= |b|
    decreases |b|
  {
    if a != {} {
      var x :| x in a;
      SubsetSize(a - {x}, b - {x});
    }
  }

  /** What one pass of Tick's loop did with the event it popped. */
  datatype Step = Step(ev: Event, due: int, ran: bool, requeued: bool, rescheduled: bool, retired: bool)

  /** The events a run of steps popped off the queue. */
  function Popped(steps: seq<Step>): multiset<Event>
  {
    if |steps| == 0 then multiset{} else Popped(steps[..|steps| - 1]) + multiset{steps[|steps| - 1].ev}
  }

  /** The events a run of steps pushed back onto the queue from their own body. */
  function Requeued(steps: seq<Step>): multiset<Event>
  {
    if |steps| == 0 then multiset{}
    else Requeued(steps[..|steps| - 1])
         + (if steps[|steps| - 1].requeued then multiset{steps[|steps| - 1].ev} else multiset{})
  }

  /** The events of the given kind that a run of steps returned to their pool, in order. */
  function Retired(steps: seq<Step>, k: Kind): seq<Event>
  {
    if |steps| == 0 then []
    else Retired(steps[..|steps| - 1], k)
         + (var st := steps[|steps| - 1]; if st.retired && st.ev.kind == k then [st.ev] else [])
  }

  /** Steps whose due times never decrease from one step to the next. */
  predicate DueInOrder(steps: seq<Step>)
  {
    forall i :: 0 < i < |steps| ==> steps[i - 1].due <= steps[i].due
  }

  class Simulation {
    const queue: HeapQueue
    /** eventPools: one stack per event type; the top of a stack is its last element. */
    var pools: map<Kind, seq<Event>>
    /** The event types whose static OnExecute callback is set. */
    var callbacks: set<Kind>
    /** The events whose body ran, and the events handed to an OnExecute callback, in order. */
    var ran: seq<Event>
    var fired: seq<Event>

    /** Every pooled event belongs to the pool of its own type. */
    predicate Valid()
      reads this
    {
      KindsMatch(pools)
    }

    /** No pooled event is waiting in the queue, and no pool holds an event twice. */
    predicate PoolsApart()
      reads this, queue
    {
      Apart(pools, queue.items)
    }

    /** The queue is an ordered heap without repeated events. */
    predicate Coherent()
      reads queue, queue.items
    {
      Ordered(queue.items) && Distinct(queue.items)
    }

    constructor ()
      ensures Valid() && PoolsApart() && Coherent()
      ensures fresh(queue) && queue.items == [] && pools == map[]
      ensures callbacks == {} && ran == [] && fired == []
    {
      queue := new HeapQueue();
      pools := map[];
      callbacks := {};
      ran := [];
      fired := [];
    }

    /**
     * New<T>: the first request for a type creates its pool, seeded with one fresh
     * event that is handed out at once; later requests pop the most recently retired
     * event, or construct a fresh one when the pool is empty.
     */
    method New(kind: Kind) returns (ev: Event)
      requires Valid()
      modifies this
      ensures Valid() && ev.kind == kind
      ensures callbacks == old(callbacks) && ran == old(ran) && fired == old(fired)
      ensures kind !in old(pools) ==> fresh(ev) && pools == old(pools)[kind := []]
      ensures kind in old(pools) && |old(pools[kind])| > 0 ==>
                ev == old(pools[kind][|pools[kind]| - 1])
                && pools == old(pools)[kind := old(pools[kind][..|pools[kind]| - 1])]
      ensures kind in old(pools) && |old(pools[kind])| == 0 ==> fresh(ev) && pools == old(pools)
      ensures fresh(ev) ==> ev.tick == 0
    {
      if kind !in pools {
        var seed := new Event(kind);
        pools := pools[kind := [seed]];
      }
      var pool := pools[kind];
      if |pool| > 0 {
        ev := pool[|pool| - 1];
        pools := pools[kind := pool[..|pool| - 1]];
      } else {
        ev := new Event(kind);
      }
    }

    /** Clear: the queue is emptied; pools and callbacks are left as they are. */
    method Clear()
      modifies queue
      ensures queue.items == []
    {
      queue.Clear();
    }

    /**
     * Reschedule: the given event is due `delay` after `now` and pushed, whether or not
     * it is already queued or pooled. An ordered heap stays ordered when the event was
     * not queued.
     */
    method Reschedule(ev: Event, delay: int, now: int)
      modifies queue, ev
      ensures ev.tick == now + delay
      ensures multiset(queue.items) == multiset(old(queue.items)) + multiset{ev}
      ensures old(Ordered(queue.items)) && ev !in old(queue.items) ==> Ordered(queue.items)
      ensures old(Distinct(queue.items)) && ev !in old(queue.items) ==> Distinct(queue.items)
    {
      ev.tick := now + delay;
      queue.Push(ev);
    }

    /**
     * Schedule<T>: an event of the type from New, due `delay` after `now`, pushed onto
     * the queue and returned. A coherent queue stays coherent, and pools stay apart from
     * it, when pools and queue were apart.
     */
    method Schedule(kind: Kind, delay: int, now: int) returns (ev: Event)
      requires Valid()
      modifies this, queue, Pooled(kind)
      ensures Valid() && ev.kind == kind && ev.tick == now + delay
      ensures fresh(ev) || ev in old(Pooled(kind))
      ensures multiset(queue.items) == multiset(old(queue.items)) + multiset{ev}
      ensures kind in old(pools) && |old(pools[kind])| > 0 ==>
                ev == old(pools[kind][|pools[kind]| - 1])
                && pools == old(pools)[kind := old(pools[kind][..|pools[kind]| - 1])]
      ensures kind !in old(pools) ==> pools == old(pools)[kind := []]
      ensures kind in old(pools) && |old(pools[kind])| == 0 ==> pools == old(pools)
      ensures old(Coherent()) && old(PoolsApart()) ==> Coherent() && PoolsApart()
    {
      ghost var wasApart := PoolsApart();
      ghost var pools0 := pools;
      ghost var items0 := queue.items;
      ev := New(kind);
      if wasApart {
        assert ev !in queue.items by {
          if !fresh(ev) {
            assert ev in pools0[kind];
          }
        }
      }
      Reschedule(ev, delay, now);
      if wasApart {
        if kind in pools0 && |pools0[kind]| > 0 {
          DistinctPop(pools0[kind]);
        }
        forall k | k in pools
          ensures Distinct(pools[k]) && forall e :: e in pools[k] ==> e !in queue.items
        {
          forall e | e in pools[k]
            ensures e !in queue.items
          {
            assert e in pools0[k] by {
              if k == kind && kind in pools0 && |pools0[kind]| > 0 {
                assert e in pools0[kind][..|pools0[kind]| - 1];
              }
            }
            assert e !in items0;
            assert e != ev;
            assert e !in multiset(queue.items);
          }
        }
      }
    }

    /** The events in the pool of one type. */
    function Pooled(kind: Kind): set<Event>
      reads this
    {
      if kind in pools then set e | e in pools[kind] else {}
    }

    /**
     * ExecuteEvent of Event<T>: when the precondition holds the body runs (here: it
     * reschedules the event when its `requeue` says so) and then the type's OnExecute
     * callback, if set, is handed the event; otherwise nothing happens.
     */
    method ExecuteEvent(ev: Event, now: int)
      modifies this, queue, ev
      ensures pools == old(pools) && callbacks == old(callbacks)
      ensures ran == old(ran) + (if ev.kind.ready then [ev] else [])
      ensures fired == old(fired) + (if ev.kind.ready && ev.kind in callbacks then [ev] else [])
      ensures ev.kind.ready && ev.kind.requeue.Some? ==>
                ev.tick == now + ev.kind.requeue.value
                && multiset(queue.items) == multiset(old(queue.items)) + multiset{ev}
      ensures !(ev.kind.ready && ev.kind.requeue.Some?) ==> ev.tick == old(ev.tick) && queue.items == old(queue.items)
      ensures old(Coherent()) && ev !in old(queue.items) ==> Coherent()
      ensures ev !in old(queue.items) && (ev.kind.requeue.Some? ==> ev.kind.requeue.value >= 1) ==>
                DueSet(queue.items, now) <= old(DueSet(queue.items, now))
    {
      var outcome := ExecuteOutcome(ev.kind.ready, ev.kind in callbacks);
      if outcome.bodyRan {
        ran := ran + [ev];
        if ev.kind.requeue.Some? {
          ghost var before := queue.items;
          Reschedule(ev, ev.kind.requeue.value, now);
          if ev !in before && ev.kind.requeue.value >= 1 {
            assert DueSet(before, now) == old(DueSet(queue.items, now));
            DueRequeue(before, queue.items, ev, now, true);
          }
        }
      }
      if outcome.callbackFired {
        fired := fired + [ev];
      }
    }

    /**
     * The end of a pass of Tick's loop: an event whose tick did not grow past `tick` is
     * cleaned up and pushed onto the pool of its type; when the type has no pool the
     * event is dropped (the KeyNotFoundException the source swallows). Cleanup() of the
     * base event does nothing.
     */
    method Retire(ev: Event, tick: int) returns (rescheduled: bool, retired: bool)
      requires Valid()
      modifies this
      ensures Valid() && callbacks == old(callbacks) && ran == old(ran) && fired == old(fired)
      ensures rescheduled <==> ev.tick > tick
      ensures retired <==> !rescheduled && ev.kind in old(pools)
      ensures pools == if retired then old(pools)[ev.kind := old(pools)[ev.kind] + [ev]] else old(pools)
    {
      rescheduled := ev.tick > tick;
      retired := false;
      if !rescheduled && ev.kind in pools {
        pools := pools[ev.kind := pools[ev.kind] + [ev]];
        retired := true;
      }
    }

    /** Pop the earliest event off a non-empty queue. */
    method PopEarliest(ghost now: int) returns (ev: Event)
      requires |queue.items| > 0
      modifies queue
      ensures ev == old(queue.items[0]) && multiset(queue.items) + multiset{ev} == multiset(old(queue.items))
      ensures old(Coherent()) ==> Coherent() && ev !in queue.items && forall e :: e in queue.items ==> ev.tick <= e.tick
      ensures old(Coherent()) ==> DueSet(queue.items, now) <= old(DueSet(queue.items, now)) - {ev}
    {
      ghost var before := queue.items;
      var popped := queue.Pop();
      ev := popped.value;
      if old(Coherent()) {
        DistinctAfterPop(before, queue.items, ev);
        DuePop(before, queue.items, ev, now);
      }
    }

    /**
     * One pass of Tick's loop: pop the earliest event, which is due by `now`, run it, and
     * retire it to its pool unless its tick grew.
     */
    method RunEarliest(now: int) returns (ghost st: Step)
      requires Valid() && |queue.items| > 0 && queue.items[0].tick <= now
      modifies this, queue, queue.items[0]
      ensures Valid() && pools.Keys == old(pools).Keys && callbacks == old(callbacks)
      ensures st.ev == old(queue.items[0]) && st.due == old(queue.items[0].tick)
      ensures StepFacts(st, now, old(pools).Keys)
      ensures st.requeued ==> st.ev.tick == now + st.ev.kind.requeue.value
      ensures multiset(queue.items) + multiset{st.ev}
              == multiset(old(queue.items)) + (if st.requeued then multiset{st.ev} else multiset{})
      ensures pools == if st.retired then old(pools)[st.ev.kind := old(pools)[st.ev.kind] + [st.ev]] else old(pools)
      ensures old(Coherent()) ==> Coherent()
      ensures old(Coherent()) && (st.ev.kind.requeue.Some? ==> st.ev.kind.requeue.value >= 0) ==>
                forall e :: e in queue.items ==> st.due <= e.tick
      ensures old(Coherent()) && (st.ev.kind.requeue.Some? ==> st.ev.kind.requeue.value >= 1) ==>
                DueSet(queue.items, now) <= old(DueSet(queue.items, now)) - {st.ev}
    {
      ghost var first, due, p0 := queue.items[0], queue.items[0].tick, pools;
      var ev := PopEarliest(now);
      var tick := ev.tick;
      assert ev == first && tick == due;
      ghost var rest := queue.items;
      ghost var later := old(Coherent()) && forall e :: e in rest ==> tick <= e.tick;
      ExecuteEvent(ev, now);
      ghost var items := queue.items;
      if later && (ev.kind.requeue.Some? ==> ev.kind.requeue.value >= 0) {
        forall e | e in items
          ensures tick <= e.tick
        {
          assert e in multiset(items);
          if e != ev {
            assert e in multiset(rest);
          }
        }
      }
      assert pools == p0;
      var rescheduled, retired := Retire(ev, tick);
      st := Step(ev, tick, ev.kind.ready, ev.kind.ready && ev.kind.requeue.Some?, rescheduled, retired);
    }

    /**
     * Tick: with the clock read once as `now`, pop and run every event due by then,
     * earliest first. An event whose tick did not grow while it ran is retired to the
     * pool of its type; when there is no such pool it is dropped. Returns the number of
     * events still queued. `maxSteps` bounds the number of passes, since an event that
     * keeps rescheduling itself at or before `now` would otherwise keep the loop going.
     */
    method Tick(now: int, maxSteps: nat) returns (count: nat, ghost steps: seq<Step>)
      requires Valid()
      modifies this, queue, queue.items
      ensures Valid() && count == |queue.items| && |steps| <= maxSteps
      ensures pools.Keys == old(pools).Keys && callbacks == old(callbacks)
      ensures |steps| < maxSteps ==> |queue.items| == 0 || queue.items[0].tick > now
      ensures old(|queue.items|) > 0 && old(queue.items[0].tick) <= now && maxSteps > 0 ==>
                |steps| > 0 && steps[0].ev == old(queue.items[0]) && steps[0].due == old(queue.items[0].tick)
      ensures forall i :: 0 <= i < |steps| ==> StepFacts(steps[i], now, pools.Keys)
      ensures forall k :: k in pools ==> pools[k] == old(pools[k]) + Retired(steps, k)
      ensures multiset(queue.items) + Popped(steps) == multiset(old(queue.items)) + Requeued(steps)
      ensures old(Coherent()) ==> Coherent()
      ensures old(Coherent()) && old(Delays(queue.items, 0)) ==> DueInOrder(steps)
      ensures old(Coherent()) && old(PoolsApart()) && old(Delays(queue.items, 1)) ==> PoolsApart()
      ensures old(Coherent()) && old(Delays(queue.items, 1)) && maxSteps > old(|DueSet(queue.items, now)|) ==>
                |steps| < maxSteps && (|queue.items| == 0 || queue.items[0].tick > now)
    {
      ghost var q0, p0 := queue.items, pools;
      ghost var t0 := if |q0| > 0 then q0[0].tick else 0;
      ghost var track := Coherent();
      ghost var inOrder := track && Delays(q0, 0);
      ghost var apart := track && PoolsApart() && Delays(q0, 1);
      ghost var bounded := track && Delays(q0, 1);
      ghost var due0 := |DueSet(q0, now)|;
      steps := [];
      var passes := 0;
      while |queue.items| > 0 && queue.items[0].tick <= now && passes < maxSteps
        invariant Valid() && passes == |steps| <= maxSteps && callbacks == old(callbacks)
        invariant |steps| == 0 ==> queue.items == q0 && (|q0| > 0 ==> q0[0].tick == t0)
        invariant |steps| > 0 ==> |q0| > 0 && steps[0].ev == q0[0] && steps[0].due == t0
        invariant Ledger(q0, p0, queue.items, pools, steps, now)
        invariant track ==> Coherent()
        invariant inOrder ==> DueInOrder(steps)
        invariant inOrder && |steps| > 0 ==> forall e :: e in queue.items ==> steps[|steps| - 1].due <= e.tick
        invariant apart ==> Apart(pools, queue.items)
        invariant bounded ==> passes + |DueSet(queue.items, now)| <= due0
        decreases maxSteps - passes
      {
        assert queue.items[0] in q0;
        ghost var st := Pass(now, q0, p0, steps, track, inOrder, apart, bounded);
        steps := steps + [st];
        passes := passes + 1;
      }
      count := |queue.items|;
    }

    /** One pass of Tick's loop, with the bookkeeping the loop keeps. */
    method Pass(now: int, ghost q0: seq<Event>, ghost p0: map<Kind, seq<Event>>, ghost steps: seq<Step>,
                ghost track: bool, ghost inOrder: bool, ghost apart: bool, ghost bounded: bool)
      returns (ghost st: Step)
      requires Valid() && |queue.items| > 0 && queue.items[0].tick <= now
      requires Ledger(q0, p0, queue.items, pools, steps, now)
      requires track ==> Coherent()
      requires inOrder ==> track && Delays(q0, 0) && DueInOrder(steps)
      requires inOrder && |steps| > 0 ==> forall e :: e in queue.items ==> steps[|steps| - 1].due <= e.tick
      requires apart ==> track && Delays(q0, 1) && Apart(pools, queue.items)
      requires bounded ==> track && Delays(q0, 1)
      modifies this, queue, queue.items[0]
      ensures Valid() && callbacks == old(callbacks)
      ensures st.ev == old(queue.items[0]) && st.due == old(queue.items[0].tick)
      ensures st.requeued ==> st.ev.kind.requeue.Some? && st.ev.tick == now + st.ev.kind.requeue.value
      ensures multiset(queue.items) + multiset{st.ev}
              == multiset(old(queue.items)) + (if st.requeued then multiset{st.ev} else multiset{})
      ensures Ledger(q0, p0, queue.items, pools, steps + [st], now)
      ensures track ==> Coherent()
      ensures inOrder ==> DueInOrder(steps + [st]) && forall e :: e in queue.items ==> st.due <= e.tick
      ensures apart ==> Apart(pools, queue.items)
      ensures bounded ==> |DueSet(queue.items, now)| < old(|DueSet(queue.items, now)|)
    {
      ghost var items, p1 := queue.items, pools;
      assert items[0] in q0;
      st := RunEarliest(now);
      LedgerStep(q0, p0, items, p1, steps, now, queue.items, pools, st);
      if inOrder {
        assert st.ev in q0;
        DueInOrderAppend(steps, st);
      }
      if apart {
        ApartPass(p1, items, st.ev, queue.items, st.requeued, pools);
      }
      if bounded {
        assert st.ev in q0;
        DueSmaller(DueSet(queue.items, now), old(DueSet(queue.items, now)), st.ev);
      }
    }
  }

  /**
   * Rescheduling is recognised only by a tick that grew. An event whose body
   * reschedules it with delay 0 at the clock reading it ran at keeps its tick, so
   * Tick both leaves it queued and retires it to its pool: one object in two places.
   */
  method ZeroDelayQueuedAndPooled() returns (sim: Simulation, ev: Event)
    ensures ev in sim.queue.items && ev.kind in sim.pools && ev in sim.pools[ev.kind]
  {
    sim, ev := EchoScheduled();
    var count, steps := sim.Tick(0, 1);
    ZeroDelayLedger(ev, steps, sim.queue.items, sim.pools);
  }

  /** A fresh simulation with one "Echo" event, due at 0, that reschedules itself with delay 0. */
  method EchoScheduled() returns (sim: Simulation, ev: Event)
    ensures fresh(sim) && fresh(sim.queue) && fresh(ev) && sim.Valid()
    ensures sim.queue.items == [ev] && ev.tick == 0 && ev.kind == Kind("Echo", true, Some(0))
    ensures sim.pools == map[ev.kind := []]
  {
    var kind := Kind("Echo", true, Some(0));
    sim := new Simulation();
    ev := sim.Schedule(kind, 0, 0);
    assert |sim.queue.items| == |multiset(sim.queue.items)| == 1;
    assert sim.queue.items[0] in multiset(sim.queue.items);
  }

  /** What Tick's promises say of one pass over the queue [ev] with an empty pool for ev's type. */
  lemma ZeroDelayLedger(ev: Event, steps: seq<Step>, items: seq<Event>, pools: map<Kind, seq<Event>>)
    requires ev.kind == Kind("Echo", true, Some(0)) && ev.kind in pools
    requires |steps| == 1 && steps[0].ev == ev && steps[0].due == 0
    requires forall i :: 0 <= i < |steps| ==> StepFacts(steps[i], 0, pools.Keys)
    requires pools[ev.kind] == [] + Retired(steps, ev.kind)
    requires multiset(items) + Popped(steps) == multiset([ev]) + Requeued(steps)
    ensures ev in items && ev in pools[ev.kind]
  {
    var st := steps[0];
    assert StepFacts(st, 0, pools.Keys);
    SingleStep(steps, ev.kind);
    assert pools[ev.kind] == [ev];
    var left := multiset(items);
    assert left + multiset{ev} == multiset{ev} + multiset{ev};
    assert (left + multiset{ev})[ev] == left[ev] + 1;
  }

  /** The ledger of a single step. */
  lemma SingleStep(steps: seq<Step>, k: Kind)
    requires |steps| == 1
    ensures Popped(steps) == multiset{steps[0].ev}
    ensures Requeued(steps) == if steps[0].requeued then multiset{steps[0].ev} else multiset{}
    ensures Retired(steps, k) == if steps[0].retired && steps[0].ev.kind == k then [steps[0].ev] else []
  {
    assert steps[..0] == [];
  }

  /** Every pooled event belongs to the pool of its own type. */
  predicate KindsMatch(pools: map<Kind, seq<Event>>)
  {
    forall k :: k in pools ==> OfKind(pools[k], k)
  }

  /** Every event in the list has the given type. */
  predicate OfKind(s: seq<Event>, k: Kind)
  {
    forall i :: 0 <= i < |s| ==> s[i].kind == k
  }

  /** No pool holds an event twice, and no pooled event is in `items`. */
  predicate Apart(pools: map<Kind, seq<Event>>, items: seq<Event>)
  {
    forall k :: k in pools ==> Distinct(pools[k]) && forall e :: e in pools[k] ==> e !in items
  }

  /**
   * One pass keeps pools and queue apart when the popped event either went back onto
   * the queue or was retired, but not both.
   */
  lemma ApartPass(pools: map<Kind, seq<Event>>, items: seq<Event>, ev: Event, items': seq<Event>,
                  requeued: bool, pools': map<Kind, seq<Event>>)
    requires Apart(pools, items) && ev in items && Distinct(items)
    requires multiset(items') + multiset{ev} == multiset(items) + (if requeued then multiset{ev} else multiset{})
    requires requeued ==> pools' == pools
    requires !requeued ==> pools' == pools || (ev.kind in pools && pools' == pools[ev.kind := pools[ev.kind] + [ev]])
    ensures Apart(pools', items')
  {
    forall e | e in items'
      ensures e == ev || e in items
    {
      assert e in multiset(items) + (if requeued then multiset{ev} else multiset{});
    }
    if !requeued {
      DistinctAfterPop(items, items', ev);
    }
    forall k | k in pools'
      ensures Distinct(pools'[k]) && forall e :: e in pools'[k] ==> e !in items'
    {
      if pools' != pools && k == ev.kind {
        DistinctPush(pools[k], ev);
      }
    }
  }

  /** Every self-rescheduling event in the list moves itself by at least `least`. */
  predicate Delays(s: seq<Event>, least: int)
  {
    forall e :: e in s ==> (e.kind.requeue.Some? ==> e.kind.requeue.value >= least)
  }

  /**
   * What Tick promises of each pass: the event was due; its body ran iff its precondition
   * held; it rescheduled itself iff the body ran and asks to; it counts as rescheduled
   * only when the new tick is later than the old one; and it was retired iff it was not
   * rescheduled and its type has a pool.
   */
  predicate StepFacts(st: Step, now: int, kinds: set<Kind>)
  {
    && st.due <= now
    && st.ran == st.ev.kind.ready
    && (st.requeued <==> st.ran && st.ev.kind.requeue.Some?)
    && (st.rescheduled <==> st.requeued && now + st.ev.kind.requeue.value > st.due)
    && (st.retired <==> !st.rescheduled && st.ev.kind in kinds)
  }

  lemma StepsAppend(steps: seq<Step>, st: Step)
    ensures (steps + [st])[..|steps|] == steps
    ensures Popped(steps + [st]) == Popped(steps) + multiset{st.ev}
    ensures Requeued(steps + [st]) == Requeued(steps) + (if st.requeued then multiset{st.ev} else multiset{})
    ensures forall k :: Retired(steps + [st], k) == Retired(steps, k) + (if st.retired && st.ev.kind == k then [st.ev] else [])
  {
    assert (steps + [st])[..|steps|] == steps;
  }

  /** The top of a stack without repeats is not below it, and what is below has no repeats. */
  lemma DistinctPop(s: seq<Event>)
    requires |s| > 0 && Distinct(s)
    ensures s[|s| - 1] !in s[..|s| - 1] && Distinct(s[..|s| - 1])
  {
    var below, top := s[..|s| - 1], s[|s| - 1];
    assert s == below + [top];
    assert multiset(s) == multiset(below) + multiset{top};
    assert multiset(s)[top] == 1;
    forall e | e in below
      ensures multiset(below)[e] == 1
    {
      assert e in multiset(below) && e in s;
      assert multiset(below)[e] <= multiset(s)[e];
    }
  }

  /**
   * The bookkeeping Tick keeps while it drains the queue that started as `q0`, with the
   * pools that started as `p0`: every step obeys StepFacts, every pool grew by exactly the
   * events retired to it, and the queue lost exactly the popped events and regained exactly
   * the requeued ones.
   */
  predicate Ledger(q0: seq<Event>, p0: map<Kind, seq<Event>>, items: seq<Event>,
                   pools: map<Kind, seq<Event>>, steps: seq<Step>, now: int)
  {
    && pools.Keys == p0.Keys
    && (forall e :: e in items ==> e in q0)
    && (forall i :: 0 <= i < |steps| ==> StepFacts(steps[i], now, p0.Keys))
    && (forall k :: k in pools ==> pools[k] == p0[k] + Retired(steps, k))
    && multiset(items) + Popped(steps) == multiset(q0) + Requeued(steps)
  }

  /** One pass of Tick, as RunEarliest describes it, keeps the ledger. */
  lemma LedgerStep(q0: seq<Event>, p0: map<Kind, seq<Event>>, items: seq<Event>,
                   pools: map<Kind, seq<Event>>, steps: seq<Step>, now: int,
                   items': seq<Event>, pools': map<Kind, seq<Event>>, st: Step)
    requires Ledger(q0, p0, items, pools, steps, now)
    requires |items| > 0 && st.ev == items[0] && StepFacts(st, now, pools.Keys)
    requires multiset(items') + multiset{st.ev}
             == multiset(items) + (if st.requeued then multiset{st.ev} else multiset{})
    requires pools' == if st.retired then pools[st.ev.kind := pools[st.ev.kind] + [st.ev]] else pools
    ensures Ledger(q0, p0, items', pools', steps + [st], now)
  {
    StepsAppend(steps, st);
    QueueStep(q0, items, steps, items', st);
    PoolsStep(p0, pools, steps, pools', st);
    forall i | 0 <= i < |steps + [st]|
      ensures StepFacts((steps + [st])[i], now, p0.Keys)
    {
      if i < |steps| {
        assert (steps + [st])[i] == steps[i];
      }
    }
  }

  /** The queue half of LedgerStep. */
  lemma QueueStep(q0: seq<Event>, items: seq<Event>, steps: seq<Step>, items': seq<Event>, st: Step)
    requires forall e :: e in items ==> e in q0
    requires multiset(items) + Popped(steps) == multiset(q0) + Requeued(steps)
    requires |items| > 0 && st.ev == items[0]
    requires multiset(items') + multiset{st.ev}
             == multiset(items) + (if st.requeued then multiset{st.ev} else multiset{})
    ensures forall e :: e in items' ==> e in q0
    ensures multiset(items') + Popped(steps + [st]) == multiset(q0) + Requeued(steps + [st])
  {
    var head := items[0];
    var back := if st.requeued then multiset{st.ev} else multiset{};
    StepsAppend(steps, st);
    assert head in q0;
    Rebalance(multiset(items'), multiset(items), multiset(q0), Popped(steps), Requeued(steps), multiset{head}, back);
    forall e | e in items'
      ensures e in q0
    {
      assert e in multiset(items) + back;
      if e != head {
        assert e in multiset(items);
      }
    }
  }

  /** Multiset bookkeeping: a pass that pops `head` and puts back `back` keeps the balance. */
  lemma Rebalance<T>(items': multiset<T>, items: multiset<T>, q0: multiset<T>, popped: multiset<T>,
                     requeued: multiset<T>, head: multiset<T>, back: multiset<T>)
    requires items' + head == items + back
    requires items + popped == q0 + requeued
    ensures items' + (popped + head) == q0 + (requeued + back)
  {
    forall e
      ensures (items' + (popped + head))[e] == (q0 + (requeued + back))[e]
    {
      assert (items' + head)[e] == (items + back)[e];
      assert (items + popped)[e] == (q0 + requeued)[e];
    }
  }

  /** The pool half of LedgerStep. */
  lemma PoolsStep(p0: map<Kind, seq<Event>>, pools: map<Kind, seq<Event>>, steps: seq<Step>,
                  pools': map<Kind, seq<Event>>, st: Step)
    requires pools.Keys == p0.Keys && (st.retired ==> st.ev.kind in pools)
    requires forall k :: k in pools ==> pools[k] == p0[k] + Retired(steps, k)
    requires pools' == if st.retired then pools[st.ev.kind := pools[st.ev.kind] + [st.ev]] else pools
    ensures pools'.Keys == p0.Keys
    ensures forall k :: k in pools' ==> pools'[k] == p0[k] + Retired(steps + [st], k)
  {
    forall k | k in pools'
      ensures pools'[k] == p0[k] + Retired(steps + [st], k)
    {
      var more := if st.retired && st.ev.kind == k then [st.ev] else [];
      var r := Retired(steps, k);
      assert Retired(steps + [st], k) == r + more by {
        StepsAppend(steps, st);
      }
      assert pools'[k] == (p0[k] + r) + more;
      assert (p0[k] + r) + more == p0[k] + (r + more);
    }
  }

  /** A step due no earlier than the last one keeps the due times in order. */
  lemma DueInOrderAppend(steps: seq<Step>, st: Step)
    requires DueInOrder(steps) && (|steps| > 0 ==> steps[|steps| - 1].due <= st.due)
    ensures DueInOrder(steps + [st])
  {
    forall i | 0 < i < |steps + [st]|
      ensures (steps + [st])[i - 1].due <= (steps + [st])[i].due
    {
      if i < |steps| {
        assert (steps + [st])[i - 1] == steps[i - 1] && (steps + [st])[i] == steps[i];
      }
    }
  }

  /** Due times that never decrease from one step to the next never decrease at all. */
  lemma {:induction false} DueInOrderSorted(steps: seq<Step>, i: int, j: int)
    requires DueInOrder(steps) && 0 <= i <= j < |steps|
    ensures steps[i].due <= steps[j].due
    decreases j - i
  {
    if i < j {
      DueInOrderSorted(steps, i, j - 1);
    }
  }

  /** Pushing an event that is not in a list without repeats keeps it without repeats. */
  lemma DistinctPush(s: seq<Event>, x: Event)
    requires Distinct(s) && x !in s
    ensures Distinct(s + [x])
  {
    assert multiset(s + [x]) == multiset(s) + multiset{x};
    forall e | e in s + [x]
      ensures multiset(s + [x])[e] == 1
    {
      if e != x {
        assert e in s;
      }
    }
  }

  /** Taking one copy of `x` out of a list without repeats leaves a list without repeats and without `x`. */
  lemma DistinctAfterPop(before: seq<Event>, after: seq<Event>, x: Event)
    requires Distinct(before) && multiset(after) + multiset{x} == multiset(before)
    ensures Distinct(after) && x !in after
  {
    assert x in multiset(before);
    assert multiset(before)[x] == 1;
    forall e | e in after
      ensures multiset(after)[e] == 1
    {
      assert e in multiset(after);
      assert e in multiset(before);
    }
  }
}
