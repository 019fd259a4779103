/**
 * The events of the discrete-event scheduler (Server/Core/Simulation.Event.cs).
 * An event is an object with a mutable tick; its body is abstracted by what the
 * scheduler can observe of it, which its type fixes: whether its precondition holds
 * and whether its body reschedules the event itself.
 */
module SimEvents {
  import opened Wrappers

  /**
   * The runtime type of an event. It selects the event's pool and its OnExecute callback,
   * and it fixes what the scheduler can observe of the event's overridden members: what
   * Precondition() answers (`ready`) and whether the body reschedules the event itself,
   * and after what delay (`requeue`).
   */
  datatype Kind = Kind(name: string, ready: bool, requeue: Option<int>)

  class Event {
    /** The runtime type (GetType()). */
    const kind: Kind
    /** The scheduled time, in milliseconds of the scheduler clock. */
    var tick: int

    /** `new T()`: tick 0. */
    constructor (kind: Kind)
      ensures this.kind == kind && tick == 0
    {
      this.kind := kind;
      tick := 0;
    }
  }

  /** CompareTo: events are ordered by their tick alone. */
  function CompareTo(a: Event, b: Event): (c: int)
    reads a, b
    ensures c < 0 <==> a.tick < b.tick
    ensures c == 0 <==> a.tick == b.tick
    ensures c > 0 <==> b.tick < a.tick
  {
    if a.tick < b.tick then -1 else if a.tick == b.tick then 0 else 1
  }

  /** CompareTo is a total preorder: reflexive, antisymmetric in sign and transitive. */
  lemma CompareToPreorder(a: Event, b: Event, c: Event)
    ensures CompareTo(a, a) == 0
    ensures CompareTo(a, b) == -CompareTo(b, a)
    ensures CompareTo(a, b) <= 0 && CompareTo(b, c) <= 0 ==> CompareTo(a, c) <= 0
  {
  }

  /** What one run of ExecuteEvent did: whether the body ran and whether OnExecute fired. */
  datatype Outcome = Outcome(bodyRan: bool, callbackFired: bool)

  /**
   * ExecuteEvent of Event<T>: the body runs iff the precondition holds, and the
   * OnExecute callback fires after it only when the body ran and a callback is set.
   * A plain Event (no callback slot) is the case `hasCallback == false`.
   */
  function ExecuteOutcome(ready: bool, hasCallback: bool): (o: Outcome)
    ensures o.bodyRan <==> ready
    ensures o.callbackFired <==> ready && hasCallback
    ensures o.callbackFired ==> o.bodyRan
  {
    if ready then Outcome(true, hasCallback) else Outcome(false, false)
  }
}
