/**
 * The lifecycle of a background manager (Server/LuciferCore/Manager/ManagerBase.cs):
 * a cancellation source, the task that runs the loop, and the hooks called around
 * starting and stopping. The task runs concurrently; how it ends is an input, and
 * the order of observable effects is recorded as a trace.
 */
module Managers {

  /** How a background task ended. A fault carries whether it was an OperationCanceledException. */
  datatype Ending = RanToCompletion | Canceled | Faulted(operationCanceled: bool)

  datatype TaskState = NoTask | Running | Done(ending: Ending)

  /** The observable effects, in order. A token is named by its source's generation. */
  datatype Effect = Launched(token: nat) | Started | Cancelled(token: nat) | Stopping | Stopped

  /** Whether Task.Wait on a task that ended this way lets Stop go on: cancellation is swallowed, any other fault escapes. */
  predicate WaitSwallows(e: Ending)
  {
    !e.Faulted? || e.operationCanceled
  }

  class ManagerBase {
    /** The generation of the current cancellation source and whether it was cancelled. */
    var generation: nat
    var cancelled: bool
    var task: TaskState
    var trace: seq<Effect>

    constructor ()
      ensures generation == 0 && !cancelled && task == NoTask && trace == []
    {
      generation := 0;
      cancelled := false;
      task := NoTask;
      trace := [];
    }

    /** The running task ends on its own (its loop returned or threw). */
    method Finish(e: Ending)
      requires task == Running
      modifies this
      ensures task == Done(e)
      ensures generation == old(generation) && cancelled == old(cancelled) && trace == old(trace)
    {
      task := Done(e);
    }

    /**
     * Start: a no-op while the previous task is still running. Otherwise a cancelled
     * source is replaced by a fresh one, the loop is launched with the current token,
     * and then OnStarted runs.
     */
    method Start()
      modifies this
      ensures old(task) == Running ==>
                task == Running && generation == old(generation) && cancelled == old(cancelled) && trace == old(trace)
      ensures old(task) != Running ==>
                && task == Running && !cancelled
                && generation == (if old(cancelled) then old(generation) + 1 else old(generation))
                && trace == old(trace) + [Launched(generation), Started]
    {
      if task == Running {
        return;
      }
      if cancelled {
        generation := generation + 1;
        cancelled := false;
      }
      task := Running;
      trace := trace + [Launched(generation)];
      trace := trace + [Started];
    }

    /**
     * Stop: cancel the source, call OnStopping, wait for the task, then call OnStopped.
     * It does so whether or not the manager was ever started. A running task ends as
     * `ending` says; a fault other than cancellation escapes the wait, and then
     * OnStopped is not reached (`escaped` is true).
     */
    method Stop(ending: Ending) returns (escaped: bool)
      modifies this
      ensures cancelled && generation == old(generation)
      ensures task == (if old(task) == Running then Done(ending) else old(task))
      ensures escaped <==> task.Done? && !WaitSwallows(task.ending)
      ensures trace == old(trace) + [Cancelled(generation), Stopping] + (if escaped then [] else [Stopped])
    {
      cancelled := true;
      trace := trace + [Cancelled(generation)];
      trace := trace + [Stopping];
      if task == Running {
        task := Done(ending);
      }
      if task.Done? && !WaitSwallows(task.ending) {
        return true;
      }
      trace := trace + [Stopped];
      return false;
    }

    /** Restart: Stop, then Start unless the stop threw. */
    method Restart(ending: Ending) returns (escaped: bool)
      modifies this
      ensures escaped <==> (old(task) == Running && !WaitSwallows(ending)) || (old(task).Done? && !WaitSwallows(old(task).ending))
      ensures !escaped ==>
                && task == Running && !cancelled && generation == old(generation) + 1
                && trace == old(trace) + [Cancelled(old(generation)), Stopping, Stopped, Launched(generation), Started]
      ensures escaped ==> trace == old(trace) + [Cancelled(old(generation)), Stopping]
    {
      escaped := Stop(ending);
      if !escaped {
        Start();
      }
    }
  }

  /**
   * Stop is not idempotent: stopping twice, even a manager that was never
   * started, runs OnStopping and OnStopped twice.
   */
  method StopTwice() returns (trace: seq<Effect>)
    ensures trace == [Cancelled(0), Stopping, Stopped, Cancelled(0), Stopping, Stopped]
  {
    var m := new ManagerBase();
    var e1 := m.Stop(RanToCompletion);
    var e2 := m.Stop(RanToCompletion);
    trace := m.trace;
  }
}
