/**
 * `GooeyWindow`: the unit of work a test hands to `Gooey.capture`. Its
 * `invoke` step runs on the toolkit's dispatch thread and should open a
 * window; `run` records how `invoke` ended, `reset` makes the task reusable,
 * and `finish` rethrows what `invoke` recorded. The task also owns the event
 * criterion that tells the toolkit listener which window to capture.
 * `GooeyDialog` is this class with the window class fixed to `JDialog`.
 */
module Tasks {
  import opened Lang
  import opened Toolkit

  /** `java.awt.event.WindowEvent.WINDOW_OPENED`. */
  const WINDOW_OPENED: int := 200

  /** The criterion the task arms the toolkit listener with. */
  datatype EventCriteria = WindowOpenedOf(windowClass: Kind) {
    /** Accepts an event whose source is a `windowClass` and whose id is `WINDOW_OPENED`. */
    predicate IsAccepted(source: Kind, id: int) {
      IsInstance(source, windowClass) && id == WINDOW_OPENED
    }
  }

  class GooeyWindow {
    /** The window class the task waits for (`JFrame`, `JDialog`, ...). */
    const windowClass: Kind
    /** Built once, from the window class; nothing replaces it. */
    const criteria: EventCriteria := WindowOpenedOf(windowClass)
    /** The `RuntimeException` that `invoke` threw, if any. */
    var exception: Option<Throwable>
    /** The `AssertionError` that `invoke` threw, if any. */
    var assertion: Option<Throwable>
    /** Whether `run` has completed. */
    var done: bool

    ghost predicate Valid()
      reads this
    {
      && (exception.Some? ==> exception.value.RuntimeException?)
      && (assertion.Some? ==> assertion.value.AssertionError?)
    }

    /** The state of a task that has not run yet. */
    ghost predicate IsFresh()
      reads this
    {
      !done && exception == None && assertion == None
    }

    constructor (windowClass: Kind)
      ensures Valid() && IsFresh()
      ensures this.windowClass == windowClass
    {
      this.windowClass := windowClass;
      exception := None;
      assertion := None;
      done := false;
    }

    /** The criterion of this task: a window of its class was opened. */
    function GetEventCriteria(): (c: EventCriteria)
      ensures forall source, id :: c.IsAccepted(source, id) <==> IsInstance(source, windowClass) && id == WINDOW_OPENED
    {
      criteria
    }

    /**
     * The body the dispatch thread executes: run `invoke` (whose outcome is
     * given), record a RuntimeException or an AssertionError, and mark the
     * task done on every path. Any other throwable is not recorded: it
     * escapes `run` and is returned as `escaped`.
     */
    method Run(invoke: Outcome<()>) returns (escaped: Option<Throwable>)
      requires Valid()
      modifies this
      ensures Valid() && done
      ensures exception == if invoke.Threw? && invoke.error.RuntimeException? then Some(invoke.error) else old(exception)
      ensures assertion == if invoke.Threw? && invoke.error.AssertionError? then Some(invoke.error) else old(assertion)
      ensures escaped == if invoke.Threw? && invoke.error.OtherThrowable? then Some(invoke.error) else None
    {
      escaped := None;
      match invoke {
        case Returned(_) =>
        case Threw(e) =>
          if e.RuntimeException? {
            exception := Some(e);
          } else if e.AssertionError? {
            assertion := Some(e);
          } else {
            escaped := Some(e);
          }
      }
      done := true;
    }

    /** Clears the task so that it can be captured again. */
    method Reset()
      requires Valid()
      modifies this
      ensures Valid() && IsFresh()
    {
      done := false;
      exception := None;
      assertion := None;
    }

    /**
     * Rethrows what `run` recorded: the RuntimeException first, then the
     * AssertionError; returns normally when `invoke` recorded neither. The
     * caller's wait for `done` is the precondition.
     */
    method Finish() returns (r: Outcome<()>)
      requires Valid() && done
      ensures exception.Some? ==> r == Threw(exception.value)
      ensures exception.None? && assertion.Some? ==> r == Threw(assertion.value)
      ensures exception.None? && assertion.None? ==> r == Returned(())
      ensures r.Threw? ==> r.error.RuntimeException? || r.error.AssertionError?
    {
      if exception.Some? {
        return Threw(exception.value);
      }
      if assertion.Some? {
        return Threw(assertion.value);
      }
      return Returned(());
    }
  }

  /**
   * A frame task and a dialog task tell their windows apart, and neither
   * reacts to any window event other than the opening.
   */
  lemma FramesAndDialogsAreDistinguished(id: int)
    ensures WindowOpenedOf(JFrame).IsAccepted(JFrame, WINDOW_OPENED)
    ensures WindowOpenedOf(JDialog).IsAccepted(JDialog, WINDOW_OPENED)
    ensures !WindowOpenedOf(JFrame).IsAccepted(JDialog, id)
    ensures !WindowOpenedOf(JDialog).IsAccepted(JFrame, id)
    ensures id != WINDOW_OPENED ==> forall k: Kind, w: Kind :: !WindowOpenedOf(w).IsAccepted(k, id)
  {
  }
}
