/**
  The target-rectangle poller (`TargetRectListner` of `src/presenter/ContextMenuMonitor.ts`).

  The pending `setTimeout` is the flag `timer`, and the body of the timeout callback is
  the method `Tick`, which receives the rectangle measured on that cycle (`None` when the
  target of the presenter's event is not an element). The `onchanged` callback is the
  counter `changes` of its invocations, taken only when a callback has been assigned.
 */
module RectWatch {
  import opened Wrappers
  import opened Geometry

  /** A tick detects a move: a baseline exists and the new measurement differs from it. */
  predicate Moved(baseline: Option<Rect>, current: Option<Rect>) {
    current.Some? && baseline.Some? && current.value != baseline.value
  }

  /** The baseline after a tick: cleared by a move, otherwise the new measurement if any. */
  function NextBaseline(baseline: Option<Rect>, current: Option<Rect>): (r: Option<Rect>)
    ensures Moved(baseline, current) ==> r.None?
    ensures !Moved(baseline, current) && current.Some? ==> r == current
    ensures current.None? ==> r == baseline
  {
    if current.None? then baseline
    else if Moved(baseline, current) then None
    else current
  }

  /** A run of ticks measuring `measured` in order from `baseline`: the final baseline and
      how many moves were detected. */
  function Poll(baseline: Option<Rect>, measured: seq<Option<Rect>>): (Option<Rect>, nat) {
    if |measured| == 0 then (baseline, 0)
    else
      var (before, moves) := Poll(baseline, measured[..|measured| - 1]);
      var current := measured[|measured| - 1];
      (NextBaseline(before, current), moves + if Moved(before, current) then 1 else 0)
  }

  function Repeat(r: Rect, n: nat): seq<Option<Rect>> {
    seq(n, _ => Some(r))
  }

  /** A target that keeps its rectangle is never reported, and becomes the baseline. */
  lemma {:induction false} SteadyTargetNeverMoves(r: Rect, n: nat)
    ensures Poll(None, Repeat(r, n)) == (if n == 0 then None else Some(r), 0)
  {
    if n > 0 {
      SteadyTargetNeverMoves(r, n - 1);
      assert Repeat(r, n)[..n - 1] == Repeat(r, n - 1);
    }
  }

  /** Once a baseline is held, the first differing rectangle is reported exactly once and the
      baseline is cleared: three equal measurements then a fourth that differs give one move. */
  lemma MovedTargetReportedOnce(r: Rect, r2: Rect, n: nat)
    requires n >= 1 && r != r2
    ensures Poll(None, Repeat(r, n) + [Some(r2)]) == (None, 1)
  {
    SteadyTargetNeverMoves(r, n);
    assert (Repeat(r, n) + [Some(r2)])[..n] == Repeat(r, n);
  }

  /** Every move consumes a baseline that an earlier measurement set, so starting without a
      baseline there are at most half as many moves as measurements. */
  lemma {:induction false} MovesNeedBaseline(measured: seq<Option<Rect>>)
    ensures var (b, moves) := Poll(None, measured);
      2 * moves + (if b.Some? then 1 else 0) <= |measured|
  {
    if |measured| > 0 {
      MovesNeedBaseline(measured[..|measured| - 1]);
    }
  }

  /** The poller's static fields. */
  class TargetRectListener {
    var timer: bool
    var stopped: bool
    var targetRect: Option<Rect>
    var onchangedSet: bool
    var changes: nat

    /** A timeout is pending only while the poller runs. */
    ghost predicate Valid()
      reads this
    {
      timer ==> !stopped
    }

    /** The fields before anything runs: no timer, `stopped` still undefined (not `true`),
        no baseline and no callback. */
    constructor ()
      ensures Valid()
      ensures !timer && !stopped && targetRect.None? && !onchangedSet && changes == 0
    {
      timer, stopped, targetRect, onchangedSet, changes := false, false, None, false, 0;
    }

    /** `stop`: marks the poller stopped and cancels the pending timeout. */
    method Stop()
      modifies this`stopped, this`timer
      ensures Valid()
      ensures stopped && !timer
    {
      stopped := true;
      if timer {
        timer := false;
      }
    }

    /** `run`: schedules the next tick unless stopped. The callers (`start` right after
        `stop`, and the tick whose timeout has just fired) never hold a pending timeout. */
    method Run()
      requires Valid() && !timer
      modifies this`timer
      ensures Valid()
      ensures timer == !stopped
    {
      if stopped {
        return;
      }
      timer := true;
    }

    /** `start`: as written it stops first, so `run` sees `stopped` and schedules nothing;
        only then is `stopped` cleared. */
    method Start()
      modifies this`stopped, this`timer
      ensures Valid()
      ensures !stopped && !timer
    {
      Stop();
      Run();
      stopped := false;
    }

    /** `hide`: clears the baseline and calls `onchanged` if one is assigned. */
    method Hide()
      modifies this`targetRect, this`changes
      ensures targetRect.None?
      ensures changes == old(changes) + if onchangedSet then 1 else 0
    {
      targetRect := None;
      if onchangedSet {
        changes := changes + 1;
      }
    }

    /** The timeout callback: compares the measured rectangle with the baseline, hides on a
        move, otherwise keeps the measurement as the baseline, and reschedules. */
    method Tick(current: Option<Rect>)
      requires Valid() && timer
      modifies this`timer, this`targetRect, this`changes
      ensures Valid() && timer
      ensures targetRect == NextBaseline(old(targetRect), current)
      ensures changes == old(changes) + if onchangedSet && Moved(old(targetRect), current) then 1 else 0
    {
      timer := false;
      if current.Some? {
        if targetRect.Some? && current.value != targetRect.value {
          Hide();
        } else {
          targetRect := current;
        }
      }
      Run();
    }
  }
}
