/**
 * The click handler behind `sequentiallyDoubleClickable`: every click fires `onClick` at
 * once, unless it follows the previous recorded click within the double-tap window, in
 * which case it fires `onDoubleClick` instead and forgets the recorded click.
 */
module DoubleClicks {
  import opened Options

  /** Which of the two callbacks a click fires; each click fires exactly one. */
  datatype ClickKind = SingleClick | DoubleClick

  /**
   * `millisSinceLastClick in doubleTapMinTimeMillis until doubleTapTimeoutMillis`: the
   * half-open window, lower bound included, upper bound excluded.
   */
  predicate InDoubleTapWindow(millisSinceLastClick: int, doubleTapMinTimeMillis: int, doubleTapTimeoutMillis: int)
  {
    doubleTapMinTimeMillis <= millisSinceLastClick < doubleTapTimeoutMillis
  }

  /**
   * One click at time `now` after `last` was recorded: which callback fires, and what is
   * recorded afterwards.
   */
  function Classify(last: Option<int>, now: int, doubleTapMinTimeMillis: int, doubleTapTimeoutMillis: int)
    : (r: (ClickKind, Option<int>))
    ensures r.0 == DoubleClick <==>
      last.Some? && InDoubleTapWindow(now - last.value, doubleTapMinTimeMillis, doubleTapTimeoutMillis)
    ensures r.0 == DoubleClick ==> r.1 == None
    ensures r.0 == SingleClick ==> r.1 == Some(now)
  {
    var isDoubleClick := match last
      case Some(it) => InDoubleTapWindow(now - it, doubleTapMinTimeMillis, doubleTapTimeoutMillis)
      case None => false;
    if isDoubleClick then (DoubleClick, None) else (SingleClick, Some(now))
  }

  /** The callbacks fired by clicks at the given times, starting from `last`. */
  function ClassifyRun(last: Option<int>, times: seq<int>, doubleTapMinTimeMillis: int, doubleTapTimeoutMillis: int)
    : (kinds: seq<ClickKind>)
    ensures |kinds| == |times|
    decreases |times|
  {
    if times == [] then []
    else
      var (kind, next) := Classify(last, times[0], doubleTapMinTimeMillis, doubleTapTimeoutMillis);
      [kind] + ClassifyRun(next, times[1..], doubleTapMinTimeMillis, doubleTapTimeoutMillis)
  }

  /** With no click recorded, a click is a single click and its time is recorded. */
  lemma FirstClickIsSingle(now: int, doubleTapMinTimeMillis: int, doubleTapTimeoutMillis: int)
    ensures Classify(None, now, doubleTapMinTimeMillis, doubleTapTimeoutMillis) == (SingleClick, Some(now))
  {
  }

  /**
   * Two clicks from a fresh state: the second is a double click exactly when it comes within
   * the window, at least the minimum and less than the timeout after the first.
   */
  lemma TwoClicks(t1: int, t2: int, doubleTapMinTimeMillis: int, doubleTapTimeoutMillis: int)
    ensures var kinds := ClassifyRun(None, [t1, t2], doubleTapMinTimeMillis, doubleTapTimeoutMillis);
      && kinds[0] == SingleClick
      && (kinds[1] == DoubleClick <==> doubleTapMinTimeMillis <= t2 - t1 < doubleTapTimeoutMillis)
  {
    assert [t1, t2][1..] == [t2];
    assert [t2][1..] == [];
  }

  /** A click that comes too early re-records the time, starting a fresh window. */
  lemma TooEarlyRestartsWindow(last: int, now: int, doubleTapMinTimeMillis: int, doubleTapTimeoutMillis: int)
    requires now - last < doubleTapMinTimeMillis
    ensures Classify(Some(last), now, doubleTapMinTimeMillis, doubleTapTimeoutMillis) == (SingleClick, Some(now))
  {
  }

  /** A click at or after the timeout is a single click too, and re-records the time. */
  lemma TooLateRestartsWindow(last: int, now: int, doubleTapMinTimeMillis: int, doubleTapTimeoutMillis: int)
    requires doubleTapTimeoutMillis <= now - last
    ensures Classify(Some(last), now, doubleTapMinTimeMillis, doubleTapTimeoutMillis) == (SingleClick, Some(now))
  {
  }

  /** Every double click in `kinds` is followed by a single click, if anything follows it. */
  predicate NoTwoDoubleClicks(kinds: seq<ClickKind>)
  {
    forall i :: 0 <= i < |kinds| - 1 && kinds[i] == DoubleClick ==> kinds[i + 1] == SingleClick
  }

  /**
   * A double click forgets the recorded click, so the click right after it is single:
   * no two double clicks in a row, however fast the clicks come.
   */
  lemma {:induction false} NoTwoDoubleClicksInARow(last: Option<int>, times: seq<int>, doubleTapMinTimeMillis: int, doubleTapTimeoutMillis: int)
    ensures NoTwoDoubleClicks(ClassifyRun(last, times, doubleTapMinTimeMillis, doubleTapTimeoutMillis))
    decreases |times|
  {
    if times != [] {
      var (kind, next) := Classify(last, times[0], doubleTapMinTimeMillis, doubleTapTimeoutMillis);
      var rest := ClassifyRun(next, times[1..], doubleTapMinTimeMillis, doubleTapTimeoutMillis);
      NoTwoDoubleClicksInARow(next, times[1..], doubleTapMinTimeMillis, doubleTapTimeoutMillis);
      var kinds := ClassifyRun(last, times, doubleTapMinTimeMillis, doubleTapTimeoutMillis);
      assert kinds == [kind] + rest;
      forall i | 0 <= i < |kinds| - 1 && kinds[i] == DoubleClick
        ensures kinds[i + 1] == SingleClick
      {
        if i > 0 {
          assert kinds[i] == rest[i - 1] && kinds[i + 1] == rest[i];
        } else {
          assert kinds[1] == rest[0] == Classify(None, times[1..][0], doubleTapMinTimeMillis, doubleTapTimeoutMillis).0;
        }
      }
    }
  }

  /** The `remember`ed state of one clickable row. */
  class DoubleClickDetector {
    const doubleTapMinTimeMillis: int
    const doubleTapTimeoutMillis: int
    var lastClickTimeMillis: Option<int>

    /** Nothing is recorded before the first click. */
    constructor (doubleTapMinTimeMillis: int, doubleTapTimeoutMillis: int)
      ensures this.doubleTapMinTimeMillis == doubleTapMinTimeMillis
      ensures this.doubleTapTimeoutMillis == doubleTapTimeoutMillis
      ensures lastClickTimeMillis == None
    {
      this.doubleTapMinTimeMillis := doubleTapMinTimeMillis;
      this.doubleTapTimeoutMillis := doubleTapTimeoutMillis;
      lastClickTimeMillis := None;
    }

    /** One click at time `now`; the result says which callback fires. */
    method Click(now: int) returns (kind: ClickKind)
      modifies this
      ensures (kind, lastClickTimeMillis)
        == Classify(old(lastClickTimeMillis), now, doubleTapMinTimeMillis, doubleTapTimeoutMillis)
    {
      var isDoubleClick := false;
      match lastClickTimeMillis {
        case Some(it) =>
          var millisSinceLastClick := now - it;
          isDoubleClick := doubleTapMinTimeMillis <= millisSinceLastClick < doubleTapTimeoutMillis;
        case None =>
      }
      if isDoubleClick {
        lastClickTimeMillis := None;
        kind := DoubleClick;
      } else {
        lastClickTimeMillis := Some(now);
        kind := SingleClick;
      }
    }
  }
}
