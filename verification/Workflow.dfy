/** Bounded stop histories and batches that read them
    (src/gdb_mcp/session/runtime.py, src/gdb_mcp/session/workflow.py). */
module Workflow {
  import opened Options
  import opened SessionRuntime

  // ------------------------------------------------------------ histories

  /** Recording events one by one, trimming after each. */
  function RecordAll(history: seq<StopEvent>, events: seq<StopEvent>, limit: int): seq<StopEvent> {
    if events == [] then history
    else Trim(RecordAll(history, events[..|events| - 1], limit) + [events[|events| - 1]], limit)
  }

  function Capacity(limit: int): nat {
    if limit < 1 then 0 else limit
  }

  function LastOnes<T>(items: seq<T>, n: nat): seq<T> {
    if |items| <= n then items else items[|items| - n..]
  }

  lemma LastOfLast<T>(xs: seq<T>, ys: seq<T>, n: nat)
    ensures LastOnes(LastOnes(xs, n) + ys, n) == LastOnes(xs + ys, n)
  {
  }

  lemma TrimIsLastOnes<T>(items: seq<T>, limit: int)
    ensures Trim(items, limit) == LastOnes(items, Capacity(limit))
  {
  }

  /** Trimming after every event is trimming once at the end: after any run of
      events the history is the last `limit` of them, the older ones included. */
  lemma {:induction false} HistoryIsTheLastOnes(history: seq<StopEvent>, events: seq<StopEvent>, limit: int)
    requires |history| <= Capacity(limit)
    ensures RecordAll(history, events, limit) == LastOnes(history + events, Capacity(limit))
  {
    if events == [] {
      assert history + events == history;
    } else {
      var init, last := events[..|events| - 1], events[|events| - 1];
      HistoryIsTheLastOnes(history, init, limit);
      TrimIsLastOnes(RecordAll(history, init, limit) + [last], limit);
      LastOfLast(history + init, [last], Capacity(limit));
      assert history + events == (history + init) + [last];
    }
  }

  /** From an empty history: exactly the last min(n, limit) events. */
  lemma HistoryOfARun(events: seq<StopEvent>, limit: int)
    ensures var kept := RecordAll([], events, limit);
            && |kept| == (if |events| < Capacity(limit) then |events| else Capacity(limit))
            && kept == events[|events| - |kept|..]
  {
    HistoryIsTheLastOnes([], events, limit);
    assert [] + events == events;
  }

  /** `RecordAll` is what recording through the session state does. */
  lemma {:induction false} RecordsThroughRuntime(s: Snapshot, events: seq<StopEvent>, limit: int)
    ensures ApplyAll(seq(|events|, i requires 0 <= i < |events| => OpRecordStop(events[i], limit)), s).history ==
            RecordAll(s.history, events, limit)
  {
    if events == [] {
    } else {
      var n := |events| - 1;
      var ops := seq(|events|, i requires 0 <= i < |events| => OpRecordStop(events[i], limit));
      assert ops[..n] == seq(n, i requires 0 <= i < n => OpRecordStop(events[..n][i], limit));
      RecordsThroughRuntime(s, events[..n], limit);
    }
  }

  // ------------------------------------------------------------ batches

  /** One step: the stops it records, and whether it fails. */
  datatype BatchStep = BatchStep(stops: seq<StopEvent>, fails: bool)

  datatype StepResult = StepResult(index: nat, failed: bool, stop: Option<StopEvent>)

  /** `_step_stop_event`: the last event when the history grew. */
  function StepStop(before: seq<StopEvent>, after: seq<StopEvent>): Option<StopEvent> {
    if |after| > |before| then Some(after[|after| - 1]) else None
  }

  /** A step that records stops reports the last of them exactly when the history
      was below its limit before the step; a step that records none reports none. */
  lemma StopReportedBelowLimit(before: seq<StopEvent>, stops: seq<StopEvent>, limit: int)
    requires |before| <= Capacity(limit)
    ensures var reported := StepStop(before, RecordAll(before, stops, limit));
            && (stops == [] ==> reported.None?)
            && (stops != [] && |before| < limit ==> reported == Some(stops[|stops| - 1]))
            && (stops != [] && |before| >= limit ==> reported.None?)
  {
    HistoryIsTheLastOnes(before, stops, limit);
    if stops == [] {
      assert before + stops == before;
    }
  }

  /** The history before step `n` of a batch. */
  function HistoryBefore(history: seq<StopEvent>, steps: seq<BatchStep>, n: nat, limit: int): seq<StopEvent>
    requires n <= |steps|
  {
    if n == 0 then history
    else RecordAll(HistoryBefore(history, steps, n - 1, limit), steps[n - 1].stops, limit)
  }

  lemma {:induction false} HistoryStaysBounded(history: seq<StopEvent>, steps: seq<BatchStep>, n: nat, limit: int)
    requires n <= |steps| && |history| <= Capacity(limit)
    ensures |HistoryBefore(history, steps, n, limit)| <= Capacity(limit)
  {
    if n == 0 {
    } else {
      HistoryStaysBounded(history, steps, n - 1, limit);
      HistoryIsTheLastOnes(HistoryBefore(history, steps, n - 1, limit), steps[n - 1].stops, limit);
    }
  }

  /** What one step reports: its number, its status, and the stop its history shows. */
  function ResultOf(history: seq<StopEvent>, limit: int, steps: seq<BatchStep>, i: nat, captureStops: bool): StepResult
    requires i < |steps|
  {
    StepResult(i, steps[i].fails,
               if captureStops
               then StepStop(HistoryBefore(history, steps, i, limit), HistoryBefore(history, steps, i + 1, limit))
               else None)
  }

  /** Each result carries the number of its step and whether it failed, and no stop
      unless stops are captured. */
  lemma ResultsAreNumbered(history: seq<StopEvent>, limit: int, steps: seq<BatchStep>, i: nat, captureStops: bool)
    requires i < |steps|
    ensures var result := ResultOf(history, limit, steps, i, captureStops);
            result.index == i && result.failed == steps[i].fails && (captureStops || result.stop.None?)
  {
  }

  /** Put together: step `i` of a batch that records stops reports the last of them
      exactly when the history was below its limit when the step began. */
  lemma BatchReportsLastStop(history: seq<StopEvent>, limit: int, steps: seq<BatchStep>, i: nat)
    requires i < |steps| && |history| <= Capacity(limit) && steps[i].stops != []
    ensures ResultOf(history, limit, steps, i, true).stop == Some(steps[i].stops[|steps[i].stops| - 1]) <==>
            |HistoryBefore(history, steps, i, limit)| < limit
  {
    HistoryStaysBounded(history, steps, i, limit);
    StopReportedBelowLimit(HistoryBefore(history, steps, i, limit), steps[i].stops, limit);
  }

  /** With a limit of 1 and one event in the history, a step that records a stop reports
      none. */
  lemma FullHistoryHidesAStop(earlier: StopEvent, stop: StopEvent)
    ensures ResultOf([earlier], 1, [BatchStep([stop], false)], 0, true) == StepResult(0, false, None)
  {
    var steps := [BatchStep([stop], false)];
    assert HistoryBefore([earlier], steps, 0, 1) == [earlier];
    assert HistoryBefore([earlier], steps, 1, 1) == RecordAll([earlier], [stop], 1);
    StopReportedBelowLimit([earlier], [stop], 1);
  }

  function Failures(steps: seq<BatchStep>): nat {
    if steps == [] then 0 else Failures(steps[..|steps| - 1]) + if steps[|steps| - 1].fails then 1 else 0
  }

  /** The numbers of the steps that fail. */
  function FailingSteps(steps: seq<BatchStep>): set<nat> {
    set i: nat | i < |steps| && steps[i].fails
  }

  /** The error count of a batch is the number of its steps that fail. */
  lemma {:induction false} FailuresAreCounted(steps: seq<BatchStep>)
    ensures Failures(steps) == |FailingSteps(steps)|
  {
    if steps != [] {
      var n := |steps| - 1;
      FailuresAreCounted(steps[..n]);
      assert FailingSteps(steps) == FailingSteps(steps[..n]) + (if steps[n].fails then {n} else {});
      assert n !in FailingSteps(steps[..n]);
    }
  }

  /** The stops that the steps record, in order. */
  function StopsOf(steps: seq<BatchStep>): seq<StopEvent> {
    if steps == [] then [] else StopsOf(steps[..|steps| - 1]) + steps[|steps| - 1].stops
  }

  /** After any steps of a batch the history is the newest of the events before it and
      the stops of those steps. */
  lemma {:induction false} HistoryOfABatch(history: seq<StopEvent>, steps: seq<BatchStep>, n: nat, limit: int)
    requires n <= |steps| && |history| <= Capacity(limit)
    ensures HistoryBefore(history, steps, n, limit) == LastOnes(history + StopsOf(steps[..n]), Capacity(limit))
  {
    if n == 0 {
      assert history + [] == history;
    } else {
      HistoryOfABatch(history, steps, n - 1, limit);
      var before := HistoryBefore(history, steps, n - 1, limit);
      HistoryStaysBounded(history, steps, n - 1, limit);
      HistoryIsTheLastOnes(before, steps[n - 1].stops, limit);
      assert steps[..n][..n - 1] == steps[..n - 1];
      LastOfLast(history + StopsOf(steps[..n - 1]), steps[n - 1].stops, Capacity(limit));
      assert history + (StopsOf(steps[..n - 1]) + steps[n - 1].stops) ==
             (history + StopsOf(steps[..n - 1])) + steps[n - 1].stops;
    }
  }

  /** `execute_batch`. With fail-fast the results are the shortest prefix of the
      steps that ends at the first failure, or all of them; each result is numbered
      by its step and reports the stop its history shows. */
  method ExecuteBatch(history: seq<StopEvent>, limit: int, steps: seq<BatchStep>, failFast: bool, captureStops: bool)
    returns (results: seq<StepResult>, errorCount: nat, stoppedEarly: bool, failureIndex: Option<nat>,
            after: seq<StopEvent>)
    ensures |results| <= |steps|
    ensures forall i | 0 <= i < |results| :: results[i] == ResultOf(history, limit, steps, i, captureStops)
    ensures errorCount == Failures(steps[..|results|])
    ensures after == HistoryBefore(history, steps, |results|, limit)
    ensures !failFast ==> |results| == |steps| && !stoppedEarly && failureIndex.None?
    ensures failFast ==>
              && (forall i | 0 <= i < |results| - 1 :: !steps[i].fails)
              && (stoppedEarly <==> results != [] && steps[|results| - 1].fails)
              && (!stoppedEarly ==> |results| == |steps| && failureIndex.None?)
              && (stoppedEarly ==> failureIndex == Some(|results| - 1))
  {
    results, errorCount, stoppedEarly, failureIndex, after := [], 0, false, None, history;
    for index := 0 to |steps|
      invariant |results| == index && after == HistoryBefore(history, steps, index, limit)
      invariant forall i | 0 <= i < index :: results[i] == ResultOf(history, limit, steps, i, captureStops)
      invariant errorCount == Failures(steps[..index])
      invariant !stoppedEarly && failureIndex.None?
      invariant failFast ==> forall i | 0 <= i < index :: !steps[i].fails
    {
      assert steps[..index + 1][..index] == steps[..index];
      var previous := after;
      after := RecordAll(after, steps[index].stops, limit);
      assert after == HistoryBefore(history, steps, index + 1, limit);
      var stop := if captureStops then StepStop(previous, after) else None;
      results := results + [StepResult(index, steps[index].fails, stop)];
      if steps[index].fails {
        errorCount := errorCount + 1;
        if failFast {
          stoppedEarly, failureIndex := true, Some(index);
          return;
        }
      }
    }
    assert steps[..|steps|] == steps;
  }
}
