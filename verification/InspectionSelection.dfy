/** The selection bracket of the inspection services: capture the selected thread
    and frame, switch, query, restore, under any pattern of command failures
    (src/gdb_mcp/session/inspection).

    The debugger is abstract: `-thread-select t` moves to frame 0 of `t`,
    `-stack-select-frame f` moves within the thread, a failed command changes
    nothing. `answers` and `reports` say, command by command, whether it succeeds
    and whether its payload carries the number asked for. */
module InspectionSelection {
  import opened Options

  datatype Selection = Selection(thread: int, frame: int)

  /** A captured selection; a part is missing when GDB did not report it. */
  datatype Captured = Captured(thread: Option<int>, frame: Option<int>)

  datatype Attempt<+T> = Success(value: T) | Failure

  /** The result of one inspection call: where its query ran, or an error, and
      whether that error reports a failed restore, or an exception that escapes. */
  datatype Outcome = Ok(at: Selection) | Err(restoreFailed: bool) | Raised

  /** What entering the bracket gives: what was captured, if anything, and whether
      something was switched; or the error the call returns at once. */
  datatype Entry = Entered(selection: Option<Captured>, changed: bool) | Stopped(error: Outcome)

  /** A success, or an error that reports no failed restore. */
  predicate Quiet(outcome: Outcome) {
    outcome.Ok? || outcome == Err(false)
  }

  /** What reading the source file does: it gives the lines, or an error value (no
      path, no such file, a line outside it), or raises (a directory, an unreadable
      or undecodable file). */
  datatype FileRead = Lines | Refused | Raises

  /** Where a query for `thread` and `frame` runs when `from` was selected. */
  function QueriedAt(from: Selection, thread: Option<int>, frame: Option<int>): Selection {
    var base := if thread.Some? && thread.value != from.thread then Selection(thread.value, 0) else from;
    if frame.Some? && frame.value != from.frame then base.(frame := frame.value) else base
  }

  /** The query runs at the requested frame exactly when no thread switch was
      needed, or the requested frame is not the captured one, or it is 0: when the
      numbers coincide no frame command is sent after the switch. */
  lemma RequestedFrameReached(from: Selection, thread: Option<int>, frame: int)
    ensures QueriedAt(from, thread, Some(frame)).frame == frame <==>
            thread.None? || thread.value == from.thread || frame != from.frame || frame == 0
    ensures QueriedAt(from, thread, Some(frame)).thread == if thread.Some? then thread.value else from.thread
  {
  }

  // ------------------------------------------- when a part was not captured

  /** The captured value `c` is what GDB reported of the selection `from`. */
  predicate CapturedFrom(c: Captured, from: Selection) {
    (c.thread.Some? ==> c.thread.value == from.thread) && (c.frame.Some? ==> c.frame.value == from.frame)
  }

  predicate SendsThread(c: Captured, t: Option<int>) {
    t.Some? && c.thread != t
  }

  predicate SendsFrame(c: Captured, f: Option<int>) {
    f.Some? && c.frame != f
  }

  predicate Switches(c: Captured, t: Option<int>, f: Option<int>) {
    SendsThread(c, t) || SendsFrame(c, f)
  }

  /** The number of commands the switch sends. */
  function Sent(c: Captured, t: Option<int>, f: Option<int>): nat {
    (if SendsThread(c, t) then 1 else 0) + (if SendsFrame(c, f) then 1 else 0)
  }

  /** The number of commands that put a captured selection back. */
  function Parts(c: Captured): nat {
    (if c.thread.Some? then 1 else 0) + (if c.frame.Some? then 1 else 0)
  }

  /** The number of commands that open the bracket, when it is needed at all. */
  function Opening(c: Captured, asked: bool, t: Option<int>, f: Option<int>): nat {
    if asked then 2 + Sent(c, t, f) else 0
  }

  /** And of those that close it: if something was switched, and by some calls always
      after a failed query (`insists`). */
  function Closing(c: Captured, asked: bool, t: Option<int>, f: Option<int>, insists: bool): nat {
    if asked && (insists || Switches(c, t, f)) then Parts(c) else 0
  }

  /** How far a call came: the selection was not captured, the switch to the thread or
      to the frame was refused, or everything was switched. */
  datatype Stage = Uncaptured | ThreadRefused | FrameRefused | Switched

  /** Where the switch leads, compared with what was captured. */
  function SwitchedTo(from: Selection, c: Captured, t: Option<int>, f: Option<int>): Selection {
    var base := if SendsThread(c, t) then Selection(t.value, 0) else from;
    if SendsFrame(c, f) then base.(frame := f.value) else base
  }

  /** A query runs in the requested thread, whatever was captured, and at the requested
      frame exactly when that is not the captured one, or 0, or the thread was captured
      and is the requested one or none was requested. */
  lemma QueryReached(from: Selection, c: Captured, t: Option<int>, f: Option<int>)
    requires CapturedFrom(c, from)
    ensures SwitchedTo(from, c, t, f).thread == if t.Some? then t.value else from.thread
    ensures f.Some? ==>
              (SwitchedTo(from, c, t, f).frame == f.value <==>
                 c.frame != f || f.value == 0 || t.None? || c.thread == t)
    ensures f.None? ==> SwitchedTo(from, c, t, f).frame == if t.None? || c.thread == t then from.frame else 0
  {
  }

  /** Where the last command that succeeded left the debugger. */
  function ReachedAt(from: Selection, c: Captured, t: Option<int>, f: Option<int>, stage: Stage): Selection {
    match stage
    case Switched => SwitchedTo(from, c, t, f)
    case FrameRefused => SwitchedTo(from, c, t, None)
    case _ => from
  }

  /** Where the query of a call runs. */
  function RunsAt(from: Selection, c: Captured, asked: bool, t: Option<int>, f: Option<int>): Selection {
    if asked then SwitchedTo(from, c, t, f) else from
  }

  /** Where restoring what was captured leads. */
  function RestoredTo(at: Selection, c: Captured): Selection {
    var base := if c.thread.Some? then Selection(c.thread.value, 0) else at;
    if c.frame.Some? then base.(frame := c.frame.value) else base
  }

  /** Where a call ends that does not report a failed restore. After a refused switch
      the captured selection is always put back; after a complete one when something
      was switched, and by some calls also when nothing was but the query failed
      (`insists`). */
  function EndsAt(from: Selection, c: Captured, t: Option<int>, f: Option<int>, stage: Stage,
                  insists: bool): Selection {
    if stage.Uncaptured? || (stage.Switched? && !insists && !Switches(c, t, f)) then from
    else RestoredTo(ReachedAt(from, c, t, f, stage), c)
  }

  /** The stage is one this request can stop at. */
  predicate Possible(c: Captured, t: Option<int>, f: Option<int>, stage: Stage) {
    (stage.ThreadRefused? ==> SendsThread(c, t)) && (stage.FrameRefused? ==> SendsFrame(c, f))
  }

  /** A call that does not report a failed restore, successful or not, ends where it
      began exactly when nothing was put back, or each part was captured or happens
      to be where the commands left it. A captured thread that is put back takes the
      debugger to frame 0, also when no switch had taken place. */
  lemma EndsWhereItBegan(from: Selection, c: Captured, t: Option<int>, f: Option<int>, stage: Stage, insists: bool)
    requires CapturedFrom(c, from) && Possible(c, t, f, stage)
    ensures EndsAt(from, c, t, f, stage, insists) == from <==>
            || stage.Uncaptured?
            || (stage.Switched? && !insists && !Switches(c, t, f))
            || (&& (c.thread.Some? || stage.ThreadRefused? || t.None? || t.value == from.thread)
                && (c.frame.Some? ||
                    (if c.thread.Some? then from.frame == 0
                     else if stage.Switched? && f.Some? then f.value == from.frame
                     else stage.ThreadRefused? || t.None? || from.frame == 0)))
  {
  }

  /** With both parts captured it always ends where it began, and its query runs where
      the request says. */
  lemma CapturedInFull(from: Selection, t: Option<int>, f: Option<int>, stage: Stage, insists: bool)
    ensures var c := Captured(Some(from.thread), Some(from.frame));
            SwitchedTo(from, c, t, f) == QueriedAt(from, t, f) && EndsAt(from, c, t, f, stage, insists) == from
  {
  }

  /** What every call in the bracket promises about where it runs and ends: the query ran
      where the switch led, and a quiet outcome ends where `EndsAt` says. */
  predicate Bracketed(from: Selection, c: Captured, asked: bool, t: Option<int>, f: Option<int>, stage: Stage,
                      insists: bool, outcome: Outcome, end: Selection) {
    && (outcome.Ok? ==> outcome.at == RunsAt(from, c, asked, t, f))
    && (Quiet(outcome) ==>
          end == if asked then EndsAt(from, c, t, f, stage, insists && outcome.Err?) else from)
  }

  /** With both parts captured a quiet outcome ends where it began, and a query ran where
      the request says. */
  predicate BracketedInFull(from: Selection, c: Captured, asked: bool, t: Option<int>, f: Option<int>,
                            outcome: Outcome, end: Selection) {
    c == Captured(Some(from.thread), Some(from.frame)) ==>
      && (Quiet(outcome) ==> end == from)
      && (outcome.Ok? && asked ==> outcome.at == QueriedAt(from, t, f))
  }

  /** A switch that nothing undoes ends where it began exactly when it asks for the
      selected thread, if for any, and leaves the selected frame. */
  lemma SwitchLeadsNowhere(from: Selection, c: Captured, t: Option<int>, f: Option<int>)
    requires CapturedFrom(c, from)
    ensures SwitchedTo(from, c, t, f) == from <==>
            && (t.Some? ==> t.value == from.thread)
            && (if SendsFrame(c, f) then f.value == from.frame else SendsThread(c, t) ==> from.frame == 0)
  {
  }

  class InspectionContext {
    const answers: nat -> bool
    const reports: nat -> bool
    var clock: nat
    var thread: int // the debugger's selected thread
    var frame: int // and frame
    var cachedThread: Option<int> // the runtime's idea of them
    var cachedFrame: Option<int>

    constructor (answers: nat -> bool, reports: nat -> bool, start: Selection)
      ensures this.answers == answers && this.reports == reports && clock == 0 && At() == start
    {
      this.answers, this.reports := answers, reports;
      clock, thread, frame, cachedThread, cachedFrame := 0, start.thread, start.frame, None, None;
    }

    function At(): Selection
      reads this`thread, this`frame
    {
      Selection(thread, frame)
    }

    /** The runtime's cached selection agrees with the debugger. */
    predicate CacheAgrees()
      reads this
    {
      cachedThread == Some(thread) && cachedFrame == Some(frame)
    }

    /** Both parts of the selection are reported by the two capture commands sent
        from now on. */
    predicate BothReported()
      reads this`clock
    {
      reports(clock) && reports(clock + 1)
    }

    /** What the two capture commands sent from now on would capture. */
    function Reported(): Captured
      reads this
    {
      Captured(if reports(clock) then Some(thread) else None, if reports(clock + 1) then Some(frame) else None)
    }

    /** How far a switch comes whose first command is the `n`th. */
    function StageFrom(n: nat, c: Captured, t: Option<int>, f: Option<int>): (stage: Stage)
      ensures Possible(c, t, f, stage) && !stage.Uncaptured?
    {
      if SendsThread(c, t) && !answers(n) then ThreadRefused
      else if SendsFrame(c, f) && !answers(if SendsThread(c, t) then n + 1 else n) then FrameRefused
      else Switched
    }

    /** How far a call for this thread and frame comes whose first command is the `n`th. */
    function StageAt(n: nat, c: Captured, t: Option<int>, f: Option<int>): (stage: Stage)
      ensures Possible(c, t, f, stage)
    {
      if !answers(n) || !answers(n + 1) then Uncaptured else StageFrom(n + 2, c, t, f)
    }

    /** And how far it comes from here. */
    function StageOf(t: Option<int>, f: Option<int>): (stage: Stage)
      reads this
      ensures Possible(Reported(), t, f, stage)
    {
      StageAt(clock, Reported(), t, f)
    }

    /** The `count` commands from the `n`th on all succeed. */
    ghost predicate AllAnswered(n: nat, count: nat) {
      forall k: nat | n <= k < n + count :: answers(k)
    }

    lemma AnsweredInTurn(n: nat, first: nat, second: nat)
      ensures AllAnswered(n, first + second) <==> AllAnswered(n, first) && AllAnswered(n + first, second)
    {
      if AllAnswered(n, first) && AllAnswered(n + first, second) {
        forall k: nat | n <= k < n + first + second ensures answers(k) {
        }
      }
    }

    /** The bracket is opened exactly when all of its commands are answered. */
    lemma OpenedIff(n: nat, c: Captured, t: Option<int>, f: Option<int>)
      ensures StageAt(n, c, t, f).Switched? <==> AllAnswered(n, Opening(c, true, t, f))
    {
      if StageAt(n, c, t, f).Switched? {
        forall k: nat | n <= k < n + Opening(c, true, t, f) ensures answers(k) {
        }
      }
    }

    /** All commands of a call with `count` queries are answered: exactly when the bracket
        is opened, the queries are answered and the bracket is closed. */
    ghost predicate Answered(n: nat, c: Captured, asked: bool, t: Option<int>, f: Option<int>, count: nat) {
      AllAnswered(n, Opening(c, asked, t, f) + count + Closing(c, asked, t, f, false))
    }

    lemma AnsweredIff(n: nat, c: Captured, asked: bool, t: Option<int>, f: Option<int>, count: nat)
      ensures Answered(n, c, asked, t, f, count) <==>
              && (asked ==> StageAt(n, c, t, f).Switched?)
              && AllAnswered(n + Opening(c, asked, t, f), count)
              && AllAnswered(n + Opening(c, asked, t, f) + count, Closing(c, asked, t, f, false))
    {
      OpenedIff(n, c, t, f);
      AnsweredInTurn(n, Opening(c, asked, t, f), count);
      AnsweredInTurn(n, Opening(c, asked, t, f) + count, Closing(c, asked, t, f, false));
    }

    /** The number of the command that refuses the switch. */
    function RefusedAt(n: nat, c: Captured, t: Option<int>, f: Option<int>): nat {
      n + 2 + (if StageAt(n, c, t, f).FrameRefused? && SendsThread(c, t) then 1 else 0)
    }

    /** The call reports a failed restore: the switch was refused and then one of the
        commands that put the captured selection back, or it was not and, after `count`
        queries, one of them was. */
    ghost predicate NotPutBack(n: nat, c: Captured, asked: bool, t: Option<int>, f: Option<int>, count: nat,
                               insists: bool) {
      && asked
      && (match StageAt(n, c, t, f)
          case Uncaptured => false
          case Switched => !AllAnswered(n + Opening(c, true, t, f) + count, Closing(c, true, t, f, insists))
          case _ => !AllAnswered(RefusedAt(n, c, t, f) + 1, Parts(c)))
    }

    // ------------------------------------------------------------ commands

    method ThreadSelect(t: int) returns (ok: bool)
      modifies this`clock, this`thread, this`frame
      ensures clock == old(clock) + 1 && ok == answers(old(clock))
      ensures At() == if ok then Selection(t, 0) else old(At())
    {
      ok := answers(clock);
      clock := clock + 1;
      if ok {
        thread, frame := t, 0;
      }
    }

    method FrameSelect(f: int) returns (ok: bool)
      modifies this`clock, this`frame
      ensures clock == old(clock) + 1 && ok == answers(old(clock))
      ensures At() == if ok then old(At()).(frame := f) else old(At())
    {
      ok := answers(clock);
      clock := clock + 1;
      if ok {
        frame := f;
      }
    }

    /** A command that only reads; `level` is the frame number it reports. */
    method Query() returns (ok: bool, at: Selection, level: Option<int>)
      modifies this`clock
      ensures clock == old(clock) + 1 && ok == answers(old(clock)) && at == At()
      ensures level == if reports(old(clock)) then Some(frame) else None
    {
      ok, at := answers(clock), Selection(thread, frame);
      level := if reports(clock) then Some(frame) else None;
      clock := clock + 1;
    }

    // ------------------------------------------------------------ the bracket

    method Capture() returns (captured: Attempt<Captured>)
      modifies this`clock, this`cachedThread, this`cachedFrame
      ensures captured.Success? <==> answers(old(clock)) && answers(old(clock) + 1)
      ensures captured.Success? ==>
                && clock == old(clock) + 2
                && captured.value == old(Reported())
                && cachedThread == captured.value.thread && cachedFrame == captured.value.frame
      ensures captured.Failure? ==> cachedThread == old(cachedThread) && cachedFrame == old(cachedFrame)
    {
      var ok, at, _ := Query();
      if !ok {
        return Failure;
      }
      var currentThread := if reports(clock - 1) then Some(at.thread) else None;
      var currentFrame;
      ok, at, currentFrame := Query();
      if !ok {
        return Failure;
      }
      cachedThread, cachedFrame := currentThread, currentFrame;
      return Success(Captured(currentThread, currentFrame));
    }

    /** `restore_selection`. A success puts back what was captured and no more: a
        part that was not captured stays where the commands left it. */
    method Restore(selection: Captured) returns (failed: bool)
      modifies this
      ensures !failed <==> AllAnswered(old(clock), Parts(selection))
      ensures !failed ==>
                && clock == old(clock) + Parts(selection)
                && At() == RestoredTo(old(At()), selection)
                && cachedThread == selection.thread && cachedFrame == selection.frame
    {
      if selection.thread.Some? {
        var ok := ThreadSelect(selection.thread.value);
        if !ok {
          return true;
        }
      }
      if selection.frame.Some? {
        var ok := FrameSelect(selection.frame.value);
        if !ok {
          return true;
        }
      }
      cachedThread, cachedFrame := selection.thread, selection.frame;
      return false;
    }

    /** `select_for_inspection`. */
    method SelectForInspection(selection: Option<Captured>, t: Option<int>, f: Option<int>)
      returns (changed: bool, failed: bool)
      modifies this`clock, this`thread, this`frame
      ensures !changed ==> At() == old(At())
      ensures selection.None? ==> !failed && !changed && clock == old(clock)
      ensures selection.Some? ==>
                var stage := StageFrom(old(clock), selection.value, t, f);
                && failed == !stage.Switched?
                && At() == ReachedAt(old(At()), selection.value, t, f, stage)
                && (!failed ==> changed == Switches(selection.value, t, f))
      ensures selection.Some? && !failed ==> clock == old(clock) + Sent(selection.value, t, f)
      ensures selection.Some? && failed ==>
                clock == old(clock) + 1 +
                  (if StageFrom(old(clock), selection.value, t, f).FrameRefused? && SendsThread(selection.value, t)
                   then 1 else 0)
    {
      changed, failed := false, false;
      if selection.Some? && t.Some? && selection.value.thread != t {
        var ok := ThreadSelect(t.value);
        if !ok {
          return false, true;
        }
        changed := true;
      }
      if selection.Some? && f.Some? && selection.value.frame != f {
        var ok := FrameSelect(f.value);
        if !ok {
          return changed, true;
        }
        changed := true;
      }
    }

    method RestoreIfChanged(selection: Option<Captured>, changed: bool) returns (failed: bool)
      modifies this
      ensures failed <==> changed && selection.Some? && !AllAnswered(old(clock), Parts(selection.value))
      ensures !changed || selection.None? ==> unchanged(this)
      ensures changed && selection.Some? && !failed ==> clock == old(clock) + Parts(selection.value)
      ensures changed && selection.Some? && !failed ==>
                && At() == RestoredTo(old(At()), selection.value)
                && cachedThread == selection.value.thread && cachedFrame == selection.value.frame
    {
      if !changed || selection.None? {
        return false;
      }
      failed := Restore(selection.value);
    }

    /** `selection_error_with_restore`: an error, after an attempt to restore. */
    method ErrorWithRestore(selection: Option<Captured>) returns (outcome: Outcome)
      modifies this
      ensures outcome == Err(selection.Some? && !AllAnswered(old(clock), Parts(selection.value)))
      ensures selection.None? ==> unchanged(this)
      ensures selection.Some? && !outcome.restoreFailed ==>
                && At() == RestoredTo(old(At()), selection.value)
                && cachedThread == selection.value.thread && cachedFrame == selection.value.frame
    {
      if selection.None? {
        return Err(false);
      }
      var failed := Restore(selection.value);
      return Err(failed);
    }

    /** The opening that all clients share: capture, if a thread or frame is asked for,
        and switch. */
    method Enter(asked: bool, t: Option<int>, f: Option<int>) returns (entry: Entry)
      modifies this
      ensures !asked ==> entry == Entered(None, false) && unchanged(this)
      ensures asked ==> (entry.Entered? <==> old(StageOf(t, f)).Switched?)
      ensures asked && entry.Entered? ==>
                && entry == Entered(Some(old(Reported())), Switches(old(Reported()), t, f))
                && At() == SwitchedTo(old(At()), old(Reported()), t, f)
                && clock == old(clock) + 2 + Sent(old(Reported()), t, f)
                && cachedThread == old(Reported()).thread && cachedFrame == old(Reported()).frame
      ensures entry.Stopped? ==>
                && entry.error.Err?
                && (forall count: nat, insists: bool ::
                      entry.error.restoreFailed == NotPutBack(old(clock), old(Reported()), true, t, f, count, insists))
                && (forall insists: bool ::
                      Bracketed(old(At()), old(Reported()), true, t, f, old(StageOf(t, f)), insists, entry.error, At()))
                && BracketedInFull(old(At()), old(Reported()), true, t, f, entry.error, At())
    {
      if !asked {
        return Entered(None, false);
      }
      var captured := Capture();
      if captured.Failure? {
        return Stopped(Err(false));
      }
      var selection := Some(captured.value);
      var changed, selectFailed := SelectForInspection(selection, t, f);
      if selectFailed {
        var error := ErrorWithRestore(selection);
        return Stopped(error);
      }
      return Entered(selection, changed);
    }

    /** The closing: puts the captured selection back, if something was switched or the
        call insists after a failed query, and gives the answer or the error. The ghost
        parameters say where and with which command the call began, what it captured
        and was asked, and how many queries it sent. */
    method Close(entry: Entry, ok: bool, at: Selection, insists: bool, ghost from: Selection, ghost c: Captured,
                 ghost asked: bool, ghost t: Option<int>, ghost f: Option<int>, ghost n: nat, ghost count: nat)
      returns (outcome: Outcome)
      requires entry == if asked then Entered(Some(c), Switches(c, t, f)) else Entered(None, false)
      requires CapturedFrom(c, from) && At() == RunsAt(from, c, asked, t, f) && (ok ==> at == At())
      requires clock == n + Opening(c, asked, t, f) + count && (asked ==> StageAt(n, c, t, f).Switched?)
      modifies this
      ensures !outcome.Raised? && Bracketed(from, c, asked, t, f, StageAt(n, c, t, f), insists, outcome, At())
      ensures BracketedInFull(from, c, asked, t, f, outcome, At())
      ensures outcome.Ok? <==> ok && AllAnswered(n + Opening(c, asked, t, f) + count, Closing(c, asked, t, f, false))
      ensures outcome == Err(true) <==> NotPutBack(n, c, asked, t, f, count, insists && !ok)
      ensures outcome.Ok? && asked && Switches(c, t, f) ==> cachedThread == c.thread && cachedFrame == c.frame
      ensures outcome.Ok? && !(asked && Switches(c, t, f)) ==>
                cachedThread == old(cachedThread) && cachedFrame == old(cachedFrame)
    {
      CapturedInFull(from, t, f, Switched, insists && !ok);
      if !ok && insists {
        outcome := ErrorWithRestore(entry.selection);
        return;
      }
      var restoreFailed := RestoreIfChanged(entry.selection, entry.changed);
      if restoreFailed {
        return Err(true);
      }
      return if ok then Ok(at) else Err(false);
    }

    // ------------------------------------------------------------ its clients

    /** `evaluate_expression`. It succeeds exactly when each of its commands is answered,
        and reports a failed restore exactly when one that puts the selection back is
        not. */
    method EvaluateExpression(t: Option<int>, f: Option<int>) returns (outcome: Outcome)
      modifies this
      ensures Bracketed(old(At()), old(Reported()), t.Some? || f.Some?, t, f,
                        old(StageOf(t, f)), false, outcome, At())
      ensures !outcome.Raised?
      ensures outcome.Ok? <==> Answered(old(clock), old(Reported()), t.Some? || f.Some?, t, f, 1)
      ensures outcome == Err(true) <==> NotPutBack(old(clock), old(Reported()), t.Some? || f.Some?, t, f, 1, false)
      ensures old(BothReported()) && Quiet(outcome) ==> At() == old(At())
      ensures old(BothReported()) && outcome.Ok? && (t.Some? || f.Some?) ==>
                outcome.at == QueriedAt(old(At()), t, f) && CacheAgrees()
    {
      ghost var from, c, n, asked := At(), Reported(), clock, t.Some? || f.Some?;
      AnsweredIff(clock, c, asked, t, f, 1);
      var entry := Enter(t.Some? || f.Some?, t, f);
      if entry.Stopped? {
        outcome := entry.error;
      } else {
        var ok, at, _ := Query();
        outcome := Close(entry, ok, at, false, from, c, asked, t, f, n, 1);
      }
    }

    /** `get_variables`: always captures, and always asks for a frame. */
    method GetVariables(t: Option<int>, f: int) returns (outcome: Outcome)
      modifies this
      ensures Bracketed(old(At()), old(Reported()), true, t, Some(f),
                        old(StageOf(t, Some(f))), false, outcome, At())
      ensures !outcome.Raised?
      ensures outcome.Ok? <==> Answered(old(clock), old(Reported()), true, t, Some(f), 1)
      ensures outcome == Err(true) <==> NotPutBack(old(clock), old(Reported()), true, t, Some(f), 1, false)
      ensures old(BothReported()) && Quiet(outcome) ==> At() == old(At())
      ensures old(BothReported()) && outcome.Ok? ==> outcome.at == QueriedAt(old(At()), t, Some(f)) && CacheAgrees()
    {
      ghost var from, c, n := At(), Reported(), clock;
      AnsweredIff(clock, c, true, t, Some(f), 1);
      var entry := Enter(true, t, Some(f));
      if entry.Stopped? {
        outcome := entry.error;
      } else {
        var ok, at, _ := Query();
        outcome := Close(entry, ok, at, false, from, c, true, t, Some(f), n, 1);
      }
    }

    /** The number of commands `get_registers` sends when all are answered: one for the
        names, if asked for by name, one for the values, and one to drop vectors. */
    function Listing(listsNames: bool, dropsVectors: bool): nat {
      (if listsNames then 1 else 0) + 1 + (if dropsVectors then 1 else 0)
    }

    /** And up to the one that is refused, when the `n`th is its first. */
    function Listed(n: nat, listsNames: bool, namesKnown: bool, dropsVectors: bool): nat {
      var names := if listsNames then 1 else 0;
      if !namesKnown || (listsNames && !answers(n)) then names
      else if dropsVectors && answers(n + names) then names + 2 else names + 1
    }

    method ListRegisters(listsNames: bool, namesKnown: bool, dropsVectors: bool) returns (ok: bool, at: Selection)
      modifies this`clock
      ensures ok <==> namesKnown && AllAnswered(old(clock), Listing(listsNames, dropsVectors))
      ensures clock == old(clock) + Listed(old(clock), listsNames, namesKnown, dropsVectors)
      ensures ok ==> clock == old(clock) + Listing(listsNames, dropsVectors)
      ensures at == At()
    {
      var level;
      ok, at := true, Selection(thread, frame);
      if listsNames {
        ok, at, level := Query();
      }
      ok := ok && namesKnown;
      if ok {
        ok, at, level := Query();
      }
      if ok && dropsVectors {
        ok, at, level := Query();
      }
    }

    /** `get_registers`: resolving names and dropping vector registers send further
        commands, and unknown names fail without one. */
    method GetRegisters(t: Option<int>, f: Option<int>, listsNames: bool, namesKnown: bool, dropsVectors: bool)
      returns (outcome: Outcome)
      modifies this
      ensures Bracketed(old(At()), old(Reported()), t.Some? || f.Some?, t, f,
                        old(StageOf(t, f)), false, outcome, At())
      ensures !outcome.Raised?
      ensures outcome.Ok? <==>
                && namesKnown
                && Answered(old(clock), old(Reported()), t.Some? || f.Some?, t, f, Listing(listsNames, dropsVectors))
      ensures var first := old(clock) + Opening(old(Reported()), t.Some? || f.Some?, t, f);
              outcome == Err(true) <==>
                NotPutBack(old(clock), old(Reported()), t.Some? || f.Some?, t, f,
                           Listed(first, listsNames, namesKnown, dropsVectors), false)
      ensures old(BothReported()) && Quiet(outcome) ==> At() == old(At())
      ensures old(BothReported()) && outcome.Ok? && (t.Some? || f.Some?) ==>
                outcome.at == QueriedAt(old(At()), t, f) && CacheAgrees()
    {
      ghost var from, c, n, asked := At(), Reported(), clock, t.Some? || f.Some?;
      AnsweredIff(clock, c, asked, t, f, Listing(listsNames, dropsVectors));
      var entry := Enter(t.Some? || f.Some?, t, f);
      if entry.Stopped? {
        outcome := entry.error;
      } else {
        var ok, at := ListRegisters(listsNames, namesKnown, dropsVectors);
        outcome := Close(entry, ok, at, false, from, c, asked, t, f, n, clock - n - Opening(c, asked, t, f));
      }
    }

    /** `get_frame_info`: the cached frame becomes the level the query reports. A query
        that fails puts the captured selection back even if nothing was switched. */
    method GetFrameInfo(t: Option<int>, f: Option<int>) returns (outcome: Outcome)
      modifies this
      ensures Bracketed(old(At()), old(Reported()), t.Some? || f.Some?, t, f,
                        old(StageOf(t, f)), true, outcome, At())
      ensures !outcome.Raised?
      ensures outcome.Ok? <==> Answered(old(clock), old(Reported()), t.Some? || f.Some?, t, f, 1)
      ensures var first := old(clock) + Opening(old(Reported()), true, t, f);
              outcome == Err(true) <==>
                NotPutBack(old(clock), old(Reported()), t.Some? || f.Some?, t, f, 1, !answers(first))
      ensures old(BothReported()) && Quiet(outcome) ==> At() == old(At())
      ensures old(BothReported()) && outcome.Ok? && (t.Some? || f.Some?) ==>
                && outcome.at == QueriedAt(old(At()), t, f)
                && (CacheAgrees() <==> Switches(old(Reported()), t, f) || reports(old(clock) + 2))
    {
      ghost var from, c, n, asked := At(), Reported(), clock, t.Some? || f.Some?;
      AnsweredIff(clock, c, asked, t, f, 1);
      var entry := Enter(t.Some? || f.Some?, t, f);
      if entry.Stopped? {
        outcome := entry.error;
      } else {
        var ok, at, level := Query();
        if ok {
          cachedFrame := level;
        }
        outcome := Close(entry, ok, at, true, from, c, asked, t, f, n, clock - n - Opening(c, asked, t, f));
      }
    }

    /** `get_backtrace`: switches the thread only, restores by comparing the captured
        thread with the requested one, and puts nothing back after a refused switch. */
    method GetBacktrace(t: Option<int>) returns (outcome: Outcome)
      modifies this
      ensures !outcome.Raised? && (outcome.Ok? ==> outcome.at == RunsAt(old(At()), old(Reported()), t.Some?, t, None))
      ensures outcome.Ok? <==> Answered(old(clock), old(Reported()), t.Some?, t, None, 1)
      ensures outcome == Err(true) <==>
                && t.Some? && old(StageOf(t, None)).Switched?
                && NotPutBack(old(clock), old(Reported()), true, t, None, 1, false)
      ensures Quiet(outcome) ==>
                At() == if t.Some? && old(StageOf(t, None)).Switched?
                        then EndsAt(old(At()), old(Reported()), t, None, Switched, false) else old(At())
      ensures old(BothReported()) && Quiet(outcome) ==> At() == old(At())
      ensures old(BothReported()) && outcome.Ok? && t.Some? ==>
                outcome.at == QueriedAt(old(At()), t, None) && CacheAgrees()
    {
      AnsweredIff(clock, Reported(), t.Some?, t, None, 1);
      CapturedInFull(At(), t, None, Switched, false);
      var selection: Option<Captured> := None;
      if t.Some? {
        var captured := Capture();
        if captured.Failure? {
          return Err(false);
        }
        selection := Some(captured.value);
      }
      var switches := selection.Some? && selection.value.thread != t;
      if switches {
        var switched := ThreadSelect(t.value);
        if !switched {
          return Err(false);
        }
      }
      var ok, at, _ := Query();
      if switches {
        var restoreFailed := Restore(selection.value);
        if restoreFailed {
          return Err(true);
        }
      }
      return if ok then Ok(at) else Err(false);
    }

    /** The number of commands sent before the one that disassembles. */
    function Preparing(probes: bool, asksRange: bool): nat {
      (if probes then 1 else 0) + (if asksRange then 1 else 0)
    }

    /** The command can be built when the `n`th is the first that building it sends: an
        old GDB gave the range of the function, if asked for it, whatever it answered
        to the probe. */
    predicate Builds(n: nat, probes: bool, asksRange: bool, builds: bool) {
      builds && (asksRange ==> answers(if probes then n + 1 else n))
    }

    /** And the instructions are given. */
    predicate Disassembles(n: nat, probes: bool, asksRange: bool, builds: bool) {
      Builds(n, probes, asksRange, builds) && answers(n + Preparing(probes, asksRange))
    }

    /** The number of commands sent until then, or until the command cannot be built. */
    function Disassembling(n: nat, probes: bool, asksRange: bool, builds: bool): nat {
      Preparing(probes, asksRange) + (if Builds(n, probes, asksRange, builds) then 1 else 0)
    }

    method QueryInstructions(probes: bool, asksRange: bool, builds: bool) returns (ok: bool, at: Selection)
      modifies this`clock
      ensures clock == old(clock) + Disassembling(old(clock), probes, asksRange, builds)
      ensures ok <==> Disassembles(old(clock), probes, asksRange, builds)
      ensures ok ==> clock == old(clock) + Preparing(probes, asksRange) + 1
      ensures at == At()
    {
      var level;
      at := Selection(thread, frame);
      if probes {
        var _, _, _ := Query();
      }
      ok := builds;
      if asksRange {
        var ranged, _, _ := Query();
        ok := ranged && builds;
      }
      if ok {
        ok, at, level := Query();
      }
    }

    /** `disassemble`: only a request for the current context uses the bracket.
        Building the command may probe GDB's features, whose failure only means that
        they are missing; may then ask an old GDB for the address range of the
        function, whose failure is an error; and may fail without a command. */
    method Disassemble(inContext: bool, t: Option<int>, f: Option<int>, probes: bool, asksRange: bool, builds: bool)
      returns (outcome: Outcome)
      modifies this
      ensures Bracketed(old(At()), old(Reported()), inContext && (t.Some? || f.Some?), t, f,
                        old(StageOf(t, f)), true, outcome, At())
      ensures !outcome.Raised?
      ensures var asked, c := inContext && (t.Some? || f.Some?), old(Reported());
              var first := old(clock) + Opening(c, asked, t, f);
              && (outcome.Ok? <==>
                    && (asked ==> old(StageOf(t, f)).Switched?)
                    && Disassembles(first, probes, asksRange, builds)
                    && AllAnswered(first + Preparing(probes, asksRange) + 1, Closing(c, asked, t, f, false)))
              && (outcome == Err(true) <==>
                    NotPutBack(old(clock), c, asked, t, f, Disassembling(first, probes, asksRange, builds),
                               !Disassembles(first, probes, asksRange, builds)))
      ensures old(BothReported()) && Quiet(outcome) ==> At() == old(At())
      ensures old(BothReported()) && outcome.Ok? && inContext && (t.Some? || f.Some?) ==>
                outcome.at == QueriedAt(old(At()), t, f) && CacheAgrees()
    {
      ghost var from, c, n, asked := At(), Reported(), clock, inContext && (t.Some? || f.Some?);
      var entry := Enter(inContext && (t.Some? || f.Some?), t, f);
      if entry.Stopped? {
        outcome := entry.error;
      } else {
        var ok, at := QueryInstructions(probes, asksRange, builds);
        outcome := Close(entry, ok, at, true, from, c, asked, t, f, n, clock - n - Opening(c, asked, t, f));
      }
    }

    /** The number of commands that locate the source. */
    function Locating(inContext: bool, asksGdb: bool): nat {
      if inContext || asksGdb then 1 else 0
    }

    /** `get_source_context`: a location is resolved by a command or given, then the
        file is read. A read that raises leaves the bracket open: the debugger stays
        where the switch led, and that is where it began only if the switch led
        nowhere. */
    method GetSourceContext(inContext: bool, t: Option<int>, f: Option<int>, asksGdb: bool, located: bool,
                            read: FileRead)
      returns (outcome: Outcome)
      modifies this
      ensures Bracketed(old(At()), old(Reported()), inContext && (t.Some? || f.Some?), t, f,
                        old(StageOf(t, f)), true, outcome, At())
      ensures var asked, c := inContext && (t.Some? || f.Some?), old(Reported());
              var first, sent := old(clock) + Opening(c, asked, t, f), Locating(inContext, asksGdb);
              var entered := !asked || old(StageOf(t, f)).Switched?;
              && (outcome.Ok? <==> located && read.Lines? && Answered(old(clock), c, asked, t, f, sent))
              && (outcome.Raised? <==> entered && AllAnswered(first, sent) && located && read.Raises?)
              && (outcome == Err(true) <==>
                    && !outcome.Raised?
                    && NotPutBack(old(clock), c, asked, t, f, sent,
                                  !located || !read.Lines? || !AllAnswered(first, sent)))
              && (outcome.Raised? && asked ==>
                    At() == SwitchedTo(old(At()), c, t, f) && cachedThread == c.thread && cachedFrame == c.frame)
      ensures old(BothReported()) && Quiet(outcome) ==> At() == old(At())
      ensures old(BothReported()) && outcome.Ok? && inContext && (t.Some? || f.Some?) ==>
                outcome.at == QueriedAt(old(At()), t, f) && CacheAgrees()
    {
      ghost var from, c, n, asked := At(), Reported(), clock, inContext && (t.Some? || f.Some?);
      AnsweredIff(clock, c, asked, t, f, Locating(inContext, asksGdb));
      var entry := Enter(inContext && (t.Some? || f.Some?), t, f);
      if entry.Stopped? {
        outcome := entry.error;
      } else {
        var ok, at, level := true, Selection(thread, frame), None;
        if inContext || asksGdb {
          ok, at, level := Query();
        }
        if ok && located && read.Raises? {
          return Raised;
        }
        outcome := Close(entry, ok && located && read.Lines?, at, true, from, c, asked, t, f, n,
                         Locating(inContext, asksGdb));
      }
    }
  }

  // ------------------------------------------------------------ what can go wrong

  /** Variables of thread 2, frame 3, asked for while thread 1, frame 3 is selected,
      are read from frame 0, with every command successful. */
  method CoincidingFrameIsMissed() returns (outcome: Outcome)
    ensures outcome == Ok(Selection(2, 0))
  {
    var context := new InspectionContext((_: nat) => true, (_: nat) => true, Selection(1, 3));
    outcome := context.GetVariables(Some(2), 3);
  }

  /** When GDB does not report the selected thread, a successful evaluation in
      thread 2 leaves thread 2 selected. */
  method MissingThreadIsNotRestored() returns (outcome: Outcome, after: Selection)
    ensures outcome.Ok? && after == Selection(2, 3)
  {
    var context := new InspectionContext((_: nat) => true, n => n != 0, Selection(1, 3));
    outcome := context.EvaluateExpression(Some(2), None);
    after := context.At();
  }

  /** When GDB does not report the selected frame and refuses the switch to thread 2,
      an evaluation there fails, reports no failed restore and leaves frame 0
      selected, although nothing was ever switched. */
  method RefusedSwitchMovesTheFrame() returns (outcome: Outcome, after: Selection)
    ensures outcome == Err(false) && after == Selection(1, 0)
  {
    var context := new InspectionContext(n => n != 2, n => n != 1, Selection(1, 3));
    outcome := context.EvaluateExpression(Some(2), None);
    after := context.At();
  }

  /** The same when frame information of the selected thread is asked for, which needs
      no switch, and the query fails. */
  method FailedQueryMovesTheFrame() returns (outcome: Outcome, after: Selection)
    ensures outcome == Err(false) && after == Selection(1, 0)
  {
    var context := new InspectionContext(n => n != 2, n => n != 1, Selection(1, 3));
    outcome := context.GetFrameInfo(Some(1), None);
    after := context.At();
  }

  /** Source of thread 2 in a file that cannot be decoded, asked for while thread 1,
      frame 3 is selected: the exception leaves thread 2 selected and the cache
      saying thread 1, frame 3. */
  method RaisingReadIsNotRestored() returns (outcome: Outcome, after: Selection, cached: Captured)
    ensures outcome == Raised && after == Selection(2, 0) && cached == Captured(Some(1), Some(3))
  {
    var context := new InspectionContext((_: nat) => true, (_: nat) => true, Selection(1, 3));
    outcome := context.GetSourceContext(true, Some(2), None, false, true, Raises);
    after := context.At();
    cached := Captured(context.cachedThread, context.cachedFrame);
  }
}
