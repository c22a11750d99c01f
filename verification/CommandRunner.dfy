/** From one answered command to the session state: notifications, the recorded
    stop and the effect of the command itself
    (src/gdb_mcp/session/command_runner.py). */
module CommandRunner {
  import opened Options
  import opened MiRecords
  import opened MiExchange
  import opened MiRouting
  import opened SessionRuntime

  /** What the text of a successful command does to the session. */
  datatype Effect =
    | NoEffect
    | LoadFile
    | LoadCore
    | Attach(pid: Option<nat>)
    | Detach
    | SwitchInferior(id: Option<nat>)
    | SetFollowFork(mode: Option<FollowForkMode>)
    | SetDetachOnFork(enabled: Option<bool>)

  /** What asking GDB for its inferiors gave. */
  datatype Refresh =
    | NotRefreshed
    | TransportDied(message: string)
    | RefreshRaised // the transport died, and dropping its controller raised
    | Refreshed(current: Option<nat>, count: int, ids: seq<nat>)

  const EXECUTING: Inferior := Inferior(Executing, None, None)

  // ------------------------------------------------------------ specification

  function GroupOf(n: Notice): Option<nat> {
    if n.payload.Details? then n.payload.id else None
  }

  function ExitReason(p: Payload): string {
    if p.Details? && p.reason.Some? && p.reason.value != "" then p.reason.value else "thread-group-exited"
  }

  function ApplyNotice(s: Snapshot, n: Notice): Snapshot {
    match n.message
    case GroupAdded => if GroupOf(n).Some? then EnsureInferior(s, GroupOf(n).value) else s
    case GroupStarted => if GroupOf(n).Some? then UpdateInferior(s, GroupOf(n), EXECUTING) else s
    case GroupExited =>
      UpdateInferior(s, GroupOf(n),
                     Inferior(Exited, Some(ExitReason(n.payload)),
                              if n.payload.Details? then n.payload.exitCode else None))
    case GroupRemoved => if GroupOf(n).Some? then RemoveInferior(s, GroupOf(n).value) else s
    case _ => s
  }

  function ApplyNotices(s: Snapshot, notices: seq<Notice>): Snapshot {
    if notices == [] then s
    else ApplyNotice(ApplyNotices(s, notices[..|notices| - 1]), notices[|notices| - 1])
  }

  predicate ChangesTopology(n: Notice) {
    (n.message == GroupAdded || n.message == GroupRemoved) && GroupOf(n).Some?
  }

  predicate TopologyChanged(notices: seq<Notice>) {
    exists n | n in notices :: ChangesTopology(n)
  }

  /** The first stop among the notifications. */
  function FirstStop(notices: seq<Notice>): Option<Notice> {
    if notices == [] then None
    else if notices[0].message == Stopped then Some(notices[0])
    else FirstStop(notices[1..])
  }

  function ApplyRefresh(s: Snapshot, refresh: Refresh): Snapshot {
    match refresh
    case NotRefreshed => s
    case TransportDied(message) => MarkFailed(s, message)
    case RefreshRaised => s
    case Refreshed(current, count, ids) => UpdateInventory(s, current, count, Some(ids))
  }

  predicate IsExit(reason: Option<string>) {
    reason.Some? && reason.value in {"exited", "exited-normally", "exited-signalled"}
  }

  function StopReason(p: Payload): Option<string> {
    if p.Details? then p.reason else None
  }

  function StopExitCode(p: Payload): Option<int> {
    if p.Details? then p.exitCode else None
  }

  function StoppedInferior(s: Snapshot, p: Payload): Option<nat> {
    if p.Details? && p.threadGroup.Some? then p.threadGroup else s.current
  }

  function StopRecord(p: Payload): Inferior {
    if IsExit(StopReason(p)) then Inferior(Exited, StopReason(p), StopExitCode(p))
    else Inferior(Paused, StopReason(p), None)
  }

  function StopEventOf(s: Snapshot, command: string, p: Payload): StopEvent {
    StopEvent(if IsExit(StopReason(p)) then Exited else Paused, StopReason(p), command, StoppedInferior(s, p),
              StopExitCode(p), p)
  }

  /** One stop: the selection moves, the stopped inferior's record changes, and the
      event is recorded. */
  function ApplyStop(s: Snapshot, command: string, p: Payload, limit: int): Snapshot {
    var thread := if p.Details? && p.threadId.Some? then p.threadId else s.thread;
    var frame := if p.Details? && p.frameLevel.Some? then p.frameLevel else s.frame;
    var s1 := UpdateInferior(s.(thread := thread, frame := frame), StoppedInferior(s, p), StopRecord(p));
    RecordStop(s1, StopEventOf(s, command, p), limit)
  }

  function ApplyEffect(s: Snapshot, effect: Effect, isError: bool): Snapshot {
    match effect
    case NoEffect => s
    case LoadFile =>
      var s1 := s.(info := s.info.(targetLoaded := true, attachedPid := None));
      if s1.top.execution == Unknown then UpdateInferior(s1, s1.current, Inferior(NotStarted, None, None)) else s1
    case LoadCore =>
      var s1 := s.(info := s.info.(targetLoaded := true, attachedPid := None));
      if s1.top.execution == Unknown then UpdateInferior(s1, s1.current, Inferior(Paused, Some("core-file"), None))
      else s1
    case Attach(pid) =>
      if isError then s
      else
        var attached := if pid.Some? then pid else s.info.attachedPid;
        var s1 := s.(info := s.info.(targetLoaded := true, attachedPid := attached));
        if s1.top.execution != Paused || s1.top.stopReason.None? then
          UpdateInferior(s1, s1.current, Inferior(Paused, Some("attached"), None))
        else s1
    case Detach => if isError then s else s.(info := s.info.(attachedPid := None))
    case SwitchInferior(id) => if isError || id.None? then s else SelectInferior(s, id)
    case SetFollowFork(mode) => if isError then s else s.(info := s.info.(followFork := mode))
    case SetDetachOnFork(enabled) => if isError then s else s.(info := s.info.(detachOnFork := enabled))
  }

  /** Whether handling a response asks GDB for its inferiors. */
  predicate Refreshes(parsed: Parsed) {
    FirstStop(parsed.notify).Some? && TopologyChanged(parsed.notify)
  }

  /** Whether the exception of that refresh escapes. */
  predicate Escapes(parsed: Parsed, refresh: Refresh) {
    Refreshes(parsed) && refresh.RefreshRaised?
  }

  predicate LosesTransport(parsed: Parsed, refresh: Refresh) {
    Refreshes(parsed) && (refresh.TransportDied? || refresh.RefreshRaised?)
  }

  /** What the notifications and the result class do, before the command's effect. */
  function ApplyResponse(s: Snapshot, command: string, parsed: Parsed, refresh: Refresh, limit: int): Snapshot {
    var s1 := ApplyNotices(s, parsed.notify);
    var stop := FirstStop(parsed.notify);
    if Escapes(parsed, refresh) then s1
    else if stop.Some? then
      ApplyStop(if TopologyChanged(parsed.notify) then ApplyRefresh(s1, refresh) else s1, command,
                stop.value.payload, limit)
    else if parsed.resultClass == Running then UpdateInferior(s1, s1.current, EXECUTING)
    else s1
  }

  function UpdateAfter(s: Snapshot, command: string, effect: Effect, parsed: Parsed, refresh: Refresh,
                       limit: int): Snapshot {
    var t := ApplyResponse(s, command, parsed, refresh, limit);
    if Escapes(parsed, refresh) then t else ApplyEffect(t, effect, parsed.resultClass == Error)
  }

  /** The response the session layer works on: the command's records, with the
      notifications of the asynchronous ones appended. */
  function SessionResponse(c: Collected): Parsed {
    var parsed := Parse(c.command);
    parsed.(notify := parsed.notify + Parse(c.async).notify)
  }

  // ------------------------------------------------------------ the runner

  lemma {:induction false} FirstStopAppend(xs: seq<Notice>, n: Notice)
    ensures FirstStop(xs + [n]) ==
            if FirstStop(xs).Some? then FirstStop(xs) else if n.message == Stopped then Some(n) else None
  {
    if xs == [] {
      assert xs + [n] == [n];
    } else {
      assert (xs + [n])[1..] == xs[1..] + [n];
      FirstStopAppend(xs[1..], n);
    }
  }

  method Notify(r: Runtime, n: Notice)
    requires r.Valid()
    modifies r, r.table, r.table.repr
    ensures r.Valid() && forall o | o in r.table.repr :: o in old(r.table.repr) || fresh(o)
    ensures r.View() == ApplyNotice(old(r.View()), n)
  {
    var group := GroupOf(n);
    match n.message
    case GroupAdded =>
      if group.Some? {
        r.Ensure(group.value);
      }
    case GroupStarted =>
      if group.Some? {
        r.Update(group, EXECUTING);
      }
    case GroupExited =>
      var exitCode := if n.payload.Details? then n.payload.exitCode else None;
      r.Update(group, Inferior(Exited, Some(ExitReason(n.payload)), exitCode));
    case GroupRemoved =>
      if group.Some? {
        r.Remove(group.value);
      }
    case _ =>
  }

  method Stop(r: Runtime, command: string, p: Payload)
    requires r.Valid()
    modifies r, r.table, r.table.repr
    ensures r.Valid() && forall o | o in r.table.repr :: o in old(r.table.repr) || fresh(o)
    ensures r.View() == ApplyStop(old(r.View()), command, p, r.historyLimit)
  {
    var inferior := if p.Details? && p.threadGroup.Some? then p.threadGroup else r.current;
    if p.Details? && p.threadId.Some? {
      r.thread := p.threadId;
    }
    if p.Details? && p.frameLevel.Some? {
      r.frame := p.frameLevel;
    }
    r.Update(inferior, StopRecord(p));
    r.Record(StopEvent(if IsExit(StopReason(p)) then Exited else Paused, StopReason(p), command, inferior,
                       StopExitCode(p), p));
  }

  /** The notification loop: group events take effect at once, the first stop is
      remembered. */
  method NotifyAll(r: Runtime, notices: seq<Notice>) returns (stop: Option<Notice>, topology: bool)
    requires r.Valid()
    modifies r, r.table, r.table.repr
    ensures r.Valid() && forall o | o in r.table.repr :: o in old(r.table.repr) || fresh(o)
    ensures r.View() == ApplyNotices(old(r.View()), notices)
    ensures stop == FirstStop(notices) && (topology <==> TopologyChanged(notices))
  {
    stop, topology := None, false;
    for i := 0 to |notices|
      invariant r.Valid() && forall o | o in r.table.repr :: o in old(r.table.repr) || fresh(o)
      invariant r.View() == ApplyNotices(old(r.View()), notices[..i])
      invariant stop == FirstStop(notices[..i]) && (topology <==> TopologyChanged(notices[..i]))
    {
      assert notices[..i + 1] == notices[..i] + [notices[i]];
      FirstStopAppend(notices[..i], notices[i]);
      Notify(r, notices[i]);
      topology := topology || ChangesTopology(notices[i]);
      if stop.None? && notices[i].message == Stopped {
        stop := Some(notices[i]);
      }
    }
    assert notices[..|notices|] == notices;
  }

  method RefreshInventory(r: Runtime, refresh: Refresh)
    requires r.Valid()
    modifies r, r.table, r.table.repr
    ensures r.Valid() && forall o | o in r.table.repr :: o in old(r.table.repr) || fresh(o)
    ensures r.View() == ApplyRefresh(old(r.View()), refresh)
  {
    match refresh
    case NotRefreshed =>
    case TransportDied(message) => r.Fail(message);
    case RefreshRaised =>
    case Refreshed(current, count, ids) => r.Inventory(current, count, Some(ids));
  }

  /** `_update_runtime_after_command` up to the command's own effect. */
  method ApplyParsed(r: Runtime, command: string, parsed: Parsed, refresh: Refresh) returns (raised: bool)
    requires r.Valid()
    modifies r, r.table, r.table.repr
    ensures r.Valid() && forall o | o in r.table.repr :: o in old(r.table.repr) || fresh(o)
    ensures r.View() == ApplyResponse(old(r.View()), command, parsed, refresh, r.historyLimit)
    ensures raised == Escapes(parsed, refresh)
  {
    var stop, topology := NotifyAll(r, parsed.notify);
    if stop.Some? {
      if topology {
        RefreshInventory(r, refresh);
        if refresh.RefreshRaised? {
          return true;
        }
      }
      Stop(r, command, stop.value.payload);
    } else if parsed.resultClass == Running {
      r.Update(r.current, EXECUTING);
    }
    raised := false;
  }

  /** The last part of `_update_runtime_after_command`. */
  method ApplyCommand(r: Runtime, effect: Effect, isError: bool)
    requires r.Valid()
    modifies r, r.table, r.table.repr
    ensures r.Valid() && forall o | o in r.table.repr :: o in old(r.table.repr) || fresh(o)
    ensures r.View() == ApplyEffect(old(r.View()), effect, isError)
  {
    match effect
    case NoEffect =>
    case LoadFile =>
      r.info := r.info.(targetLoaded := true, attachedPid := None);
      if r.top.execution == Unknown {
        r.Update(r.current, Inferior(NotStarted, None, None));
      }
    case LoadCore =>
      r.info := r.info.(targetLoaded := true, attachedPid := None);
      if r.top.execution == Unknown {
        r.Update(r.current, Inferior(Paused, Some("core-file"), None));
      }
    case Attach(pid) =>
      if !isError {
        var attached := if pid.Some? then pid else r.info.attachedPid;
        r.info := r.info.(targetLoaded := true, attachedPid := attached);
        if r.top.execution != Paused || r.top.stopReason.None? {
          r.Update(r.current, Inferior(Paused, Some("attached"), None));
        }
      }
    case Detach =>
      if !isError {
        r.info := r.info.(attachedPid := None);
      }
    case SwitchInferior(id) =>
      if !isError && id.Some? {
        r.Select(id);
      }
    case SetFollowFork(mode) =>
      if !isError {
        r.info := r.info.(followFork := mode);
      }
    case SetDetachOnFork(enabled) =>
      if !isError {
        r.info := r.info.(detachOnFork := enabled);
      }
  }

  datatype CommandResult =
    | NoActiveSession | TransportFailed | TimedOutWaiting | StillRunning | Rejected | Succeeded
    | Raised // an exception escapes

  /** What one call gives: its result, the session after it, and whether the
      controller is still there. */
  datatype Execution = Execution(result: CommandResult, view: Snapshot, connected: bool)

  /** `_update_runtime_after_command`. */
  method HandleResponse(client: MiClient, r: Runtime, command: string, effect: Effect, parsed: Parsed, refresh: Refresh)
    returns (raised: bool)
    requires r.Valid() && client !in r.table.repr
    modifies client`hasController, r, r.table, r.table.repr
    ensures r.Valid() && forall o | o in r.table.repr :: o in old(r.table.repr) || fresh(o)
    ensures r.View() == UpdateAfter(old(r.View()), command, effect, parsed, refresh, r.historyLimit)
    ensures raised == Escapes(parsed, refresh)
    ensures client.hasController == (old(client.hasController) && !LosesTransport(parsed, refresh))
  {
    raised := ApplyParsed(r, command, parsed, refresh);
    if LosesTransport(parsed, refresh) {
      client.hasController := false;
    }
    if !raised {
      ApplyCommand(r, effect, parsed.resultClass == Error);
    }
  }

  /** What a call gives for each outcome of its exchange. An `error` result returns
      before the session is updated, so the notifications that came with it are
      dropped; a controller whose exit raises leaves the session as it was. */
  function Executed(s: Snapshot, command: string, effect: Effect, outcome: Outcome, refresh: Refresh, failure: string,
                    allowRunning: bool, limit: int): Execution
  {
    match outcome
    case NoSession => Execution(NoActiveSession, s, false)
    case ExitRaised => Execution(Raised, s, false)
    case NotSent => Execution(TransportFailed, MarkFailed(s, failure), false)
    case Dead(_) => Execution(TransportFailed, MarkFailed(s, failure), false)
    case Done(c) =>
      var parsed := SessionResponse(c);
      if parsed.resultClass == Error then Execution(Rejected, s, true)
      else
        Execution(if Escapes(parsed, refresh) then Raised else Succeeded,
                  UpdateAfter(s, command, effect, parsed, refresh, limit), !LosesTransport(parsed, refresh))
    case TimedOut(c) =>
      var parsed := SessionResponse(c);
      var t := UpdateAfter(s, command, effect, parsed, refresh, limit);
      var result := if Escapes(parsed, refresh) then Raised
                    else if allowRunning && (parsed.resultClass == Running || t.top.execution == Executing)
                      then StillRunning
                    else TimedOutWaiting;
      Execution(result, t, !LosesTransport(parsed, refresh))
  }

  /** What is left of a call once its exchange returned plainly or timed out. */
  method FinishCommand(client: MiClient, r: Runtime, command: string, effect: Effect, outcome: Outcome,
                       refresh: Refresh,
                       ghost failure: string, allowRunning: bool) returns (result: CommandResult)
    requires r.Valid() && client !in r.table.repr && client.hasController && (outcome.Done? || outcome.TimedOut?)
    modifies client`hasController, r, r.table, r.table.repr
    ensures r.Valid() && forall o | o in r.table.repr :: o in old(r.table.repr) || fresh(o)
    ensures Execution(result, r.View(), client.hasController) ==
            Executed(old(r.View()), command, effect, outcome, refresh, failure, allowRunning, r.historyLimit)
  {
    var parsed := SessionResponse(outcome.collected);
    if outcome.Done? && parsed.resultClass == Error {
      return Rejected;
    }
    var raised := HandleResponse(client, r, command, effect, parsed, refresh);
    if raised {
      return Raised;
    }
    if outcome.Done? {
      result := Succeeded;
    } else if allowRunning && (parsed.resultClass == Running || r.top.execution == Executing) {
      result := StillRunning;
    } else {
      result := TimedOutWaiting;
    }
  }

  /** What is left of a call once its exchange returned in any way. */
  method Conclude(client: MiClient, r: Runtime, command: string, effect: Effect, outcome: Outcome, refresh: Refresh,
                  failure: string, allowRunning: bool) returns (result: CommandResult)
    requires r.Valid() && client !in r.table.repr && !outcome.NoSession?
    requires client.hasController == (outcome.Done? || outcome.TimedOut?)
    modifies client`hasController, r, r.table, r.table.repr
    ensures r.Valid() && forall o | o in r.table.repr :: o in old(r.table.repr) || fresh(o)
    ensures Execution(result, r.View(), client.hasController) ==
            Executed(old(r.View()), command, effect, outcome, refresh, failure, allowRunning, r.historyLimit)
  {
    if outcome.ExitRaised? {
      return Raised;
    }
    if Fatal(outcome) {
      r.Fail(failure);
      return TransportFailed;
    }
    result := FinishCommand(client, r, command, effect, outcome, refresh, failure, allowRunning);
  }

  /** `execute_command_result`. A process found dead before the command is sent loses
      its controller without an exit. */
  method ExecuteCommand(client: MiClient, r: Runtime, command: string, effect: Effect, alive: bool, writes: bool,
                        turns: seq<Turn>, exitRaises: bool, refresh: Refresh, failure: string, allowRunning: bool)
    returns (result: CommandResult)
    requires r.Valid() && client !in r.table.repr
    modifies client, r, r.table, r.table.repr
    ensures r.Valid() && forall o | o in r.table.repr :: o in old(r.table.repr) || fresh(o)
    ensures var outcome := if !old(client.hasController) then NoSession
                           else if !alive then NotSent
                           else Exchange(old(client.commandToken), writes, turns, exitRaises);
            Execution(result, r.View(), client.hasController) ==
            Executed(old(r.View()), command, effect, outcome, refresh, failure, allowRunning, r.historyLimit)
  {
    if !client.hasController {
      return NoActiveSession;
    }
    if !alive {
      client.hasController := false;
      r.Fail(failure);
      return TransportFailed;
    }
    var outcome := client.SendCommandAndWait(writes, turns, exitRaises);
    result := Conclude(client, r, command, effect, outcome, refresh, failure, allowRunning);
  }

  /** A ready session whose command cannot be written, and whose controller raises when
      it is dropped, stays ready without a controller. */
  method RaisingExitLeavesReady() returns (result: CommandResult, state: SessionState, connected: bool)
    ensures result == Raised && state == Ready && !connected
  {
    var client := new MiClient(1);
    var r := new Runtime(10);
    client.hasController := true;
    r.BecomeReady();
    result := ExecuteCommand(client, r, "continue", NoEffect, true, false, [], true, NotRefreshed, "", false);
    state, connected := r.info.state, client.hasController;
  }

  /** Exactly when losing the transport leaves the session marked as failed: when
      dropping the controller does not raise. */
  lemma FatalExchangeFailsIff(s: Snapshot, command: string, effect: Effect, token: int, writes: bool, turns: seq<Turn>,
                              exitRaises: bool, refresh: Refresh, failure: string, allowRunning: bool, limit: int)
    requires s.info.state != Failed && Fatal(Exchange(token, writes, turns, false))
    ensures var e := Executed(s, command, effect, Exchange(token, writes, turns, exitRaises), refresh, failure,
                              allowRunning, limit);
            && !e.connected && (e.view.info.state == Failed <==> !exitRaises)
            && (exitRaises ==> e.result == Raised && e.view == s)
            && (!exitRaises ==>
                  && e.result == TransportFailed && IsBlank(e.view) && e.view.info.failure == Some(failure)
                  && e.view.lastStop == s.lastStop && e.view.history == s.history)
  {
  }

  lemma {:induction false} NoticesKeepState(s: Snapshot, notices: seq<Notice>)
    ensures ApplyNotices(s, notices).info == s.info
  {
    if notices == [] {
    } else {
      NoticesKeepState(s, notices[..|notices| - 1]);
    }
  }

  lemma StopKeepsState(s: Snapshot, command: string, p: Payload, limit: int)
    ensures ApplyStop(s, command, p, limit).info == s.info
  {
  }

  lemma RefreshState(s: Snapshot, refresh: Refresh)
    ensures ApplyRefresh(s, refresh).info.state == if refresh.TransportDied? then Failed else s.info.state
  {
  }

  lemma ResponseState(s: Snapshot, command: string, parsed: Parsed, refresh: Refresh, limit: int)
    ensures var t := ApplyResponse(s, command, parsed, refresh, limit);
            t.info.state == if Refreshes(parsed) && refresh.TransportDied? then Failed else s.info.state
  {
    NoticesKeepState(s, parsed.notify);
    var s1 := ApplyNotices(s, parsed.notify);
    var stop := FirstStop(parsed.notify);
    RefreshState(s1, refresh);
    if stop.Some? {
      StopKeepsState(if TopologyChanged(parsed.notify) then ApplyRefresh(s1, refresh) else s1, command,
                     stop.value.payload, limit);
    }
  }

  lemma EffectKeepsState(s: Snapshot, effect: Effect, isError: bool)
    ensures ApplyEffect(s, effect, isError).info.state == s.info.state
  {
  }

  /** A command can succeed and leave the session failed without a controller: exactly
      when the inventory refresh after its stop loses the transport. */
  lemma SucceedsWithoutTransportIff(s: Snapshot, command: string, effect: Effect, outcome: Outcome, refresh: Refresh,
                                    failure: string, allowRunning: bool, limit: int)
    requires s.info.state != Failed
    requires Executed(s, command, effect, outcome, refresh, failure, allowRunning, limit).result == Succeeded
    ensures var e := Executed(s, command, effect, outcome, refresh, failure, allowRunning, limit);
            && (!e.connected <==> LosesTransport(SessionResponse(outcome.collected), refresh))
            && (e.view.info.state == Failed <==> LosesTransport(SessionResponse(outcome.collected), refresh))
  {
    var parsed := SessionResponse(outcome.collected);
    ResponseState(s, command, parsed, refresh, limit);
    EffectKeepsState(ApplyResponse(s, command, parsed, refresh, limit), effect, parsed.resultClass == Error);
  }

  // ---------------------------------------------------- transport to runtime

  lemma {:induction false} StopsChangeNothing(s: Snapshot, notices: seq<Notice>)
    ensures ApplyNotices(s, notices) == ApplyNotices(s, Unstopped(notices))
    ensures TopologyChanged(notices) <==> TopologyChanged(Unstopped(notices))
  {
    if notices == [] {
    } else {
      var n := |notices| - 1;
      StopsChangeNothing(s, notices[..n]);
      assert notices == notices[..n] + [notices[n]];
      UnstoppedSnoc(notices[..n], notices[n]);
      var kept := Unstopped(notices[..n]);
      if notices[n].message != Stopped {
        assert (kept + [notices[n]])[..|kept|] == kept;
      }
    }
  }

  lemma {:induction false} DeferredAreStops(token: int, records: seq<Record>)
    ensures Unstopped(DeferredStops(token, records)) == []
  {
    if records == [] {
    } else {
      var n := |records| - 1;
      DeferredAreStops(token, records[..n]);
      if IsDeferredStop(token, records, n) {
        UnstoppedSnoc(DeferredStops(token, records[..n]), Notice(Stopped, records[n].payload));
      }
    }
  }

  lemma FirstStopOfPrefix(xs: seq<Notice>, ys: seq<Notice>)
    requires xs != [] && xs[0].message == Stopped
    ensures FirstStop(xs + ys) == Some(xs[0])
  {
    assert (xs + ys)[0] == xs[0];
  }

  /** The session before the stop of a command is handled: the thread-group events, in
      arrival order, and the inventory refresh if they changed it. */
  function BeforeStop(s: Snapshot, groups: seq<Notice>, refresh: Refresh): Snapshot {
    var s1 := ApplyNotices(s, groups);
    if TopologyChanged(groups) then ApplyRefresh(s1, refresh) else s1
  }

  /** No notification is lost on the way to the session: it sees the deferred stops and
      then all others, each in arrival order. */
  lemma SessionNotices(token: int, records: seq<Record>)
    requires NotificationsUntokenized(records)
    ensures SessionResponse(AbsorbAll(token, NOTHING, records)).notify ==
            DeferredStops(token, records) + Undeferred(token, records)
  {
    var c := AbsorbAll(token, NOTHING, records);
    NoticesOfExchange(token, records);
    AsyncNotices(token, records);
    ParsedNotices(c.command);
    ParsedNotices(c.async);
  }

  /** When a deferred stop is among the records the response is handled as the
      thread-group events in arrival order and then the first stop after the command's
      own running result: however the records were interleaved, and whatever stale
      stop arrived before that result. */
  lemma StopFollowsOwnRunning(token: int, records: seq<Record>, k: nat, s: Snapshot, command: string,
                              refresh: Refresh, limit: int)
    requires NotificationsUntokenized(records)
    requires k < |records| && IsDeferredStop(token, records, k)
    requires forall i | 0 <= i < k :: !IsDeferredStop(token, records, i)
    ensures var response := SessionResponse(AbsorbAll(token, NOTHING, records));
            var groups := OtherNotices(records);
            && (Escapes(response, refresh) <==> TopologyChanged(groups) && refresh.RefreshRaised?)
            && ApplyResponse(s, command, response, refresh, limit) ==
               if Escapes(response, refresh) then ApplyNotices(s, groups)
               else ApplyStop(BeforeStop(s, groups, refresh), command, records[k].payload, limit)
  {
    var c := AbsorbAll(token, NOTHING, records);
    var response := SessionResponse(c);
    NoticesOfExchange(token, records);
    ParsedNotices(c.command);
    ParsedNotices(c.async);
    FirstDeferredStop(token, records, k);
    FirstStopOfPrefix(DeferredStops(token, records), Notices(c.async));
    UnstoppedAppend(DeferredStops(token, records), Notices(c.async));
    DeferredAreStops(token, records);
    assert Unstopped(response.notify) == OtherNotices(records);
    StopsChangeNothing(s, response.notify);
  }

  // -------------------------------------------------- results of a returned call

  /** A call whose exchange returned plainly is rejected exactly when the result that
      decides about it is an error, and then leaves everything as it was. */
  lemma ReturnedResult(token: int, records: seq<Record>, s: Snapshot, command: string, effect: Effect,
                       refresh: Refresh, failure: string, allowRunning: bool, limit: int)
    ensures var c := AbsorbAll(token, NOTHING, records);
            var e := Executed(s, command, effect, Done(c), refresh, failure, allowRunning, limit);
            && (AnsweredByError(token, records) ==> e == Execution(Rejected, s, true))
            && (!AnsweredByError(token, records) ==>
                  e.result == if Escapes(SessionResponse(c), refresh) then Raised else Succeeded)
  {
    ParsedIsAnswer(token, records);
  }

  predicate AnsweredByRunning(token: int, records: seq<Record>) {
    Answer(token, records).Some? && Answer(token, records).value.message == Running
  }

  /** Without a controller nothing happens, and a command that cannot be sent fails the
      session. */
  lemma UnsentResult(s: Snapshot, command: string, effect: Effect, refresh: Refresh, failure: string,
                     allowRunning: bool, limit: int)
    ensures Executed(s, command, effect, NoSession, refresh, failure, allowRunning, limit) ==
            Execution(NoActiveSession, s, false)
    ensures var e := Executed(s, command, effect, NotSent, refresh, failure, allowRunning, limit);
            e.result == TransportFailed && !e.connected && IsBlank(e.view) && e.view.info.state == Failed
  {
  }

  /** A timeout leaves the session as a plain return with the same records would, unless
      their answer is an error, which a plain return stops at. */
  lemma TimedOutView(token: int, records: seq<Record>, s: Snapshot, command: string, effect: Effect,
                     refresh: Refresh, failure: string, allowRunning: bool, limit: int)
    ensures var c := AbsorbAll(token, NOTHING, records);
            var e := Executed(s, command, effect, TimedOut(c), refresh, failure, allowRunning, limit);
            && (!AnsweredByError(token, records) ==>
                  var done := Executed(s, command, effect, Done(c), refresh, failure, allowRunning, limit);
                  e.view == done.view && e.connected == done.connected)
            && (AnsweredByError(token, records) && !Escapes(SessionResponse(c), refresh) ==>
                  var t := ApplyResponse(s, command, SessionResponse(c), refresh, limit);
                  if effect.LoadFile? || effect.LoadCore? then e.view == ApplyEffect(t, effect, false)
                  else e.view == t)
  {
    ParsedIsAnswer(token, records);
  }

  /** A call that timed out is reported as still running exactly when its caller allows
      that and the command was answered by `running` or the selected inferior runs. */
  lemma TimedOutStillRunningIff(token: int, records: seq<Record>, s: Snapshot, command: string, effect: Effect,
                                refresh: Refresh, failure: string, allowRunning: bool, limit: int)
    requires Mirrors(s)
    ensures var c := AbsorbAll(token, NOTHING, records);
            var e := Executed(s, command, effect, TimedOut(c), refresh, failure, allowRunning, limit);
            var t := e.view;
            if Escapes(SessionResponse(c), refresh) then e.result == Raised
            else
              && (e.result == StillRunning || e.result == TimedOutWaiting)
              && (e.result == StillRunning <==>
                    && allowRunning
                    && (|| AnsweredByRunning(token, records)
                        || (t.current.Some? && RecordOf(t.inferiors, t.current.value).execution == Executing)))
  {
    ParsedIsAnswer(token, records);
    var c := AbsorbAll(token, NOTHING, records);
    ExecutionMirrors(s, command, effect, TimedOut(c), refresh, failure, allowRunning, limit);
  }

  /** The inventory is asked for exactly when an inferior was added or removed by a
      notification that names it and one of the notifications is a stop. */
  lemma RefreshesIff(parsed: Parsed)
    ensures Refreshes(parsed) <==>
            && (exists n | n in parsed.notify :: n.message == Stopped)
            && (exists n | n in parsed.notify ::
                  (n.message == GroupAdded || n.message == GroupRemoved) && n.payload.Details? && n.payload.id.Some?)
  {
    HasStopIff(parsed.notify);
  }

  lemma {:induction false} HasStopIff(notices: seq<Notice>)
    ensures FirstStop(notices).Some? <==> exists n | n in notices :: n.message == Stopped
  {
    if notices != [] {
      HasStopIff(notices[1..]);
      assert notices == [notices[0]] + notices[1..];
    }
  }

  /** A response without a stop is its notifications; the selected inferior runs after
      them if the result says so. */
  lemma ResponseWithoutStop(s: Snapshot, command: string, parsed: Parsed, refresh: Refresh, limit: int)
    requires forall n | n in parsed.notify :: n.message != Stopped
    ensures var before, t := ApplyNotices(s, parsed.notify), ApplyResponse(s, command, parsed, refresh, limit);
            if parsed.resultClass == Running then Writes(before, t, Inferior(Executing, None, None)) else t == before
  {
    HasStopIff(parsed.notify);
  }

  /** What the refresh before a stop does to the session. */
  lemma RefreshLeaves(s: Snapshot, refresh: Refresh)
    ensures var t := ApplyRefresh(s, refresh);
            match refresh
            case TransportDied(message) =>
              && IsBlank(t) && t.info.state == Failed && t.info.failure == Some(message)
              && t.lastStop == s.lastStop && t.history == s.history
            case Refreshed(current, count, ids) =>
              && SameSession(s, t) && (current.Some? ==> t.current == current)
              && (forall id | id in ids :: id in t.inferiors && t.inferiors[id] == RecordOf(s.inferiors, id))
              && (forall id | id in t.inferiors :: id in ids || current == Some(id))
              && t.count.Some? && count <= t.count.value
            case _ => t == s
  {
    if refresh.Refreshed? {
      var ids := Some(refresh.ids);
      if refresh.current.Some? {
        InventoryWithSelection(s, refresh.current.value, refresh.count, ids);
      } else {
        InventoryWithoutSelection(s, refresh.count, ids);
      }
    }
  }

  // ------------------------------------------------- what the events do to whom

  function RecordAt(s: Snapshot, id: nat): Option<Inferior> {
    if id in s.inferiors then Some(s.inferiors[id]) else None
  }

  /** What one event does to the record of one inferior: nothing unless it names it. */
  function After(record: Option<Inferior>, n: Notice, id: nat): Option<Inferior> {
    if !(n.payload.Details? && n.payload.id == Some(id)) then record
    else
      match n.message
      case GroupAdded => if record.Some? || id == 0 then record else Some(Inferior(Unknown, None, None))
      case GroupStarted => Some(Inferior(Executing, None, None))
      case GroupExited =>
        var reason := n.payload.reason;
        Some(Inferior(Exited, if reason.None? || reason.value == "" then Some("thread-group-exited") else reason,
                      n.payload.exitCode))
      case GroupRemoved => None
      case _ => record
  }

  function AfterAll(record: Option<Inferior>, notices: seq<Notice>, id: nat): Option<Inferior> {
    if notices == [] then record
    else After(AfterAll(record, notices[..|notices| - 1], id), notices[|notices| - 1], id)
  }

  /** Every exit says which inferior exited. */
  predicate NamedExits(notices: seq<Notice>) {
    forall n | n in notices && n.message == GroupExited :: n.payload.Details? && n.payload.id.Some?
  }

  lemma EventIsLocal(s: Snapshot, n: Notice, id: nat)
    requires Mirrors(s) && (n.message == GroupExited ==> n.payload.Details? && n.payload.id.Some?)
    ensures RecordAt(ApplyNotice(s, n), id) == After(RecordAt(s, id), n, id)
  {
    if n.payload.Details? && n.payload.id.Some? {
      var group := n.payload.id.value;
      match n.message
      case GroupAdded => EnsuredInferior(s, group);
      case GroupStarted => UpdateLeaves(s, Some(group), Inferior(Executing, None, None));
      case GroupExited =>
        UpdateLeaves(s, Some(group), Inferior(Exited, Some(ExitReason(n.payload)), n.payload.exitCode));
      case GroupRemoved => RemovalLeaves(s, group);
      case _ =>
    }
  }

  /** Each inferior goes its own way: after all events of a response its record is what
      the events that name it, in order, made of it, whatever was reported about the
      others and whichever is selected. */
  lemma {:induction false} EventsAreLocal(s: Snapshot, notices: seq<Notice>, id: nat)
    requires Mirrors(s) && NamedExits(notices)
    ensures RecordAt(ApplyNotices(s, notices), id) == AfterAll(RecordAt(s, id), notices, id)
  {
    if notices != [] {
      var n := |notices| - 1;
      EventsAreLocal(s, notices[..n], id);
      NoticesMirror(s, notices[..n]);
      EventIsLocal(ApplyNotices(s, notices[..n]), notices[n], id);
    }
  }

  /** An exit that names no inferior is that of the selected one. */
  lemma UnnamedExit(s: Snapshot, n: Notice)
    requires n.message == GroupExited && !(n.payload.Details? && n.payload.id.Some?)
    ensures var t := ApplyNotice(s, n);
            var id := if s.current.Some? then s.current.value else 1;
            t.current == Some(id) && t.inferiors == s.inferiors[id := t.top] && t.top.execution == Exited
  {
    var exitCode := if n.payload.Details? then n.payload.exitCode else None;
    UpdateLeaves(s, None, Inferior(Exited, Some(ExitReason(n.payload)), exitCode));
  }

  /** The selected inferior's record becomes this one. */
  predicate Writes(s: Snapshot, t: Snapshot, record: Inferior) {
    var id := if s.current.Some? then s.current.value else 1;
    && t.current == Some(id) && t.inferiors == s.inferiors[id := record] && t.top == record
    && t.thread == s.thread && t.frame == s.frame
  }

  predicate SameInferiors(s: Snapshot, t: Snapshot) {
    && t.current == s.current && t.inferiors == s.inferiors && t.top == s.top && t.count == s.count
    && t.thread == s.thread && t.frame == s.frame
  }

  /** What a successful command does besides its stop. A program or a core file is loaded
      into an inferior about which nothing is known; an attach pauses the selected one
      unless it is paused for a reason already. */
  lemma EffectLeaves(s: Snapshot, effect: Effect)
    ensures var t := ApplyEffect(s, effect, false);
            match effect
            case NoEffect => t == s
            case LoadFile =>
              && t.info == s.info.(targetLoaded := true, attachedPid := None)
              && (if s.top.execution == Unknown then Writes(s, t, Inferior(NotStarted, None, None))
                  else SameInferiors(s, t))
            case LoadCore =>
              && t.info == s.info.(targetLoaded := true, attachedPid := None)
              && (if s.top.execution == Unknown then Writes(s, t, Inferior(Paused, Some("core-file"), None))
                  else SameInferiors(s, t))
            case Attach(pid) =>
              && t.info == s.info.(targetLoaded := true,
                                   attachedPid := if pid.Some? then pid else s.info.attachedPid)
              && (if s.top.execution == Paused && s.top.stopReason.Some? then SameInferiors(s, t)
                  else Writes(s, t, Inferior(Paused, Some("attached"), None)))
            case Detach => t.info == s.info.(attachedPid := None) && SameInferiors(s, t)
            case SwitchInferior(id) =>
              && t.info == s.info
              && (if id.Some? then t.current == id && t.thread == None && t.frame == None &&
                                   t.top == RecordOf(s.inferiors, id.value)
                  else t == s)
            case SetFollowFork(mode) => t.info == s.info.(followFork := mode) && SameInferiors(s, t)
            case SetDetachOnFork(enabled) => t.info == s.info.(detachOnFork := enabled) && SameInferiors(s, t)
  {
    match effect
    case SwitchInferior(id) => SelectedInferior(s, id);
    case LoadFile => UpdateLeaves(s.(info := s.info.(targetLoaded := true, attachedPid := None)), s.current,
                                  Inferior(NotStarted, None, None));
    case LoadCore => UpdateLeaves(s.(info := s.info.(targetLoaded := true, attachedPid := None)), s.current,
                                  Inferior(Paused, Some("core-file"), None));
    case Attach(pid) =>
      var attached := if pid.Some? then pid else s.info.attachedPid;
      UpdateLeaves(s.(info := s.info.(targetLoaded := true, attachedPid := attached)), s.current,
                   Inferior(Paused, Some("attached"), None));
    case _ =>
  }

  lemma {:induction false} StreamPrefix(turns: seq<Turn>, n: nat)
    requires n <= |turns|
    ensures forall r | r in Stream(turns[..n]) :: r in Stream(turns)
    decreases |turns|
  {
    if n == 0 {
    } else {
      StreamPrefix(turns[1..], n - 1);
      assert turns[..n][1..] == turns[1..][..n - 1];
    }
  }

  lemma {:induction false} LeastDeferredStop(token: int, records: seq<Record>, bound: nat) returns (k: nat)
    requires bound < |records| && IsDeferredStop(token, records, bound)
    ensures k <= bound && IsDeferredStop(token, records, k)
    ensures forall i | 0 <= i < k :: !IsDeferredStop(token, records, i)
  {
    k := bound;
    if i :| 0 <= i < bound && IsDeferredStop(token, records, i) {
      k := LeastDeferredStop(token, records, i);
    }
  }

  /** The result that decides about the command is an error: a result without a token
      that came after its own. */
  predicate AnsweredByError(token: int, records: seq<Record>) {
    Answer(token, records).Some? && Answer(token, records).value.message == Error
  }

  /** What a plain return with these records gives. */
  lemma ExecutedAtStop(token: int, records: seq<Record>, k: nat, s: Snapshot, command: string, effect: Effect,
                       refresh: Refresh, failure: string, allowRunning: bool, limit: int)
    requires NotificationsUntokenized(records)
    requires k < |records| && IsDeferredStop(token, records, k)
    requires forall i | 0 <= i < k :: !IsDeferredStop(token, records, i)
    ensures var groups := OtherNotices(records);
            var e := Executed(s, command, effect, Done(AbsorbAll(token, NOTHING, records)), refresh, failure,
                              allowRunning, limit);
            if AnsweredByError(token, records) then e.result == Rejected && e.view == s
            else if TopologyChanged(groups) && refresh.RefreshRaised? then
              e.result == Raised && e.view == ApplyNotices(s, groups)
            else
              && e.result == Succeeded
              && e.view == ApplyEffect(ApplyStop(BeforeStop(s, groups, refresh), command, records[k].payload, limit),
                                       effect, false)
  {
    StopFollowsOwnRunning(token, records, k, s, command, refresh, limit);
    ParsedIsAnswer(token, records);
  }

  /** From the wire to the session: a command that returns plainly while its own class
      is `running` ends at the first stop after running, read from the records of the
      turns up to its return. It succeeds, and leaves the session as that stop and its
      own effect make it, exactly when no error result without a token replaced its
      own and no exception of the inventory refresh escapes. */
  lemma RunningCommandEndsAtItsStop(token: int, turns: seq<Turn>, s: Snapshot, command: string, effect: Effect,
                                    refresh: Refresh, failure: string, allowRunning: bool, limit: int)
    returns (n: nat, k: nat)
    requires NotificationsUntokenized(Stream(turns))
    requires Run(token, NOTHING, turns).Done? && Run(token, NOTHING, turns).collected.resultClass == Running
    ensures n <= |turns|
    ensures var records := Stream(turns[..n]);
            var groups := OtherNotices(records);
            var e := Executed(s, command, effect, Run(token, NOTHING, turns), refresh, failure, allowRunning, limit);
            && OwnClass(token, records) == Some(Running)
            && k < |records| && IsDeferredStop(token, records, k)
            && (forall i | 0 <= i < k :: !IsDeferredStop(token, records, i))
            && (if AnsweredByError(token, records) then e.result == Rejected && e.view == s
                else if TopologyChanged(groups) && refresh.RefreshRaised? then
                  e.result == Raised && e.view == ApplyNotices(s, groups)
                else
                  && e.result == Succeeded
                  && e.view == ApplyEffect(
                       ApplyStop(BeforeStop(s, groups, refresh), command, records[k].payload, limit), effect, false))
  {
    n, k := StopOfRunningCommand(token, turns);
    StreamPrefix(turns, n);
    ExecutedAtStop(token, Stream(turns[..n]), k, s, command, effect, refresh, failure, allowRunning, limit);
  }

  lemma StopOfRunningCommand(token: int, turns: seq<Turn>) returns (n: nat, k: nat)
    requires Run(token, NOTHING, turns).Done? && Run(token, NOTHING, turns).collected.resultClass == Running
    ensures n <= |turns|
    ensures var records := Stream(turns[..n]);
            && Run(token, NOTHING, turns).collected == AbsorbAll(token, NOTHING, records)
            && OwnClass(token, records) == Some(Running)
            && k < |records| && IsDeferredStop(token, records, k)
            && (forall i | 0 <= i < k :: !IsDeferredStop(token, records, i))
  {
    ExchangeOutcome(token, NOTHING, turns);
    n :| CompletesAt(token, NOTHING, turns, n) &&
         Run(token, NOTHING, turns).collected == AbsorbAll(token, NOTHING, Stream(turns[..n]));
    var records := Stream(turns[..n]);
    CollectedFlags(token, records);
    var i :| 0 <= i < |records| && IsDeferredStop(token, records, i);
    k := LeastDeferredStop(token, records, i);
  }

  lemma ResultsOfPrefix(turns: seq<Turn>, n: nat)
    requires n <= |turns| && ResultsCarryTokens(Stream(turns))
    ensures ResultsCarryTokens(Stream(turns[..n]))
  {
    StreamPrefix(turns, n);
  }

  /** The session shows the stop with this payload as the last one, and the record of
      the stopped inferior is paused or exited with its reason. */
  predicate Reports(t: Snapshot, before: Snapshot, command: string, p: Payload) {
    var reason := if p.Details? then p.reason else None;
    var code := if p.Details? then p.exitCode else None;
    var group := if p.Details? && p.threadGroup.Some? then p.threadGroup else before.current;
    var id := if group.Some? then group.value else 1;
    var exited := reason == Some("exited") || reason == Some("exited-normally") || reason == Some("exited-signalled");
    && t.lastStop == Some(StopEvent(if exited then Exited else Paused, reason, command, group, code, p))
    && id in t.inferiors
    && (t.inferiors[id] == Inferior(Paused, Some("attached"), None) ||
        t.inferiors[id] == if exited then Inferior(Exited, reason, code) else Inferior(Paused, reason, None))
  }

  /** When every result carries its command's token no running command is rejected. */
  lemma TokenizedRunningCommand(token: int, turns: seq<Turn>, s: Snapshot, command: string, effect: Effect,
                                refresh: Refresh, failure: string, allowRunning: bool, limit: int)
    returns (n: nat, k: nat)
    requires NotificationsUntokenized(Stream(turns)) && ResultsCarryTokens(Stream(turns)) && !refresh.RefreshRaised?
    requires Run(token, NOTHING, turns).Done? && Run(token, NOTHING, turns).collected.resultClass == Running
    ensures n <= |turns|
    ensures var records := Stream(turns[..n]);
            var e := Executed(s, command, effect, Run(token, NOTHING, turns), refresh, failure, allowRunning, limit);
            && k < |records| && IsDeferredStop(token, records, k)
            && (forall i | 0 <= i < k :: !IsDeferredStop(token, records, i))
            && e.result == Succeeded
            && (var before := BeforeStop(s, OtherNotices(records), refresh);
                && e.view == ApplyEffect(ApplyStop(before, command, records[k].payload, limit), effect, false)
                && Reports(e.view, before, command, records[k].payload))
  {
    n, k := RunningCommandEndsAtItsStop(token, turns, s, command, effect, refresh, failure, allowRunning, limit);
    var records := Stream(turns[..n]);
    ResultsOfPrefix(turns, n);
    AnswerIsOwn(token, records);
    RecordedStop(BeforeStop(s, OtherNotices(records), refresh), command, records[k].payload, limit, effect);
  }

  /** One batch where an error result without a token makes the runner reject a command
      that ran and stopped: the stop is lost. */
  lemma StrayErrorLosesTheStop(token: int, s: Snapshot, command: string, effect: Effect, refresh: Refresh,
                               failure: string, allowRunning: bool, limit: int)
    ensures var running := Record(Result, Some(token), Running, NoPayload);
            var stray := Record(Result, None, Error, NoPayload);
            var stop := Record(Kind.Notify, None, Stopped, NoPayload);
            var outcome := Run(token, NOTHING, [Turn(false, Batch([running, stray, stop]))]);
            && outcome.Done? && outcome.collected.resultClass == Running && outcome.collected.sawStop
            && Executed(s, command, effect, outcome, refresh, failure, allowRunning, limit) ==
               Execution(Rejected, s, true)
  {
    var running := Record(Result, Some(token), Running, NoPayload);
    var stray := Record(Result, None, Error, NoPayload);
    var stop := Record(Kind.Notify, None, Stopped, NoPayload);
    var records := [running, stray, stop];
    assert records[..2] == [running, stray] && [running, stray][..1] == [running] && [running][..0] == [];
    var one := AbsorbAll(token, NOTHING, [running]);
    assert AbsorbAll(token, NOTHING, []) == NOTHING && one == Absorb(token, NOTHING, running);
    var two := AbsorbAll(token, NOTHING, [running, stray]);
    assert two == Absorb(token, one, stray);
    assert AbsorbAll(token, NOTHING, records) == Absorb(token, two, stop);
    var turns := [Turn(false, Batch(records))];
    assert turns[0].read.records == records && Survives(records);
    assert Answer(token, records) == Answer(token, [running, stray]) == Some(stray);
    ParsedIsAnswer(token, records);
  }

  const GROUP_TWO_ADDED: Record := Record(Kind.Notify, None, GroupAdded, Details(Some(2), None, None, None, None, None))

  const BARE_STOP: Record := Record(Kind.Notify, None, Stopped, NoPayload)

  /** A command that starts running, a new inferior, and a stop, in one batch. */
  function RunAndStop(token: int): seq<Record> {
    [Record(Result, Some(token), Running, NoPayload), GROUP_TWO_ADDED, BARE_STOP]
  }

  lemma RunAndStopCollected(token: int) returns (c: Collected)
    ensures Run(token, NOTHING, [Turn(false, Batch(RunAndStop(token)))]) == Done(c)
    ensures c.command == [RunAndStop(token)[0], BARE_STOP] && c.async == [GROUP_TWO_ADDED]
  {
    var records := RunAndStop(token);
    var running := records[0];
    assert records[..2] == [running, GROUP_TWO_ADDED] && records[..2][..1] == [running] && [running][..0] == [];
    assert AbsorbAll(token, NOTHING, []) == NOTHING;
    var one := AbsorbAll(token, NOTHING, [running]);
    assert one == Absorb(token, NOTHING, running);
    var two := AbsorbAll(token, NOTHING, records[..2]);
    assert two == Absorb(token, one, GROUP_TWO_ADDED);
    c := AbsorbAll(token, NOTHING, records);
    assert c == Absorb(token, two, BARE_STOP);
    var turns := [Turn(false, Batch(records))];
    assert turns[0].read.records == records && Survives(records);
  }

  /** After that batch, when the refresh finds the transport dead, the command succeeds
      and the session has failed. */
  lemma RefreshLosesTheTransport(token: int, s: Snapshot, command: string, effect: Effect, message: string,
                                 failure: string, allowRunning: bool, limit: int)
    requires s.info.state != Failed
    ensures var outcome := Run(token, NOTHING, [Turn(false, Batch(RunAndStop(token)))]);
            var e := Executed(s, command, effect, outcome, TransportDied(message), failure, allowRunning, limit);
            e.result == Succeeded && e.view.info.state == Failed && !e.connected
  {
    var c := RunAndStopCollected(token);
    StopAndGroup(c, RunAndStop(token)[0], BARE_STOP, GROUP_TWO_ADDED);
    SucceedsWithoutTransportIff(s, command, effect, Done(c), TransportDied(message), failure, allowRunning, limit);
  }

  lemma StopAndGroup(c: Collected, running: Record, stop: Record, added: Record)
    requires c.command == [running, stop] && c.async == [added]
    requires running.kind.Result? && stop.kind.Notify? && added.kind.Notify? && stop.message == Stopped
    requires ChangesTopology(Notice(added.message, added.payload))
    ensures SessionResponse(c).resultClass == running.message && Refreshes(SessionResponse(c))
  {
    assert c.command[..1] == [running] && [running][..0] == [] && c.async[..0] == [];
    assert Parse([running]) == ParseOne(EMPTY_PARSED, running);
    assert Parse(c.command) == ParseOne(Parse([running]), stop) && Parse(c.async) == ParseOne(EMPTY_PARSED, added);
    var notices := SessionResponse(c).notify;
    assert notices == [Notice(stop.message, stop.payload), Notice(added.message, added.payload)];
    assert notices[1] in notices;
  }

  /** One of the three reasons of a stop after which the inferior is gone. */
  lemma ExitReasons(reason: Option<string>)
    ensures IsExit(reason) <==>
            reason == Some("exited") || reason == Some("exited-normally") || reason == Some("exited-signalled")
  {
  }

  /** The newest events, at most `limit` of them. */
  predicate NewestOf(history: seq<StopEvent>, events: seq<StopEvent>, limit: int) {
    && |history| <= |events| && history == events[|events| - |history|..]
    && |history| == (if limit < 1 then 0 else if |events| < limit then |events| else limit)
  }

  /** Everything one stop leaves behind, from its payload: an exited inferior with its
      reason and exit code for the three exit reasons, a paused one with its reason
      and no exit code for any other, and the event with all of them. */
  lemma StopLeaves(s: Snapshot, command: string, p: Payload, limit: int)
    ensures var t := ApplyStop(s, command, p, limit);
            var reason := if p.Details? then p.reason else None;
            var code := if p.Details? then p.exitCode else None;
            var group := if p.Details? && p.threadGroup.Some? then p.threadGroup else s.current;
            var id := if group.Some? then group.value else 1;
            var exited := reason == Some("exited") || reason == Some("exited-normally") ||
                          reason == Some("exited-signalled");
            var record := if exited then Inferior(Exited, reason, code) else Inferior(Paused, reason, None);
            var event := StopEvent(if exited then Exited else Paused, reason, command, group, code, p);
            && t.info == s.info && t.inferiors == s.inferiors[id := record]
            && t.current == (if s.current.Some? then s.current else Some(id))
            && t.top == (if t.current == Some(id) then record else s.top)
            && t.thread == (if p.Details? && p.threadId.Some? then p.threadId else s.thread)
            && t.frame == (if p.Details? && p.frameLevel.Some? then p.frameLevel else s.frame)
            && t.lastStop == Some(event) && NewestOf(t.history, s.history + [event], limit)
  {
    ExitReasons(StopReason(p));
    StopWrites(s, command, p, limit);
  }

  lemma StopWrites(s: Snapshot, command: string, p: Payload, limit: int)
    ensures var t, id := ApplyStop(s, command, p, limit), Target(s, StoppedInferior(s, p));
            && t.info == s.info && t.inferiors == s.inferiors[id := StopRecord(p)]
            && t.current == (if s.current.Some? then s.current else Some(id))
            && t.top == (if t.current == Some(id) then StopRecord(p) else s.top)
            && t.thread == (if p.Details? && p.threadId.Some? then p.threadId else s.thread)
            && t.frame == (if p.Details? && p.frameLevel.Some? then p.frameLevel else s.frame)
            && t.lastStop == Some(StopEventOf(s, command, p))
            && NewestOf(t.history, s.history + [StopEventOf(s, command, p)], limit)
  {
    var thread := if p.Details? && p.threadId.Some? then p.threadId else s.thread;
    var frame := if p.Details? && p.frameLevel.Some? then p.frameLevel else s.frame;
    var s1 := s.(thread := thread, frame := frame);
    UpdateLeaves(s1, StoppedInferior(s, p), StopRecord(p));
    RecordLeaves(UpdateInferior(s1, StoppedInferior(s, p), StopRecord(p)), StopEventOf(s, command, p), limit);
  }

  lemma RecordLeaves(s: Snapshot, event: StopEvent, limit: int)
    ensures var t := RecordStop(s, event, limit);
            t == s.(lastStop := Some(event), history := t.history) && NewestOf(t.history, s.history + [event], limit)
  {
  }

  /** What remains of it once the command's own effect is done: the event is the last
      one and ends the history, and the stopped inferior's record is that of the stop,
      unless the command attached to it and it had exited or gave no reason. */
  lemma RecordedStop(s: Snapshot, command: string, p: Payload, limit: int, effect: Effect)
    ensures var t := ApplyEffect(ApplyStop(s, command, p, limit), effect, false);
            var reason := if p.Details? then p.reason else None;
            var code := if p.Details? then p.exitCode else None;
            var group := if p.Details? && p.threadGroup.Some? then p.threadGroup else s.current;
            var id := if group.Some? then group.value else 1;
            var exited := reason == Some("exited") || reason == Some("exited-normally") ||
                          reason == Some("exited-signalled");
            var event := StopEvent(if exited then Exited else Paused, reason, command, group, code, p);
            var selected := s.current.None? || s.current == Some(id);
            && t.lastStop == Some(event) && NewestOf(t.history, s.history + [event], limit)
            && id in t.inferiors
            && t.inferiors[id] == (if effect.Attach? && selected && (exited || reason.None?) then
                                     Inferior(Paused, Some("attached"), None)
                                   else if exited then Inferior(Exited, reason, code)
                                   else Inferior(Paused, reason, None))
            && (selected && !effect.SwitchInferior? ==> t.top == t.inferiors[id])
  {
    var u := ApplyStop(s, command, p, limit);
    StopLeaves(s, command, p, limit);
    EffectKeepsEvents(u, effect);
    EffectOnRecord(u, effect, Target(s, StoppedInferior(s, p)));
  }

  lemma EffectKeepsEvents(s: Snapshot, effect: Effect)
    ensures var t := ApplyEffect(s, effect, false); t.lastStop == s.lastStop && t.history == s.history
  {
    forall x: Snapshot, id: Option<nat>, inferior: Inferior
      ensures var t := UpdateInferior(x, id, inferior); t.lastStop == x.lastStop && t.history == x.history
    {
    }
  }

  /** A paused or exited inferior keeps its record, unless the command attached to it. */
  lemma EffectOnRecord(s: Snapshot, effect: Effect, id: nat)
    requires id in s.inferiors && (s.current == Some(id) ==> s.top == s.inferiors[id])
    requires s.inferiors[id].execution != Unknown && s.current.Some?
    ensures var t := ApplyEffect(s, effect, false);
            id in t.inferiors && t.inferiors[id] ==
            if effect.Attach? && s.current == Some(id) && (s.top.execution != Paused || s.top.stopReason.None?)
            then Inferior(Paused, Some("attached"), None) else s.inferiors[id]
    ensures var t := ApplyEffect(s, effect, false);
            s.current == Some(id) && !effect.SwitchInferior? ==> t.top == t.inferiors[id]
  {
  }

  lemma NoticeMirrors(s: Snapshot, n: Notice)
    requires Mirrors(s)
    ensures Mirrors(ApplyNotice(s, n))
  {
    match n.message
    case GroupAdded => if GroupOf(n).Some? { EnsureMirrors(s, GroupOf(n).value); }
    case GroupStarted => UpdateMirrors(s, GroupOf(n), EXECUTING);
    case GroupExited =>
      var exitCode := if n.payload.Details? then n.payload.exitCode else None;
      UpdateMirrors(s, GroupOf(n), Inferior(Exited, Some(ExitReason(n.payload)), exitCode));
    case GroupRemoved => if GroupOf(n).Some? { StepMirrors(OpRemoveInferior(GroupOf(n).value), s); }
    case _ =>
  }

  lemma {:induction false} NoticesMirror(s: Snapshot, notices: seq<Notice>)
    requires Mirrors(s)
    ensures Mirrors(ApplyNotices(s, notices))
  {
    if notices == [] {
    } else {
      NoticesMirror(s, notices[..|notices| - 1]);
      NoticeMirrors(ApplyNotices(s, notices[..|notices| - 1]), notices[|notices| - 1]);
    }
  }

  lemma StopMirrors(s: Snapshot, command: string, p: Payload, limit: int)
    requires Mirrors(s)
    ensures Mirrors(ApplyStop(s, command, p, limit))
  {
    var thread := if p.Details? && p.threadId.Some? then p.threadId else s.thread;
    var frame := if p.Details? && p.frameLevel.Some? then p.frameLevel else s.frame;
    UpdateMirrors(s.(thread := thread, frame := frame), StoppedInferior(s, p), StopRecord(p));
  }

  lemma EffectMirrors(s: Snapshot, effect: Effect, isError: bool)
    requires Mirrors(s)
    ensures Mirrors(ApplyEffect(s, effect, isError))
  {
    match effect
    case SwitchInferior(id) => StepMirrors(OpSelectInferior(id), s);
    case _ =>
  }

  lemma ResponseMirrors(s: Snapshot, command: string, parsed: Parsed, refresh: Refresh, limit: int)
    requires Mirrors(s)
    ensures Mirrors(ApplyResponse(s, command, parsed, refresh, limit))
  {
    NoticesMirror(s, parsed.notify);
    var s1 := ApplyNotices(s, parsed.notify);
    if FirstStop(parsed.notify).Some? {
      if refresh.Refreshed? {
        StepMirrors(OpUpdateInventory(refresh.current, refresh.count, Some(refresh.ids)), s1);
      }
      var s2 := if TopologyChanged(parsed.notify) then ApplyRefresh(s1, refresh) else s1;
      StopMirrors(s2, command, FirstStop(parsed.notify).value.payload, limit);
    } else {
      UpdateMirrors(s1, s1.current, EXECUTING);
    }
  }

  /** Every call keeps the top-level fields equal to the selected inferior's record,
      whatever its outcome, notifications and effect. */
  lemma ExecutionMirrors(s: Snapshot, command: string, effect: Effect, outcome: Outcome, refresh: Refresh,
                         failure: string,
                         allowRunning: bool, limit: int)
    requires Mirrors(s)
    ensures Mirrors(Executed(s, command, effect, outcome, refresh, failure, allowRunning, limit).view)
  {
    if outcome.Done? || outcome.TimedOut? {
      var parsed := SessionResponse(outcome.collected);
      ResponseMirrors(s, command, parsed, refresh, limit);
      EffectMirrors(ApplyResponse(s, command, parsed, refresh, limit), effect, parsed.resultClass == Error);
    }
  }
}
