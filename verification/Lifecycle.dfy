/** Starting and stopping a session (src/gdb_mcp/session/lifecycle.py), and the
    registry's start that publishes only on success
    (src/gdb_mcp/session/registry.py). Every command may succeed, fail or raise,
    and any of them may lose the transport. */
module Lifecycle {
  import opened Options
  import opened SessionRegistry
  import opened SessionRuntime

  datatype Kind = Answered | Refused | Raises

  /** What the debugger does with one command. */
  datatype Reply = Reply(kind: Kind, losesTransport: bool)

  /** What a start request asks for, and what its environment does to it. */
  datatype StartRequest = StartRequest(
    badCombination: bool,      // arguments that exclude one another
    missingDirectory: bool,
    openRaises: bool,          // the controller cannot be created
    readRaises: bool,          // reading the startup output fails
    environment: seq<bool>,    // for each variable, whether it can be set safely
    initCommands: nat)

  predicate Acceptable(request: StartRequest) {
    !request.badCombination && !request.missingDirectory && !request.openRaises && !request.readRaises
  }

  datatype StartResult = Started | AlreadyRunning | StartFailed

  // ------------------------------------------------------------ specification

  /** How a stretch of commands goes: whether startup continues, the commands
      answered until then, and whether the transport is still there. */
  datatype Trace = Trace(ok: bool, clock: nat, alive: bool)

  /** Commands sent in order until one cannot be sent or is not answered. Without a
      transport the next command fails. */
  function RunAllFrom(replies: nat -> Reply, clock: nat, alive: bool, sendable: seq<bool>): Trace
    decreases |sendable|
  {
    if sendable == [] then Trace(true, clock, alive)
    else if !sendable[0] || !alive then Trace(false, clock, alive)
    else if replies(clock).kind != Answered then Trace(false, clock + 1, !replies(clock).losesTransport)
    else RunAllFrom(replies, clock + 1, !replies(clock).losesTransport, sendable[1..])
  }

  function InitCommands(n: nat): seq<bool> {
    seq(n, _ => true)
  }

  /** The commands of a start once its controller is open. The failures of the
      second command (confirmations off) and of the last (the target probe) only
      warn, unless they raise. */
  function ConfigureFrom(replies: nat -> Reply, clock: nat, request: StartRequest): Trace {
    var first, second := replies(clock), replies(clock + 1);
    if request.readRaises then Trace(false, clock, true)
    else if first != Reply(Answered, false) then Trace(false, clock + 1, !first.losesTransport)
    else if second.kind == Raises then Trace(false, clock + 2, !second.losesTransport)
    else
      var env := RunAllFrom(replies, clock + 2, !second.losesTransport, request.environment);
      if !env.ok then env
      else
        var init := RunAllFrom(replies, env.clock, env.alive, InitCommands(request.initCommands));
        if !init.ok || !init.alive then init
        else Trace(replies(init.clock).kind != Raises, init.clock + 1, !replies(init.clock).losesTransport)
  }

  predicate Starts(replies: nat -> Reply, clock: nat, request: StartRequest) {
    Acceptable(request) && ConfigureFrom(replies, clock, request).ok
  }

  predicate Survives(replies: nat -> Reply, from: nat, to: nat) {
    forall n | from <= n < to :: !replies(n).losesTransport
  }

  lemma {:induction false} RunAllSurvival(replies: nat -> Reply, clock: nat, sendable: seq<bool>)
    ensures var t := RunAllFrom(replies, clock, true, sendable);
            t.clock >= clock && (t.ok ==> (t.alive <==> Survives(replies, clock, t.clock)))
    decreases |sendable|
  {
    if sendable != [] && sendable[0] && replies(clock).kind == Answered {
      if replies(clock).losesTransport {
        DeadRunsNothing(replies, clock + 1, sendable[1..]);
      } else {
        RunAllSurvival(replies, clock + 1, sendable[1..]);
      }
    }
  }

  lemma DeadRunsNothing(replies: nat -> Reply, clock: nat, sendable: seq<bool>)
    ensures var t := RunAllFrom(replies, clock, false, sendable);
            t.clock == clock && !t.alive && (t.ok <==> sendable == [])
  {
  }

  lemma RunAllAnySurvival(replies: nat -> Reply, clock: nat, alive: bool, sendable: seq<bool>)
    ensures var t := RunAllFrom(replies, clock, alive, sendable);
            t.clock >= clock && (t.ok ==> (t.alive <==> alive && Survives(replies, clock, t.clock)))
  {
    if alive {
      RunAllSurvival(replies, clock, sendable);
    } else {
      DeadRunsNothing(replies, clock, sendable);
    }
  }

  /** The `count` commands from the `n`th on are answered, and none before the last of
      them loses the transport. */
  predicate AllAnswered(replies: nat -> Reply, n: nat, count: nat) {
    forall k: nat | n <= k < n + count ::
      replies(k).kind == Answered && (k + 1 < n + count ==> !replies(k).losesTransport)
  }

  /** A stretch of commands goes through exactly when each can be sent, the transport is
      there for the first, and each is answered. */
  lemma {:induction false} RunAllIff(replies: nat -> Reply, clock: nat, alive: bool, sendable: seq<bool>)
    ensures var t := RunAllFrom(replies, clock, alive, sendable);
            && (t.ok <==> && (forall i | 0 <= i < |sendable| :: sendable[i])
                          && (sendable != [] ==> alive) && AllAnswered(replies, clock, |sendable|))
            && (t.ok ==>
                  && t.clock == clock + |sendable|
                  && t.alive == if sendable == [] then alive
                                else !replies(clock + |sendable| - 1).losesTransport)
    decreases |sendable|
  {
    if sendable != [] {
      var rest, here := sendable[1..], replies(clock);
      RunAllIff(replies, clock + 1, !here.losesTransport, rest);
      assert (forall i | 0 <= i < |sendable| :: sendable[i]) <==>
             sendable[0] && forall i | 0 <= i < |rest| :: rest[i] by {
        assert forall i | 0 <= i < |rest| :: rest[i] == sendable[i + 1];
        assert forall i | 0 < i < |sendable| :: sendable[i] == rest[i - 1];
      }
      AnsweredFromHere(replies, clock, |rest|);
    }
  }

  lemma AnsweredFromHere(replies: nat -> Reply, n: nat, count: nat)
    ensures AllAnswered(replies, n, count + 1) <==>
            && replies(n).kind == Answered && (count > 0 ==> !replies(n).losesTransport)
            && AllAnswered(replies, n + 1, count)
  {
  }

  lemma AnsweredInTurn(replies: nat -> Reply, n: nat, first: nat, second: nat)
    ensures AllAnswered(replies, n, first + second) <==>
            && AllAnswered(replies, n, first) && AllAnswered(replies, n + first, second)
            && (first > 0 && second > 0 ==> !replies(n + first - 1).losesTransport)
    decreases first
  {
    if first > 0 {
      AnsweredInTurn(replies, n + 1, first - 1, second);
      AnsweredFromHere(replies, n, first - 1);
      AnsweredFromHere(replies, n, first - 1 + second);
    }
  }

  /** Exactly when a request starts: the version command is answered and keeps the
      transport, the confirm command does not raise, every variable can be set, every
      environment and init command is answered with the transport still there for it,
      and a probe that is sent does not raise. A refused environment or init command
      fails the start. */
  lemma StartsIff(replies: nat -> Reply, clock: nat, request: StartRequest)
    ensures var n := |request.environment| + request.initCommands;
            Starts(replies, clock, request) <==>
            && Acceptable(request)
            && replies(clock) == Reply(Answered, false)
            && replies(clock + 1).kind != Raises && (n > 0 ==> !replies(clock + 1).losesTransport)
            && (forall i | 0 <= i < |request.environment| :: request.environment[i])
            && AllAnswered(replies, clock + 2, n)
            && (!replies(clock + 1 + n).losesTransport ==> replies(clock + 2 + n).kind != Raises)
  {
    var second, m := replies(clock + 1), |request.environment|;
    var init := InitCommands(request.initCommands);
    RunAllIff(replies, clock + 2, !second.losesTransport, request.environment);
    var env := RunAllFrom(replies, clock + 2, !second.losesTransport, request.environment);
    RunAllIff(replies, env.clock, env.alive, init);
    AnsweredInTurn(replies, clock + 2, m, |init|);
  }

  /** A start that succeeds has a controller exactly when no command it sent lost
      the transport. */
  lemma ReadyHasControllerIff(replies: nat -> Reply, clock: nat, request: StartRequest)
    requires Starts(replies, clock, request)
    ensures var t := ConfigureFrom(replies, clock, request);
            t.clock >= clock + 2 && (t.alive <==> Survives(replies, clock, t.clock))
  {
    var second := replies(clock + 1);
    var env := RunAllFrom(replies, clock + 2, !second.losesTransport, request.environment);
    RunAllAnySurvival(replies, clock + 2, !second.losesTransport, request.environment);
    RunAllAnySurvival(replies, env.clock, env.alive, InitCommands(request.initCommands));
  }

  /** With every command answered and the transport kept, an acceptable request
      with settable variables starts, with a controller. */
  lemma HealthyStart(replies: nat -> Reply, clock: nat, request: StartRequest)
    requires forall n: nat :: replies(n) == Reply(Answered, false)
    requires Acceptable(request)
    ensures Starts(replies, clock, request) <==> forall b | b in request.environment :: b
    ensures Starts(replies, clock, request) ==> ConfigureFrom(replies, clock, request).alive
  {
    HealthyRun(replies, clock + 2, request.environment);
    var env := RunAllFrom(replies, clock + 2, true, request.environment);
    HealthyRun(replies, env.clock, InitCommands(request.initCommands));
  }

  lemma {:induction false} HealthyRun(replies: nat -> Reply, clock: nat, sendable: seq<bool>)
    requires forall n: nat :: replies(n) == Reply(Answered, false)
    ensures var t := RunAllFrom(replies, clock, true, sendable);
            t.alive && (t.ok <==> forall b | b in sendable :: b)
    decreases |sendable|
  {
    if sendable == [] {
    } else {
      HealthyRun(replies, clock + 1, sendable[1..]);
      var rest := sendable[1..];
      assert sendable == [sendable[0]] + rest && replies(clock) == Reply(Answered, false);
      assert sendable[0] in sendable && forall b | b in rest :: b in sendable;
      assert forall b | b in sendable :: b == sendable[0] || b in rest;
    }
  }

  // ------------------------------------------------------------ the session

  /** Counts the controllers open at one time, and the most there ever were. */
  class ControllerPool {
    var open: nat
    var peak: nat

    constructor ()
      ensures open == 0 && peak == 0
    {
      open, peak := 0, 0;
    }
  }

  class ManagedSession {
    const pool: ControllerPool
    const replies: nat -> Reply
    var clock: nat
    var state: SessionState
    var hasController: bool

    constructor (pool: ControllerPool, replies: nat -> Reply)
      ensures this.pool == pool && this.replies == replies && clock == 0 && state == Created && !hasController
    {
      this.pool, this.replies, clock, state, hasController := pool, replies, 0, Created, false;
    }

    /** An open controller of this session is counted. */
    predicate Counted()
      reads this, pool
    {
      hasController ==> pool.open > 0
    }

    function Others(): int
      reads this, pool
    {
      pool.open - if hasController then 1 else 0
    }

    method OpenController()
      requires !hasController
      modifies this`hasController, pool
      ensures hasController && Counted() && Others() == old(Others())
      ensures pool.peak == if old(pool.peak) > old(pool.open) then old(pool.peak) else old(pool.open) + 1
    {
      hasController := true;
      pool.open := pool.open + 1;
      if pool.peak < pool.open {
        pool.peak := pool.open;
      }
    }

    /** Dropping the controller, as `_exit_unlocked` does whether or not it raises. */
    method DropController()
      requires Counted()
      modifies this`hasController, pool`open
      ensures !hasController && Others() == old(Others())
    {
      if hasController {
        hasController := false;
        pool.open := pool.open - 1;
      }
    }

    /** One command: without a controller it fails; losing the transport drops the
        controller and marks the session failed, unless dropping it raises. */
    method Execute() returns (kind: Kind)
      requires Counted()
      modifies this`clock, this`state, this`hasController, pool`open
      ensures Counted() && Others() == old(Others())
      ensures !old(hasController) ==> kind == Refused && !hasController && clock == old(clock) && state == old(state)
      ensures old(hasController) ==>
                && kind == replies(old(clock)).kind && clock == old(clock) + 1
                && hasController == !replies(old(clock)).losesTransport
                && state == if hasController || kind == Raises then old(state) else Failed
    {
      if !hasController {
        return Refused;
      }
      var reply := replies(clock);
      clock := clock + 1;
      if reply.losesTransport {
        DropController();
        if reply.kind != Raises {
          state := Failed;
        }
      }
      kind := reply.kind;
    }

    /** `_cleanup_failed_start`. */
    method CleanupFailedStart()
      requires Counted()
      modifies this`state, this`hasController, pool`open
      ensures state == Failed && !hasController && Others() == old(Others())
    {
      DropController();
      state := Failed;
    }

    /** The loop `_apply_environment` and the init commands share. */
    method RunAll(sendable: seq<bool>) returns (ok: bool)
      requires Counted()
      modifies this`clock, this`state, this`hasController, pool`open
      ensures Counted() && Others() == old(Others())
      ensures Trace(ok, clock, hasController) == RunAllFrom(replies, old(clock), old(hasController), sendable)
    {
      for i := 0 to |sendable|
        invariant Counted() && Others() == old(Others())
        invariant RunAllFrom(replies, old(clock), old(hasController), sendable) ==
                  RunAllFrom(replies, clock, hasController, sendable[i..])
      {
        assert sendable[i..][1..] == sendable[i + 1..];
        if !sendable[i] {
          return false;
        }
        var kind := Execute();
        if kind != Answered {
          return false;
        }
      }
      ok := true;
    }

    /** `start`. Once startup has begun every failure leaves the session failed with
        no controller; success leaves it ready. */
    method Start(request: StartRequest) returns (result: StartResult)
      requires Counted()
      modifies this, pool
      ensures Counted() && Others() == old(Others())
      ensures pool.peak <= if old(pool.peak) > old(pool.open) then old(pool.peak) else old(pool.open) + 1
      ensures old(hasController) ==> result == AlreadyRunning && unchanged(this) && unchanged(pool)
      ensures !old(hasController) ==>
                result == if Starts(replies, old(clock), request) then Started else StartFailed
      ensures result == StartFailed ==> state == Failed && !hasController
      ensures result == Started ==>
                && state == Ready
                && clock == ConfigureFrom(replies, old(clock), request).clock
                && hasController == ConfigureFrom(replies, old(clock), request).alive
    {
      if hasController {
        return AlreadyRunning;
      }
      state := SessionState.Starting;
      if request.badCombination || request.missingDirectory {
        state := Failed;
        return StartFailed;
      }
      if request.openRaises {
        CleanupFailedStart();
        return StartFailed;
      }
      OpenController();
      var ok := Configure(request);
      if !ok {
        CleanupFailedStart();
        return StartFailed;
      }
      state := Ready;
      result := Started;
    }

    /** What `start` does once the controller is open; `false` stands for every way
        out that cleans up. */
    method Configure(request: StartRequest) returns (ok: bool)
      requires Counted() && hasController
      modifies this`clock, this`state, this`hasController, pool`open
      ensures Counted() && Others() == old(Others())
      ensures Trace(ok, clock, hasController) == ConfigureFrom(replies, old(clock), request)
    {
      if request.readRaises {
        return false;
      }
      var version := Execute();
      if version != Answered || !hasController {
        return false;
      }
      var confirm := Execute();
      if confirm == Raises {
        return false;
      }
      ok := RunAll(request.environment);
      if ok {
        ok := RunAll(InitCommands(request.initCommands));
      }
      if !ok {
        return;
      }
      var probe := Execute();
      ok := probe != Raises;
    }

    /** `stop`: whatever happens, no controller is left. */
    method Stop(exitRaises: bool) returns (ok: bool)
      requires Counted()
      modifies this`state, this`hasController, pool`open
      ensures !hasController && Others() == old(Others())
      ensures ok == (old(hasController) && !exitRaises)
      ensures state == if !old(hasController) then old(state) else if exitRaises then Failed else Closed
    {
      if !hasController {
        return false;
      }
      DropController();
      state := if exitRaises then Failed else Closed;
      ok := !exitRaises;
    }
  }

  /** `SessionRegistry.start_session` on a new session: a failed start publishes
      nothing and leaks no controller. */
  method StartSession(registry: RegistryObject, session: ManagedSession, identity: Session, request: StartRequest)
    returns (id: Option<nat>)
    requires !session.hasController
    modifies registry, session, session.pool
    ensures id.None? ==>
              && registry.View() == old(registry.View()).(next := old(registry.nextId) + 1)
              && !session.hasController && session.pool.open == old(session.pool.open)
    ensures id.Some? ==>
              && id.value == old(registry.nextId) && session.state == Ready
              && registry.View() == Publish(old(registry.View()), id.value, identity).(next := id.value + 1)
  {
    var newId := registry.AllocateSessionId();
    var result := session.Start(request);
    if result != Started {
      return None;
    }
    registry.PublishSession(newId, identity);
    id := Some(newId);
  }

  /** A start without environment and init commands whose confirm command fails with the
      transport reports success with no controller: the failure only warns. */
  method ReadyWithoutController() returns (result: StartResult, state: SessionState, hasController: bool)
    ensures result == Started && state == Ready && !hasController
  {
    var pool := new ControllerPool();
    var session := new ManagedSession(pool, n => Reply(if n == 1 then Refused else Answered, n == 1));
    result := session.Start(StartRequest(false, false, false, false, [], 0));
    state, hasController := session.state, session.hasController;
  }
}
