/** Repeated fresh-session attempts until a failure matches
    (src/gdb_mcp/session/campaign.py). */
module Campaign {
  import opened Options
  import opened SessionRuntime
  import opened Lifecycle

  // ------------------------------------------------------------ failure criteria

  datatype Criteria = Criteria(onTimeout: bool, onError: bool, stopReasons: set<string>,
                               executionStates: set<ExecutionState>, exitCodes: set<int>, usesRegex: bool)

  /** What one run showed: whether its message speaks of a timeout, its status, the
      stop event's reason if there is an event, the status fields, and whether the
      regular expression finds something. */
  datatype Observation = Observation(mentionsTimeout: bool, isError: bool, eventReason: Option<Option<string>>,
                                     statusReason: Option<string>, execution: ExecutionState, exitCode: Option<int>,
                                     regexFinds: bool)

  datatype Trigger = StartupError | SetupError | Timeout | RunError | ByReason(reason: string)
                   | ByState(state: ExecutionState) | ByExitCode(code: int) | ByRegex

  function ReasonOf(o: Observation): Option<string> {
    if o.eventReason.Some? then o.eventReason.value else o.statusReason
  }

  function MatchesFailure(c: Criteria, o: Observation): Option<Trigger> {
    if c.onTimeout && o.mentionsTimeout then Some(Timeout)
    else if c.onError && o.isError then Some(RunError)
    else if ReasonOf(o).Some? && ReasonOf(o).value in c.stopReasons then Some(ByReason(ReasonOf(o).value))
    else if o.execution in c.executionStates then Some(ByState(o.execution))
    else if o.exitCode.Some? && o.exitCode.value in c.exitCodes then Some(ByExitCode(o.exitCode.value))
    else if c.usesRegex && o.regexFinds then Some(ByRegex)
    else None
  }

  /** Whether one trigger, taken alone, applies to a run. */
  predicate Applies(t: Trigger, c: Criteria, o: Observation) {
    match t
    case Timeout => c.onTimeout && o.mentionsTimeout
    case RunError => c.onError && o.isError
    case ByReason(reason) =>
      && (if o.eventReason.Some? then o.eventReason.value else o.statusReason) == Some(reason)
      && reason in c.stopReasons
    case ByState(state) => o.execution == state && state in c.executionStates
    case ByExitCode(code) => o.exitCode == Some(code) && code in c.exitCodes
    case ByRegex => c.usesRegex && o.regexFinds
    case _ => false
  }

  function Priority(t: Trigger): nat {
    match t
    case Timeout => 0
    case RunError => 1
    case ByReason(_) => 2
    case ByState(_) => 3
    case ByExitCode(_) => 4
    case _ => 5
  }

  /** A run matches exactly when some trigger applies to it, and the one reported is
      the applicable one that comes first. */
  lemma MatchIsFirstApplicable(c: Criteria, o: Observation, t: Trigger)
    ensures MatchesFailure(c, o).Some? ==> Applies(MatchesFailure(c, o).value, c, o)
    ensures Applies(t, c, o) ==>
              MatchesFailure(c, o).Some? && Priority(MatchesFailure(c, o).value) <= Priority(t)
  {
  }

  // ------------------------------------------------------------ the campaign

  /** What happens in one iteration. The commands of the setup steps and of the run
      may lose the transport; each phase may raise. */
  datatype Iteration = Iteration(replies: nat -> Reply, start: StartRequest, setupErrors: bool, setupRaises: bool,
                                 setupCommands: nat, runRaises: bool, runCommands: nat, observation: Observation,
                                 captureRaises: bool, exitRaises: bool)

  datatype Summary = Summary(iteration: int, trigger: Option<Trigger>)

  datatype Result =
    | Finished(summaries: seq<Summary>, failure: Option<int>)
    | Raised

  /** Numbered 1..n, with a match only in the last place. */
  predicate WellNumbered(summaries: seq<Summary>) {
    && (forall i | 0 <= i < |summaries| :: summaries[i].iteration == i + 1)
    && (forall i | 0 <= i < |summaries| - 1 :: summaries[i].trigger.None?)
  }

  /** How an iteration ends: it goes on or matches, or an exception escapes. */
  datatype Phase = Next(trigger: Option<Trigger>) | Escaped

  function PhaseOf(it: Iteration, criteria: Criteria, captures: bool): Phase {
    var trigger := MatchesFailure(criteria, it.observation);
    if !Starts(it.replies, 0, it.start) then Next(Some(StartupError))
    else if it.setupRaises then Escaped
    else if it.setupErrors then Next(Some(SetupError))
    else if it.runRaises || (trigger.Some? && captures && it.captureRaises) then Escaped
    else Next(trigger)
  }

  /** Exactly how an iteration ends. One that does not start matches as a startup error
      and one whose setup fails as a setup error; an exception of the setup, of the run
      or of capturing a match escapes; and it goes on to the next exactly when it starts,
      its setup succeeds, its run returns and no trigger applies. */
  lemma PhaseIff(it: Iteration, criteria: Criteria, captures: bool)
    ensures var phase, starts := PhaseOf(it, criteria, captures), Starts(it.replies, 0, it.start);
            var ran := starts && !it.setupRaises && !it.setupErrors && !it.runRaises;
            && (phase == Next(Some(StartupError)) <==> !starts)
            && (phase == Next(Some(SetupError)) <==> starts && !it.setupRaises && it.setupErrors)
            && (phase == Next(None) <==> ran && forall t :: !Applies(t, criteria, it.observation))
            && (phase == Escaped <==>
                  && starts
                  && (|| it.setupRaises || (!it.setupErrors && it.runRaises)
                      || (ran && captures && it.captureRaises && exists t :: Applies(t, criteria, it.observation))))
            && (phase.Next? && ran && phase.trigger.Some? ==> Applies(phase.trigger.value, criteria, it.observation))
  {
    var trigger := MatchesFailure(criteria, it.observation);
    forall t ensures Applies(t, criteria, it.observation) ==> trigger.Some? {
      MatchIsFirstApplicable(criteria, it.observation, t);
    }
    MatchIsFirstApplicable(criteria, it.observation, Timeout);
    if trigger.Some? {
      assert Applies(trigger.value, criteria, it.observation);
    }
  }

  method SendCommands(session: ManagedSession, n: nat)
    requires session.Counted()
    modifies session, session.pool`open
    ensures session.Counted() && session.Others() == old(session.Others())
  {
    for i := 0 to n
      invariant session.Counted() && session.Others() == old(session.Others())
    {
      var _ := session.Execute();
    }
  }

  /** The body of one iteration, before its cleanup. */
  method Attempt(session: ManagedSession, it: Iteration, criteria: Criteria, captures: bool) returns (phase: Phase)
    requires session.Counted() && !session.hasController && session.replies == it.replies && session.clock == 0
    modifies session, session.pool
    ensures session.Counted() && session.Others() == old(session.Others())
    ensures session.pool.peak <= if old(session.pool.peak) > old(session.pool.open) then old(session.pool.peak)
                                 else old(session.pool.open) + 1
    ensures phase == PhaseOf(it, criteria, captures)
  {
    var started := session.Start(it.start);
    if started != Started {
      return Next(Some(StartupError));
    }
    SendCommands(session, it.setupCommands);
    if it.setupRaises {
      return Escaped;
    }
    if it.setupErrors {
      return Next(Some(SetupError));
    }
    SendCommands(session, it.runCommands);
    if it.runRaises {
      return Escaped;
    }
    var trigger := MatchesFailure(criteria, it.observation);
    if trigger.Some? && captures && it.captureRaises {
      return Escaped;
    }
    phase := Next(trigger);
  }

  /** `run_until_failure`. It ends at the first iteration that matches or raises, or
      after the requested count. Summaries are numbered 1..n and only the last can
      match; n is the failing iteration on a match and the requested count otherwise.
      At most one session of the campaign holds a controller at any time, and none is
      left, also when an iteration raises. */
  method RunUntilFailure(pool: ControllerPool, plan: int -> Iteration, maxIterations: int, criteria: Criteria,
                         captures: bool)
    returns (result: Result)
    modifies pool
    ensures pool.open == old(pool.open)
    ensures pool.peak <= if old(pool.peak) > old(pool.open) then old(pool.peak) else old(pool.open) + 1
    ensures result.Finished? ==>
              && WellNumbered(result.summaries)
              && (result.failure.Some? <==>
                    result.summaries != [] && result.summaries[|result.summaries| - 1].trigger.Some?)
              && |result.summaries| == (if result.failure.Some? then result.failure.value
                                        else if maxIterations < 0 then 0 else maxIterations)
    ensures result.Finished? && result.failure.None? ==>
              forall i | 1 <= i <= maxIterations :: PhaseOf(plan(i), criteria, captures) == Next(None)
    ensures result.Finished? && result.failure.Some? ==>
              && 1 <= result.failure.value <= maxIterations
              && PhaseOf(plan(result.failure.value), criteria, captures) ==
                 Next(result.summaries[|result.summaries| - 1].trigger)
              && forall i | 1 <= i < result.failure.value :: PhaseOf(plan(i), criteria, captures) == Next(None)
    ensures result.Raised? ==>
              exists n | 1 <= n <= maxIterations ::
                && PhaseOf(plan(n), criteria, captures) == Escaped
                && forall i | 1 <= i < n :: PhaseOf(plan(i), criteria, captures) == Next(None)
  {
    var summaries: seq<Summary> := [];
    var iteration := 1;
    while iteration <= maxIterations
      invariant 1 <= iteration && |summaries| == iteration - 1
      invariant iteration <= maxIterations + 1 || summaries == []
      invariant WellNumbered(summaries) && forall i | 0 <= i < |summaries| :: summaries[i].trigger.None?
      invariant pool.open == old(pool.open)
      invariant pool.peak <= if old(pool.peak) > old(pool.open) then old(pool.peak) else old(pool.open) + 1
      invariant forall i | 1 <= i < iteration :: PhaseOf(plan(i), criteria, captures) == Next(None)
      decreases maxIterations - iteration
    {
      var it := plan(iteration);
      var session := new ManagedSession(pool, it.replies);
      var phase := Attempt(session, it, criteria, captures);
      if session.hasController {
        var _ := session.Stop(it.exitRaises);
      }
      if phase.Escaped? {
        return Raised;
      }
      summaries := summaries + [Summary(iteration, phase.trigger)];
      if phase.trigger.Some? {
        return Finished(summaries, Some(iteration));
      }
      iteration := iteration + 1;
    }
    result := Finished(summaries, None);
  }
}
