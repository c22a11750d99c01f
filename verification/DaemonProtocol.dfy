/** One background server per project: clients in any number of processes that
    resolve a server, remember and forget a session, over a shared cookie file, a
    lock file and servers that may exit at any moment
    (src/gdb_mcp/client/daemon.py). Reading, writing and removing the cookie may fail:
    a failed read counts as no cookie, a failed write or removal raises. Probes are
    accurate and clients do not crash. */
module DaemonProtocol {
  import opened Options

  /** The cookie file: the server it names, if any, and the remembered session. */
  datatype Cookie = Cookie(server: Option<nat>, session: Option<int>)

  /** Where a client stands between two atomic steps. Everything from
      `HoldsLock` to `Forgetting` is inside the exclusive lock. */
  datatype Client =
    | Idle
    | FastProbe(cookie: Cookie)            // read the cookie without the lock
    | WantsLock                            // resolving, waiting for the lock
    | HoldsLock                            // resolving, before reading the cookie
    | LockedProbe(cookie: Cookie)          // about to probe the server of the cookie
    | Stale                                // the cookie is to be removed
    | Spawning                             // about to start a server
    | Waiting(server: nat)                 // started it, waiting until it answers
    | Writing(server: nat)                 // it answered, about to write the cookie
    | Resolved(server: nat)                // returned this server
    | ResolveFailed                        // raised
    | WantsRemember(session: int)
    | Remembering(session: int)
    | RememberRead(session: int, cookie: Cookie)
    | WantsForget
    | Forgetting
    | ForgetRead(file: Option<Cookie>)

  predicate InLock(c: Client) {
    c.HoldsLock? || c.LockedProbe? || c.Stale? || c.Spawning? || c.Waiting? || c.Writing? ||
    c.Remembering? || c.RememberRead? || c.Forgetting? || c.ForgetRead?
  }

  /** Between two operations of the same process. */
  predicate Free(c: Client) {
    c.Idle? || c.Resolved? || c.ResolveFailed?
  }

  /** `spawned` counts the servers started, which number them; `alive` are running. */
  datatype System = System(cookie: Option<Cookie>, lock: Option<nat>, clients: map<nat, Client>,
                           alive: set<nat>, spawned: nat)

  /** What an unreadable or missing cookie file counts as. */
  const NO_COOKIE: Cookie := Cookie(None, None)

  const INITIAL: System := System(None, None, map[], {}, 0)

  function At(s: System, p: nat): Client {
    if p in s.clients then s.clients[p] else Idle
  }

  function Move(s: System, p: nat, c: Client): System {
    s.(clients := s.clients[p := c])
  }

  function Leave(s: System, p: nat, c: Client): System {
    s.(clients := s.clients[p := c], lock := None)
  }

  // ------------------------------------------------------------ atomic steps

  datatype Step =
    | ReadCookie(client: nat)
    | Probe(client: nat)
    | Acquire(client: nat)
    | ReadLocked(client: nat)
    | ProbeLocked(client: nat)
    | RemoveCookie(client: nat)
    | Spawn(client: nat)
    | SpawnRaises(client: nat)
    | ServerReady(client: nat)
    | GiveUp(client: nat)
    | WriteCookie(client: nat)
    | AskRemember(client: nat, session: int)
    | ReadToRemember(client: nat)
    | WriteRemembered(client: nat)
    | AskForget(client: nat)
    | ReadToForget(client: nat)
    | WriteForgotten(client: nat)
    | ServerExits(server: nat)
    | ReadFails(client: nat)
    | ReadLockedFails(client: nat)
    | RemoveFails(client: nat)
    | WriteFails(client: nat)
    | RememberReadFails(client: nat)
    | ForgetReadFails(client: nat)
    | SessionWriteFails(client: nat)

  predicate Enabled(step: Step, s: System) {
    match step
    case ReadCookie(p) => Free(At(s, p))
    case Probe(p) => At(s, p).FastProbe?
    case Acquire(p) => s.lock.None? && (At(s, p).WantsLock? || At(s, p).WantsRemember? || At(s, p).WantsForget?)
    case ReadLocked(p) => At(s, p).HoldsLock?
    case ProbeLocked(p) => At(s, p).LockedProbe?
    case RemoveCookie(p) => At(s, p).Stale?
    case Spawn(p) => At(s, p).Spawning?
    case SpawnRaises(p) => At(s, p).Spawning?
    case ServerReady(p) => At(s, p).Waiting? && At(s, p).server in s.alive
    case GiveUp(p) => At(s, p).Waiting?
    case WriteCookie(p) => At(s, p).Writing?
    case AskRemember(p, _) => Free(At(s, p))
    case ReadToRemember(p) => At(s, p).Remembering?
    case WriteRemembered(p) => At(s, p).RememberRead?
    case AskForget(p) => Free(At(s, p))
    case ReadToForget(p) => At(s, p).Forgetting?
    case WriteForgotten(p) => At(s, p).ForgetRead?
    case ServerExits(d) => d in s.alive
    case ReadFails(p) => Free(At(s, p))
    case ReadLockedFails(p) => At(s, p).HoldsLock?
    case RemoveFails(p) => At(s, p).Stale?
    case WriteFails(p) => At(s, p).Writing?
    case RememberReadFails(p) => At(s, p).Remembering?
    case ForgetReadFails(p) => At(s, p).Forgetting?
    case SessionWriteFails(p) => At(s, p).RememberRead? || At(s, p).ForgetRead?
  }

  /** A step in which the cookie file could not be read, written or removed. */
  predicate CookieFails(step: Step) {
    step.ReadFails? || step.ReadLockedFails? || step.RemoveFails? || step.WriteFails? ||
    step.RememberReadFails? || step.ForgetReadFails? || step.SessionWriteFails?
  }

  /** The server of a cookie answers exactly when it is alive. */
  predicate Reachable(s: System, cookie: Cookie) {
    cookie.server.Some? && cookie.server.value in s.alive
  }

  function Take(step: Step, s: System): System
    requires Enabled(step, s)
  {
    match step
    case ReadCookie(p) => Move(s, p, if s.cookie.Some? then FastProbe(s.cookie.value) else WantsLock)
    case Probe(p) =>
      var cookie := At(s, p).cookie;
      Move(s, p, if Reachable(s, cookie) then Resolved(cookie.server.value) else WantsLock)
    case Acquire(p) =>
      var c := At(s, p);
      Move(s, p, match c
                 case WantsRemember(session) => Remembering(session)
                 case WantsForget => Forgetting
                 case _ => HoldsLock).(lock := Some(p))
    case ReadLocked(p) => Move(s, p, if s.cookie.Some? then LockedProbe(s.cookie.value) else Spawning)
    case ProbeLocked(p) =>
      var cookie := At(s, p).cookie;
      if Reachable(s, cookie) then Leave(s, p, Resolved(cookie.server.value)) else Move(s, p, Stale)
    case RemoveCookie(p) => Move(s, p, Spawning).(cookie := None)
    case Spawn(p) => Move(s, p, Waiting(s.spawned)).(alive := s.alive + {s.spawned}, spawned := s.spawned + 1)
    case SpawnRaises(p) => Leave(s, p, ResolveFailed)
    case ServerReady(p) => Move(s, p, Writing(At(s, p).server))
    case GiveUp(p) => Leave(s, p, ResolveFailed).(alive := s.alive - {At(s, p).server})
    case WriteCookie(p) =>
      var server := At(s, p).server;
      Leave(s, p, Resolved(server)).(cookie := Some(Cookie(Some(server), None)))
    case AskRemember(p, session) => Move(s, p, WantsRemember(session))
    case ReadToRemember(p) =>
      Move(s, p, RememberRead(At(s, p).session, FileOr(s, NO_COOKIE)))
    case WriteRemembered(p) =>
      var c := At(s, p);
      Leave(s, p, Idle).(cookie := Some(c.cookie.(session := Some(c.session))))
    case AskForget(p) => Move(s, p, WantsForget)
    case ReadToForget(p) => Move(s, p, ForgetRead(s.cookie))
    case WriteForgotten(p) =>
      var c := At(s, p).file;
      if c.None? || c.value.session.None? then Leave(s, p, Idle)
      else Leave(s, p, Idle).(cookie := Some(c.value.(session := None)))
    case ServerExits(d) => s.(alive := s.alive - {d})
    case ReadFails(p) => Move(s, p, WantsLock)
    case ReadLockedFails(p) => Move(s, p, Spawning)
    case RemoveFails(p) => Leave(s, p, ResolveFailed)
    case WriteFails(p) => Leave(s, p, ResolveFailed)
    case RememberReadFails(p) => Move(s, p, RememberRead(At(s, p).session, NO_COOKIE))
    case ForgetReadFails(p) => Move(s, p, ForgetRead(None))
    case SessionWriteFails(p) => Leave(s, p, Idle)
  }

  /** The failures that let go of a running server: a locked read that misses the
      cookie naming it, and the write that was to name it. */
  predicate Harmful(step: Step, s: System)
    requires Enabled(step, s)
  {
    match step
    case ReadLockedFails(_) => s.cookie.Some? && Reachable(s, s.cookie.value)
    case RememberReadFails(_) => s.cookie.Some? && Reachable(s, s.cookie.value)
    case WriteFails(p) => At(s, p).server in s.alive
    case _ => false
  }

  ghost predicate IsRun(steps: seq<Step>, states: seq<System>) {
    && |states| == |steps| + 1
    && forall i | 0 <= i < |steps| :: Enabled(steps[i], states[i]) && states[i + 1] == Take(steps[i], states[i])
  }

  /** None of the first `n` steps lets go of a running server. */
  ghost predicate Harmless(steps: seq<Step>, states: seq<System>, n: nat)
    requires IsRun(steps, states) && n <= |steps|
  {
    forall i | 0 <= i < n :: !Harmful(steps[i], states[i])
  }

  // ------------------------------------------------------------ invariant

  /** A client is inside the lock exactly when it holds it. */
  ghost predicate LockHeld(s: System) {
    forall p: nat :: InLock(At(s, p)) <==> s.lock == Some(p)
  }

  function Holder(s: System): Client {
    if s.lock.Some? then At(s, s.lock.value) else Idle
  }

  function FileOr(s: System, default: Cookie): Cookie {
    if s.cookie.Some? then s.cookie.value else default
  }

  /** What the lock holder read is still in the file, or could not be read while no
      server was running. */
  predicate ReadsCurrent(s: System) {
    match Holder(s)
    case LockedProbe(cookie) => s.cookie == Some(cookie)
    case RememberRead(_, cookie) => cookie == FileOr(s, NO_COOKIE) || (cookie == NO_COOKIE && s.alive == {})
    case ForgetRead(file) => file == s.cookie || file.None?
    case _ => true
  }

  predicate Names(cookie: Option<Cookie>, server: nat) {
    cookie.Some? && cookie.value.server == Some(server)
  }

  /** Servers are numbered as they start, and the one being started is not named yet. */
  predicate Numbered(s: System) {
    && (forall d | d in s.alive :: d < s.spawned)
    && (s.cookie.Some? && s.cookie.value.server.Some? ==> s.cookie.value.server.value < s.spawned)
    && (Holder(s).Waiting? || Holder(s).Writing? ==>
          Holder(s).server < s.spawned && !Names(s.cookie, Holder(s).server))
  }

  /** A running server is the one the cookie names, or the one the lock holder is
      starting; none runs while the lock holder is about to start one. */
  predicate Accounted(s: System) {
    match Holder(s)
    case Stale => s.alive == {}
    case Spawning => s.alive == {}
    case Waiting(server) => s.alive <= {server}
    case Writing(server) => s.alive <= {server}
    case _ => s.alive <= if s.cookie.Some? && s.cookie.value.server.Some? then {s.cookie.value.server.value} else {}
  }

  ghost predicate Inv(s: System) {
    LockHeld(s) && ReadsCurrent(s) && Numbered(s) && Accounted(s)
  }

  lemma LockStaysHeld(step: Step, s: System)
    requires Enabled(step, s) && LockHeld(s)
    ensures LockHeld(Take(step, s))
  {
    var t := Take(step, s);
    forall q: nat ensures InLock(At(t, q)) <==> t.lock == Some(q) {
      assert InLock(At(s, q)) <==> s.lock == Some(q);
      if !step.ServerExits? && q != step.client {
        assert At(t, q) == At(s, q);
      }
    }
  }

  lemma ReadsStayCurrent(step: Step, s: System)
    requires Enabled(step, s) && Inv(s) && !Harmful(step, s)
    ensures ReadsCurrent(Take(step, s))
  {
  }

  lemma StaysNumbered(step: Step, s: System)
    requires Enabled(step, s) && Inv(s) && !Harmful(step, s)
    ensures Numbered(Take(step, s))
  {
    HolderMoves(step, s);
  }

  lemma StaysAccounted(step: Step, s: System)
    requires Enabled(step, s) && Inv(s) && !Harmful(step, s)
    ensures Accounted(Take(step, s))
  {
    HolderMoves(step, s);
  }

  /** A step of a client inside the lock is the lock holder's; any other step
      leaves the holder where it was or makes one. */
  lemma HolderMoves(step: Step, s: System)
    requires Enabled(step, s) && LockHeld(s)
    ensures step.ServerExits? ==> Holder(Take(step, s)) == Holder(s)
    ensures !step.ServerExits? && InLock(At(s, step.client)) ==> s.lock == Some(step.client)
    ensures !step.ServerExits? && !InLock(At(s, step.client)) && !step.Acquire? ==> Holder(Take(step, s)) == Holder(s)
  {
  }

  lemma StepKeepsInv(step: Step, s: System)
    requires Enabled(step, s) && Inv(s) && !Harmful(step, s)
    ensures Inv(Take(step, s))
  {
    LockStaysHeld(step, s);
    ReadsStayCurrent(step, s);
    StaysNumbered(step, s);
    StaysAccounted(step, s);
  }

  lemma {:induction false} RunKeepsInv(steps: seq<Step>, states: seq<System>, n: nat)
    requires IsRun(steps, states) && states[0] == INITIAL && n < |states| && Harmless(steps, states, n)
    ensures Inv(states[n])
  {
    if n == 0 {
    } else {
      RunKeepsInv(steps, states, n - 1);
      StepKeepsInv(steps[n - 1], states[n - 1]);
    }
  }

  // ------------------------------------------------------------ theorems

  lemma AtMostOneAlive(s: System, d: nat, e: nat)
    requires Inv(s) && d in s.alive && e in s.alive
    ensures d == e
  {
  }

  /** At most one server of the project runs at any time of any run in which no failure
      of the cookie file lets go of a running one. */
  lemma OneServer(steps: seq<Step>, states: seq<System>, n: nat)
    requires IsRun(steps, states) && states[0] == INITIAL && n < |states| && Harmless(steps, states, n)
    ensures |states[n].alive| <= 1
  {
    RunKeepsInv(steps, states, n);
    var alive := states[n].alive;
    if alive != {} {
      var d :| d in alive;
      forall e | e in alive ensures e == d {
        AtMostOneAlive(states[n], d, e);
      }
      assert alive == {d};
    }
  }

  // ------------------------------------------- when a second server can be started

  ghost predicate TwoAlive(s: System) {
    exists d, e :: d in s.alive && e in s.alive && d != e
  }

  predicate CanRun(s: System, steps: seq<Step>)
    decreases |steps|
  {
    steps != [] ==> Enabled(steps[0], s) && CanRun(Take(steps[0], s), steps[1..])
  }

  function After(s: System, steps: seq<Step>): System
    requires CanRun(s, steps)
    decreases |steps|
  {
    if steps == [] then s else After(Take(steps[0], s), steps[1..])
  }

  predicate NoFailure(steps: seq<Step>) {
    forall i | 0 <= i < |steps| :: !CookieFails(steps[i])
  }

  /** From here a second server can be started without any further failure. */
  ghost predicate SecondCanStart(s: System) {
    exists steps :: CanRun(s, steps) && NoFailure(steps) && TwoAlive(After(s, steps))
  }

  lemma {:induction false} NoFailureKeepsInv(s: System, steps: seq<Step>)
    requires Inv(s) && CanRun(s, steps) && NoFailure(steps)
    ensures Inv(After(s, steps))
    decreases |steps|
  {
    if steps == [] {
    } else {
      StepKeepsInv(steps[0], s);
      NoFailureKeepsInv(Take(steps[0], s), steps[1..]);
    }
  }

  lemma Prepend(step: Step, s: System)
    requires Enabled(step, s) && !CookieFails(step) && SecondCanStart(Take(step, s))
    ensures SecondCanStart(s)
  {
    var rest :| CanRun(Take(step, s), rest) && NoFailure(rest) && TwoAlive(After(Take(step, s), rest));
    var steps := [step] + rest;
    assert steps[0] == step && steps[1..] == rest;
    assert CanRun(s, steps) && After(s, steps) == After(Take(step, s), rest) && NoFailure(steps);
  }

  lemma Done(s: System)
    requires TwoAlive(s)
    ensures SecondCanStart(s)
  {
    assert CanRun(s, []) && NoFailure([]) && After(s, []) == s;
  }

  /** A client about to start a server while one is running. */
  lemma SpawnsSecond(s: System, p: nat, d: nat)
    requires At(s, p).Spawning? && d in s.alive && d < s.spawned
    ensures SecondCanStart(s)
  {
    var next := Take(Spawn(p), s);
    assert d in next.alive && s.spawned in next.alive;
    Done(next);
    Prepend(Spawn(p), s);
  }

  /** A client inside the lock that finds no running server in the cookie. */
  lemma LockedStartsSecond(s: System, p: nat, d: nat)
    requires At(s, p).HoldsLock? && d in s.alive && d < s.spawned
    requires s.cookie.Some? ==> !Reachable(s, s.cookie.value)
    ensures SecondCanStart(s)
  {
    var s1 := Take(ReadLocked(p), s);
    if s.cookie.None? {
      SpawnsSecond(s1, p, d);
    } else {
      var s2 := Take(ProbeLocked(p), s1);
      SpawnsSecond(Take(RemoveCookie(p), s2), p, d);
      Prepend(RemoveCookie(p), s2);
      Prepend(ProbeLocked(p), s1);
    }
    Prepend(ReadLocked(p), s);
  }

  /** A client that resolves while the lock is free and the cookie does not name the
      running server. */
  lemma ResolveStartsSecond(s: System, p: nat, d: nat)
    requires s.lock.None? && Free(At(s, p)) && d in s.alive && d < s.spawned
    requires s.cookie.Some? ==> !Reachable(s, s.cookie.value)
    ensures SecondCanStart(s)
  {
    var s1 := Take(ReadCookie(p), s);
    if s.cookie.None? {
      LockedStartsSecond(Take(Acquire(p), s1), p, d);
      Prepend(Acquire(p), s1);
    } else {
      var s2 := Take(Probe(p), s1);
      LockedStartsSecond(Take(Acquire(p), s2), p, d);
      Prepend(Acquire(p), s2);
      Prepend(Probe(p), s1);
    }
    Prepend(ReadCookie(p), s);
  }

  lemma HarmfulStartsSecond(step: Step, s: System)
    requires Enabled(step, s) && Inv(s) && Harmful(step, s)
    ensures SecondCanStart(Take(step, s))
  {
    var p, next := step.client, Take(step, s);
    match step
    case ReadLockedFails(_) => SpawnsSecond(next, p, s.cookie.value.server.value);
    case WriteFails(_) => ResolveStartsSecond(next, p, At(s, p).server);
    case RememberReadFails(_) =>
      var written := Take(WriteRemembered(p), next);
      assert written.cookie.Some? && written.cookie.value.server == None;
      ResolveStartsSecond(written, p, s.cookie.value.server.value);
      Prepend(WriteRemembered(p), next);
  }

  /** After a step a second server can be started without further failures exactly when
      the step let go of a running one. */
  lemma SecondServerIff(step: Step, s: System)
    requires Enabled(step, s) && Inv(s)
    ensures SecondCanStart(Take(step, s)) <==> Harmful(step, s)
  {
    if Harmful(step, s) {
      HarmfulStartsSecond(step, s);
    } else {
      StepKeepsInv(step, s);
      forall steps | CanRun(Take(step, s), steps) && NoFailure(steps) ensures !TwoAlive(After(Take(step, s), steps)) {
        NoFailureKeepsInv(Take(step, s), steps);
      }
    }
  }

  lemma Chain(step: Step, s: System, rest: seq<Step>, last: System)
    requires Enabled(step, s) && CanRun(Take(step, s), rest) && After(Take(step, s), rest) == last
    ensures CanRun(s, [step] + rest) && After(s, [step] + rest) == last
  {
    assert ([step] + rest)[1..] == rest;
  }

  /** A client that finds no cookie and starts a server. */
  function StartSteps(p: nat): seq<Step> {
    [ReadCookie(p), Acquire(p), ReadLocked(p), Spawn(p)]
  }

  lemma Starts(s: System, p: nat)
    requires s.cookie.None? && s.lock.None? && Free(At(s, p))
    ensures CanRun(s, StartSteps(p)) && After(s, StartSteps(p)) ==
            System(None, Some(p), s.clients[p := Waiting(s.spawned)], s.alive + {s.spawned}, s.spawned + 1)
  {
    var s1 := Take(ReadCookie(p), s);
    var s2 := Take(Acquire(p), s1);
    var s3 := Take(ReadLocked(p), s2);
    var last := Take(Spawn(p), s3);
    assert CanRun(last, []) && After(last, []) == last;
    Chain(Spawn(p), s3, [], last);
    Chain(ReadLocked(p), s2, [Spawn(p)], last);
    Chain(Acquire(p), s1, [ReadLocked(p), Spawn(p)], last);
    Chain(ReadCookie(p), s, [Acquire(p), ReadLocked(p), Spawn(p)], last);
    assert last.clients == s.clients[p := Waiting(s.spawned)];
  }

  /** A client whose server answers and that then cannot write the cookie. */
  function FailSteps(p: nat): seq<Step> {
    [ServerReady(p), WriteFails(p)]
  }

  lemma Fails(s: System, p: nat)
    requires At(s, p).Waiting? && At(s, p).server in s.alive
    ensures CanRun(s, FailSteps(p)) &&
            After(s, FailSteps(p)) == s.(lock := None, clients := s.clients[p := ResolveFailed])
  {
    var s1 := Take(ServerReady(p), s);
    var last := Take(WriteFails(p), s1);
    assert CanRun(last, []) && After(last, []) == last;
    Chain(WriteFails(p), s1, [], last);
    Chain(ServerReady(p), s, [WriteFails(p)], last);
    assert last.clients == s.clients[p := ResolveFailed];
  }

  /** A first client starts a server and cannot write the cookie; a second client then
      starts another. */
  lemma FailedWriteLeavesTwo()
    ensures CanRun(INITIAL, StartSteps(1)) && CanRun(After(INITIAL, StartSteps(1)), FailSteps(1))
    ensures var failed := After(After(INITIAL, StartSteps(1)), FailSteps(1));
            CanRun(failed, StartSteps(2)) && After(failed, StartSteps(2)).alive == {0, 1}
  {
    Starts(INITIAL, 1);
    var s := After(INITIAL, StartSteps(1));
    Fails(s, 1);
    Starts(After(s, FailSteps(1)), 2);
  }

  /** A client that is about to write the cookie has seen its server answer. */
  lemma {:induction false} WritingWasReady(steps: seq<Step>, states: seq<System>, n: nat, p: nat) returns (m: nat)
    requires IsRun(steps, states) && states[0] == INITIAL && n < |states| && At(states[n], p).Writing?
    ensures m < n && steps[m] == ServerReady(p) && At(states[n], p).server in states[m].alive
  {
    if steps[n - 1] == ServerReady(p) {
      m := n - 1;
    } else {
      assert At(states[n - 1], p) == At(states[n], p);
      m := WritingWasReady(steps, states, n - 1, p);
    }
  }

  /** The three ways to resolve. */
  lemma ResolvingStep(step: Step, s: System, p: nat)
    requires Enabled(step, s) && At(Take(step, s), p).Resolved? && !At(s, p).Resolved?
    ensures step in {Probe(p), ProbeLocked(p), WriteCookie(p)}
    ensures step in {Probe(p), ProbeLocked(p)} ==> At(Take(step, s), p).server in s.alive
    ensures step == WriteCookie(p) ==> At(s, p) == Writing(At(Take(step, s), p).server)
  {
  }

  lemma ProbedBefore(steps: seq<Step>, states: seq<System>, n: nat, p: nat) returns (m: nat)
    requires IsRun(steps, states) && states[0] == INITIAL && n < |steps|
    requires At(states[n + 1], p).Resolved? && !At(states[n], p).Resolved?
    ensures m <= n && steps[m] in {Probe(p), ProbeLocked(p), ServerReady(p)}
    ensures At(states[n + 1], p).server in states[m].alive
  {
    ResolvingStep(steps[n], states[n], p);
    if steps[n] == WriteCookie(p) {
      m := WritingWasReady(steps, states, n, p);
    } else {
      m := n;
    }
  }

  /** Every resolve returns a server that was running when this client probed it; if
      no failure had let go of one before, it was the only one running then. */
  lemma ResolvedWasAlive(steps: seq<Step>, states: seq<System>, n: nat, p: nat) returns (m: nat)
    requires IsRun(steps, states) && states[0] == INITIAL && n < |steps|
    requires At(states[n + 1], p).Resolved? && !At(states[n], p).Resolved?
    ensures m <= n && steps[m] in {Probe(p), ProbeLocked(p), ServerReady(p)}
    ensures At(states[n + 1], p).server in states[m].alive
    ensures Harmless(steps, states, m) ==> states[m].alive == {At(states[n + 1], p).server}
  {
    var d := At(states[n + 1], p).server;
    m := ProbedBefore(steps, states, n, p);
    if Harmless(steps, states, m) {
      RunKeepsInv(steps, states, m);
      forall e | e in states[m].alive ensures e == d {
        AtMostOneAlive(states[m], d, e);
      }
    }
  }

  /** Remembering and forgetting a session never change which running server is
      named. */
  lemma CookieKeepsServer(step: Step, s: System, server: nat)
    requires Enabled(step, s) && Inv(s) && (step.WriteRemembered? || step.WriteForgotten?) && server in s.alive
    ensures Names(Take(step, s).cookie, server) <==> Names(s.cookie, server)
  {
  }

  // ------------------------------------------------------ the remembered session

  function Remembered(s: System): Option<int> {
    if s.cookie.Some? then s.cookie.value.session else None
  }

  /** The step records this session. */
  predicate Remembers(step: Step, s: System, session: int)
    requires Enabled(step, s)
  {
    step.WriteRemembered? && At(s, step.client).session == session
  }

  /** The step drops the remembered session: a forget that could read the cookie, a
      cookie removed, or a new one written. */
  predicate Forgets(step: Step, s: System)
    requires Enabled(step, s)
  {
    step.WriteCookie? || step.RemoveCookie? || (step.WriteForgotten? && At(s, step.client).file.Some?)
  }

  ghost predicate RememberedSince(steps: seq<Step>, states: seq<System>, n: nat, session: int, i: nat)
    requires IsRun(steps, states) && n < |states|
  {
    && i < n && Remembers(steps[i], states[i], session)
    && forall k | i < k < n :: !steps[k].WriteRemembered? && !Forgets(steps[k], states[k])
  }

  /** What a forget read under the lock is still in the file. */
  ghost predicate ForgetsCurrent(s: System) {
    LockHeld(s) && (Holder(s).ForgetRead? && Holder(s).file.Some? ==> Holder(s).file == s.cookie)
  }

  lemma ForgetsStayCurrent(step: Step, s: System)
    requires Enabled(step, s) && ForgetsCurrent(s)
    ensures ForgetsCurrent(Take(step, s))
  {
    LockStaysHeld(step, s);
    HolderMoves(step, s);
  }

  lemma {:induction false} RunForgetsCurrent(steps: seq<Step>, states: seq<System>, n: nat)
    requires IsRun(steps, states) && states[0] == INITIAL && n < |states|
    ensures ForgetsCurrent(states[n])
  {
    if n > 0 {
      RunForgetsCurrent(steps, states, n - 1);
      ForgetsStayCurrent(steps[n - 1], states[n - 1]);
    }
  }

  lemma StepRemembers(step: Step, s: System, session: int)
    requires Enabled(step, s) && ForgetsCurrent(s)
    ensures Remembered(Take(step, s)) == Some(session) <==>
            || Remembers(step, s, session)
            || (Remembered(s) == Some(session) && !step.WriteRemembered? && !Forgets(step, s))
  {
    HolderMoves(step, s);
  }

  /** The cookie holds a session exactly when a client recorded it and since then no
      session was recorded or forgotten and no cookie removed or written: in every run,
      whatever failed. */
  lemma {:induction false} RememberedIff(steps: seq<Step>, states: seq<System>, n: nat, session: int)
    requires IsRun(steps, states) && states[0] == INITIAL && n < |states|
    ensures Remembered(states[n]) == Some(session) <==>
            exists i: nat :: RememberedSince(steps, states, n, session, i)
  {
    if n > 0 {
      var b := n - 1;
      RememberedIff(steps, states, b, session);
      RunForgetsCurrent(steps, states, b);
      StepRemembers(steps[b], states[b], session);
      assert states[b + 1] == Take(steps[b], states[b]);
      if Remembers(steps[b], states[b], session) {
        assert RememberedSince(steps, states, n, session, b);
      }
      if i: nat :| RememberedSince(steps, states, n, session, i) {
        assert i == b || RememberedSince(steps, states, b, session, i);
      }
      if i: nat :| RememberedSince(steps, states, b, session, i) {
        if !steps[b].WriteRemembered? && !Forgets(steps[b], states[b]) {
          assert RememberedSince(steps, states, n, session, i);
        }
      }
    }
  }

  predicate IsRemembering(c: Client, session: int) {
    c == WantsRemember(session) || c == Remembering(session) || (c.RememberRead? && c.session == session)
  }

  lemma StepAsks(step: Step, s: System, p: nat, session: int)
    requires Enabled(step, s) && IsRemembering(At(Take(step, s), p), session)
    ensures step == AskRemember(p, session) ||
            (IsRemembering(At(s, p), session) && !(step.AskRemember? && step.client == p))
  {
  }

  /** What a client records is what it was last asked to. */
  lemma {:induction false} RecordsWhatWasAsked(steps: seq<Step>, states: seq<System>, n: nat, p: nat, session: int)
    returns (m: nat)
    requires IsRun(steps, states) && states[0] == INITIAL && n < |states| && IsRemembering(At(states[n], p), session)
    ensures m < n && steps[m] == AskRemember(p, session)
    ensures forall k, x: int | m < k < n :: steps[k] != AskRemember(p, x)
  {
    if steps[n - 1] == AskRemember(p, session) {
      m := n - 1;
    } else {
      StepAsks(steps[n - 1], states[n - 1], p, session);
      m := RecordsWhatWasAsked(steps, states, n - 1, p, session);
    }
  }

  // ----------------------------------------------------------- resolving succeeds

  /** The client can get from here, by its own steps and without a failure, to a running
      server that the cookie names, with the lock free. */
  ghost predicate CanResolve(s: System, p: nat) {
    exists steps ::
      CanRun(s, steps) && NoFailure(steps) && AllBy(steps, p) && ResolvedIn(After(s, steps), p)
  }

  predicate AllBy(steps: seq<Step>, p: nat) {
    forall i | 0 <= i < |steps| :: !steps[i].ServerExits? && steps[i].client == p
  }

  predicate ResolvedIn(s: System, p: nat) {
    At(s, p).Resolved? && At(s, p).server in s.alive && Names(s.cookie, At(s, p).server) && s.lock.None?
  }

  lemma ResolvesBy(step: Step, s: System, p: nat)
    requires Enabled(step, s) && !CookieFails(step) && !step.ServerExits? && step.client == p
    requires CanResolve(Take(step, s), p)
    ensures CanResolve(s, p)
  {
    var rest :| CanRun(Take(step, s), rest) && NoFailure(rest) && AllBy(rest, p) &&
                ResolvedIn(After(Take(step, s), rest), p);
    Chain(step, s, rest, After(Take(step, s), rest));
  }

  lemma HasResolved(s: System, p: nat)
    requires ResolvedIn(s, p)
    ensures CanResolve(s, p)
  {
    assert CanRun(s, []) && NoFailure([]) && After(s, []) == s;
  }

  lemma SpawningResolves(s: System, p: nat)
    requires At(s, p).Spawning?
    ensures CanResolve(s, p)
  {
    var s1 := Take(Spawn(p), s);
    var s2 := Take(ServerReady(p), s1);
    HasResolved(Take(WriteCookie(p), s2), p);
    ResolvesBy(WriteCookie(p), s2, p);
    ResolvesBy(ServerReady(p), s1, p);
    ResolvesBy(Spawn(p), s, p);
  }

  lemma LockedResolves(s: System, p: nat)
    requires At(s, p).WantsLock? && s.lock.None?
    ensures CanResolve(s, p)
  {
    var s1 := Take(Acquire(p), s);
    var s2 := Take(ReadLocked(p), s1);
    if s.cookie.None? {
      SpawningResolves(s2, p);
    } else {
      var s3 := Take(ProbeLocked(p), s2);
      if Reachable(s2, s.cookie.value) {
        HasResolved(s3, p);
      } else {
        SpawningResolves(Take(RemoveCookie(p), s3), p);
        ResolvesBy(RemoveCookie(p), s3, p);
      }
      ResolvesBy(ProbeLocked(p), s2, p);
    }
    ResolvesBy(ReadLocked(p), s1, p);
    ResolvesBy(Acquire(p), s, p);
  }

  /** Whenever the lock is free, a client that resolves gets a running server. */
  lemma ResolvingSucceeds(s: System, p: nat)
    requires s.lock.None? && Free(At(s, p))
    ensures CanResolve(s, p)
  {
    var s1 := Take(ReadCookie(p), s);
    if s.cookie.None? {
      LockedResolves(s1, p);
    } else {
      var s2 := Take(Probe(p), s1);
      if Reachable(s1, s.cookie.value) {
        HasResolved(s2, p);
      } else {
        LockedResolves(s2, p);
      }
      ResolvesBy(Probe(p), s1, p);
    }
    ResolvesBy(ReadCookie(p), s, p);
  }

  /** A running server that the cookie names is resolved in two steps, without the lock,
      whoever holds it. */
  lemma LiveServerNeedsNoLock(s: System, p: nat, d: nat)
    requires Free(At(s, p)) && Names(s.cookie, d) && d in s.alive
    ensures var steps := [ReadCookie(p), Probe(p)];
            CanRun(s, steps) && After(s, steps) == s.(clients := s.clients[p := Resolved(d)])
  {
    var s1 := Take(ReadCookie(p), s);
    var last := Take(Probe(p), s1);
    assert CanRun(last, []) && After(last, []) == last;
    Chain(Probe(p), s1, [], last);
    Chain(ReadCookie(p), s, [Probe(p)], last);
    assert last.clients == s.clients[p := Resolved(d)];
  }
}
