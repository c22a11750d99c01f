/** The session registry under concurrency: start, close, shutdown and resolve cut
    into their lock regions, with any number of threads
    (src/gdb_mcp/session/registry.py). */
module SessionRegistry {
  import opened Options

  /** A session object; the serial stands for its identity. */
  datatype Session = Session(serial: nat)

  datatype Registry = Registry(sessions: map<nat, Session>, closing: set<nat>, next: nat)

  datatype Resolution = IsClosing | NotFound | Found(session: Session)

  const EMPTY: Registry := Registry(map[], {}, 1)

  // ------------------------------------------------------------ lock regions

  function Publish(r: Registry, id: nat, session: Session): Registry {
    r.(sessions := r.sessions[id := session])
  }

  function MarkClosing(r: Registry, id: nat): Registry {
    if id in r.sessions then r.(closing := r.closing + {id}) else r
  }

  function Unmark(r: Registry, id: nat): Registry {
    r.(closing := r.closing - {id})
  }

  /** The session is removed only if it is still the one that was closed. */
  function RemoveClosed(r: Registry, id: nat, session: Session): Registry {
    var sessions := if id in r.sessions && r.sessions[id] == session then r.sessions - {id} else r.sessions;
    r.(sessions := sessions, closing := r.closing - {id})
  }

  function TakeAll(r: Registry): Registry {
    r.(sessions := map[], closing := r.sessions.Keys)
  }

  function ResolveIn(r: Registry, id: nat): Resolution {
    if id in r.closing then IsClosing else if id in r.sessions then Found(r.sessions[id]) else NotFound
  }

  class RegistryObject {
    var sessions: map<nat, Session>
    var closing: set<nat>
    var nextId: nat

    ghost function View(): Registry
      reads this
    {
      Registry(sessions, closing, nextId)
    }

    constructor ()
      ensures View() == EMPTY
    {
      sessions, closing, nextId := map[], {}, 1;
    }

    method AllocateSessionId() returns (id: nat)
      modifies this
      ensures id == old(nextId) && View() == old(View()).(next := id + 1)
    {
      id := nextId;
      nextId := nextId + 1;
    }

    method PublishSession(id: nat, session: Session)
      modifies this
      ensures View() == Publish(old(View()), id, session)
    {
      sessions := sessions[id := session];
    }

    method ResolveSession(id: nat) returns (resolution: Resolution)
      ensures resolution == ResolveIn(View(), id)
    {
      if id in closing {
        return IsClosing;
      }
      return if id in sessions then Found(sessions[id]) else NotFound;
    }

    method BeginClose(id: nat) returns (session: Option<Session>)
      modifies this
      ensures View() == MarkClosing(old(View()), id)
      ensures session == if id in old(sessions) then Some(old(sessions)[id]) else None
    {
      session := None;
      if id in sessions {
        session := Some(sessions[id]);
        closing := closing + {id};
      }
    }

    method AbortClose(id: nat)
      modifies this
      ensures View() == Unmark(old(View()), id)
    {
      closing := closing - {id};
    }

    method FinishClose(id: nat, session: Session)
      modifies this
      ensures View() == RemoveClosed(old(View()), id, session)
    {
      if id in sessions && sessions[id] == session {
        sessions := sessions - {id};
      }
      closing := closing - {id};
    }

    method BeginShutdown() returns (taken: map<nat, Session>)
      modifies this
      ensures taken == old(sessions) && View() == TakeAll(old(View()))
    {
      taken := sessions;
      sessions := map[];
      closing := taken.Keys;
    }

    method FinishShutdown()
      modifies this
      ensures View() == old(View()).(closing := {})
    {
      closing := {};
    }
  }

  // ------------------------------------------------------------ the whole system

  /** What a thread is doing between two lock regions. */
  datatype Task =
    | Starting(id: nat, session: Session)
    | Closing(id: nat, session: Session)
    | ShuttingDown(ids: set<nat>)

  /** The registry, the threads inside an operation, how many session objects were
      made, and the ids published and removed so far. */
  datatype System = System(registry: Registry, tasks: map<nat, Task>, made: nat, published: set<nat>, removed: set<nat>)

  const INITIAL: System := System(EMPTY, map[], 0, {}, {})

  datatype Step =
    | Allocate(thread: nat)
    | StartFails(thread: nat)
    | StartSucceeds(thread: nat)
    | CloseBegins(thread: nat, id: nat)
    | CloseAborts(thread: nat)
    | CloseFinishes(thread: nat)
    | ShutdownBegins(thread: nat)
    | ShutdownFinishes(thread: nat)

  predicate Enabled(step: Step, s: System) {
    match step
    case Allocate(t) => t !in s.tasks
    case StartFails(t) => t in s.tasks && s.tasks[t].Starting?
    case StartSucceeds(t) => t in s.tasks && s.tasks[t].Starting?
    case CloseBegins(t, _) => t !in s.tasks
    case CloseAborts(t) => t in s.tasks && s.tasks[t].Closing?
    case CloseFinishes(t) => t in s.tasks && s.tasks[t].Closing?
    case ShutdownBegins(t) => t !in s.tasks
    case ShutdownFinishes(t) => t in s.tasks && s.tasks[t].ShuttingDown?
  }

  function Take(step: Step, s: System): System
    requires Enabled(step, s)
  {
    var r := s.registry;
    match step
    case Allocate(t) =>
      s.(registry := r.(next := r.next + 1), tasks := s.tasks[t := Starting(r.next, Session(s.made))],
        made := s.made + 1)
    case StartFails(t) => s.(tasks := s.tasks - {t})
    case StartSucceeds(t) =>
      var task := s.tasks[t];
      s.(registry := Publish(r, task.id, task.session), tasks := s.tasks - {t}, published := s.published + {task.id})
    case CloseBegins(t, id) =>
      if id in r.sessions then s.(registry := MarkClosing(r, id), tasks := s.tasks[t := Closing(id, r.sessions[id])])
      else s
    case CloseAborts(t) => s.(registry := Unmark(r, s.tasks[t].id), tasks := s.tasks - {t})
    case CloseFinishes(t) =>
      var task := s.tasks[t];
      var r' := RemoveClosed(r, task.id, task.session);
      s.(registry := r', tasks := s.tasks - {t}, removed := s.removed + (r.sessions.Keys - r'.sessions.Keys))
    case ShutdownBegins(t) =>
      s.(registry := TakeAll(r), tasks := s.tasks[t := ShuttingDown(r.sessions.Keys)],
        removed := s.removed + r.sessions.Keys)
    case ShutdownFinishes(t) => s.(registry := r.(closing := {}), tasks := s.tasks - {t})
  }

  ghost predicate IsRun(steps: seq<Step>, states: seq<System>) {
    && |states| == |steps| + 1
    && forall i | 0 <= i < |steps| :: Enabled(steps[i], states[i]) && states[i + 1] == Take(steps[i], states[i])
  }

  // ------------------------------------------------------------ invariant

  predicate InFlight(s: System, id: nat) {
    exists t | t in s.tasks ::
      (s.tasks[t].Closing? && s.tasks[t].id == id) || (s.tasks[t].ShuttingDown? && id in s.tasks[t].ids)
  }

  /** Ids are used once: a starting id is new, a published one is registered or removed. */
  predicate IdsUsedOnce(s: System) {
    && (forall id | id in s.published :: id < s.registry.next)
    && s.published == s.registry.sessions.Keys + s.removed
    && s.registry.sessions.Keys !! s.removed
    && (forall t | t in s.tasks && s.tasks[t].Starting? ::
        s.tasks[t].id < s.registry.next && s.tasks[t].id !in s.published)
    && (forall t, u | t in s.tasks && u in s.tasks && t != u && s.tasks[t].Starting? && s.tasks[u].Starting? ::
          s.tasks[t].id != s.tasks[u].id)
  }

  /** A closer holds the session registered under its id, if one still is. */
  predicate ClosersHoldTheirs(s: System) {
    forall t | t in s.tasks && s.tasks[t].Closing? ::
      && s.tasks[t].id in s.published
      && (s.tasks[t].id in s.registry.sessions ==> s.registry.sessions[s.tasks[t].id] == s.tasks[t].session)
  }

  /** Every id marked as closing belongs to an operation in flight. */
  predicate MarksInFlight(s: System) {
    forall id | id in s.registry.closing :: InFlight(s, id)
  }

  predicate Inv(s: System) {
    IdsUsedOnce(s) && ClosersHoldTheirs(s) && MarksInFlight(s)
  }

  lemma IdsStayUsedOnce(step: Step, s: System)
    requires Enabled(step, s) && IdsUsedOnce(s)
    ensures IdsUsedOnce(Take(step, s))
  {
  }

  lemma ClosersStayRight(step: Step, s: System)
    requires Enabled(step, s) && IdsUsedOnce(s) && ClosersHoldTheirs(s)
    ensures ClosersHoldTheirs(Take(step, s))
  {
  }

  lemma MarksStayInFlight(step: Step, s: System)
    requires Enabled(step, s) && MarksInFlight(s)
    ensures MarksInFlight(Take(step, s))
  {
    var s' := Take(step, s);
    forall id | id in s'.registry.closing ensures InFlight(s', id) {
      match step
      case CloseBegins(t, closed) =>
        if id == closed && closed in s.registry.sessions {
          assert s'.tasks[t].Closing? && s'.tasks[t].id == id;
        } else {
          KeepsInFlight(s, s', id, t);
        }
      case ShutdownBegins(t) => assert s'.tasks[t].ShuttingDown? && id in s'.tasks[t].ids;
      case Allocate(t) => KeepsInFlight(s, s', id, t);
      case StartFails(t) => KeepsInFlight(s, s', id, t);
      case StartSucceeds(t) => KeepsInFlight(s, s', id, t);
      case CloseAborts(t) => KeepsInFlight(s, s', id, t);
      case CloseFinishes(t) => KeepsInFlight(s, s', id, t);
      case ShutdownFinishes(t) =>
    }
  }

  /** An operation in flight stays so when another thread moves. */
  lemma KeepsInFlight(s: System, s': System, id: nat, t: nat)
    requires InFlight(s, id)
    requires forall u | u in s.tasks && u != t :: u in s'.tasks && s'.tasks[u] == s.tasks[u]
    requires t in s.tasks ==> (s.tasks[t].Closing? ==> s.tasks[t].id != id) && !s.tasks[t].ShuttingDown?
    ensures InFlight(s', id)
  {
    var u :| u in s.tasks && ((s.tasks[u].Closing? && s.tasks[u].id == id) ||
                              (s.tasks[u].ShuttingDown? && id in s.tasks[u].ids));
    assert u != t;
    assert u in s'.tasks && s'.tasks[u] == s.tasks[u];
  }

  /** The invariant holds in every state of every run. */
  lemma {:induction false} RunKeepsInv(steps: seq<Step>, states: seq<System>, n: nat)
    requires IsRun(steps, states) && states[0] == INITIAL && n < |states|
    ensures Inv(states[n])
  {
    if n == 0 {
    } else {
      RunKeepsInv(steps, states, n - 1);
      IdsStayUsedOnce(steps[n - 1], states[n - 1]);
      ClosersStayRight(steps[n - 1], states[n - 1]);
      MarksStayInFlight(steps[n - 1], states[n - 1]);
    }
  }

  // ------------------------------------------------------------ theorems

  /** No id is published twice in a run. */
  lemma {:induction false} PublishedOnce(steps: seq<Step>, states: seq<System>, i: nat, j: nat)
    requires IsRun(steps, states) && states[0] == INITIAL && i < j < |steps|
    requires steps[i].StartSucceeds? && steps[j].StartSucceeds?
    ensures states[i].tasks[steps[i].thread].id != states[j].tasks[steps[j].thread].id
  {
    var id := states[i].tasks[steps[i].thread].id;
    assert id in states[i + 1].published;
    PublishedGrows(steps, states, i + 1, j);
    RunKeepsInv(steps, states, j);
  }

  lemma {:induction false} PublishedGrows(steps: seq<Step>, states: seq<System>, i: nat, j: nat)
    requires IsRun(steps, states) && i <= j < |states|
    ensures states[i].published <= states[j].published && states[i].removed <= states[j].removed
  {
    if i < j {
      PublishedGrows(steps, states, i, j - 1);
      assert states[j - 1 + 1] == Take(steps[j - 1], states[j - 1]);
    }
  }

  /** A removed id is never registered again, and ids stay below the next one. */
  lemma RemovedForGood(steps: seq<Step>, states: seq<System>, i: nat, j: nat, id: nat)
    requires IsRun(steps, states) && states[0] == INITIAL && i <= j < |states|
    requires id in states[i].registry.sessions && id !in states[j].registry.sessions
    ensures forall k | j <= k < |states| :: id !in states[k].registry.sessions
    ensures id < states[j].registry.next
  {
    RunKeepsInv(steps, states, i);
    RunKeepsInv(steps, states, j);
    PublishedGrows(steps, states, i, j);
    assert id in states[j].removed;
    forall k | j <= k < |states| ensures id !in states[k].registry.sessions {
      PublishedGrows(steps, states, j, k);
      RunKeepsInv(steps, states, k);
    }
  }

  /** When no close and no shutdown is in flight, nothing is marked as closing. */
  lemma QuiescentIsUnmarked(steps: seq<Step>, states: seq<System>, n: nat)
    requires IsRun(steps, states) && states[0] == INITIAL && n < |states|
    requires forall t | t in states[n].tasks :: states[n].tasks[t].Starting?
    ensures states[n].registry.closing == {}
  {
    RunKeepsInv(steps, states, n);
    assert forall id :: !InFlight(states[n], id);
    assert forall id :: id !in states[n].registry.closing;
  }

  /** Resolving never returns a session marked as closing at its lock point, and
      what it returns was published and is not removed. */
  lemma ResolveIsSafe(steps: seq<Step>, states: seq<System>, n: nat, id: nat)
    requires IsRun(steps, states) && states[0] == INITIAL && n < |states|
    requires ResolveIn(states[n].registry, id).Found?
    ensures id !in states[n].registry.closing && id in states[n].published && id !in states[n].removed
  {
    RunKeepsInv(steps, states, n);
  }

  // ------------------------------------- sessions being closed but not marked

  predicate IsShutdown(step: Step) {
    step.ShutdownBegins? || step.ShutdownFinishes?
  }

  predicate ClosersMarked(s: System) {
    forall t | t in s.tasks && s.tasks[t].Closing? && s.tasks[t].id in s.registry.sessions ::
      s.tasks[t].id in s.registry.closing
  }

  predicate OneCloserEach(s: System) {
    forall t, u | t in s.tasks && u in s.tasks && t != u && s.tasks[t].Closing? && s.tasks[u].Closing? ::
      s.tasks[t].id != s.tasks[u].id
  }

  lemma CloserStaysMarked(step: Step, s: System)
    requires Enabled(step, s) && !IsShutdown(step) && Inv(s) && ClosersMarked(s) && OneCloserEach(s)
    ensures ClosersMarked(Take(step, s))
  {
  }

  /** In a run without shutdown and without two closes of one id at a time, a
      session being closed is never resolved. */
  lemma {:induction false} ClosingIsNotResolved(steps: seq<Step>, states: seq<System>, n: nat, t: nat)
    requires IsRun(steps, states) && states[0] == INITIAL && n < |states|
    requires forall i | 0 <= i < |steps| :: !IsShutdown(steps[i])
    requires forall i | 0 <= i < |states| :: OneCloserEach(states[i])
    requires t in states[n].tasks && states[n].tasks[t].Closing?
    ensures !ResolveIn(states[n].registry, states[n].tasks[t].id).Found?
  {
    MarkedThroughout(steps, states, n);
  }

  lemma {:induction false} MarkedThroughout(steps: seq<Step>, states: seq<System>, n: nat)
    requires IsRun(steps, states) && states[0] == INITIAL && n < |states|
    requires forall i | 0 <= i < |steps| :: !IsShutdown(steps[i])
    requires forall i | 0 <= i < |states| :: OneCloserEach(states[i])
    ensures ClosersMarked(states[n])
  {
    if n == 0 {
    } else {
      MarkedThroughout(steps, states, n - 1);
      RunKeepsInv(steps, states, n - 1);
      CloserStaysMarked(steps[n - 1], states[n - 1]);
    }
  }

  /** The steps that mark an id as closing, and those that unmark it. */
  predicate MarksId(step: Step, s: System, id: nat) {
    id in s.registry.sessions && ((step.CloseBegins? && step.id == id) || step.ShutdownBegins?)
  }

  predicate UnmarksId(step: Step, s: System, id: nat)
    requires Enabled(step, s)
  {
    || ((step.CloseAborts? || step.CloseFinishes?) && s.tasks[step.thread].id == id)
    || step.ShutdownFinishes?
    || (step.ShutdownBegins? && id !in s.registry.sessions)
  }

  ghost predicate MarkedSince(steps: seq<Step>, states: seq<System>, n: nat, id: nat, j: nat)
    requires IsRun(steps, states) && n < |states|
  {
    && j < n && MarksId(steps[j], states[j], id)
    && forall k | j < k < n :: !UnmarksId(steps[k], states[k], id)
  }

  /** An id is marked as closing exactly when a step marked it and no later step
      unmarked it. */
  lemma {:induction false} MarkedIff(steps: seq<Step>, states: seq<System>, n: nat, id: nat)
    requires IsRun(steps, states) && states[0] == INITIAL && n < |states|
    ensures id in states[n].registry.closing <==> exists j: nat :: MarkedSince(steps, states, n, id, j)
  {
    if n == 0 {
    } else {
      MarkedIff(steps, states, n - 1, id);
      var step, s := steps[n - 1], states[n - 1];
      if MarksId(step, s, id) {
        assert MarkedSince(steps, states, n, id, n - 1);
      } else if UnmarksId(step, s, id) {
        UnmarkIsNoMark(step, s, id);
        assert forall j: nat :: !MarkedSince(steps, states, n, id, j);
      } else {
        MarksUnaffected(steps, states, n - 1, n, id);
      }
    }
  }

  lemma MarksUnaffected(steps: seq<Step>, states: seq<System>, before: nat, n: nat, id: nat)
    requires IsRun(steps, states) && before + 1 == n < |states|
    requires !MarksId(steps[before], states[before], id) && !UnmarksId(steps[before], states[before], id)
    ensures id in states[n].registry.closing <==> id in states[before].registry.closing
    ensures (exists j: nat :: MarkedSince(steps, states, n, id, j)) <==>
            exists j: nat :: MarkedSince(steps, states, before, id, j)
  {
    assert states[before + 1] == Take(steps[before], states[before]);
    if j: nat :| MarkedSince(steps, states, n, id, j) {
      assert j != before;
      assert MarkedSince(steps, states, before, id, j);
    }
    if j: nat :| MarkedSince(steps, states, before, id, j) {
      assert MarkedSince(steps, states, n, id, j);
    }
  }

  // ------------------------------------------------ exactly what resolving gives

  /** The step publishes this session under this id. */
  predicate PublishesId(step: Step, s: System, id: nat, x: Session)
    requires Enabled(step, s)
  {
    step.StartSucceeds? && s.tasks[step.thread] == Starting(id, x)
  }

  /** The step takes the id out of the registry, if it is there. */
  predicate RemovesId(step: Step, s: System, id: nat)
    requires Enabled(step, s)
  {
    step.ShutdownBegins? || (step.CloseFinishes? && s.tasks[step.thread].id == id)
  }

  ghost predicate RegisteredSince(steps: seq<Step>, states: seq<System>, n: nat, id: nat, x: Session, i: nat)
    requires IsRun(steps, states) && n < |states|
  {
    && i < n && PublishesId(steps[i], states[i], id, x)
    && forall k | i < k < n :: !RemovesId(steps[k], states[k], id)
  }

  ghost predicate IsRegistered(steps: seq<Step>, states: seq<System>, n: nat, id: nat, x: Session)
    requires IsRun(steps, states) && n < |states|
  {
    exists i: nat :: RegisteredSince(steps, states, n, id, x, i)
  }

  ghost predicate IsMarked(steps: seq<Step>, states: seq<System>, n: nat, id: nat)
    requires IsRun(steps, states) && n < |states|
  {
    exists j: nat :: MarkedSince(steps, states, n, id, j)
  }

  predicate Holds(s: System, id: nat, x: Session) {
    id in s.registry.sessions && s.registry.sessions[id] == x
  }

  lemma StepRegisters(step: Step, s: System, id: nat, x: Session)
    requires Enabled(step, s) && Inv(s)
    ensures Holds(Take(step, s), id, x) <==>
            PublishesId(step, s, id, x) || (Holds(s, id, x) && !RemovesId(step, s, id))
  {
  }

  /** A session is filed under an id exactly when a start published it there and no
      later step removed it. */
  lemma {:induction false} RegisteredIff(steps: seq<Step>, states: seq<System>, n: nat, id: nat, x: Session)
    requires IsRun(steps, states) && states[0] == INITIAL && n < |states|
    ensures Holds(states[n], id, x) <==> IsRegistered(steps, states, n, id, x)
  {
    if n > 0 {
      var b := n - 1;
      RegisteredIff(steps, states, b, id, x);
      RunKeepsInv(steps, states, b);
      StepRegisters(steps[b], states[b], id, x);
      assert states[b + 1] == Take(steps[b], states[b]);
      if PublishesId(steps[b], states[b], id, x) {
        assert RegisteredSince(steps, states, n, id, x, b);
      } else {
        if i: nat :| RegisteredSince(steps, states, n, id, x, i) {
          assert i != b;
          assert RegisteredSince(steps, states, b, id, x, i);
        }
        if IsRegistered(steps, states, b, id, x) && !RemovesId(steps[b], states[b], id) {
          var i: nat :| RegisteredSince(steps, states, b, id, x, i);
          assert RegisteredSince(steps, states, n, id, x, i);
        }
      }
    }
  }

  /** Resolving an id gives the session that a start published under it exactly when no
      step has removed it and none has marked it without a later one unmarking it; a
      marked id is reported as closing, and any other as not found. */
  lemma ResolveIff(steps: seq<Step>, states: seq<System>, n: nat, id: nat)
    requires IsRun(steps, states) && states[0] == INITIAL && n < |states|
    ensures forall x :: ResolveIn(states[n].registry, id) == Found(x) <==>
                        IsRegistered(steps, states, n, id, x) && !IsMarked(steps, states, n, id)
    ensures ResolveIn(states[n].registry, id) == IsClosing <==> IsMarked(steps, states, n, id)
    ensures ResolveIn(states[n].registry, id) == NotFound <==>
            !IsMarked(steps, states, n, id) && forall x :: !IsRegistered(steps, states, n, id, x)
  {
    MarkedIff(steps, states, n, id);
    forall x ensures Holds(states[n], id, x) <==> IsRegistered(steps, states, n, id, x) {
      RegisteredIff(steps, states, n, id, x);
    }
    if id in states[n].registry.sessions {
      assert Holds(states[n], id, states[n].registry.sessions[id]);
    }
  }

  /** Every start has a session object of its own. */
  predicate OwnSessions(s: System) {
    && (forall t | t in s.tasks && s.tasks[t].Starting? :: s.tasks[t].session.serial < s.made)
    && (forall id | id in s.registry.sessions :: s.registry.sessions[id].serial < s.made)
    && (forall t, u | t in s.tasks && u in s.tasks && t != u && s.tasks[t].Starting? && s.tasks[u].Starting? ::
          s.tasks[t].session != s.tasks[u].session)
    && (forall t, id | t in s.tasks && s.tasks[t].Starting? && id in s.registry.sessions ::
          s.tasks[t].session != s.registry.sessions[id])
    && (forall a, b | a in s.registry.sessions && b in s.registry.sessions && a != b ::
          s.registry.sessions[a] != s.registry.sessions[b])
  }

  lemma SessionsStayOwn(step: Step, s: System)
    requires Enabled(step, s) && OwnSessions(s)
    ensures OwnSessions(Take(step, s))
  {
  }

  lemma {:induction false} RunKeepsSessionsOwn(steps: seq<Step>, states: seq<System>, n: nat)
    requires IsRun(steps, states) && states[0] == INITIAL && n < |states|
    ensures OwnSessions(states[n])
  {
    if n > 0 {
      RunKeepsSessionsOwn(steps, states, n - 1);
      SessionsStayOwn(steps[n - 1], states[n - 1]);
    }
  }

  /** So two ids never resolve to the same session. */
  lemma ResolvedSessionsDiffer(steps: seq<Step>, states: seq<System>, n: nat, a: nat, b: nat)
    requires IsRun(steps, states) && states[0] == INITIAL && n < |states| && a != b
    requires ResolveIn(states[n].registry, a).Found? && ResolveIn(states[n].registry, b).Found?
    ensures ResolveIn(states[n].registry, a) != ResolveIn(states[n].registry, b)
  {
    RunKeepsSessionsOwn(steps, states, n);
  }

  /** Thread `t` began to close `id` at step `begun` and is still at it. */
  ghost predicate StillClosing(steps: seq<Step>, states: seq<System>, begun: nat, n: nat, t: nat, id: nat)
    requires IsRun(steps, states)
  {
    && begun < n < |states| && steps[begun] == CloseBegins(t, id) && id in states[begun].registry.sessions
    && forall m | begun < m <= n :: t in states[m].tasks && states[m].tasks[t].Closing? && states[m].tasks[t].id == id
  }

  /** A step that unmarks an id another thread is closing and leaves it registered: a
      second close of the id gives up, or a shutdown ends. */
  predicate LiftsMark(step: Step, s: System, t: nat, id: nat)
    requires Enabled(step, s)
  {
    || (step.CloseAborts? && step.thread != t && s.tasks[step.thread].id == id)
    || step.ShutdownFinishes?
  }

  /** Exactly when a registered session that a thread is closing is resolved all the
      same: after its close began, a second close of its id gave up or a shutdown
      ended, and no close of it has begun since. */
  lemma ResolvedWhileClosingIff(steps: seq<Step>, states: seq<System>, begun: nat, n: nat, t: nat, id: nat)
    requires IsRun(steps, states) && states[0] == INITIAL && StillClosing(steps, states, begun, n, t, id)
    requires id in states[n].registry.sessions
    ensures ResolveIn(states[n].registry, id).Found? <==>
            exists k | begun < k < n ::
              && LiftsMark(steps[k], states[k], t, id)
              && forall m | k < m < n :: !(steps[m].CloseBegins? && steps[m].id == id)
  {
    MarkedIff(steps, states, n, id);
    StaysRegistered(steps, states, begun, n, id);
    forall k | begun < k < n
      ensures UnmarksId(steps[k], states[k], id) <==> LiftsMark(steps[k], states[k], t, id)
      ensures MarksId(steps[k], states[k], id) <==> steps[k].CloseBegins? && steps[k].id == id
    {
      StepWhileClosing(steps, states, begun, n, t, id, k);
    }
    if id in states[n].registry.closing {
      var j: nat :| MarkedSince(steps, states, n, id, j);
      forall k | begun < k < n && UnmarksId(steps[k], states[k], id)
        ensures exists m :: k < m < n && MarksId(steps[m], states[m], id)
      {
        UnmarkIsNoMark(steps[k], states[k], id);
        assert k < j;
      }
    } else {
      LastUnmark(steps, states, begun, n, id);
    }
  }

  lemma StaysRegistered(steps: seq<Step>, states: seq<System>, begun: nat, n: nat, id: nat)
    requires IsRun(steps, states) && states[0] == INITIAL && begun < n < |states|
    requires id in states[begun].registry.sessions && id in states[n].registry.sessions
    ensures forall k | begun <= k <= n :: id in states[k].registry.sessions
  {
    forall k | begun <= k <= n ensures id in states[k].registry.sessions {
      if id !in states[k].registry.sessions {
        RemovedForGood(steps, states, begun, k, id);
      }
    }
  }

  /** While the session stays registered and its closer at work, marks come from closes
      alone and are lifted by nothing else. */
  lemma StepWhileClosing(steps: seq<Step>, states: seq<System>, begun: nat, n: nat, t: nat, id: nat, k: nat)
    requires IsRun(steps, states) && states[0] == INITIAL && StillClosing(steps, states, begun, n, t, id) &&
             begun < k < n
    requires forall m | begun <= m <= n :: id in states[m].registry.sessions
    ensures UnmarksId(steps[k], states[k], id) <==> LiftsMark(steps[k], states[k], t, id)
    ensures MarksId(steps[k], states[k], id) <==> steps[k].CloseBegins? && steps[k].id == id
  {
    RunKeepsInv(steps, states, k);
    assert id in states[k].registry.sessions && id in states[k + 1].registry.sessions;
    assert t in states[k + 1].tasks && states[k + 1].tasks[t].Closing?;
  }

  lemma UnmarkIsNoMark(step: Step, s: System, id: nat)
    requires Enabled(step, s) && UnmarksId(step, s, id)
    ensures !MarksId(step, s, id)
  {
  }

  lemma {:induction false} LastUnmark(steps: seq<Step>, states: seq<System>, begun: nat, n: nat, id: nat)
    requires IsRun(steps, states) && begun < n < |states|
    requires MarksId(steps[begun], states[begun], id)
    requires forall j: nat :: !MarkedSince(steps, states, n, id, j)
    ensures exists k | begun < k < n ::
              && UnmarksId(steps[k], states[k], id)
              && forall m | k < m < n :: !MarksId(steps[m], states[m], id)
    decreases n - begun
  {
    assert !MarkedSince(steps, states, n, id, begun);
    var k :| begun < k < n && UnmarksId(steps[k], states[k], id);
    if m :| k < m < n && MarksId(steps[m], states[m], id) {
      LastUnmark(steps, states, m, n, id);
    }
  }

  /** Without those two conditions it can be: a shutdown that ends clears the mark
      of a close that began after the shutdown took its sessions. */
  lemma ShutdownUnmarksAClose() returns (steps: seq<Step>, states: seq<System>)
    ensures IsRun(steps, states) && states[0] == INITIAL
    ensures var last := states[|steps|];
            2 in last.tasks && last.tasks[2] == Closing(1, Session(0)) &&
            ResolveIn(last.registry, 1) == Found(Session(0))
  {
    steps := [ShutdownBegins(1), Allocate(3), StartSucceeds(3), CloseBegins(2, 1), ShutdownFinishes(1)];
    var s1 := Take(steps[0], INITIAL);
    var s2 := Take(steps[1], s1);
    var s3 := Take(steps[2], s2);
    var s4 := Take(steps[3], s3);
    var s5 := Take(steps[4], s4);
    states := [INITIAL, s1, s2, s3, s4, s5];
  }
}
