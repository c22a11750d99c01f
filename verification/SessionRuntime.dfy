/** The mutable state of one debugger session: a cached copy of the selected
    inferior's record in the top-level fields, one record object per inferior,
    and bounded histories (src/gdb_mcp/session/runtime.py).

    `Snapshot` and its functions are the specification; the class keeps each
    inferior in an object of its own, as the source does, and every method is
    proved to do to the objects what the function does to the snapshot. */
module SessionRuntime {
  import opened Options
  import opened MiRecords

  datatype SessionState = Created | Starting | Ready | Failed | Closed

  datatype ExecutionState = Unknown | NotStarted | Executing | Paused | Exited

  datatype Inferior = Inferior(execution: ExecutionState, stopReason: Option<string>, exitCode: Option<int>)

  const FRESH_INFERIOR: Inferior := Inferior(Unknown, None, None)

  datatype StopEvent = StopEvent(execution: ExecutionState, reason: Option<string>, command: string,
                                 inferior: Option<nat>, exitCode: Option<int>, details: Payload)

  datatype FollowForkMode = Parent | Child

  /** The fields about the session as a whole. */
  datatype Info = Info(state: SessionState, isRunning: bool, targetLoaded: bool, attachedPid: Option<nat>,
                       failure: Option<string>, followFork: Option<FollowForkMode>, detachOnFork: Option<bool>)

  datatype Snapshot = Snapshot(
    info: Info, top: Inferior, thread: Option<int>, frame: Option<int>,
    current: Option<nat>, count: Option<int>, inferiors: map<nat, Inferior>,
    lastStop: Option<StopEvent>, history: seq<StopEvent>)

  const NEW_INFO: Info := Info(Created, false, false, None, None, None, None)

  const NEW_SESSION: Snapshot := Snapshot(NEW_INFO, FRESH_INFERIOR, None, None, None, None, map[], None, [])

  // ------------------------------------------------------------ specification

  lemma {:induction false} HasLeast(keys: set<nat>)
    requires keys != {}
    ensures exists x :: x in keys && forall y | y in keys :: x <= y
    decreases |keys|
  {
    var x :| x in keys;
    var rest := keys - {x};
    if rest == {} {
      assert keys == {x};
    } else {
      HasLeast(rest);
      var m :| m in rest && forall y | y in rest :: m <= y;
      LeastOfTwo(keys, x, m);
    }
  }

  lemma LeastOfTwo(keys: set<nat>, x: nat, m: nat)
    requires x in keys && m in keys && forall y | y in keys - {x} :: m <= y
    ensures exists z :: z in keys && forall y | y in keys :: z <= y
  {
    var least := if x <= m then x else m;
    assert forall y | y in keys :: y == x || y in keys - {x};
    assert least in keys && forall y | y in keys :: least <= y;
  }

  function Least(keys: set<nat>): (least: nat)
    requires keys != {}
    ensures least in keys && forall y | y in keys :: least <= y
  {
    HasLeast(keys);
    var x :| x in keys && forall y | y in keys :: x <= y;
    x
  }

  function LeastKey(inferiors: map<nat, Inferior>): Option<nat> {
    if inferiors == map[] then None else Some(Least(inferiors.Keys))
  }

  /** Copies the selected inferior's record to the top, creating it if missing. */
  function Synchronize(s: Snapshot): Snapshot {
    if s.current.None? then s.(top := FRESH_INFERIOR)
    else if s.current.value in s.inferiors then s.(top := s.inferiors[s.current.value])
    else s.(inferiors := s.inferiors[s.current.value := FRESH_INFERIOR], top := FRESH_INFERIOR)
  }

  function RaiseCount(s: Snapshot): Snapshot {
    if s.count.None? || s.count.value < |s.inferiors| then s.(count := Some(|s.inferiors|)) else s
  }

  /** Everything per run is cleared; the histories stay. */
  function ResetTransient(s: Snapshot, state: SessionState, failure: Option<string>): Snapshot {
    Snapshot(Info(state, false, false, None, failure, None, None), FRESH_INFERIOR, None, None, None, None, map[],
             s.lastStop, s.history)
  }

  function BeginStartup(s: Snapshot): Snapshot {
    ResetTransient(s, Starting, None).(lastStop := None, history := [])
  }

  function MarkReady(s: Snapshot): Snapshot {
    var id := if s.current.None? then 1 else s.current.value;
    var info := s.info.(state := Ready, isRunning := true, failure := None,
                        followFork := if s.info.followFork.None? then Some(Parent) else s.info.followFork,
                        detachOnFork := if s.info.detachOnFork.None? then Some(true) else s.info.detachOnFork);
    Synchronize(s.(info := info, current := Some(id), count := if s.count.None? then Some(1) else s.count,
                   inferiors := if id in s.inferiors then s.inferiors else s.inferiors[id := s.top]))
  }

  function MarkFailed(s: Snapshot, message: string): Snapshot {
    ResetTransient(s, Failed, Some(message))
  }

  function MarkStopped(s: Snapshot): Snapshot {
    ResetTransient(s, Closed, None)
  }

  function EnsureInferior(s: Snapshot, id: nat): Snapshot {
    if id == 0 then s
    else RaiseCount(if id in s.inferiors then s else s.(inferiors := s.inferiors[id := FRESH_INFERIOR]))
  }

  function SelectInferior(s: Snapshot, id: Option<nat>): Snapshot {
    var s1 := s.(current := id, thread := None, frame := None);
    Synchronize(if id.Some? then EnsureInferior(s1, id.value) else s1)
  }

  function Restrict(inferiors: map<nat, Inferior>, ids: seq<nat>): map<nat, Inferior> {
    map id | id in ids :: if id in inferiors then inferiors[id] else FRESH_INFERIOR
  }

  function UpdateInventory(s: Snapshot, current: Option<nat>, count: int, ids: Option<seq<nat>>): Snapshot {
    var inferiors := if ids.Some? then Restrict(s.inferiors, ids.value) else s.inferiors;
    var chosen := if current.None? then LeastKey(inferiors) else current;
    var s1 := s.(inferiors := inferiors, count := Some(count), current := chosen);
    Synchronize(if chosen.Some? then EnsureInferior(s1, chosen.value) else s1)
  }

  function RemoveInferior(s: Snapshot, id: nat): Snapshot {
    if id !in s.inferiors then s
    else
      var inferiors := s.inferiors - {id};
      var s1 := s.(inferiors := inferiors, count := Some(|inferiors|));
      Synchronize(
        if s.current == Some(id) then s1.(current := LeastKey(inferiors), thread := None, frame := None) else s1)
  }

  function Target(s: Snapshot, id: Option<nat>): nat {
    if id.Some? then id.value else if s.current.Some? then s.current.value else 1
  }

  function UpdateInferior(s: Snapshot, id: Option<nat>, inferior: Inferior): Snapshot {
    var target := Target(s, id);
    var s1 := RaiseCount(s.(current := if s.current.None? then Some(target) else s.current,
                            inferiors := s.inferiors[target := inferior]));
    if s1.current == Some(target) then s1.(top := inferior) else s1
  }

  function Trim<T>(items: seq<T>, limit: int): seq<T> {
    if limit < 1 then [] else if |items| > limit then items[|items| - limit..] else items
  }

  function RecordStop(s: Snapshot, event: StopEvent, limit: int): Snapshot {
    s.(lastStop := Some(event), history := Trim(s.history + [event], limit))
  }

  // ------------------------------------------------------------ whole runs

  datatype Operation =
    | OpBeginStartup
    | OpMarkReady
    | OpMarkFailed(message: string)
    | OpMarkStopped
    | OpSelectThread(thread: Option<int>)
    | OpSelectFrame(frame: Option<int>)
    | OpSelectInferior(selected: Option<nat>)
    | OpUpdateInventory(current: Option<nat>, count: int, ids: Option<seq<nat>>)
    | OpEnsureInferior(id: nat)
    | OpRemoveInferior(removed: nat)
    | OpUpdateInferior(target: Option<nat>, inferior: Inferior)
    | OpRecordStop(event: StopEvent, limit: int)

  function Apply(op: Operation, s: Snapshot): Snapshot {
    match op
    case OpBeginStartup => BeginStartup(s)
    case OpMarkReady => MarkReady(s)
    case OpMarkFailed(message) => MarkFailed(s, message)
    case OpMarkStopped => MarkStopped(s)
    case OpSelectThread(thread) => s.(thread := thread)
    case OpSelectFrame(frame) => s.(frame := frame)
    case OpSelectInferior(id) => SelectInferior(s, id)
    case OpUpdateInventory(current, count, ids) => UpdateInventory(s, current, count, ids)
    case OpEnsureInferior(id) => EnsureInferior(s, id)
    case OpRemoveInferior(id) => RemoveInferior(s, id)
    case OpUpdateInferior(id, inferior) => UpdateInferior(s, id, inferior)
    case OpRecordStop(event, limit) => RecordStop(s, event, limit)
  }

  function ApplyAll(ops: seq<Operation>, s: Snapshot): Snapshot {
    if ops == [] then s else Apply(ops[|ops| - 1], ApplyAll(ops[..|ops| - 1], s))
  }

  /** The top-level fields are the selected inferior's record, or the defaults
      when nothing is selected. */
  predicate Mirrors(s: Snapshot) {
    if s.current.None? then s.top == FRESH_INFERIOR
    else s.current.value in s.inferiors && s.top == s.inferiors[s.current.value]
  }

  lemma SynchronizeMirrors(s: Snapshot)
    ensures Mirrors(Synchronize(s))
  {
  }

  lemma EnsureMirrors(s: Snapshot, id: nat)
    requires Mirrors(s)
    ensures Mirrors(EnsureInferior(s, id))
  {
  }

  lemma UpdateMirrors(s: Snapshot, id: Option<nat>, inferior: Inferior)
    requires Mirrors(s)
    ensures Mirrors(UpdateInferior(s, id, inferior))
  {
  }

  lemma ReadyMirrors(s: Snapshot)
    requires Mirrors(s)
    ensures Mirrors(MarkReady(s))
  {
  }

  /** Every operation keeps the mirror. */
  lemma StepMirrors(op: Operation, s: Snapshot)
    requires Mirrors(s)
    ensures Mirrors(Apply(op, s))
  {
    match op
    case OpMarkReady => ReadyMirrors(s);
    case OpSelectInferior(id) =>
      var s1 := s.(current := id, thread := None, frame := None);
      SynchronizeMirrors(if id.Some? then EnsureInferior(s1, id.value) else s1);
    case OpUpdateInventory(current, count, ids) =>
      var inferiors := if ids.Some? then Restrict(s.inferiors, ids.value) else s.inferiors;
      var chosen := if current.None? then LeastKey(inferiors) else current;
      var s1 := s.(inferiors := inferiors, count := Some(count), current := chosen);
      SynchronizeMirrors(if chosen.Some? then EnsureInferior(s1, chosen.value) else s1);
    case OpEnsureInferior(id) => EnsureMirrors(s, id);
    case OpRemoveInferior(id) =>
      var inferiors := s.inferiors - {id};
      var s1 := s.(inferiors := inferiors, count := Some(|inferiors|));
      SynchronizeMirrors(
        if s.current == Some(id) then s1.(current := LeastKey(inferiors), thread := None, frame := None) else s1);
    case OpUpdateInferior(id, inferior) => UpdateMirrors(s, id, inferior);
    case OpRecordStop(_, _) =>
    case _ =>
  }

  /** In every state reachable by any sequence of operations the top-level fields
      mirror the selected inferior. */
  lemma {:induction false} RunMirrors(ops: seq<Operation>)
    ensures Mirrors(ApplyAll(ops, NEW_SESSION))
  {
    if ops == [] {
    } else {
      RunMirrors(ops[..|ops| - 1]);
      StepMirrors(ops[|ops| - 1], ApplyAll(ops[..|ops| - 1], NEW_SESSION));
    }
  }

  /** Updating an inferior that is not selected changes its record and no other,
      and leaves the top-level fields and the selection as they were. */
  lemma UnselectedUpdateIsLocal(s: Snapshot, id: nat, inferior: Inferior)
    requires Mirrors(s) && s.current.Some? && s.current != Some(id)
    ensures var t := UpdateInferior(s, Some(id), inferior);
            && t.top == s.top && t.current == s.current
            && t.inferiors == s.inferiors[id := inferior]
            && t.(inferiors := s.inferiors, count := s.count) == s
  {
  }

  lemma SynchronizeLocal(s: Snapshot, other: nat)
    requires other in s.inferiors
    ensures other in Synchronize(s).inferiors && Synchronize(s).inferiors[other] == s.inferiors[other]
  {
  }

  /** Adding, selecting or removing one inferior leaves the others' records alone. */
  lemma OthersUntouched(s: Snapshot, id: nat, other: nat)
    requires other != id && other in s.inferiors
    ensures other in EnsureInferior(s, id).inferiors && EnsureInferior(s, id).inferiors[other] == s.inferiors[other]
    ensures other in RemoveInferior(s, id).inferiors && RemoveInferior(s, id).inferiors[other] == s.inferiors[other]
    ensures other in SelectInferior(s, Some(id)).inferiors &&
            SelectInferior(s, Some(id)).inferiors[other] == s.inferiors[other]
  {
    var selected := EnsureInferior(s.(current := Some(id), thread := None, frame := None), id);
    SynchronizeLocal(selected, other);
    var s1 := s.(inferiors := s.inferiors - {id}, count := Some(|s.inferiors - {id}|));
    SynchronizeLocal(s1, other);
    SynchronizeLocal(s1.(current := LeastKey(s1.inferiors), thread := None, frame := None), other);
  }

  // ------------------------------------------------ what each operation leaves

  /** The record of an inferior, or that of one nothing is known about. */
  function RecordOf(inferiors: map<nat, Inferior>, id: nat): Inferior {
    if id in inferiors then inferiors[id] else Inferior(Unknown, None, None)
  }

  /** The known number, raised to the number of records if it was lower. */
  function AtLeast(count: Option<int>, records: int): Option<int> {
    if count.Some? && records <= count.value then count else Some(records)
  }

  /** Only the fields about inferiors differ. */
  predicate SameSession(s: Snapshot, t: Snapshot) {
    t.info == s.info && t.lastStop == s.lastStop && t.history == s.history
  }

  /** A known id that is the least of them, or none if there are none. */
  predicate SelectsLeast(selected: Option<nat>, known: set<nat>) {
    if known == {} then selected == None
    else selected.Some? && selected.value in known && forall id | id in known :: selected.value <= id
  }

  lemma EnsuredInferior(s: Snapshot, id: nat)
    ensures var t := EnsureInferior(s, id);
            && SameSession(s, t) && t.top == s.top && t.current == s.current && t.thread == s.thread
            && t.frame == s.frame
            && t.inferiors == (if id > 0 then s.inferiors[id := RecordOf(s.inferiors, id)] else s.inferiors)
            && t.count == (if id > 0 then AtLeast(s.count, |t.inferiors|) else s.count)
  {
  }

  lemma ShownInferior(s: Snapshot, id: nat)
    ensures var t := Synchronize(EnsureInferior(s.(current := Some(id)), id));
            && SameSession(s, t) && t.current == Some(id) && t.thread == s.thread && t.frame == s.frame
            && t.inferiors == s.inferiors[id := RecordOf(s.inferiors, id)] && t.top == RecordOf(s.inferiors, id)
            && t.count == (if id > 0 then AtLeast(s.count, |t.inferiors|) else s.count)
  {
    EnsuredInferior(s.(current := Some(id)), id);
    if id in s.inferiors {
      assert s.inferiors[id := s.inferiors[id]] == s.inferiors;
    }
  }

  lemma LeastKeySelects(inferiors: map<nat, Inferior>)
    ensures SelectsLeast(LeastKey(inferiors), inferiors.Keys)
  {
    assert inferiors == map[] <==> inferiors.Keys == {};
  }

  /** Selecting an inferior forgets the selected thread and frame, and shows its record,
      a new one if it was not known; selecting none shows the defaults. */
  lemma SelectedInferior(s: Snapshot, id: Option<nat>)
    ensures var t := SelectInferior(s, id);
            && SameSession(s, t) && t.current == id && t.thread == None && t.frame == None
            && (id.None? ==> t.inferiors == s.inferiors && t.count == s.count && t.top == Inferior(Unknown, None, None))
            && (id.Some? ==>
                  && t.inferiors == s.inferiors[id.value := RecordOf(s.inferiors, id.value)]
                  && t.top == RecordOf(s.inferiors, id.value)
                  && t.count == (if id.value > 0 then AtLeast(s.count, |t.inferiors|) else s.count))
  {
    if id.Some? {
      ShownInferior(s.(thread := None, frame := None), id.value);
    }
  }

  /** The records of the ids in a report, new ones for ids that were not known; all
      records as they are if the report has no ids. */
  function Reported(s: Snapshot, ids: Option<seq<nat>>): map<nat, Inferior> {
    if ids.None? then s.inferiors
    else map id | id in ids.value :: RecordOf(s.inferiors, id)
  }

  /** An inventory that reports a selected inferior selects it, and shows its record, a
      new one if it is not among the reported ids; records of other ids are forgotten.
      Thread and frame stay. */
  lemma InventoryWithSelection(s: Snapshot, id: nat, count: int, ids: Option<seq<nat>>)
    ensures var t, reported := UpdateInventory(s, Some(id), count, ids), Reported(s, ids);
            && SameSession(s, t) && t.thread == s.thread && t.frame == s.frame && t.current == Some(id)
            && t.inferiors == reported[id := RecordOf(reported, id)] && t.top == RecordOf(reported, id)
            && t.count == (if id > 0 then AtLeast(Some(count), |t.inferiors|) else Some(count))
  {
    RestrictIsReported(s, ids);
    ShownInferior(s.(inferiors := Reported(s, ids), count := Some(count)), id);
  }

  /** Without one it selects the least known inferior, and none if none is known. */
  lemma InventoryWithoutSelection(s: Snapshot, count: int, ids: Option<seq<nat>>)
    ensures var t, reported := UpdateInventory(s, None, count, ids), Reported(s, ids);
            && SameSession(s, t) && t.thread == s.thread && t.frame == s.frame
            && t.inferiors == reported && SelectsLeast(t.current, reported.Keys)
            && t.top == (if t.current.Some? then RecordOf(reported, t.current.value) else Inferior(Unknown, None, None))
            && t.count == (if t.current.Some? && t.current.value > 0 then AtLeast(Some(count), |reported|)
                           else Some(count))
  {
    var reported := Reported(s, ids);
    RestrictIsReported(s, ids);
    LeastKeySelects(reported);
    if LeastKey(reported).Some? {
      var id := LeastKey(reported).value;
      ShownInferior(s.(inferiors := reported, count := Some(count)), id);
      assert reported[id := RecordOf(reported, id)] == reported;
    }
  }

  lemma RestrictIsReported(s: Snapshot, ids: Option<seq<nat>>)
    ensures Reported(s, ids) == if ids.Some? then Restrict(s.inferiors, ids.value) else s.inferiors
  {
  }

  /** Removing the selected inferior selects the least one left, without thread and
      frame; removing another leaves the selection alone. */
  lemma RemovalLeaves(s: Snapshot, id: nat)
    requires Mirrors(s)
    ensures var t := RemoveInferior(s, id);
            if id !in s.inferiors then t == s
            else
              && SameSession(s, t)
              && t.inferiors == s.inferiors - {id} && t.count == Some(|t.inferiors|)
              && (s.current == Some(id) ==>
                    SelectsLeast(t.current, t.inferiors.Keys) && t.thread == None && t.frame == None)
              && (s.current != Some(id) ==>
                    t.current == s.current && t.thread == s.thread && t.frame == s.frame && t.top == s.top)
              && t.top == (if t.current.Some? then RecordOf(t.inferiors, t.current.value)
                           else Inferior(Unknown, None, None))
  {
  }

  /** A session that becomes ready has an inferior selected, 1 if none was, whose new
      record is what the session showed, and the fork settings GDB starts with. */
  lemma ReadyLeaves(s: Snapshot)
    ensures var t := MarkReady(s);
            var id := if s.current.Some? then s.current.value else 1;
            && t.info == Info(Ready, true, s.info.targetLoaded, s.info.attachedPid, None,
                              if s.info.followFork.Some? then s.info.followFork else Some(Parent),
                              if s.info.detachOnFork.Some? then s.info.detachOnFork else Some(true))
            && t.current == Some(id) && t.thread == s.thread && t.frame == s.frame
            && t.inferiors == s.inferiors[id := if id in s.inferiors then s.inferiors[id] else s.top]
            && t.top == t.inferiors[id]
            && t.count == (if s.count.Some? then s.count else Some(1))
            && t.lastStop == s.lastStop && t.history == s.history
  {
    if s.current.Some? && s.current.value in s.inferiors {
      assert s.inferiors[s.current.value := s.inferiors[s.current.value]] == s.inferiors;
    } else if s.current.None? && 1 in s.inferiors {
      assert s.inferiors[1 := s.inferiors[1]] == s.inferiors;
    }
  }

  /** Nothing is loaded, selected or known. */
  predicate IsBlank(t: Snapshot) {
    && !t.info.isRunning && !t.info.targetLoaded && t.info.attachedPid == None && t.info.followFork == None
    && t.info.detachOnFork == None
    && t.top == Inferior(Unknown, None, None) && t.thread == None && t.frame == None && t.current == None
    && t.count == None && t.inferiors == map[]
  }

  /** A failure and a stop clear everything but the histories and a startup these too;
      a failure leaves its message. */
  lemma ResetsLeave(s: Snapshot, message: string)
    ensures var failed, stopped, starting := MarkFailed(s, message), MarkStopped(s), BeginStartup(s);
            && IsBlank(failed) && failed.info.state == Failed && failed.info.failure == Some(message)
            && IsBlank(stopped) && stopped.info.state == Closed && stopped.info.failure == None
            && IsBlank(starting) && starting.info.state == Starting && starting.info.failure == None
            && failed.lastStop == stopped.lastStop == s.lastStop && failed.history == stopped.history == s.history
            && starting.lastStop == None && starting.history == []
  {
  }

  /** An update writes the record of the named inferior, of the selected one if none is
      named, and of 1 if none is selected; an inferior is selected by it only if none
      was, and shown if it is the selected one. */
  lemma UpdateLeaves(s: Snapshot, id: Option<nat>, inferior: Inferior)
    ensures var t := UpdateInferior(s, id, inferior);
            var target := if id.Some? then id.value else if s.current.Some? then s.current.value else 1;
            && SameSession(s, t) && t.thread == s.thread && t.frame == s.frame
            && t.inferiors == s.inferiors[target := inferior]
            && t.current == (if s.current.Some? then s.current else Some(target))
            && t.top == (if t.current == Some(target) then inferior else s.top)
            && t.count == AtLeast(s.count, |t.inferiors|)
  {
  }

  // ------------------------------------------------------------ the object

  class InferiorRecord {
    ghost const owner: nat // the one inferior this record belongs to
    var execution: ExecutionState
    var stopReason: Option<string>
    var exitCode: Option<int>

    constructor (ghost id: nat, inferior: Inferior)
      ensures owner == id && Value() == inferior
    {
      owner := id;
      execution, stopReason, exitCode := inferior.execution, inferior.stopReason, inferior.exitCode;
    }

    function Value(): Inferior
      reads this
    {
      Inferior(execution, stopReason, exitCode)
    }
  }

  /** The dictionary of record objects, one object per inferior. */
  class InferiorTable {
    var records: map<nat, InferiorRecord>
    ghost var contents: map<nat, Inferior> // what the record objects hold
    ghost var repr: set<object>

    /** Each record object belongs to the inferior it is filed under, and
        `contents` is what the objects hold. */
    ghost predicate Valid()
      reads this, repr
    {
      && this !in repr
      && (forall id :: id in contents <==> id in records)
      && (forall id | id in records ::
            records[id] in repr && records[id].owner == id && records[id].Value() == contents[id])
    }

    /** No two inferiors share a record object. */
    lemma NoAliasing(i: nat, j: nat)
      requires Valid() && i in records && j in records && i != j
      ensures records[i] != records[j]
    {
      assert records[i].owner != records[j].owner;
    }

    constructor ()
      ensures Valid() && contents == map[] && fresh(repr)
    {
      records, contents, repr := map[], map[], {};
    }

    method Clear()
      requires Valid()
      modifies this
      ensures Valid() && repr == old(repr) && contents == map[]
    {
      records, contents := map[], map[];
    }

    method Size() returns (n: nat)
      requires Valid()
      ensures n == |contents|
    {
      assert records.Keys == contents.Keys;
      assert |records| == |records.Keys| && |contents| == |contents.Keys|;
      n := |records|;
    }

    /** The smallest key, if there is one. */
    method First() returns (id: Option<nat>)
      requires Valid()
      ensures id == LeastKey(contents)
    {
      assert records.Keys == contents.Keys;
      id := if records == map[] then None else Some(Least(records.Keys));
    }

    method Read(id: nat) returns (inferior: Inferior)
      requires Valid() && id in contents
      ensures inferior == contents[id]
    {
      inferior := records[id].Value();
    }

    method Has(id: nat) returns (known: bool)
      requires Valid()
      ensures known <==> id in contents
    {
      known := id in records;
    }

    /** Files a new record object for an inferior that has none. */
    method File(id: nat, inferior: Inferior)
      requires Valid()
      modifies this
      ensures Valid() && forall o | o in repr :: o in old(repr) || fresh(o)
      ensures contents == if id in old(contents) then old(contents) else old(contents)[id := inferior]
    {
      if id !in records {
        var record := new InferiorRecord(id, inferior);
        records, contents, repr := records[id := record], contents[id := inferior], repr + {record};
      }
    }

    /** Updates the record object of an inferior in place. */
    method Overwrite(id: nat, inferior: Inferior)
      requires Valid() && id in contents
      modifies this`contents, repr
      ensures Valid() && contents == old(contents)[id := inferior]
    {
      var record := records[id];
      record.execution, record.stopReason := inferior.execution, inferior.stopReason;
      record.exitCode := inferior.exitCode;
      contents := contents[id := inferior];
    }

    method Put(id: nat, inferior: Inferior)
      requires Valid()
      modifies this, repr
      ensures Valid() && forall o | o in repr :: o in old(repr) || fresh(o)
      ensures contents == old(contents)[id := inferior]
    {
      File(id, FRESH_INFERIOR);
      Overwrite(id, inferior);
      assert contents == old(contents)[id := inferior];
    }

    method Delete(id: nat)
      requires Valid()
      modifies this
      ensures Valid() && repr == old(repr) && contents == old(contents) - {id}
    {
      records, contents := records - {id}, contents - {id};
    }

    /** Rebuilds the table for a list of ids, keeping the objects already known. */
    method Rebuild(ids: seq<nat>)
      requires Valid()
      modifies this
      ensures Valid() && forall o | o in repr :: o in old(repr) || fresh(o)
      ensures contents == Restrict(old(contents), ids)
    {
      var rebuilt: map<nat, InferiorRecord> := map[];
      ghost var objects := repr;
      for i := 0 to |ids|
        invariant records == old(records) && contents == old(contents) && repr == old(repr) && Valid()
        invariant repr <= objects && fresh(objects - repr) && this !in objects
        invariant forall id :: id in rebuilt <==> id in ids[..i]
        invariant forall id | id in rebuilt :: Rebuilt(id, rebuilt[id], objects)
      {
        if ids[i] in records {
          rebuilt := rebuilt[ids[i] := records[ids[i]]];
        } else {
          var record := new InferiorRecord(ids[i], FRESH_INFERIOR);
          rebuilt, objects := rebuilt[ids[i] := record], objects + {record};
        }
        assert ids[..i + 1] == ids[..i] + [ids[i]];
      }
      assert ids[..|ids|] == ids;
      records, contents, repr := rebuilt, Restrict(contents, ids), objects;
    }

    ghost predicate Rebuilt(id: nat, record: InferiorRecord, objects: set<object>)
      reads this, record
    {
      record in objects && record.owner == id &&
      record.Value() == if id in contents then contents[id] else FRESH_INFERIOR
    }
  }

  class Runtime {
    var info: Info
    var top: Inferior
    var thread: Option<int>
    var frame: Option<int>
    var current: Option<nat>
    var count: Option<int>
    const table: InferiorTable
    var lastStop: Option<StopEvent>
    var history: seq<StopEvent>
    const historyLimit: int

    ghost predicate Valid()
      reads this, table, table.repr
    {
      this !in table.repr && table.Valid()
    }

    ghost function View(): Snapshot
      reads this, table
    {
      Snapshot(info, top, thread, frame, current, count, table.contents, lastStop, history)
    }

    constructor (limit: int)
      ensures Valid() && View() == NEW_SESSION && historyLimit == limit && fresh(table) && fresh(table.repr)
    {
      info, top, lastStop, history := NEW_INFO, FRESH_INFERIOR, None, [];
      thread, frame, current, count := None, None, None, None;
      table := new InferiorTable();
      historyLimit := limit;
    }

    /** `_synchronize_selected_state`. */
    method SynchronizeSelected()
      requires Valid()
      modifies this`top, table
      ensures Valid() && forall o | o in table.repr :: o in old(table.repr) || fresh(o)
      ensures View() == Synchronize(old(View()))
    {
      if current.None? {
        top := FRESH_INFERIOR;
        return;
      }
      table.File(current.value, FRESH_INFERIOR);
      top := table.Read(current.value);
    }

    /** `_reset_transient`, with the state and message its caller has just set. */
    method Reset(state: SessionState, failure: Option<string>)
      requires Valid()
      modifies this, table
      ensures Valid() && forall o | o in table.repr :: o in old(table.repr) || fresh(o)
      ensures View() == ResetTransient(old(View()), state, failure)
    {
      info, top := Info(state, false, false, None, failure, None, None), FRESH_INFERIOR;
      thread, frame, current, count := None, None, None, None;
      table.Clear();
    }

    method BeginStarting()
      requires Valid()
      modifies this, table
      ensures Valid() && forall o | o in table.repr :: o in old(table.repr) || fresh(o)
      ensures View() == BeginStartup(old(View()))
    {
      Reset(Starting, None);
      lastStop, history := None, [];
    }

    method BecomeReady()
      requires Valid()
      modifies this, table
      ensures Valid() && forall o | o in table.repr :: o in old(table.repr) || fresh(o)
      ensures View() == MarkReady(old(View()))
    {
      info := info.(state := Ready, isRunning := true, failure := None,
                    followFork := if info.followFork.None? then Some(Parent) else info.followFork,
                    detachOnFork := if info.detachOnFork.None? then Some(true) else info.detachOnFork);
      SelectFirstInferior();
      SynchronizeSelected();
    }

    /** Without a selection inferior 1 is selected; its record starts as a copy of
        the top-level fields. */
    method SelectFirstInferior()
      requires Valid()
      modifies this`current, this`count, table
      ensures Valid() && forall o | o in table.repr :: o in old(table.repr) || fresh(o)
      ensures View() == var s := old(View());
                        var id := if s.current.None? then 1 else s.current.value;
                        s.(current := Some(id), count := if s.count.None? then Some(1) else s.count,
                           inferiors := if id in s.inferiors then s.inferiors else s.inferiors[id := s.top])
    {
      current := if current.None? then Some(1) else current;
      count := if count.None? then Some(1) else count;
      table.File(current.value, top);
    }

    method Fail(message: string)
      requires Valid()
      modifies this, table
      ensures Valid() && forall o | o in table.repr :: o in old(table.repr) || fresh(o)
      ensures View() == MarkFailed(old(View()), message)
    {
      Reset(Failed, Some(message));
    }

    method Close()
      requires Valid()
      modifies this, table
      ensures Valid() && forall o | o in table.repr :: o in old(table.repr) || fresh(o)
      ensures View() == MarkStopped(old(View()))
    {
      Reset(Closed, None);
    }

    /** The count never stays below the number of records. */
    method RaiseCountToSize()
      requires Valid()
      modifies this`count
      ensures Valid() && forall o | o in table.repr :: o in old(table.repr) || fresh(o)
      ensures View() == RaiseCount(old(View()))
    {
      var size := table.Size();
      if count.None? || count.value < size {
        count := Some(size);
      }
    }

    method Ensure(id: nat)
      requires Valid()
      modifies this`count, table
      ensures Valid() && forall o | o in table.repr :: o in old(table.repr) || fresh(o)
      ensures View() == EnsureInferior(old(View()), id)
    {
      if id == 0 {
        return;
      }
      table.File(id, FRESH_INFERIOR);
      RaiseCountToSize();
    }

    method Select(id: Option<nat>)
      requires Valid()
      modifies this, table
      ensures Valid() && forall o | o in table.repr :: o in old(table.repr) || fresh(o)
      ensures View() == SelectInferior(old(View()), id)
    {
      current, thread, frame := id, None, None;
      SettleSelection();
    }

    /** Gives the selected inferior a record, then copies it to the top. */
    method SettleSelection()
      requires Valid()
      modifies this`top, this`count, table
      ensures Valid() && forall o | o in table.repr :: o in old(table.repr) || fresh(o)
      ensures View() == var s := old(View());
                        Synchronize(if s.current.Some? then EnsureInferior(s, s.current.value) else s)
    {
      if current.Some? {
        Ensure(current.value);
      }
      SynchronizeSelected();
    }

    /** `update_inferior_inventory`: the table is rebuilt from the known record objects. */
    method Inventory(selected: Option<nat>, total: int, ids: Option<seq<nat>>)
      requires Valid()
      modifies this, table
      ensures Valid() && forall o | o in table.repr :: o in old(table.repr) || fresh(o)
      ensures View() == UpdateInventory(old(View()), selected, total, ids)
    {
      ReplaceTable(selected, total, ids);
      SettleSelection();
    }

    method ReplaceTable(selected: Option<nat>, total: int, ids: Option<seq<nat>>)
      requires Valid()
      modifies this`current, this`count, table
      ensures Valid() && forall o | o in table.repr :: o in old(table.repr) || fresh(o)
      ensures View() == var s := old(View());
                        var inferiors := if ids.Some? then Restrict(s.inferiors, ids.value) else s.inferiors;
                        s.(inferiors := inferiors, count := Some(total),
                           current := if selected.None? then LeastKey(inferiors) else selected)
    {
      if ids.Some? {
        table.Rebuild(ids.value);
      }
      current, count := selected, Some(total);
      if current.None? {
        current := table.First();
      }
    }

    method Remove(id: nat)
      requires Valid()
      modifies this, table
      ensures Valid() && forall o | o in table.repr :: o in old(table.repr) || fresh(o)
      ensures View() == RemoveInferior(old(View()), id)
    {
      var known := table.Has(id);
      if !known {
        return;
      }
      DropRecord(id);
      LeaveRemoved(id);
      SynchronizeSelected();
    }

    method DropRecord(id: nat)
      requires Valid()
      modifies this`count, table
      ensures Valid() && table.repr == old(table.repr)
      ensures View() == var s := old(View());
                        s.(inferiors := s.inferiors - {id}, count := Some(|s.inferiors - {id}|))
    {
      table.Delete(id);
      var size := table.Size();
      count := Some(size);
    }

    /** Selects the smallest remaining inferior when the removed one was selected. */
    method LeaveRemoved(id: nat)
      requires Valid()
      modifies this`current, this`thread, this`frame
      ensures Valid()
      ensures View() == var s := old(View());
                        if s.current == Some(id) then
                          s.(current := LeastKey(s.inferiors), thread := None, frame := None)
                        else s
    {
      if current == Some(id) {
        var first := table.First();
        current, thread, frame := first, None, None;
      }
    }

    /** `_update_inferior_state`: the record object is updated in place. */
    method Update(id: Option<nat>, inferior: Inferior)
      requires Valid()
      modifies this, table, table.repr
      ensures Valid() && forall o | o in table.repr :: o in old(table.repr) || fresh(o)
      ensures View() == UpdateInferior(old(View()), id, inferior)
    {
      if current.None? {
        current := Some(if id.Some? then id.value else 1);
      }
      var target := if id.Some? then id.value else current.value;
      table.Put(target, inferior);
      ghost var s0 := old(View());
      assert View() == s0.(current := if s0.current.None? then Some(target) else s0.current,
                           inferiors := s0.inferiors[target := inferior]);
      RaiseCountToSize();
      if current == Some(target) {
        top := inferior;
      }
    }

    /** `record_stop_event` with `_trim_history`. */
    method Record(event: StopEvent)
      requires Valid()
      modifies this`lastStop, this`history
      ensures Valid() && forall o | o in table.repr :: o in old(table.repr) || fresh(o)
      ensures View() == RecordStop(old(View()), event, historyLimit)
    {
      lastStop := Some(event);
      history := history + [event];
      if historyLimit < 1 {
        history := [];
        return;
      }
      var overflow := |history| - historyLimit;
      if overflow > 0 {
        history := history[overflow..];
      }
    }
  }
}
