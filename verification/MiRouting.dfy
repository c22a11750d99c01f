/** Where each record of an exchange ends up, said without the polling loop: by
    its own token and by the last result the command had received before it. */
module MiRouting {
  import opened Options
  import opened MiRecords
  import opened MiExchange

  /** The class of the last own result among the records, if there is one. */
  function OwnClass(token: int, records: seq<Record>): Option<Message> {
    if records == [] then None
    else
      var last := records[|records| - 1];
      if last.kind.Result? && last.token == Some(token) then Some(last.message)
      else OwnClass(token, records[..|records| - 1])
  }

  /** A stop that arrives while the command's own result is `running`. */
  predicate IsDeferredStop(token: int, records: seq<Record>, i: nat)
    requires i < |records|
  {
    && records[i].kind.Notify? && records[i].message == Stopped && records[i].token != Some(token)
    && OwnClass(token, records[..i]) == Some(Running)
  }

  predicate ToCommand(token: int, records: seq<Record>, i: nat)
    requires i < |records|
  {
    || records[i].token == Some(token)
    || (records[i].token == None && !records[i].kind.Notify?)
    || IsDeferredStop(token, records, i)
  }

  /** The records at the marked positions, in order. */
  function Select(records: seq<Record>, marks: seq<bool>): seq<Record>
    requires |marks| == |records|
  {
    if records == [] then []
    else
      var n := |records| - 1;
      var rest := Select(records[..n], marks[..n]);
      if marks[n] then rest + [records[n]] else rest
  }

  function Marks(token: int, records: seq<Record>): (m: seq<bool>)
    ensures |m| == |records|
  {
    seq(|records|, i requires 0 <= i < |records| => ToCommand(token, records, i))
  }

  function Flip(marks: seq<bool>): (m: seq<bool>)
    ensures |m| == |marks|
  {
    seq(|marks|, i requires 0 <= i < |marks| => !marks[i])
  }

  lemma MarksInit(token: int, records: seq<Record>)
    requires records != []
    ensures Marks(token, records)[..|records| - 1] == Marks(token, records[..|records| - 1])
    ensures Flip(Marks(token, records))[..|records| - 1] == Flip(Marks(token, records[..|records| - 1]))
  {
    var n := |records| - 1;
    forall i | 0 <= i < n ensures ToCommand(token, records, i) == ToCommand(token, records[..n], i) {
      assert records[..n][..i] == records[..i];
    }
  }

  lemma PrefixStops(token: int, records: seq<Record>, n: nat)
    requires n <= |records|
    ensures forall i | 0 <= i < n :: IsDeferredStop(token, records[..n], i) == IsDeferredStop(token, records, i)
  {
    forall i | 0 <= i < n ensures IsDeferredStop(token, records[..n], i) == IsDeferredStop(token, records, i) {
      assert records[..n][..i] == records[..i];
    }
  }

  /** What the loop's flags mean. */
  lemma {:induction false} CollectedFlags(token: int, records: seq<Record>)
    ensures var c := AbsorbAll(token, NOTHING, records);
            && (c.sawResult <==> OwnClass(token, records).Some?)
            && (c.sawResult ==> c.resultClass == OwnClass(token, records).value)
            && (c.sawStop <==> exists i | 0 <= i < |records| :: IsDeferredStop(token, records, i))
  {
    if records == [] {
    } else {
      var n := |records| - 1;
      CollectedFlags(token, records[..n]);
      PrefixStops(token, records, n);
      var before, after := AbsorbAll(token, NOTHING, records[..n]), AbsorbAll(token, NOTHING, records);
      assert after.sawStop <==> before.sawStop || IsDeferredStop(token, records, n);
      if before.sawStop {
        var i :| 0 <= i < n && IsDeferredStop(token, records[..n], i);
        assert IsDeferredStop(token, records, i);
      }
      forall i | 0 <= i < |records| && IsDeferredStop(token, records, i) ensures after.sawStop {
        if i < n {
          assert IsDeferredStop(token, records[..n], i);
        }
      }
    }
  }

  lemma Routed(token: int, c: Collected, r: Record)
    ensures var d := Absorb(token, c, r);
            if || r.token == Some(token) || (r.token == None && !r.kind.Notify?)
               || (r.kind.Notify? && c.sawResult && c.resultClass == Running && r.message == Stopped)
            then d.command == c.command + [r] && d.async == c.async
            else d.command == c.command && d.async == c.async + [r]
  {
  }

  /** The command and asynchronous lists partition the records read and keep their
      arrival order: they are the marked records and the others. */
  lemma {:induction false} RoutingPartitions(token: int, records: seq<Record>)
    ensures var c := AbsorbAll(token, NOTHING, records);
            && c.command == Select(records, Marks(token, records))
            && c.async == Select(records, Flip(Marks(token, records)))
  {
    if records == [] {
    } else {
      var n := |records| - 1;
      RoutingPartitions(token, records[..n]);
      MarksInit(token, records);
      CollectedFlags(token, records[..n]);
      var before := AbsorbAll(token, NOTHING, records[..n]);
      Routed(token, before, records[n]);
      assert ToCommand(token, records, n) <==>
             || records[n].token == Some(token) || (records[n].token == None && !records[n].kind.Notify?)
             || (records[n].kind.Notify? && before.sawResult && before.resultClass == Running &&
                 records[n].message == Stopped);
    }
  }

  lemma {:induction false} SelectPartitions(records: seq<Record>, marks: seq<bool>)
    requires |marks| == |records|
    ensures multiset(Select(records, marks)) + multiset(Select(records, Flip(marks))) == multiset(records)
  {
    if records == [] {
    } else {
      var n := |records| - 1;
      SelectPartitions(records[..n], marks[..n]);
      assert Flip(marks)[..n] == Flip(marks[..n]);
      assert records == records[..n] + [records[n]];
    }
  }

  lemma {:induction false} SelectMembers(records: seq<Record>, marks: seq<bool>)
    requires |marks| == |records|
    ensures forall r | r in Select(records, marks) :: exists i | 0 <= i < |records| :: marks[i] && records[i] == r
  {
    if records == [] {
    } else {
      var n := |records| - 1;
      SelectMembers(records[..n], marks[..n]);
      forall r | r in Select(records, marks) ensures exists i | 0 <= i < |records| :: marks[i] && records[i] == r {
        if r in Select(records[..n], marks[..n]) {
          var i :| 0 <= i < n && marks[..n][i] && records[..n][i] == r;
          assert marks[i] && records[i] == r;
        } else {
          assert marks[n] && records[n] == r;
        }
      }
    }
  }

  /** A result bearing another command's token never reaches the parsed result. */
  lemma ForeignResultsAreDropped(token: int, records: seq<Record>)
    ensures forall r | r in AbsorbAll(token, NOTHING, records).command && r.kind.Result? ::
              r.token == Some(token) || r.token == None
  {
    RoutingPartitions(token, records);
    SelectMembers(records, Marks(token, records));
  }

  /** The result the session layer works with: the last one with the own token or
      none. */
  function Answer(token: int, records: seq<Record>): Option<Record> {
    if records == [] then None
    else
      var last := records[|records| - 1];
      if last.kind.Result? && (last.token == Some(token) || last.token == None) then Some(last)
      else Answer(token, records[..|records| - 1])
  }

  lemma {:induction false} ParsedIsAnswer(token: int, records: seq<Record>)
    ensures HasResult(Parse(AbsorbAll(token, NOTHING, records).command), Answer(token, records))
  {
    if records == [] {
    } else {
      var n := |records| - 1;
      ParsedIsAnswer(token, records[..n]);
      ParsedResultStep(token, AbsorbAll(token, NOTHING, records[..n]), records[n]);
    }
  }

  lemma ParsedResultStep(token: int, c: Collected, r: Record)
    ensures var before, after := Parse(c.command), Parse(Absorb(token, c, r).command);
            if r.kind.Result? && (r.token == Some(token) || r.token == None) then HasResult(after, Some(r))
            else after.result == before.result && after.resultClass == before.resultClass
  {
    var d := Absorb(token, c, r);
    if d.command != c.command {
      assert d.command == c.command + [r];
      assert d.command[..|d.command| - 1] == c.command;
    }
  }

  /** The own result at `k` is followed by no result without a token. */
  predicate UnreplacedFrom(token: int, records: seq<Record>, k: nat) {
    && k < |records| && IsOwnResult(token, records[k])
    && forall i | k < i < |records| :: !(records[i].kind.Result? && records[i].token == None)
  }

  /** What the parsed result is, and exactly when it is the command's own: when some
      own result is followed by no result without a token. */
  lemma ParsedResultIsOwnIff(token: int, records: seq<Record>)
    ensures var answer := Answer(token, records);
            && HasResult(Parse(AbsorbAll(token, NOTHING, records).command), answer)
            && (answer.Some? && answer.value.token == Some(token) <==>
                exists k: nat :: UnreplacedFrom(token, records, k))
  {
    ParsedIsAnswer(token, records);
    AnswerIsOwnIff(token, records);
  }

  lemma {:induction false} AnswerIsOwnIff(token: int, records: seq<Record>)
    ensures var answer := Answer(token, records);
            answer.Some? && answer.value.token == Some(token) <==> exists k: nat :: UnreplacedFrom(token, records, k)
  {
    if records == [] {
    } else {
      var n := |records| - 1;
      AnswerIsOwnIff(token, records[..n]);
      forall k: nat | k < n && !(records[n].kind.Result? && records[n].token == None)
        ensures UnreplacedFrom(token, records, k) <==> UnreplacedFrom(token, records[..n], k)
      {
      }
      if IsOwnResult(token, records[n]) {
        assert UnreplacedFrom(token, records, n);
      } else {
        assert forall k: nat | UnreplacedFrom(token, records, k) :: k < n;
        assert forall k: nat | UnreplacedFrom(token, records[..n], k) :: k < n;
      }
    }
  }

  /** Results always carry the token of their command. */
  predicate ResultsCarryTokens(records: seq<Record>) {
    forall r | r in records :: r.kind.Result? ==> r.token.Some?
  }

  /** Then the parsed response has the class of the command's own last result. */
  lemma ParsedClassIsOwn(token: int, records: seq<Record>)
    requires ResultsCarryTokens(records)
    ensures var parsed := Parse(AbsorbAll(token, NOTHING, records).command);
            parsed.resultClass == if OwnClass(token, records).Some? then OwnClass(token, records).value else NoMessage
  {
    ParsedIsAnswer(token, records);
    AnswerIsOwn(token, records);
  }

  lemma {:induction false} AnswerIsOwn(token: int, records: seq<Record>)
    requires ResultsCarryTokens(records)
    ensures var answer := Answer(token, records);
            && (answer.Some? <==> OwnClass(token, records).Some?)
            && (answer.Some? ==>
                  answer.value.token == Some(token) && Some(answer.value.message) == OwnClass(token, records))
  {
    if records == [] {
    } else {
      var n := |records| - 1;
      assert records[n] in records;
      assert ResultsCarryTokens(records[..n]);
      AnswerIsOwn(token, records[..n]);
    }
  }

  /** Without tokens on all results it is false: a result without a token that
      follows the own result replaces it. */
  lemma UntokenizedResultReplacesOwn(token: int)
    ensures var own := Record(Result, Some(token), Running, NoPayload);
            var stray := Record(Result, None, Error, NoPayload);
            var c := AbsorbAll(token, NOTHING, [own, stray]);
            && c.resultClass == Running && OwnClass(token, [own, stray]) == Some(Running)
            && Parse(c.command).resultClass == Error
  {
    var own := Record(Result, Some(token), Running, NoPayload);
    var stray := Record(Result, None, Error, NoPayload);
    assert [own, stray][..1] == [own] && [own][..0] == [];
    assert AbsorbAll(token, NOTHING, []) == NOTHING;
    var one := AbsorbAll(token, NOTHING, [own]);
    assert one == Absorb(token, NOTHING, own);
    var two := AbsorbAll(token, NOTHING, [own, stray]);
    assert two == Absorb(token, one, stray);
    assert two.command == [own, stray];
  }

  // ------------------------------------------------------ when a command returns

  /** The records answer the command: its last own result is there, and if that is
      `running` a stop came while it was. */
  predicate Answered(token: int, records: seq<Record>) {
    && OwnClass(token, records).Some?
    && (OwnClass(token, records) == Some(Running) ==>
          exists i | 0 <= i < |records| :: IsDeferredStop(token, records, i))
  }

  lemma AnsweredIsComplete(token: int, records: seq<Record>)
    ensures Answered(token, records) <==> Complete(AbsorbAll(token, NOTHING, records))
  {
    CollectedFlags(token, records);
  }

  predicate AnsweredAt(token: int, turns: seq<Turn>, n: nat) {
    n <= |turns| && Clean(turns[..n]) && Answered(token, Stream(turns[..n]))
  }

  /** When a command returns, said without the polling loop: plainly exactly when some
      clean prefix of the turns answers it, and by a timeout exactly when all turns
      are clean and none of their prefixes does. */
  lemma PlainReturnIff(token: int, turns: seq<Turn>)
    ensures var out := Run(token, NOTHING, turns);
            && (out.Done? <==> exists n: nat :: AnsweredAt(token, turns, n))
            && (out.TimedOut? <==> Clean(turns) && forall n: nat :: !AnsweredAt(token, turns, n))
  {
    ExchangeOutcome(token, NOTHING, turns);
    forall n: nat ensures AnsweredAt(token, turns, n) <==> CompletesAt(token, NOTHING, turns, n) {
      if n <= |turns| {
        AnsweredIsComplete(token, Stream(turns[..n]));
      }
    }
  }

  // --------------------------------------------------------- the deferred stop

  /** Asynchronous records carry no token. */
  predicate NotificationsUntokenized(records: seq<Record>) {
    forall r | r in records && r.kind.Notify? :: r.token == None
  }

  /** The notifications of the records that are not stops, in arrival order. */
  function OtherNotices(records: seq<Record>): seq<Notice> {
    if records == [] then []
    else
      var rest := OtherNotices(records[..|records| - 1]);
      var last := records[|records| - 1];
      if last.kind.Notify? && last.message != Stopped then rest + [Notice(last.message, last.payload)] else rest
  }

  function Unstopped(notices: seq<Notice>): seq<Notice> {
    if notices == [] then []
    else
      var rest := Unstopped(notices[..|notices| - 1]);
      if notices[|notices| - 1].message != Stopped then rest + [notices[|notices| - 1]] else rest
  }

  lemma {:induction false} UnstoppedAppend(xs: seq<Notice>, ys: seq<Notice>)
    ensures Unstopped(xs + ys) == Unstopped(xs) + Unstopped(ys)
  {
    if ys == [] {
      assert xs + ys == xs;
    } else {
      UnstoppedAppend(xs, ys[..|ys| - 1]);
      assert (xs + ys)[..|xs + ys| - 1] == xs + ys[..|ys| - 1];
    }
  }

  /** The stops deferred to the command, in arrival order. */
  function DeferredStops(token: int, records: seq<Record>): seq<Notice> {
    if records == [] then []
    else
      var n := |records| - 1;
      var rest := DeferredStops(token, records[..n]);
      if IsDeferredStop(token, records, n) then rest + [Notice(Stopped, records[n].payload)] else rest
  }

  lemma {:induction false} NoticesAppend(xs: seq<Record>, r: Record)
    ensures Notices(xs + [r]) == Notices(xs) + if r.kind.Notify? then [Notice(r.message, r.payload)] else []
  {
    assert (xs + [r])[..|xs|] == xs;
  }

  /** What the session layer sees of the notifications: among the command's own
      records just the deferred stops, and every other notification, in arrival
      order, among the asynchronous ones. */
  lemma {:induction false} NoticesOfExchange(token: int, records: seq<Record>)
    requires NotificationsUntokenized(records)
    ensures var c := AbsorbAll(token, NOTHING, records);
            && Notices(c.command) == DeferredStops(token, records)
            && Unstopped(Notices(c.async)) == OtherNotices(records)
  {
    if records == [] {
    } else {
      var n := |records| - 1;
      var before := AbsorbAll(token, NOTHING, records[..n]);
      assert records[n] in records;
      assert NotificationsUntokenized(records[..n]);
      NoticesOfExchange(token, records[..n]);
      CollectedFlags(token, records[..n]);
      NextNotice(token, before, records[n]);
      assert AbsorbAll(token, NOTHING, records) == Absorb(token, before, records[n]);
    }
  }

  /** The notifications that are no deferred stops, in arrival order. */
  function Undeferred(token: int, records: seq<Record>): seq<Notice> {
    if records == [] then []
    else
      var n := |records| - 1;
      var rest := Undeferred(token, records[..n]);
      if records[n].kind.Notify? && !IsDeferredStop(token, records, n)
      then rest + [Notice(records[n].message, records[n].payload)] else rest
  }

  lemma NextUndeferred(token: int, c: Collected, r: Record)
    requires r.kind.Notify? ==> r.token == None
    ensures var deferred := c.sawResult && c.resultClass == Running && r.message == Stopped;
            Notices(Absorb(token, c, r).async) ==
            Notices(c.async) + (if r.kind.Notify? && !deferred then [Notice(r.message, r.payload)] else [])
  {
    NoticesAppend(c.async, r);
  }

  /** And these are exactly the ones among the asynchronous records. */
  lemma {:induction false} AsyncNotices(token: int, records: seq<Record>)
    requires NotificationsUntokenized(records)
    ensures Notices(AbsorbAll(token, NOTHING, records).async) == Undeferred(token, records)
  {
    if records != [] {
      var n := |records| - 1;
      assert records[n] in records;
      assert NotificationsUntokenized(records[..n]);
      AsyncNotices(token, records[..n]);
      CollectedFlags(token, records[..n]);
      NextUndeferred(token, AbsorbAll(token, NOTHING, records[..n]), records[n]);
    }
  }

  lemma NextNotice(token: int, c: Collected, r: Record)
    requires r.kind.Notify? ==> r.token == None
    ensures var d := Absorb(token, c, r);
            var deferred := r.kind.Notify? && c.sawResult && c.resultClass == Running && r.message == Stopped;
            && Notices(d.command) == Notices(c.command) + (if deferred then [Notice(Stopped, r.payload)] else [])
            && Unstopped(Notices(d.async)) ==
               Unstopped(Notices(c.async)) +
                 (if r.kind.Notify? && r.message != Stopped then [Notice(r.message, r.payload)] else [])
  {
    NextCommandNotice(token, c, r);
    NextAsyncNotice(token, c, r);
  }

  lemma NextCommandNotice(token: int, c: Collected, r: Record)
    requires r.kind.Notify? ==> r.token == None
    ensures var deferred := r.kind.Notify? && c.sawResult && c.resultClass == Running && r.message == Stopped;
            Notices(Absorb(token, c, r).command) ==
            Notices(c.command) + (if deferred then [Notice(Stopped, r.payload)] else [])
  {
    NoticesAppend(c.command, r);
  }

  lemma {:induction false} NextAsyncNotice(token: int, c: Collected, r: Record)
    requires r.kind.Notify? ==> r.token == None
    ensures Unstopped(Notices(Absorb(token, c, r).async)) ==
            Unstopped(Notices(c.async)) +
            (if r.kind.Notify? && r.message != Stopped then [Notice(r.message, r.payload)] else [])
  {
    var d := Absorb(token, c, r);
    if d.async != c.async {
      assert d.async == c.async + [r];
      UnstoppedNotices(c.async, r);
    }
  }

  lemma {:induction false} UnstoppedNotices(xs: seq<Record>, r: Record)
    ensures Unstopped(Notices(xs + [r])) ==
            Unstopped(Notices(xs)) +
            (if r.kind.Notify? && r.message != Stopped then [Notice(r.message, r.payload)] else [])
  {
    NoticesAppend(xs, r);
    if r.kind.Notify? {
      UnstoppedSnoc(Notices(xs), Notice(r.message, r.payload));
    } else {
      assert Notices(xs) + [] == Notices(xs);
    }
  }

  lemma UnstoppedSnoc(xs: seq<Notice>, note: Notice)
    ensures Unstopped(xs + [note]) == Unstopped(xs) + if note.message != Stopped then [note] else []
  {
    assert (xs + [note])[..|xs|] == xs;
  }

  /** The first deferred stop: the first stop after the own `running` result. */
  lemma {:induction false} FirstDeferredStop(token: int, records: seq<Record>, k: nat)
    requires k < |records| && IsDeferredStop(token, records, k)
    requires forall i | 0 <= i < k :: !IsDeferredStop(token, records, i)
    ensures DeferredStops(token, records) != []
    ensures DeferredStops(token, records)[0] == Notice(Stopped, records[k].payload)
  {
    var n := |records| - 1;
    PrefixStops(token, records, n);
    if k < n {
      FirstDeferredStop(token, records[..n], k);
    } else {
      NoDeferredStop(token, records[..n]);
    }
  }

  lemma {:induction false} NoDeferredStop(token: int, records: seq<Record>)
    requires forall i | 0 <= i < |records| :: !IsDeferredStop(token, records, i)
    ensures DeferredStops(token, records) == []
  {
    if records == [] {
    } else {
      var n := |records| - 1;
      PrefixStops(token, records, n);
      NoDeferredStop(token, records[..n]);
    }
  }
}
