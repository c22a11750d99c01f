/** One command over the GDB/MI stream: token matching, the split of the stream
    into command and asynchronous records, and the deferred stop
    (src/gdb_mcp/transport/mi_client.py). */
module MiExchange {
  import opened Options
  import opened MiRecords

  // ------------------------------------------------------- record by record

  /** What the polling loop has collected. */
  datatype Collected = Collected(command: seq<Record>, async: seq<Record>, sawResult: bool,
                                 resultClass: Message, sawStop: bool)

  const NOTHING: Collected := Collected([], [], false, NoMessage, false)

  predicate IsOwnResult(token: int, r: Record) {
    r.kind.Result? && r.token == Some(token)
  }

  function Absorb(token: int, c: Collected, r: Record): Collected {
    if IsOwnResult(token, r) then
      c.(command := c.command + [r], resultClass := r.message, sawResult := true)
    else if r.token == Some(token) then c.(command := c.command + [r])
    else if r.kind.Notify? && c.sawResult && c.resultClass == Running && r.message == Stopped then
      c.(command := c.command + [r], sawStop := true)
    else if r.token == None && !r.kind.Notify? then c.(command := c.command + [r])
    else c.(async := c.async + [r])
  }

  function AbsorbAll(token: int, c: Collected, records: seq<Record>): Collected {
    if records == [] then c
    else Absorb(token, AbsorbAll(token, c, records[..|records| - 1]), records[|records| - 1])
  }

  predicate Complete(c: Collected) {
    c.sawResult && (c.resultClass != Running || c.sawStop)
  }

  lemma {:induction false} AbsorbAppend(token: int, c: Collected, xs: seq<Record>, ys: seq<Record>)
    ensures AbsorbAll(token, c, xs + ys) == AbsorbAll(token, AbsorbAll(token, c, xs), ys)
  {
    if ys == [] {
      assert xs + ys == xs;
    } else {
      AbsorbAppend(token, c, xs, ys[..|ys| - 1]);
      assert (xs + ys)[..|xs + ys| - 1] == xs + ys[..|ys| - 1];
    }
  }

  // ------------------------------------------------------------ poll by poll

  predicate IsSubstring(needle: string, text: string) {
    needle <= text || (text != "" && IsSubstring(needle, text[1..]))
  }

  function Lower(text: string): string {
    seq(|text|, i requires 0 <= i < |text| =>
      if 'A' <= text[i] <= 'Z' then (text[i] as int + 32) as char else text[i])
  }

  predicate IsFatal(r: Record) {
    && (r.kind.Console? || r.kind.Log?)
    && r.payload.Text?
    && (IsSubstring("internal-error", Lower(r.payload.text)) ||
        IsSubstring("fatal error internal to gdb", Lower(r.payload.text)))
  }

  /** The text holds the word at this place, in any case. */
  predicate SaysAt(text: string, word: string, i: nat) {
    && i + |word| <= |text|
    && forall j | 0 <= j < |word| ::
         if 'A' <= text[i + j] <= 'Z' then text[i + j] as int + 32 == word[j] as int else text[i + j] == word[j]
  }

  predicate Says(text: string, word: string) {
    exists i: nat | i <= |text| :: SaysAt(text, word, i)
  }

  predicate HoldsAt(text: string, word: string, i: nat) {
    i + |word| <= |text| && text[i..i + |word|] == word
  }

  lemma HoldsLater(text: string, word: string, i: nat)
    requires text != ""
    ensures HoldsAt(text, word, i + 1) <==> HoldsAt(text[1..], word, i)
  {
    if i + |word| < |text| {
      assert text[1..][i..i + |word|] == text[i + 1..i + 1 + |word|];
    }
  }

  lemma {:induction false} SubstringIff(word: string, text: string)
    ensures IsSubstring(word, text) <==> exists i: nat | i <= |text| :: HoldsAt(text, word, i)
  {
    assert word <= text <==> HoldsAt(text, word, 0) by {
      assert |word| <= |text| ==> text[0..0 + |word|] == text[..|word|];
    }
    if text != "" {
      SubstringIff(word, text[1..]);
      if i: nat :| i <= |text[1..]| && HoldsAt(text[1..], word, i) {
        HoldsLater(text, word, i);
      }
      if i: nat :| i <= |text| && HoldsAt(text, word, i) {
        if i > 0 {
          HoldsLater(text, word, i - 1);
        }
      }
    }
  }

  lemma SaysIff(word: string, text: string)
    ensures IsSubstring(word, Lower(text)) <==> Says(text, word)
  {
    SubstringIff(word, Lower(text));
    forall i: nat ensures HoldsAt(Lower(text), word, i) <==> SaysAt(text, word, i) {
      if i + |word| <= |text| {
        var part := Lower(text)[i..i + |word|];
        assert part == word <==> forall j | 0 <= j < |word| :: part[j] == word[j];
      }
    }
  }

  /** GDB is given up exactly on a console or log text that speaks of an internal error
      in one of these two ways. */
  lemma FatalIff(r: Record)
    ensures IsFatal(r) <==>
            && (r.kind == Console || r.kind == Log) && r.payload.Text?
            && (Says(r.payload.text, "internal-error") || Says(r.payload.text, "fatal error internal to gdb"))
  {
    if r.payload.Text? {
      SaysIff("internal-error", r.payload.text);
      SaysIff("fatal error internal to gdb", r.payload.text);
    }
  }

  /** One turn of the polling loop: whether a liveness check found GDB gone, then
      what the read gave. An empty batch is an idle poll. */
  datatype Turn = Turn(gone: bool, read: Read)
  datatype Read = Broken | Batch(records: seq<Record>)

  /** `ExitRaised` is the exception of a controller whose exit raises: it escapes in
      place of the fatal response. */
  datatype Outcome =
    | NoSession
    | NotSent
    | Done(collected: Collected)
    | TimedOut(collected: Collected)
    | Dead(collected: Collected)
    | ExitRaised

  predicate Fatal(o: Outcome) {
    o.NotSent? || o.Dead?
  }

  function BeforeFatal(records: seq<Record>): seq<Record> {
    if records == [] || IsFatal(records[0]) then [] else [records[0]] + BeforeFatal(records[1..])
  }

  predicate Survives(records: seq<Record>) {
    forall r | r in records :: !IsFatal(r)
  }

  /** The exchange as a function of what the turns bring; running out of turns is
      the timeout. */
  function Run(token: int, c: Collected, turns: seq<Turn>): (outcome: Outcome)
    ensures outcome.Done? || outcome.TimedOut? || outcome.Dead?
    decreases |turns|
  {
    if turns == [] then TimedOut(c)
    else if turns[0].gone || turns[0].read.Broken? then Dead(c)
    else
      var records := turns[0].read.records;
      if !Survives(records) then Dead(AbsorbAll(token, c, BeforeFatal(records)))
      else
        var c' := AbsorbAll(token, c, records);
        if records != [] && Complete(c') then Done(c') else Run(token, c', turns[1..])
  }

  /** What sending one command gives: the turns' outcome, unless the command cannot be
      written; dropping the controller may raise instead of a fatal response. */
  function Exchange(token: int, writes: bool, turns: seq<Turn>, exitRaises: bool): Outcome {
    var outcome := if writes then Run(token, NOTHING, turns) else NotSent;
    if Fatal(outcome) && exitRaises then ExitRaised else outcome
  }

  class MiClient {
    var hasController: bool
    var commandToken: int

    constructor (initialToken: int)
      ensures !hasController && commandToken == initialToken
    {
      hasController, commandToken := false, initialToken;
    }

    /** `_exit_unlocked`: the controller is dropped whether or not its exit raises. */
    method Exit(exitRaises: bool) returns (raised: bool)
      modifies this`hasController
      ensures !hasController
      ensures raised == (old(hasController) && exitRaises)
    {
      raised := hasController && exitRaises;
      hasController := false;
    }

    /** Dropping the controller on a fatal outcome. */
    method Abandon(fatal: Outcome, exitRaises: bool) returns (outcome: Outcome)
      requires hasController && Fatal(fatal)
      modifies this`hasController
      ensures !hasController && outcome == if exitRaises then ExitRaised else fatal
    {
      var raised := Exit(exitRaises);
      outcome := if raised then ExitRaised else fatal;
    }

    /** `send_command_and_wait_for_prompt`. The loop invariant `!Complete(c)` is why
        the return on an idle poll is never taken. */
    method SendCommandAndWait(writes: bool, turns: seq<Turn>, exitRaises: bool) returns (outcome: Outcome)
      modifies this
      ensures old(hasController) ==>
                commandToken == old(commandToken) + 1 &&
                outcome == Exchange(old(commandToken), writes, turns, exitRaises)
      ensures !old(hasController) ==> commandToken == old(commandToken) && outcome == NoSession
      ensures hasController == (old(hasController) && !Fatal(outcome) && !outcome.ExitRaised?)
    {
      if !hasController {
        return NoSession;
      }
      var token := commandToken;
      commandToken := commandToken + 1;
      if !writes {
        outcome := Abandon(NotSent, exitRaises);
        return;
      }
      var c := NOTHING;
      for i := 0 to |turns|
        invariant hasController && commandToken == token + 1
        invariant !Complete(c)
        invariant Run(token, NOTHING, turns) == Run(token, c, turns[i..])
      {
        assert turns[i..][1..] == turns[i + 1..];
        if turns[i].gone || turns[i].read.Broken? {
          outcome := Abandon(Dead(c), exitRaises);
          return;
        }
        var records := turns[i].read.records;
        if records == [] {
          if Complete(c) {
            assert false; // the source returns here
          }
          continue;
        }
        var survived;
        c, survived := Collect(token, c, records);
        if !survived {
          outcome := Abandon(Dead(c), exitRaises);
          return;
        }
        if Complete(c) {
          return Done(c);
        }
      }
      outcome := TimedOut(c);
    }

    /** The loop over one batch. */
    static method Collect(token: int, start: Collected, records: seq<Record>) returns (c: Collected, survived: bool)
      ensures survived == Survives(records)
      ensures c == AbsorbAll(token, start, if survived then records else BeforeFatal(records))
    {
      c := start;
      for i := 0 to |records|
        invariant c == AbsorbAll(token, start, records[..i])
        invariant Survives(records[..i])
      {
        assert records[..i + 1] == records[..i] + [records[i]];
        if IsFatal(records[i]) {
          BeforeFatalIs(records, i);
          return c, false;
        }
        c := Absorb(token, c, records[i]);
      }
      assert records[..|records|] == records;
      survived := true;
    }
  }

  lemma {:induction false} BeforeFatalIs(records: seq<Record>, k: nat)
    requires k < |records| && IsFatal(records[k]) && Survives(records[..k])
    ensures BeforeFatal(records) == records[..k]
  {
    if k == 0 {
    } else {
      assert records[..k][0] == records[0];
      forall r | r in records[1..][..k - 1] ensures r in records[..k] {
      }
      BeforeFatalIs(records[1..], k - 1);
      assert records[..k] == [records[0]] + records[1..][..k - 1];
    }
  }

  // ----------------------------------------------------- the whole exchange

  /** The records the turns bring, in arrival order. */
  function Stream(turns: seq<Turn>): seq<Record> {
    if turns == [] then []
    else (if turns[0].read.Batch? then turns[0].read.records else []) + Stream(turns[1..])
  }

  predicate Clean(turns: seq<Turn>) {
    forall t | t in turns :: !t.gone && t.read.Batch? && Survives(t.read.records)
  }

  /** The command is answered by what the first `n` turns brought. */
  predicate CompletesAt(token: int, c: Collected, turns: seq<Turn>, n: nat) {
    n <= |turns| && Clean(turns[..n]) && Complete(AbsorbAll(token, c, Stream(turns[..n])))
  }

  lemma CompletesLater(token: int, c: Collected, turns: seq<Turn>, n: nat)
    requires turns != [] && n < |turns| && Clean(turns[..1])
    ensures Stream(turns[..n + 1]) == turns[0].read.records + Stream(turns[1..][..n])
    ensures var c' := AbsorbAll(token, c, turns[0].read.records);
            CompletesAt(token, c, turns, n + 1) <==> CompletesAt(token, c', turns[1..], n)
  {
    assert turns[..n + 1] == [turns[0]] + turns[1..][..n];
    assert turns[..n + 1][1..] == turns[1..][..n];
    assert turns[0] in turns[..1];
    AbsorbAppend(token, c, turns[0].read.records, Stream(turns[1..][..n]));
    assert forall t | t in turns[..n + 1] :: t == turns[0] || t in turns[1..][..n];
    assert forall t | t in turns[1..][..n] :: t in turns[..n + 1];
  }

  /** A plain return happens exactly when the command is answered at the end of
      some turn, at the first such turn, with everything read until then; a
      timeout happens exactly when every turn is clean and none answers it. */
  lemma {:induction false} ExchangeOutcome(token: int, c: Collected, turns: seq<Turn>)
    requires !Complete(c)
    ensures var out := Run(token, c, turns);
            && (out.Done? <==> exists n: nat :: CompletesAt(token, c, turns, n))
            && (out.TimedOut? <==> Clean(turns) && forall n: nat :: !CompletesAt(token, c, turns, n))
            && (out.TimedOut? ==> out.collected == AbsorbAll(token, c, Stream(turns)))
            && (out.Done? ==>
                  exists n: nat ::
                    && CompletesAt(token, c, turns, n)
                    && (forall m: nat | m < n :: !CompletesAt(token, c, turns, m))
                    && out.collected == AbsorbAll(token, c, Stream(turns[..n])))
    decreases |turns|
  {
    assert !CompletesAt(token, c, turns, 0) by {
      assert turns[..0] == [];
    }
    if turns == [] || turns[0].gone || turns[0].read.Broken? || !Survives(turns[0].read.records) {
      NothingCompletes(token, c, turns);
    } else {
      assert Clean(turns[..1]);
      var records := turns[0].read.records;
      var c' := AbsorbAll(token, c, records);
      CompletesLater(token, c, turns, 0);
      assert turns[1..][..0] == [];
      assert CompletesAt(token, c', turns[1..], 0) <==> Complete(c');
      assert CompletesAt(token, c, turns, 1) <==> Complete(c');
      if Complete(c') {
        assert Stream(turns[..1]) == records;
      } else {
        ExchangeOutcome(token, c', turns[1..]);
        OutcomeOneTurnLater(token, c, turns);
        forall n: nat | CompletesAt(token, c, turns, n) ensures n > 0 && CompletesAt(token, c', turns[1..], n - 1) {
          assert (n - 1) + 1 == n;
        }
      }
    }
  }

  /** A command is lost exactly when it cannot be written, or some turn is not clean and
      none before it answers the command; a raising exit then escapes. */
  lemma LostIff(token: int, writes: bool, turns: seq<Turn>, exitRaises: bool)
    ensures var out := Exchange(token, writes, turns, exitRaises);
            var lost := !writes || (!Clean(turns) && forall n: nat :: !CompletesAt(token, NOTHING, turns, n));
            && (out.NotSent? <==> !writes && !exitRaises)
            && (Fatal(out) <==> lost && !exitRaises)
            && (out.ExitRaised? <==> lost && exitRaises)
            && !out.NoSession?
  {
    ExchangeOutcome(token, NOTHING, turns);
  }

  lemma NothingCompletes(token: int, c: Collected, turns: seq<Turn>)
    requires !Complete(c)
    requires turns == [] || turns[0].gone || turns[0].read.Broken? || !Survives(turns[0].read.records)
    ensures forall n: nat :: !CompletesAt(token, c, turns, n)
    ensures turns != [] ==> !Clean(turns)
  {
    forall n: nat | n <= |turns| ensures !CompletesAt(token, c, turns, n) {
      if n > 0 {
        assert turns[..n][0] == turns[0];
      }
    }
  }

  lemma OutcomeOneTurnLater(token: int, c: Collected, turns: seq<Turn>)
    requires turns != [] && Clean(turns[..1])
    ensures var c' := AbsorbAll(token, c, turns[0].read.records);
            && (forall n: nat :: CompletesAt(token, c', turns[1..], n) <==> CompletesAt(token, c, turns, n + 1))
            && (forall n: nat | n < |turns| ::
                  AbsorbAll(token, c, Stream(turns[..n + 1])) == AbsorbAll(token, c', Stream(turns[1..][..n])))
            && AbsorbAll(token, c, Stream(turns)) == AbsorbAll(token, c', Stream(turns[1..]))
            && (Clean(turns) <==> Clean(turns[1..]))
  {
    assert turns[0] in turns[..1];
    var records := turns[0].read.records;
    forall n: nat | n < |turns|
      ensures CompletesAt(token, AbsorbAll(token, c, records), turns[1..], n) <==> CompletesAt(token, c, turns, n + 1)
      ensures AbsorbAll(token, c, Stream(turns[..n + 1])) ==
              AbsorbAll(token, AbsorbAll(token, c, records), Stream(turns[1..][..n]))
    {
      CompletesLater(token, c, turns, n);
      AbsorbAppend(token, c, records, Stream(turns[1..][..n]));
    }
    AbsorbAppend(token, c, records, Stream(turns[1..]));
    assert turns == [turns[0]] + turns[1..];
  }
}
