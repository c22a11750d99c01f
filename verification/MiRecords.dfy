/** GDB/MI records as the transport reads them, and their grouping into one
    parsed response (src/gdb_mcp/transport/mi_parser.py). */
module MiRecords {
  import opened Options

  datatype Kind = Result | Notify | Console | Log | Output | OtherKind(name: string)

  /** The `message` of a record: the words the code compares with, any other
      text, or no text at all. */
  datatype Message =
    | NoMessage
    | Running | Stopped | Error
    | GroupAdded | GroupStarted | GroupExited | GroupRemoved
    | Word(text: string)

  /** A payload after narrowing. A mapping keeps the fields the session layer
      reads, each already parsed (`None` when missing or unusable). */
  datatype Payload =
    | NoPayload
    | Text(text: string)
    | Details(id: Option<nat>, threadGroup: Option<nat>, reason: Option<string>, exitCode: Option<int>,
              threadId: Option<int>, frameLevel: Option<int>)

  datatype Record = Record(kind: Kind, token: Option<int>, message: Message, payload: Payload)

  datatype Notice = Notice(message: Message, payload: Payload)

  datatype Parsed = Parsed(console: seq<Payload>, log: seq<Payload>, output: seq<Payload>,
                           result: Payload, resultClass: Message, notify: seq<Notice>)

  const EMPTY_PARSED: Parsed := Parsed([], [], [], NoPayload, NoMessage, [])

  function ParseOne(p: Parsed, r: Record): Parsed {
    match r.kind
    case Console => p.(console := p.console + [r.payload])
    case Log => p.(log := p.log + [r.payload])
    case Output => p.(output := p.output + [r.payload])
    case Result => p.(result := r.payload, resultClass := r.message)
    case Notify => p.(notify := p.notify + [Notice(r.message, r.payload)])
    case OtherKind(_) => p
  }

  function Parse(records: seq<Record>): Parsed {
    if records == [] then EMPTY_PARSED
    else ParseOne(Parse(records[..|records| - 1]), records[|records| - 1])
  }

  method ParseMiResponses(responses: seq<Record>) returns (parsed: Parsed)
    ensures parsed == Parse(responses)
  {
    parsed := EMPTY_PARSED;
    for i := 0 to |responses|
      invariant parsed == Parse(responses[..i])
    {
      assert responses[..i + 1][..i] == responses[..i];
      parsed := ParseOne(parsed, responses[i]);
    }
    assert responses[..|responses|] == responses;
  }

  /** The notifications of a list of records, in order. */
  function Notices(records: seq<Record>): seq<Notice> {
    if records == [] then []
    else
      var rest := Notices(records[..|records| - 1]);
      var last := records[|records| - 1];
      if last.kind.Notify? then rest + [Notice(last.message, last.payload)] else rest
  }

  lemma {:induction false} ParsedNotices(records: seq<Record>)
    ensures Parse(records).notify == Notices(records)
  {
    if records == [] {
    } else {
      ParsedNotices(records[..|records| - 1]);
    }
  }

  /** The last result among the records. */
  function LastResult(records: seq<Record>): Option<Record> {
    if records == [] then None
    else if records[|records| - 1].kind.Result? then Some(records[|records| - 1])
    else LastResult(records[..|records| - 1])
  }

  /** The parsed response has the given result, or none. */
  predicate HasResult(parsed: Parsed, result: Option<Record>) {
    if result.None? then parsed.result == NoPayload && parsed.resultClass == NoMessage
    else parsed.result == result.value.payload && parsed.resultClass == result.value.message
  }

  /** The parsed result is the last result record. */
  lemma {:induction false} ParsedResultIsLast(records: seq<Record>)
    ensures HasResult(Parse(records), LastResult(records))
  {
    if records == [] {
    } else {
      ParsedResultIsLast(records[..|records| - 1]);
    }
  }

  /** The payloads of the records of one kind, in order. */
  function PayloadsOf(records: seq<Record>, kind: Kind): seq<Payload> {
    if records == [] then []
    else
      var rest := PayloadsOf(records[..|records| - 1], kind);
      if records[|records| - 1].kind == kind then rest + [records[|records| - 1].payload] else rest
  }

  /** Console, log and output payloads go to their own lists, each in order of arrival. */
  lemma {:induction false} ParsedStreams(records: seq<Record>)
    ensures var parsed := Parse(records);
            && parsed.console == PayloadsOf(records, Console)
            && parsed.log == PayloadsOf(records, Log)
            && parsed.output == PayloadsOf(records, Output)
  {
    if records != [] {
      ParsedStreams(records[..|records| - 1]);
    }
  }
}
