/** Building GDB/MI command text (src/gdb_mcp/transport/mi_commands.py), and the
    reader of c-strings from the manual's "GDB/MI Input Syntax" that undoes it. */
module MiCommands {
  import opened Options

  // ------------------------------------------------------------ writing

  function EscapeChar(c: char): string {
    match c
    case '\\' => "\\\\"
    case '\"' => "\\\""
    case '\n' => "\\n"
    case '\r' => "\\r"
    case '\t' => "\\t"
    case _ => [c]
  }

  function Escape(value: string): string {
    if value == "" then "" else Escape(value[..|value| - 1]) + EscapeChar(value[|value| - 1])
  }

  /** `escape_mi_string`. */
  method EscapeMiString(value: string) returns (escaped: string)
    ensures escaped == Escape(value)
  {
    escaped := "";
    for i := 0 to |value|
      invariant escaped == Escape(value[..i])
    {
      assert value[..i + 1][..i] == value[..i];
      escaped := escaped + EscapeChar(value[i]);
    }
    assert value[..|value|] == value;
  }

  function Quote(value: string): string {
    "\"" + Escape(value) + "\""
  }

  function JoinQuoted(args: seq<string>): string {
    if args == [] then ""
    else if |args| == 1 then Quote(args[0])
    else Quote(args[0]) + " " + JoinQuoted(args[1..])
  }

  const EXEC_ARGUMENTS: string := "-exec-arguments"
  const INTERPRETER: string := "-interpreter-exec console "

  function BuildExecArguments(args: seq<string>): string {
    var encoded := JoinQuoted(args);
    if encoded != "" then EXEC_ARGUMENTS + " " + encoded else EXEC_ARGUMENTS
  }

  function WrapCliCommand(command: string): string {
    INTERPRETER + Quote(command)
  }

  // ------------------------------------------------------------ reading

  function Unescape(c: char): Option<char> {
    match c
    case '\\' => Some('\\')
    case '\"' => Some('\"')
    case 'n' => Some('\n')
    case 'r' => Some('\r')
    case 't' => Some('\t')
    case _ => None
  }

  /** Reads the inside of a c-string up to its closing quote: the characters and
      what follows. */
  function ReadBody(text: string): Option<(string, string)> {
    if text == "" then None
    else if text[0] == '\"' then Some(("", text[1..]))
    else if text[0] == '\\' then
      if |text| < 2 || Unescape(text[1]).None? then None
      else
        var rest := ReadBody(text[2..]);
        if rest.None? then None else Some(([Unescape(text[1]).value] + rest.value.0, rest.value.1))
    else
      var rest := ReadBody(text[1..]);
      if rest.None? then None else Some(([text[0]] + rest.value.0, rest.value.1))
  }

  function ReadCString(text: string): (r: Option<(string, string)>)
    ensures r.Some? ==> |r.value.1| < |text|
  {
    if text == "" || text[0] != '\"' then None
    else
      BodyConsumes(text[1..]);
      ReadBody(text[1..])
  }

  lemma {:induction false} BodyConsumes(text: string)
    ensures ReadBody(text).Some? ==> |ReadBody(text).value.1| < |text|
  {
    if text != "" && text[0] != '\"' {
      if text[0] == '\\' {
        if |text| >= 2 {
          BodyConsumes(text[2..]);
        }
      } else {
        BodyConsumes(text[1..]);
      }
    }
  }

  /** Reads c-strings separated by one space, to the end of the text. */
  function ReadCStrings(text: string): Option<seq<string>>
    decreases |text|
  {
    var first := ReadCString(text);
    if first.None? then None
    else if first.value.1 == "" then Some([first.value.0])
    else if first.value.1[0] != ' ' then None
    else
      var rest := ReadCStrings(first.value.1[1..]);
      if rest.None? then None else Some([first.value.0] + rest.value)
  }

  function ReadExecArguments(text: string): Option<seq<string>> {
    var word := "-exec-arguments";
    if text == word then Some([])
    else if word + " " <= text then ReadCStrings(text[|word| + 1..])
    else None
  }

  function ReadCliCommand(text: string): Option<string> {
    var words := "-interpreter-exec console ";
    if !(words <= text) then None
    else
      var read := ReadCString(text[|words|..]);
      if read.Some? && read.value.1 == "" then Some(read.value.0) else None
  }

  // ------------------------------------------------------------ round trips

  lemma {:induction false} EscapeFirst(value: string)
    requires value != ""
    ensures Escape(value) == EscapeChar(value[0]) + Escape(value[1..])
  {
    if |value| > 1 {
      var init := value[..|value| - 1];
      EscapeFirst(init);
      assert init[1..] == value[1..][..|value| - 2];
      assert Escape(value[1..]) == Escape(init[1..]) + EscapeChar(value[|value| - 1]);
    } else {
      assert value[..0] == "" && value[1..] == "";
    }
  }

  lemma ReadEscapedChar(c: char, rest: string)
    ensures ReadBody(EscapeChar(c) + rest) ==
            (var tail := ReadBody(rest); if tail.None? then None else Some(([c] + tail.value.0, tail.value.1)))
  {
    var text := EscapeChar(c) + rest;
    if |EscapeChar(c)| == 2 {
      assert text[0] == '\\' && text[1] == EscapeChar(c)[1] && text[2..] == rest;
    } else {
      assert text[0] == c && text[1..] == rest;
    }
  }

  /** Reading an escaped string to its closing quote gives it back. */
  lemma {:induction false} ReadsBack(value: string, rest: string)
    ensures ReadBody(Escape(value) + "\"" + rest) == Some((value, rest))
  {
    if value == "" {
      var text := Escape(value) + "\"" + rest;
      assert text[0] == '\"' && text[1..] == rest;
    } else {
      EscapeFirst(value);
      ReadsBack(value[1..], rest);
      var tail := Escape(value[1..]) + "\"" + rest;
      assert Escape(value) + "\"" + rest == EscapeChar(value[0]) + tail;
      ReadEscapedChar(value[0], tail);
      assert value == [value[0]] + value[1..];
    }
  }

  lemma QuoteReadsBack(value: string, rest: string)
    ensures ReadCString(Quote(value) + rest) == Some((value, rest))
  {
    var text := Quote(value) + rest;
    assert text[0] == '\"' && text[1..] == Escape(value) + "\"" + rest;
    ReadsBack(value, rest);
  }

  lemma ReadsOneMore(text: string, value: string, rest: string)
    requires ReadCString(text) == Some((value, " " + rest)) && ReadCStrings(rest).Some?
    ensures ReadCStrings(text) == Some([value] + ReadCStrings(rest).value)
  {
    assert (" " + rest)[1..] == rest;
  }

  lemma {:induction false} JoinReadsBack(args: seq<string>)
    requires args != []
    ensures ReadCStrings(JoinQuoted(args)) == Some(args)
  {
    if |args| == 1 {
      QuoteReadsBack(args[0], "");
      assert Quote(args[0]) + "" == JoinQuoted(args);
      assert args == [args[0]];
    } else {
      var rest := JoinQuoted(args[1..]);
      QuoteReadsBack(args[0], " " + rest);
      assert JoinQuoted(args) == Quote(args[0]) + (" " + rest);
      JoinReadsBack(args[1..]);
      ReadsOneMore(JoinQuoted(args), args[0], rest);
      assert args == [args[0]] + args[1..];
    }
  }

  /** Parsing a built `-exec-arguments` command recovers every argument list. */
  lemma ExecArgumentsRoundTrip(args: seq<string>)
    ensures ReadExecArguments(BuildExecArguments(args)) == Some(args)
  {
    if args != [] {
      JoinReadsBack(args);
      var encoded := JoinQuoted(args);
      assert encoded != "";
      var text := EXEC_ARGUMENTS + " " + encoded;
      assert text[|EXEC_ARGUMENTS| + 1..] == encoded;
      assert |text| > |EXEC_ARGUMENTS|;
    }
  }

  /** Parsing a wrapped command recovers every command. */
  lemma CliCommandRoundTrip(command: string)
    ensures ReadCliCommand(WrapCliCommand(command)) == Some(command)
  {
    var text := WrapCliCommand(command);
    assert text[|INTERPRETER|..] == Quote(command) + "";
    QuoteReadsBack(command, "");
  }

  /** Free of the characters that would end the command line, and of tabs. */
  predicate OneLine(text: string) {
    '\n' !in text && '\r' !in text && '\t' !in text
  }

  lemma {:induction false} EscapeOneLine(value: string)
    ensures OneLine(Escape(value))
  {
    if value != "" {
      EscapeOneLine(value[..|value| - 1]);
    }
  }

  lemma {:induction false} JoinOneLine(args: seq<string>)
    ensures OneLine(JoinQuoted(args))
  {
    if args == [] {
    } else {
      EscapeOneLine(args[0]);
      JoinOneLine(args[1..]);
    }
  }

  /** The built commands are single lines, whatever the strings hold. */
  lemma CommandsAreOneLine(args: seq<string>, command: string)
    ensures OneLine(BuildExecArguments(args)) && OneLine(WrapCliCommand(command))
  {
    assert OneLine(EXEC_ARGUMENTS) && OneLine(INTERPRETER);
    JoinOneLine(args);
    assert OneLine(Quote(command)) by {
      EscapeOneLine(command);
    }
  }
}
