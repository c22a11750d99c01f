/** The stdin line pump (src/gdb_mcp/mcp/stdio_input.py): bytes come in chunks,
    lines go out, and the chunking does not show. */
module StdinPump {

  type Byte = bv8

  const NEWLINE: Byte := 10

  /** What the pump puts on its queue: a line, or the end marker. */
  datatype Item = Line(bytes: seq<Byte>) | End

  function Concat(chunks: seq<seq<Byte>>): seq<Byte> {
    if chunks == [] then [] else Concat(chunks[..|chunks| - 1]) + chunks[|chunks| - 1]
  }

  /** The input cut after every newline: the complete lines, and what is left. */
  function Lines(input: seq<Byte>): seq<seq<Byte>> {
    if input == [] then []
    else
      var init := input[..|input| - 1];
      if input[|input| - 1] == NEWLINE then Lines(init) + [Rest(init) + [NEWLINE]] else Lines(init)
  }

  function Rest(input: seq<Byte>): seq<Byte> {
    if input == [] then []
    else if input[|input| - 1] == NEWLINE then []
    else Rest(input[..|input| - 1]) + [input[|input| - 1]]
  }

  /** Everything the pump emits for a whole input. */
  function Emitted(input: seq<Byte>): seq<Item> {
    AsItems(Lines(input)) + (if Rest(input) != [] then [Line(Rest(input))] else []) + [End]
  }

  function AsItems(lines: seq<seq<Byte>>): seq<Item> {
    seq(|lines|, i requires 0 <= i < |lines| => Line(lines[i]))
  }

  lemma {:induction false} LinesAppend(a: seq<Byte>, b: seq<Byte>)
    ensures Lines(a + b) == Lines(a) + Lines(Rest(a) + b)
    ensures Rest(a + b) == Rest(Rest(a) + b)
  {
    if b == [] {
      assert a + b == a && Rest(a) + b == Rest(a);
      RestHasNoNewline(a);
      NoNewlineNoLines(Rest(a));
    } else {
      var init, last := b[..|b| - 1], b[|b| - 1];
      LinesAppend(a, init);
      assert (a + b)[..|a + b| - 1] == a + init;
      assert (Rest(a) + b)[..|Rest(a) + b| - 1] == Rest(a) + init;
    }
  }

  lemma {:induction false} RestHasNoNewline(input: seq<Byte>)
    ensures NEWLINE !in Rest(input)
  {
    if input != [] && input[|input| - 1] != NEWLINE {
      RestHasNoNewline(input[..|input| - 1]);
    }
  }

  lemma {:induction false} NoNewlineNoLines(input: seq<Byte>)
    requires NEWLINE !in input
    ensures Lines(input) == [] && Rest(input) == input
  {
    if input == [] {
    } else {
      NoNewlineNoLines(input[..|input| - 1]);
      assert input == input[..|input| - 1] + [input[|input| - 1]];
    }
  }

  /** `bytes.split(b"\\n")` of one buffer: the pieces before each newline, and the
      piece after the last. */
  method SplitBuffer(buffer: seq<Byte>) returns (pieces: seq<seq<Byte>>, rest: seq<Byte>)
    ensures |pieces| == |Lines(buffer)|
    ensures forall i | 0 <= i < |pieces| :: pieces[i] + [NEWLINE] == Lines(buffer)[i]
    ensures rest == Rest(buffer)
  {
    pieces, rest := [], [];
    for i := 0 to |buffer|
      invariant |pieces| == |Lines(buffer[..i])| && rest == Rest(buffer[..i])
      invariant forall j | 0 <= j < |pieces| :: pieces[j] + [NEWLINE] == Lines(buffer[..i])[j]
    {
      assert buffer[..i + 1][..i] == buffer[..i];
      if buffer[i] == NEWLINE {
        pieces, rest := pieces + [rest], [];
      } else {
        rest := rest + [buffer[i]];
      }
    }
    assert buffer[..|buffer|] == buffer;
  }

  /** `queue` is what reaches the consumer of `items`: all of them, or those before the
      first one it refuses. The consumer decides by position. */
  ghost predicate Delivered(queue: seq<Item>, items: seq<Item>, accepts: nat -> bool) {
    && queue <= items
    && (forall i | 0 <= i < |queue| :: accepts(i))
    && (|queue| < |items| ==> !accepts(|queue|))
  }

  /** Emits the pieces as lines, newline included, until one is refused. */
  method EmitAll(queue: seq<Item>, pieces: seq<seq<Byte>>, ghost lines: seq<seq<Byte>>, accepts: nat -> bool)
    returns (longer: seq<Item>, ok: bool)
    requires |pieces| == |lines| && forall i | 0 <= i < |pieces| :: pieces[i] + [NEWLINE] == lines[i]
    requires forall i | 0 <= i < |queue| :: accepts(i)
    ensures Delivered(longer, queue + AsItems(lines), accepts)
    ensures ok <==> longer == queue + AsItems(lines)
  {
    longer := queue;
    for j := 0 to |pieces|
      invariant longer == queue + AsItems(lines)[..j] && forall i | 0 <= i < |longer| :: accepts(i)
    {
      if !accepts(|longer|) {
        return longer, false;
      }
      longer := longer + [Line(pieces[j] + [NEWLINE])];
    }
    ok := true;
  }

  lemma ItemsAppend(xs: seq<seq<Byte>>, ys: seq<seq<Byte>>)
    ensures AsItems(xs + ys) == AsItems(xs) + AsItems(ys)
  {
  }

  lemma {:induction false} ConcatSplit(chunks: seq<seq<Byte>>, n: nat)
    requires n <= |chunks|
    ensures Concat(chunks) == Concat(chunks[..n]) + Concat(chunks[n..])
  {
    if n == |chunks| {
      assert chunks[..n] == chunks;
    } else {
      var init, last := chunks[..|chunks| - 1], chunks[|chunks| - 1];
      ConcatSplit(init, n);
      assert init[..n] == chunks[..n] && chunks[n..][..|chunks[n..]| - 1] == init[n..];
    }
  }

  /** What the first chunks emit is the beginning of what all of them emit. */
  lemma EmittedSoFar(chunks: seq<seq<Byte>>, n: nat)
    requires n <= |chunks|
    ensures AsItems(Lines(Concat(chunks[..n]))) < Emitted(Concat(chunks))
  {
    var a, b := Concat(chunks[..n]), Concat(chunks[n..]);
    ConcatSplit(chunks, n);
    LinesAppend(a, b);
    ItemsAppend(Lines(a), Lines(Rest(a) + b));
  }

  lemma DeliveredFurther(queue: seq<Item>, items: seq<Item>, more: seq<Item>, accepts: nat -> bool)
    requires Delivered(queue, items, accepts) && queue != items && items <= more
    ensures Delivered(queue, more, accepts)
  {
    assert |queue| < |items|;
  }

  /** `_pump`: one turn per read, an empty read (or a failed one) being the end of
      input. However the input was cut into chunks, the same items are delivered: all,
      or those before the first one the consumer refuses. */
  method Pump(chunks: seq<seq<Byte>>, accepts: nat -> bool) returns (queue: seq<Item>)
    ensures Delivered(queue, Emitted(Concat(chunks)), accepts)
  {
    queue := [];
    var buffer: seq<Byte> := [];
    for i := 0 to |chunks|
      invariant queue == AsItems(Lines(Concat(chunks[..i]))) && buffer == Rest(Concat(chunks[..i]))
      invariant forall j | 0 <= j < |queue| :: accepts(j)
    {
      assert chunks[..i + 1][..i] == chunks[..i];
      LinesAppend(Concat(chunks[..i]), chunks[i]);
      ItemsAppend(Lines(Concat(chunks[..i])), Lines(buffer + chunks[i]));
      ghost var lines := Lines(buffer + chunks[i]);
      var pieces, ok;
      pieces, buffer := SplitBuffer(buffer + chunks[i]);
      queue, ok := EmitAll(queue, pieces, lines, accepts);
      if !ok {
        EmittedSoFar(chunks, i + 1);
        DeliveredFurther(queue, AsItems(Lines(Concat(chunks[..i + 1]))), Emitted(Concat(chunks)), accepts);
        return;
      }
    }
    assert chunks[..|chunks|] == chunks;
    if buffer != [] {
      if !accepts(|queue|) {
        return;
      }
      queue := queue + [Line(buffer)];
    }
    if accepts(|queue|) {
      queue := queue + [End];
    }
  }

  /** So the chunking does not show. */
  lemma ChunkingDoesNotShow(one: seq<seq<Byte>>, other: seq<seq<Byte>>, accepts: nat -> bool, p: seq<Item>,
                            q: seq<Item>)
    requires Concat(one) == Concat(other)
    requires Delivered(p, Emitted(Concat(one)), accepts) && Delivered(q, Emitted(Concat(other)), accepts)
    ensures p == q
  {
    assert !(|p| < |q|) && !(|q| < |p|);
  }

  function Join(lines: seq<seq<Byte>>): seq<Byte> {
    if lines == [] then [] else Join(lines[..|lines| - 1]) + lines[|lines| - 1]
  }

  predicate IsLine(line: seq<Byte>) {
    line != [] && line[|line| - 1] == 10 && 10 !in line[..|line| - 1]
  }

  lemma JoinSnoc(lines: seq<seq<Byte>>, line: seq<Byte>)
    ensures Join(lines + [line]) == Join(lines) + line
  {
    assert (lines + [line])[..|lines|] == lines;
  }

  /** The lines and the rest, put together, are the whole input. */
  lemma {:induction false} LinesAreTheInput(input: seq<Byte>)
    ensures Join(Lines(input)) + Rest(input) == input
  {
    if input == [] {
    } else {
      var init, last := input[..|input| - 1], input[|input| - 1];
      LinesAreTheInput(init);
      assert input == init + [last];
      if last == NEWLINE {
        JoinSnoc(Lines(init), Rest(init) + [NEWLINE]);
        assert Lines(input) == Lines(init) + [Rest(init) + [NEWLINE]] && Rest(input) == [];
        assert Join(Lines(input)) == Join(Lines(init)) + (Rest(init) + [NEWLINE]);
        assert Join(Lines(init)) + (Rest(init) + [NEWLINE]) == (Join(Lines(init)) + Rest(init)) + [NEWLINE];
      } else {
        assert Lines(input) == Lines(init) && Rest(input) == Rest(init) + [last];
        assert Join(Lines(init)) + (Rest(init) + [last]) == (Join(Lines(init)) + Rest(init)) + [last];
      }
    }
  }

  /** Every line ends in its only newline, and the rest has none. */
  lemma {:induction false} LinesEndInNewlines(input: seq<Byte>)
    ensures forall line | line in Lines(input) :: IsLine(line)
    ensures NEWLINE !in Rest(input)
  {
    RestHasNoNewline(input);
    if input == [] {
    } else {
      var init := input[..|input| - 1];
      LinesEndInNewlines(init);
      var line := Rest(init) + [NEWLINE];
      assert line[..|line| - 1] == Rest(init);
    }
  }

  /** The end marker is emitted once, and last. */
  lemma EndMarkerLast(input: seq<Byte>)
    ensures var queue := Emitted(input);
            queue[|queue| - 1] == End && forall i | 0 <= i < |queue| - 1 :: queue[i].Line?
  {
  }

  function BytesOf(item: Item): seq<Byte> {
    if item.Line? then item.bytes else []
  }

  function Contents(items: seq<Item>): seq<Byte> {
    if items == [] then [] else Contents(items[..|items| - 1]) + BytesOf(items[|items| - 1])
  }

  lemma ContentsSnoc(items: seq<Item>, item: Item)
    ensures Contents(items + [item]) == Contents(items) + BytesOf(item)
  {
    assert (items + [item])[..|items|] == items;
  }

  lemma {:induction false} ContentsOfLines(lines: seq<seq<Byte>>)
    ensures Contents(AsItems(lines)) == Join(lines)
  {
    if lines != [] {
      var n := |lines| - 1;
      ContentsOfLines(lines[..n]);
      assert AsItems(lines)[..n] == AsItems(lines[..n]);
    }
  }

  /** What is emitted, put together, is the input: no byte is dropped, an unterminated
      last line included, and none is added. */
  lemma EmittedIsTheInput(input: seq<Byte>)
    ensures Contents(Emitted(input)) == input
  {
    var lines, rest := AsItems(Lines(input)), Rest(input);
    ContentsOfLines(Lines(input));
    LinesAreTheInput(input);
    if rest != [] {
      ContentsSnoc(lines, Line(rest));
      ContentsSnoc(lines + [Line(rest)], End);
    } else {
      ContentsSnoc(lines, End);
      assert lines + [] + [End] == lines + [End];
    }
  }

  /** A consumer that refuses nothing gets every byte of every chunk, and the end. */
  lemma DeliveredInFull(chunks: seq<seq<Byte>>, accepts: nat -> bool, queue: seq<Item>)
    requires Delivered(queue, Emitted(Concat(chunks)), accepts) && forall i: nat :: accepts(i)
    ensures Contents(queue) == Concat(chunks) && queue != [] && queue[|queue| - 1] == End
  {
    EmittedIsTheInput(Concat(chunks));
    assert queue == Emitted(Concat(chunks));
  }
}
