/** The reader loop of `fetchStream` (`src/components/conversationSidebar.tsx`):
    a reduced reader of the server-sent events format of the HTML Living
    Standard, section 9.2.6 ("Interpreting an event stream"). Lines end at
    LF only, only the literal `data: ` prefix is recognised, `[DONE]` is
    skipped and the `delta` of every `text-delta` payload is appended to the
    streamed content. */
module ConversationStream {
  import opened Common

  /** What `JSON.parse` makes of a payload, as far as the reader looks at
      it: the `type` field and the `delta` field (`""` when absent or falsy). */
  datatype StreamEvent = StreamEvent(kind: string, delta: string)

  /** `JSON.parse` on a payload; `None` when it throws. */
  type Parser = string -> Option<StreamEvent>

  // ---------------------------------------------------------------------
  // Line framing

  /** The lines of `text` that a `\n` has closed, in order. */
  function CompleteLines(text: string): seq<string>
  {
    var pieces := Split(text, '\n');
    pieces[..|pieces| - 1]
  }

  /** The text after the last `\n`: what the reader keeps buffered. */
  function Pending(text: string): (r: string)
    ensures !HasChar(r, '\n')
  {
    var pieces := Split(text, '\n');
    SplitPieces(text, '\n');
    pieces[|pieces| - 1]
  }

  /** What one line adds to the streamed content. */
  function LineDelta(parse: Parser, line: string): (r: string)
    ensures r != [] ==> StartsWith(line, "data: ") && line[6..] != "[DONE]"
    ensures r != [] ==> parse(line[6..]) == Some(StreamEvent("text-delta", r))
    ensures (StartsWith(line, "data: ") && line[6..] != "[DONE]" && parse(line[6..]).Some? &&
             parse(line[6..]).value.kind == "text-delta") ==> r == parse(line[6..]).value.delta
  {
    if !StartsWith(line, "data: ") then ""
    else
      var data := line[6..];
      if data == "[DONE]" then ""
      else match parse(data)
        case None => ""
        case Some(event) => if event.kind == "text-delta" && event.delta != [] then event.delta else ""
  }

  /** What a run of lines adds, in order. */
  function LinesDelta(parse: Parser, lines: seq<string>): string
  {
    if |lines| == 0 then "" else LinesDelta(parse, lines[..|lines| - 1]) + LineDelta(parse, lines[|lines| - 1])
  }

  /** The streamed content that the text received so far produces. */
  function StreamContent(parse: Parser, text: string): string
  {
    LinesDelta(parse, CompleteLines(text))
  }

  // ---------------------------------------------------------------------
  // The reader

  /** The `while (true)` loop over `reader.read()`: `chunks` are the decoded
      reads, `prev` the streamed content before the loop. */
  method ReadStream(parse: Parser, chunks: seq<string>, prev: string) returns (content: string, buffer: string)
    ensures buffer == Pending(Concat(chunks))
    ensures content == prev + StreamContent(parse, Concat(chunks))
  {
    content := prev;
    buffer := "";
    for k := 0 to |chunks|
      invariant buffer == Pending(Concat(chunks[..k]))
      invariant content == prev + StreamContent(parse, Concat(chunks[..k]))
    {
      ConcatStep(chunks, k);
      ChunkStep(parse, Concat(chunks[..k]), chunks[k], prev, content, buffer);
      content, buffer := ReadChunk(parse, content, buffer, chunks[k]);
    }
    assert chunks[..|chunks|] == chunks;
  }

  /** One read: the chunk joins the buffer, every line it closes is
      processed in order and the unfinished rest stays buffered. */
  method ReadChunk(parse: Parser, content: string, buffer: string, chunk: string)
    returns (content': string, buffer': string)
    ensures buffer' == Pending(buffer + chunk)
    ensures content' == content + LinesDelta(parse, CompleteLines(buffer + chunk))
  {
    var text := buffer + chunk;
    var lines := Split(text, '\n');
    buffer' := lines[|lines| - 1];
    content' := content;
    for j := 0 to |lines| - 1
      invariant content' == content + LinesDelta(parse, lines[..j])
    {
      LinesDeltaStep(parse, lines, j);
      AppendAssoc(content, LinesDelta(parse, lines[..j]), LineDelta(parse, lines[j]));
      content' := content' + LineDelta(parse, lines[j]);
    }
  }

  // ---------------------------------------------------------------------
  // Properties

  /** Splitting `t + c` continues the split of `t` from its unfinished
      last piece. */
  predicate AppendSplits(t: string, c: string)
  {
    var pieces := Split(t, '\n');
    Split(t + c, '\n') == pieces[..|pieces| - 1] + Split(pieces[|pieces| - 1] + c, '\n')
  }

  lemma {:induction false} SplitAppend(t: string, c: string)
    ensures AppendSplits(t, c)
    decreases |t|
  {
    var k := IndexOf(t, '\n');
    if k == -1 {
      SplitAppendNone(t, c);
    } else {
      var u := t[k + 1..];
      SplitAppend(u, c);
      SplitAppendStep(t, c, u);
    }
  }

  lemma SplitAppendNone(t: string, c: string)
    requires IndexOf(t, '\n') == -1
    ensures AppendSplits(t, c)
  {
    SplitWhole(t, '\n');
    assert [t][..0] + Split([t][0] + c, '\n') == Split(t + c, '\n');
  }

  lemma SplitAppendStep(t: string, c: string, u: string)
    requires IndexOf(t, '\n') >= 0 && u == t[IndexOf(t, '\n') + 1..]
    requires AppendSplits(u, c)
    ensures AppendSplits(t, c)
  {
    var k := IndexOf(t, '\n');
    SplitAppendFirst(t, c);
    SplitAt(t, '\n', k);
    var rest := Split(t[k + 1..], '\n');
    ConsFront(t[..k], rest, Split(rest[|rest| - 1] + c, '\n'));
  }

  /** Appending text after a line break leaves the first line alone. */
  lemma SplitAppendFirst(t: string, c: string)
    requires HasChar(t, '\n')
    ensures var k := IndexOf(t, '\n');
      Split(t + c, '\n') == [t[..k]] + Split(t[k + 1..] + c, '\n')
  {
    var k := IndexOf(t, '\n');
    IndexOfAppend(t, c, '\n');
    SplitAt(t + c, '\n', k);
    DropAppend(t, c, k);
    DropAppend(t, c, k + 1);
  }

  /** Dropping the last element of a list with a head in front. */
  lemma ConsFront(x: string, rest: seq<string>, more: seq<string>)
    requires |rest| >= 1
    ensures var all := [x] + rest;
      all[..|all| - 1] + more == [x] + (rest[..|rest| - 1] + more) && all[|all| - 1] == rest[|rest| - 1]
  {
    var all := [x] + rest;
    assert all[..|all| - 1] == [x] + rest[..|rest| - 1];
  }

  /** The framing of `t + c` is the framing of `t` followed by the framing of
      its pending text with `c`. */
  lemma SplitContinues(t: string, c: string)
    ensures CompleteLines(t + c) == CompleteLines(t) + CompleteLines(Pending(t) + c)
    ensures Pending(t + c) == Pending(Pending(t) + c)
  {
    SplitAppend(t, c);
    var pieces := Split(t, '\n');
    FrontLastAppend(pieces[..|pieces| - 1], Split(Pending(t) + c, '\n'));
  }

  /** The front and the last element of `head + more`. */
  lemma FrontLastAppend(head: seq<string>, more: seq<string>)
    requires |more| >= 1
    ensures var all := head + more;
      all[..|all| - 1] == head + more[..|more| - 1] && all[|all| - 1] == more[|more| - 1]
  {
  }

  lemma {:induction false} LinesDeltaAppend(parse: Parser, a: seq<string>, b: seq<string>)
    ensures LinesDelta(parse, a + b) == LinesDelta(parse, a) + LinesDelta(parse, b)
    decreases |b|
  {
    if |b| == 0 {
      assert a + b == a;
    } else {
      var front := b[..|b| - 1];
      var last := b[|b| - 1];
      assert (a + b)[..|a + b| - 1] == a + front;
      assert (a + b)[|a + b| - 1] == last;
      LinesDeltaAppend(parse, a, front);
      var x, y, z := LinesDelta(parse, a), LinesDelta(parse, front), LineDelta(parse, last);
      assert LinesDelta(parse, a + b) == (x + y) + z;
      assert LinesDelta(parse, b) == y + z;
      AppendAssoc(x, y, z);
    }
  }

  lemma LinesDeltaStep(parse: Parser, lines: seq<string>, j: nat)
    requires j < |lines|
    ensures LinesDelta(parse, lines[..j + 1]) == LinesDelta(parse, lines[..j]) + LineDelta(parse, lines[j])
  {
    assert lines[..j + 1][..j] == lines[..j];
  }

  lemma LinesDeltaSingle(parse: Parser, line: string)
    ensures LinesDelta(parse, [line]) == LineDelta(parse, line)
  {
    assert [line][..0] == [];
    assert "" + LineDelta(parse, line) == LineDelta(parse, line);
  }

  lemma ConcatStep(chunks: seq<string>, k: nat)
    requires k < |chunks|
    ensures Concat(chunks[..k + 1]) == Concat(chunks[..k]) + chunks[k]
  {
    assert chunks[..k + 1][..k] == chunks[..k];
  }

  /** The reader's state after one more chunk. */
  lemma ChunkStep(parse: Parser, before: string, chunk: string, prev: string, content: string, buffer: string)
    requires buffer == Pending(before) && content == prev + StreamContent(parse, before)
    ensures Pending(buffer + chunk) == Pending(before + chunk)
    ensures content + LinesDelta(parse, CompleteLines(buffer + chunk)) == prev + StreamContent(parse, before + chunk)
  {
    StreamStep(parse, before, chunk);
    AppendAssoc(prev, StreamContent(parse, before), LinesDelta(parse, CompleteLines(buffer + chunk)));
  }

  /** What one more chunk adds to the streamed content. */
  lemma StreamStep(parse: Parser, t: string, c: string)
    ensures Pending(t + c) == Pending(Pending(t) + c)
    ensures StreamContent(parse, t + c) == StreamContent(parse, t) + LinesDelta(parse, CompleteLines(Pending(t) + c))
  {
    SplitContinues(t, c);
    LinesDeltaAppend(parse, CompleteLines(t), CompleteLines(Pending(t) + c));
  }

  /** Streamed content only grows as text arrives. */
  lemma ContentGrows(parse: Parser, t: string, c: string)
    ensures StartsWith(StreamContent(parse, t + c), StreamContent(parse, t))
  {
    SplitContinues(t, c);
    LinesDeltaAppend(parse, CompleteLines(t), CompleteLines(Pending(t) + c));
    var whole := StreamContent(parse, t + c);
    var part := StreamContent(parse, t);
    assert whole[..|part|] == part;
  }

  /** A line closed by `\n` is one complete line with nothing pending. */
  lemma ClosedLine(line: string)
    requires !HasChar(line, '\n')
    ensures CompleteLines(line + "\n") == [line]
    ensures Pending(line + "\n") == []
  {
    SplitCons(line, [], '\n');
    assert line + "\n" == line + ['\n'] + [];
    assert Split([], '\n') == [[]];
  }

  /** Text without `\n` closes no line. */
  lemma OpenLine(s: string)
    requires !HasChar(s, '\n')
    ensures CompleteLines(s) == [] && Pending(s) == s
  {
  }

  /** Text that ends at a line break leaves nothing pending. */
  lemma ClosedText(t: string)
    requires t == [] || t[|t| - 1] == '\n'
    ensures Pending(t) == []
  {
    if t != [] {
      var u := t[..|t| - 1];
      assert u + "\n" == t;
      SplitContinues(u, "\n");
      ClosedLine(Pending(u));
    }
  }

  /** A last line that no `\n` has closed is never processed. */
  lemma UnterminatedLineIgnored(parse: Parser, t: string, s: string)
    requires t == [] || t[|t| - 1] == '\n'
    requires !HasChar(s, '\n')
    ensures StreamContent(parse, t + s) == StreamContent(parse, t)
    ensures Pending(t + s) == s
  {
    SplitContinues(t, s);
    ClosedText(t);
    assert [] + s == s;
    OpenLine(s);
    assert CompleteLines(t) + [] == CompleteLines(t);
  }

  /** Every closed line is processed once, after the ones before it. */
  lemma LineProcessed(parse: Parser, t: string, line: string)
    requires t == [] || t[|t| - 1] == '\n'
    requires !HasChar(line, '\n')
    ensures StreamContent(parse, t + line + "\n") == StreamContent(parse, t) + LineDelta(parse, line)
  {
    var closed := line + "\n";
    AppendAssoc(t, line, "\n");
    StreamStep(parse, t, closed);
    ClosedText(t);
    ClosedLine(line);
    LinesDeltaSingle(parse, line);
    calc {
      StreamContent(parse, t + line + "\n");
      StreamContent(parse, t + closed);
      StreamContent(parse, t) + LinesDelta(parse, CompleteLines(Pending(t) + closed));
      { assert Pending(t) + closed == closed; }
      StreamContent(parse, t) + LinesDelta(parse, CompleteLines(closed));
      StreamContent(parse, t) + LineDelta(parse, line);
    }
  }

  /** A closed `data: [DONE]` line adds nothing. */
  lemma DoneSkipped(parse: Parser, t: string)
    requires t == [] || t[|t| - 1] == '\n'
    ensures StreamContent(parse, t + "data: [DONE]\n") == StreamContent(parse, t)
  {
    var line := "data: [DONE]";
    LineProcessed(parse, t, line);
    assert t + line + "\n" == t + "data: [DONE]\n";
    assert line[6..] == "[DONE]";
  }
}
