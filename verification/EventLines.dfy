/**
 The line buffer of the notification listener's server-sent event stream: chunks of text arrive at
 arbitrary boundaries, whole lines that start with `data: ` are handed on, and the unterminated
 tail is kept.
 */
module EventLines {
  import opened Text

  const DATA: string := "data: "

  /** The lines of a text that a newline ends. */
  function Terminated(text: string): seq<string> {
    var pieces := Split(text, '\n');
    pieces[..|pieces| - 1]
  }

  /** What follows the last newline of a text. */
  function Tail(text: string): string {
    var pieces := Split(text, '\n');
    pieces[|pieces| - 1]
  }

  /** The trimmed remainders of the data lines, in order. */
  function Payloads(lines: seq<string>): seq<string> {
    if lines == [] then [] else Payload(lines[0]) + Payloads(lines[1..])
  }

  function Payload(line: string): seq<string> {
    if DATA <= line then [Trim(line[|DATA|..])] else []
  }

  class EventStream {
    var buffer: string
    var handled: seq<string>

    constructor ()
      ensures buffer == "" && handled == []
    {
      buffer := "";
      handled := [];
    }

    method OnData(chunk: string)
      modifies this
      ensures handled == old(handled) + Payloads(Terminated(old(buffer) + chunk))
      ensures buffer == Tail(old(buffer) + chunk)
    {
      buffer := buffer + chunk;
      var lines := Split(buffer, '\n');
      buffer := lines[|lines| - 1];
      lines := lines[..|lines| - 1];
      for i := 0 to |lines|
        invariant handled + Payloads(lines[i..]) == old(handled) + Payloads(lines)
        invariant buffer == Tail(old(buffer) + chunk)
      {
        PayloadsStep(handled, lines, i);
        if DATA <= lines[i] {
          handled := handled + [Trim(lines[i][|DATA|..])];
        } else {
          assert handled + [] == handled;
        }
      }
    }

    /**
     A whole response: what is handed on and what is kept are those of the whole text, whatever
     the chunk boundaries.
     */
    method Receive(chunks: seq<string>)
      requires '\n' !in buffer
      modifies this
      ensures handled == old(handled) + Payloads(Terminated(old(buffer) + Flatten(chunks)))
      ensures buffer == Tail(old(buffer) + Flatten(chunks))
      ensures '\n' !in buffer
    {
      ghost var done := old(buffer);
      assert Terminated(done) == [] && Tail(done) == done by { UnterminatedText(done); }
      for i := 0 to |chunks|
        invariant done + Flatten(chunks[i..]) == old(buffer) + Flatten(chunks)
        invariant handled == old(handled) + Payloads(Terminated(done))
        invariant buffer == Tail(done)
      {
        TextGrows(done, chunks[i]);
        FlattenStep(chunks, i);
        Assoc(done, chunks[i], Flatten(chunks[i + 1..]));
        Assoc(old(handled), Payloads(Terminated(done)), Payloads(Terminated(buffer + chunks[i])));
        OnData(chunks[i]);
        done := done + chunks[i];
      }
      JoinSplit(done, '\n');
      assert done == old(buffer) + Flatten(chunks);
    }
  }

  lemma PayloadsStep(handled: seq<string>, lines: seq<string>, i: nat)
    requires i < |lines|
    ensures handled + Payloads(lines[i..]) == handled + Payload(lines[i]) + Payloads(lines[i + 1..])
  {
    assert lines[i..][1..] == lines[i + 1..];
  }

  lemma UnterminatedText(text: string)
    requires '\n' !in text
    ensures Terminated(text) == [] && Tail(text) == text
  {
    IndexOfUnique(text, '\n', |text|);
  }

  /** Text that arrives later continues the kept tail and leaves the finished lines alone. */
  lemma TextGrows(done: string, chunk: string)
    ensures Payloads(Terminated(done + chunk)) == Payloads(Terminated(done)) + Payloads(Terminated(Tail(done) + chunk))
    ensures Tail(done + chunk) == Tail(Tail(done) + chunk)
  {
    SplitConcat(done, chunk, '\n');
    assert Terminated(done + chunk) == Terminated(done) + Terminated(Tail(done) + chunk);
    PayloadsConcat(Terminated(done), Terminated(Tail(done) + chunk));
  }

  lemma {:induction false} PayloadsConcat(a: seq<string>, b: seq<string>)
    ensures Payloads(a + b) == Payloads(a) + Payloads(b)
  {
    if a == [] {
      assert a + b == b;
    } else {
      assert (a + b)[1..] == a[1..] + b;
      PayloadsConcat(a[1..], b);
    }
  }

  // ---------------------------------------------------------------- the events a server writes

  function EventText(payloads: seq<string>): string {
    if payloads == [] then "" else DATA + payloads[0] + "\n\n" + EventText(payloads[1..])
  }

  lemma OneEvent(line: string, more: string)
    requires '\n' !in line
    ensures Terminated(line + "\n\n" + more) == [line, ""] + Terminated(more)
    ensures Tail(line + "\n\n" + more) == Tail(more)
  {
    var rest := "" + ['\n'] + more;
    assert line + "\n\n" + more == line + ['\n'] + rest;
    SplitFirst(line, '\n', rest);
    SplitFirst("", '\n', more);
    TwoPieces(line, Split(more, '\n'));
  }

  lemma TwoPieces(line: string, pieces: seq<string>)
    requires pieces != []
    ensures
      var all := [line] + ([""] + pieces);
      all[..|all| - 1] == [line, ""] + pieces[..|pieces| - 1] && all[|all| - 1] == pieces[|pieces| - 1]
  {}

  lemma OnePayload(p: string)
    requires Trimmed(p)
    ensures Payload(DATA + p) == [p]
  {
    assert (DATA + p)[|DATA|..] == p;
    TrimTrimmed(p);
  }

  lemma TwoLines(a: string, b: string)
    ensures Payloads([a, b]) == Payload(a) + Payload(b)
  {
    assert [a, b][1..] == [b] && [b][1..] == [];
    assert Payloads([b]) == Payload(b) + [];
  }

  /** One-line trimmed payloads written as events are recovered exactly from the whole text. */
  lemma {:induction false} EventsRoundTrip(payloads: seq<string>)
    requires forall p :: p in payloads ==> Trimmed(p) && '\n' !in p
    ensures Payloads(Terminated(EventText(payloads))) == payloads
    ensures Tail(EventText(payloads)) == ""
  {
    if payloads == [] {
      UnterminatedText("");
    } else {
      var p, more := payloads[0], EventText(payloads[1..]);
      assert p in payloads;
      EventsRoundTrip(payloads[1..]);
      OneEvent(DATA + p, more);
      OnePayload(p);
      TwoLines(DATA + p, "");
      PayloadsConcat([DATA + p, ""], Terminated(more));
    }
  }

  // ---------------------------------------------------------------- any lines

  /** A line of the response: one that carries data, or any other. */
  datatype Line = Data(text: string) | Other(line: string)

  predicate LegalLine(line: Line) {
    match line
    case Data(text) => '\n' !in text
    case Other(line) => '\n' !in line && !("data: " <= line)
  }

  function LineText(line: Line): string {
    match line
    case Data(text) => "data: " + text
    case Other(line) => line
  }

  function Written(lines: seq<Line>): string {
    if lines == [] then "" else LineText(lines[0]) + "\n" + Written(lines[1..])
  }

  /** The data, without the white space around it. */
  function Carried(lines: seq<Line>): seq<string> {
    if lines == [] then [] else (if lines[0].Data? then [Trim(lines[0].text)] else []) + Carried(lines[1..])
  }

  lemma PayloadOfLine(line: Line)
    ensures line.Data? ==> Payload(LineText(line)) == [Trim(line.text)]
    ensures line.Other? && LegalLine(line) ==> Payload(LineText(line)) == []
  {
    assert DATA == "data: ";
    if line.Data? {
      assert LineText(line)[|DATA|..] == line.text;
    }
  }

  lemma LineNoBreak(line: Line)
    requires LegalLine(line)
    ensures '\n' !in LineText(line)
  {
    assert '\n' !in "data: ";
  }

  lemma FirstLine(first: string, more: string)
    requires '\n' !in first
    ensures Terminated(first + "\n" + more) == [first] + Terminated(more) && Tail(first + "\n" + more) == Tail(more)
  {
    assert first + "\n" + more == first + ['\n'] + more;
    SplitFirst(first, '\n', more);
    FrontOfCons(first, Split(more, '\n'));
  }

  /** Of any lines, exactly the data is handed on, in order, and an unfinished line is kept. */
  lemma {:induction false} ReadsLines(lines: seq<Line>, tail: string)
    requires (forall line :: line in lines ==> LegalLine(line)) && '\n' !in tail
    ensures Payloads(Terminated(Written(lines) + tail)) == Carried(lines)
    ensures Tail(Written(lines) + tail) == tail
  {
    if lines == [] {
      assert Written(lines) + tail == tail;
      UnterminatedText(tail);
    } else {
      var first, more := LineText(lines[0]), Written(lines[1..]) + tail;
      assert lines[0] in lines;
      ReadsLines(lines[1..], tail);
      assert Written(lines) + tail == first + "\n" + more;
      LineNoBreak(lines[0]);
      FirstLine(first, more);
      PayloadOfLine(lines[0]);
      PayloadsConcat([first], Terminated(more));
      assert Payloads([first]) == Payload(first) + [] == Payload(first);
    }
  }
}
