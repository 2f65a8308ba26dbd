/**
 The Content-Length framing of the emitted language-server and debug-adapter runtimes
 (Base Protocol, Header Part, of the Language Server Protocol 3.17): the writer `send`,
 and the reader that keeps its unconsumed bytes between `data` events.

 A byte is a character below U+0100; nothing here depends on that bound.
 */
module Framing {
  import opened Text

  type Bytes = string

  const SEPARATOR: Bytes := "\r\n\r\n"

  // ---------------------------------------------------------------- the writer

  function Header(length: nat): Bytes {
    "Content-Length: " + Decimal(length)
  }

  function Frame(payload: Bytes): Bytes {
    Header(|payload|) + SEPARATOR + payload
  }

  /** What a peer writes when it sends the payloads in order. */
  function Stream(payloads: seq<Bytes>): Bytes {
    if payloads == [] then "" else Frame(payloads[0]) + Stream(payloads[1..])
  }

  // ---------------------------------------------------------------- finding the header

  predicate SeparatorAt(b: Bytes, i: nat) {
    i + 4 <= |b| && b[i] == '\r' && b[i + 1] == '\n' && b[i + 2] == '\r' && b[i + 3] == '\n'
  }

  /** The first position of the blank line that ends a header part. */
  function HeaderEnd(b: Bytes): (r: Option<nat>)
    ensures r.Some? ==> SeparatorAt(b, r.value) && forall j: nat :: j < r.value ==> !SeparatorAt(b, j)
    ensures r.None? ==> forall j: nat :: !SeparatorAt(b, j)
  {
    if |b| < 4 then None
    else if SeparatorAt(b, 0) then Some(0)
    else
      assert forall j: nat :: 1 <= j ==> (SeparatorAt(b, j) <==> SeparatorAt(b[1..], j - 1));
      match HeaderEnd(b[1..])
      case None => None
      case Some(i) => Some(i + 1)
  }

  // ---------------------------------------------------------------- reading the announced length

  const FIELD_NAME: Bytes := "content-length:"

  predicate NamesLength(h: Bytes) {
    |h| >= |FIELD_NAME| && forall i :: 0 <= i < |FIELD_NAME| ==> LowerAscii(h[i]) == FIELD_NAME[i]
  }

  /** The number of bytes of the white space character that starts `h` in UTF-8, or 0. */
  function SpaceWidth(h: Bytes): (n: nat)
    ensures n <= |h|
  {
    if |h| >= 1 && h[0] <= '\U{007F}' && IsSpace(h[0]) then 1
    else if |h| >= 2 && h[..2] == "\U{C2}\U{A0}" then 2
    else if |h| >= 3 && (
              || h[..3] == "\U{E1}\U{9A}\U{80}"
              || (h[..2] == "\U{E2}\U{80}" && ('\U{80}' <= h[2] <= '\U{8A}' || h[2] in "\U{A8}\U{A9}\U{AF}"))
              || h[..3] == "\U{E2}\U{81}\U{9F}"
              || h[..3] == "\U{E3}\U{80}\U{80}"
              || h[..3] == "\U{EF}\U{BB}\U{BF}") then 3
    else 0
  }

  function SkipSpace(h: Bytes): Bytes
    decreases |h|
  {
    if SpaceWidth(h) == 0 then h else SkipSpace(h[SpaceWidth(h)..])
  }

  /** The digits that start `h`. */
  function LeadingDigits(h: Bytes): (d: Bytes)
    ensures d <= h
    ensures forall i :: 0 <= i < |d| ==> IsDigit(d[i])
    ensures |d| < |h| ==> !IsDigit(h[|d|])
  {
    if h != "" && IsDigit(h[0]) then [h[0]] + LeadingDigits(h[1..]) else ""
  }

  /** The field name in any letter case, white space, and at least one digit, matched at the start of `h`. */
  function MatchHere(h: Bytes): Option<nat> {
    if !NamesLength(h) then None
    else
      var digits := LeadingDigits(SkipSpace(h[|FIELD_NAME|..]));
      if digits == "" then None else Some(DigitsValue(digits))
  }

  /** The length announced by the leftmost match in a header part. */
  function AnnouncedLength(header: Bytes): Option<nat> {
    if header == "" then None
    else if MatchHere(header).Some? then MatchHere(header)
    else AnnouncedLength(header[1..])
  }

  // ---------------------------------------------------------------- one pass, and draining a buffer

  datatype Pass = Wait | Skip(rest: Bytes) | Deliver(body: Bytes, rest: Bytes)

  /** One round of the reader's loop. Every pass that goes on leaves a strictly shorter buffer. */
  function NextPass(buffer: Bytes): (p: Pass)
    ensures !p.Wait? ==> |p.rest| < |buffer|
  {
    match HeaderEnd(buffer)
    case None => Wait
    case Some(headerEnd) =>
      var bodyStart := headerEnd + 4;
      match AnnouncedLength(buffer[..headerEnd])
      case None => Skip(buffer[bodyStart..])
      case Some(length) =>
        if |buffer| < bodyStart + length then Wait
        else Deliver(buffer[bodyStart..bodyStart + length], buffer[bodyStart + length..])
  }

  datatype Drained = Drained(bodies: seq<Bytes>, rest: Bytes)

  /** Everything that can be handed over from a buffer, and the bytes that have to wait. */
  function Drain(buffer: Bytes): Drained
    decreases |buffer|
  {
    match NextPass(buffer)
    case Wait => Drained([], buffer)
    case Skip(rest) => Drain(rest)
    case Deliver(body, rest) =>
      var d := Drain(rest);
      Drained([body] + d.bodies, d.rest)
  }

  /** The reader: `buffer` survives from one `data` event to the next. */
  class FrameReader {
    var buffer: Bytes
    var delivered: seq<Bytes>

    constructor ()
      ensures buffer == "" && delivered == []
    {
      buffer := "";
      delivered := [];
    }

    method OnData(chunk: Bytes)
      modifies this
      ensures delivered == old(delivered) + Drain(old(buffer) + chunk).bodies
      ensures buffer == Drain(old(buffer) + chunk).rest
    {
      buffer := buffer + chunk;
      ghost var all := Drain(buffer);
      while true
        invariant delivered + Drain(buffer).bodies == old(delivered) + all.bodies
        invariant Drain(buffer).rest == all.rest
        decreases |buffer|
      {
        var headerEnd := HeaderEnd(buffer);
        if headerEnd.None? { return; }
        var announced := AnnouncedLength(buffer[..headerEnd.value]);
        if announced.None? {
          SkipStep(buffer, buffer[headerEnd.value + 4..]);
          buffer := buffer[headerEnd.value + 4..];
          continue;
        }
        var length := announced.value;
        var bodyStart := headerEnd.value + 4;
        if |buffer| < bodyStart + length { return; }
        var body := buffer[bodyStart..bodyStart + length];
        DeliverStep(delivered, buffer, body, buffer[bodyStart + length..]);
        buffer := buffer[bodyStart + length..];
        delivered := delivered + [body];
      }
    }

    /** A whole connection: one event per chunk. */
    method Receive(chunks: seq<Bytes>)
      requires NextPass(buffer).Wait?
      modifies this
      ensures delivered == old(delivered) + Drain(old(buffer) + Flatten(chunks)).bodies
      ensures buffer == Drain(old(buffer) + Flatten(chunks)).rest
      ensures NextPass(buffer).Wait?
    {
      FeedIsDrain(buffer, chunks);
      assert chunks[0..] == chunks;
      for i := 0 to |chunks|
        invariant delivered + Feed(buffer, chunks[i..]).bodies == old(delivered) + Feed(old(buffer), chunks).bodies
        invariant Feed(buffer, chunks[i..]).rest == Feed(old(buffer), chunks).rest
        invariant NextPass(buffer).Wait?
      {
        FeedStep(delivered, buffer, chunks, i);
        DrainWaits(buffer + chunks[i]);
        OnData(chunks[i]);
      }
      assert chunks[|chunks|..] == [] && delivered + [] == delivered;
    }
  }

  lemma SkipStep(buffer: Bytes, rest: Bytes)
    requires NextPass(buffer) == Skip(rest)
    ensures Drain(buffer) == Drain(rest)
  {}

  lemma DeliverStep(delivered: seq<Bytes>, buffer: Bytes, body: Bytes, rest: Bytes)
    requires NextPass(buffer) == Deliver(body, rest)
    ensures delivered + Drain(buffer).bodies == (delivered + [body]) + Drain(rest).bodies
    ensures Drain(buffer).rest == Drain(rest).rest
  {
    Assoc(delivered, [body], Drain(rest).bodies);
  }

  lemma FeedStep(delivered: seq<Bytes>, buffer: Bytes, chunks: seq<Bytes>, i: nat)
    requires i < |chunks|
    ensures
      var d := Drain(buffer + chunks[i]);
      && delivered + Feed(buffer, chunks[i..]).bodies == (delivered + d.bodies) + Feed(d.rest, chunks[i + 1..]).bodies
      && Feed(buffer, chunks[i..]).rest == Feed(d.rest, chunks[i + 1..]).rest
  {
    assert chunks[i..][0] == chunks[i] && chunks[i..][1..] == chunks[i + 1..];
    var d := Drain(buffer + chunks[i]);
    Assoc(delivered, d.bodies, Feed(d.rest, chunks[i + 1..]).bodies);
  }

  /** The events of a connection one after another, each seeing only its own chunk and the kept bytes. */
  ghost function Feed(buffer: Bytes, chunks: seq<Bytes>): Drained
    decreases |chunks|
  {
    if chunks == [] then Drained([], buffer)
    else
      var d := Drain(buffer + chunks[0]);
      var r := Feed(d.rest, chunks[1..]);
      Drained(d.bodies + r.bodies, r.rest)
  }

  // ---------------------------------------------------------------- chunk boundaries are invisible

  lemma HeaderEndUnique(b: Bytes, i: nat)
    requires SeparatorAt(b, i) && forall j: nat :: j < i ==> !SeparatorAt(b, j)
    ensures HeaderEnd(b) == Some(i)
  {}

  lemma HeaderEndStable(a: Bytes, b: Bytes)
    requires HeaderEnd(a).Some?
    ensures HeaderEnd(a + b) == HeaderEnd(a)
  {
    var i := HeaderEnd(a).value;
    assert forall j: nat :: j <= i ==> (SeparatorAt(a + b, j) <==> SeparatorAt(a, j));
    HeaderEndUnique(a + b, i);
  }

  /** More bytes never change a pass that did not have to wait. */
  lemma PassStable(a: Bytes, b: Bytes)
    ensures
      match NextPass(a)
      case Wait => true
      case Skip(rest) => NextPass(a + b) == Skip(rest + b)
      case Deliver(body, rest) => NextPass(a + b) == Deliver(body, rest + b)
  {
    if HeaderEnd(a).Some? {
      var i := HeaderEnd(a).value;
      HeaderEndStable(a, b);
      assert (a + b)[..i] == a[..i];
      assert (a + b)[i + 4..] == a[i + 4..] + b;
      if NextPass(a).Deliver? {
        var n := AnnouncedLength(a[..i]).value;
        assert (a + b)[i + 4..i + 4 + n] == a[i + 4..i + 4 + n];
        assert (a + b)[i + 4 + n..] == a[i + 4 + n..] + b;
      }
    }
  }

  /** Draining a buffer that arrives in two parts is draining the parts in turn. */
  lemma {:induction false} DrainConcat(a: Bytes, b: Bytes)
    ensures
      var x := Drain(a);
      var y := Drain(x.rest + b);
      Drain(a + b) == Drained(x.bodies + y.bodies, y.rest)
    decreases |a|
  {
    PassStable(a, b);
    match NextPass(a)
    case Wait =>
    case Skip(rest) => DrainConcat(rest, b);
    case Deliver(body, rest) =>
      DrainConcat(rest, b);
      var x := Drain(rest);
      var y := Drain(x.rest + b);
      Assoc([body], x.bodies, y.bodies);
  }

  /** The bytes kept are bytes that cannot be used yet. */
  lemma {:induction false} DrainWaits(b: Bytes)
    ensures NextPass(Drain(b).rest).Wait?
    decreases |b|
  {
    match NextPass(b)
    case Wait =>
    case Skip(rest) => DrainWaits(rest);
    case Deliver(_, rest) => DrainWaits(rest);
  }

  /**
   For arbitrary bytes, however they are cut into events, the bodies handed over and the bytes
   kept are those of the concatenation.
   */
  lemma {:induction false} FeedIsDrain(buffer: Bytes, chunks: seq<Bytes>)
    requires NextPass(buffer).Wait?
    ensures Feed(buffer, chunks) == Drain(buffer + Flatten(chunks))
    decreases |chunks|
  {
    if chunks == [] {
      assert buffer + Flatten(chunks) == buffer;
    } else {
      var first, more := buffer + chunks[0], Flatten(chunks[1..]);
      var d := Drain(first);
      assert buffer + Flatten(chunks) == first + more;
      assert Feed(d.rest, chunks[1..]) == Drain(d.rest + more) by {
        DrainWaits(first);
        FeedIsDrain(d.rest, chunks[1..]);
      }
      assert Drain(first + more) == Drained(d.bodies + Drain(d.rest + more).bodies, Drain(d.rest + more).rest) by {
        DrainConcat(first, more);
      }
    }
  }

  // ---------------------------------------------------------------- encoding, then decoding

  /** A header part that announces the length of what follows it is consumed with exactly that body. */
  lemma DrainBlock(header: Bytes, body: Bytes, more: Bytes)
    requires HeaderEnd(header + SEPARATOR) == Some(|header|)
    requires AnnouncedLength(header) == Some(|body|)
    ensures
      var d := Drain(more);
      Drain(header + SEPARATOR + body + more) == Drained([body] + d.bodies, d.rest)
  {
    var head := header + SEPARATOR;
    var all := head + body + more;
    assert all == head + (body + more);
    HeaderEndStable(head, body + more);
    assert all[..|header|] == header;
    assert all[|head|..|head| + |body|] == body;
    assert all[|head| + |body|..] == more;
  }

  /** A header part without a usable length is dropped and nothing else is. */
  lemma DrainJunk(header: Bytes, more: Bytes)
    requires HeaderEnd(header + SEPARATOR) == Some(|header|)
    requires AnnouncedLength(header) == None
    ensures Drain(header + SEPARATOR + more) == Drain(more)
  {
    var head := header + SEPARATOR;
    var all := head + more;
    HeaderEndStable(head, more);
    assert all[..|header|] == header;
    assert all[|head|..] == more;
  }

  lemma {:induction false} LeadingDigitsAll(d: Bytes)
    requires forall i :: 0 <= i < |d| ==> IsDigit(d[i])
    ensures LeadingDigits(d) == d
  {
    if d != "" {
      LeadingDigitsAll(d[1..]);
    }
  }

  lemma SkipOneSpace(digits: Bytes)
    requires digits != "" && IsDigit(digits[0])
    ensures SkipSpace(" " + digits) == digits
  {
    assert |digits| >= 2 ==> digits[..2][0] == digits[0];
    assert |digits| >= 3 ==> digits[..3][0] == digits[0];
    assert SpaceWidth(digits) == 0;
    assert (" " + digits)[1..] == digits;
  }

  /** The header `send` writes is read back as the payload's length. */
  lemma HeaderReadsBack(length: nat)
    ensures AnnouncedLength(Header(length)) == Some(length)
  {
    var digits := Decimal(length);
    HeaderShape(digits);
    SkipOneSpace(digits);
    LeadingDigitsAll(digits);
    DecimalValue(length);
    assert MatchHere(Header(length)) == Some(length);
  }

  lemma HeaderShape(digits: Bytes)
    ensures NamesLength("Content-Length: " + digits)
    ensures ("Content-Length: " + digits)[|FIELD_NAME|..] == " " + digits
  {}

  /** The blank line after that header is the first one. */
  lemma HeaderEndsThere(length: nat)
    ensures HeaderEnd(Header(length) + SEPARATOR) == Some(|Header(length)|)
  {
    var h := Header(length);
    var head := h + SEPARATOR;
    forall j: nat | j < |h| ensures !SeparatorAt(head, j) {
      assert head[j] == h[j];
      assert j >= 16 ==> h[j] == Decimal(length)[j - 16];
    }
    assert SeparatorAt(head, |h|);
    HeaderEndUnique(head, |h|);
  }

  lemma HeaderOf(header: Bytes, length: nat)
    requires header == Header(length)
    ensures HeaderEnd(header + SEPARATOR) == Some(|header|)
    ensures AnnouncedLength(header) == Some(length)
  {
    HeaderReadsBack(length);
    HeaderEndsThere(length);
  }

  /** A sent frame is consumed as its payload, whatever follows. */
  lemma DrainFrame(header: Bytes, payload: Bytes, more: Bytes)
    requires header == Header(|payload|)
    ensures
      var d := Drain(more);
      Drain(header + SEPARATOR + payload + more) == Drained([payload] + d.bodies, d.rest)
  {
    HeaderOf(header, |payload|);
    DrainBlock(header, payload, more);
  }

  lemma DrainNothing(buffer: Bytes)
    requires buffer == ""
    ensures Drain(buffer) == Drained([], buffer)
  {}

  lemma DrainFirst(payloads: seq<Bytes>, bodies: seq<Bytes>)
    requires payloads != [] && bodies == payloads[1..] && Drain(Stream(bodies)) == Drained(bodies, "")
    ensures Drain(Stream(payloads)) == Drained(payloads, "")
  {
    assert payloads == [payloads[0]] + bodies;
    DrainFrame(Header(|payloads[0]|), payloads[0], Stream(payloads[1..]));
  }

  lemma {:induction false} DrainStream(payloads: seq<Bytes>)
    ensures Drain(Stream(payloads)) == Drained(payloads, "")
  {
    if payloads == [] {
      DrainNothing(Stream(payloads));
    } else {
      DrainStream(payloads[1..]);
      DrainFirst(payloads, payloads[1..]);
    }
  }

  /**
   Any payloads, framed and sent in order and then cut into any chunks, are handed over exactly
   and in order, and no byte is left.
   */
  lemma FramesRoundTrip(payloads: seq<Bytes>, chunks: seq<Bytes>)
    requires Flatten(chunks) == Stream(payloads)
    ensures Feed("", chunks) == Drained(payloads, "")
  {
    FeedIsDrain("", chunks);
    assert "" + Flatten(chunks) == Flatten(chunks);
    DrainStream(payloads);
  }
}
