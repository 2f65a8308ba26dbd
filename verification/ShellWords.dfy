/**
 Splitting a command line into words with the quoting rules of section 2.2 (Quoting) of the POSIX
 Shell Command Language, and the quoting function it undoes.
 */
module ShellWords {
  import opened Text

  /** A quote inside the word closes the quotation, is written escaped, and opens it again. */
  function EscapeQuote(c: char): string {
    if c == '\'' then "'\\''" else [c]
  }

  function EscapeQuotes(s: string): string {
    if s == "" then "" else EscapeQuote(s[0]) + EscapeQuotes(s[1..])
  }

  function ShellQuote(s: string): string {
    "'" + EscapeQuotes(s) + "'"
  }

  // ---------------------------------------------------------------- the splitter

  const UNCLOSED: string := "Unclosed quote in SSH command"

  /** The words of `rest`, when `current` has been read of an unfinished word. */
  function Scan(rest: string, current: string, inSingle: bool, inDouble: bool): Result<seq<string>, string>
    decreases |rest|
  {
    if rest == "" then
      if inSingle || inDouble then Err(UNCLOSED) else Ok(if current == "" then [] else [current])
    else
      var ch := rest[0];
      if ch == '\\' && !inSingle then
        if |rest| == 1 then Scan("", current, inSingle, inDouble)
        else Scan(rest[2..], current + [rest[1]], inSingle, inDouble)
      else if ch == '\'' && !inDouble then Scan(rest[1..], current, !inSingle, inDouble)
      else if ch == '\"' && !inSingle then Scan(rest[1..], current, inSingle, !inDouble)
      else if IsSpace(ch) && !inSingle && !inDouble then
        if current == "" then Scan(rest[1..], "", inSingle, inDouble)
        else After([current], Scan(rest[1..], "", inSingle, inDouble))
      else Scan(rest[1..], current + [ch], inSingle, inDouble)
  }

  function After(words: seq<string>, r: Result<seq<string>, string>): Result<seq<string>, string> {
    match r
    case Ok(more) => Ok(words + more)
    case Err(e) => Err(e)
  }

  function Words(input: string): Result<seq<string>, string> {
    Scan(input, "", false, false)
  }

  method SplitShellWords(input: string) returns (r: Result<seq<string>, string>)
    ensures r == Words(input)
  {
    var tokens: seq<string> := [];
    var current := "";
    var inSingle, inDouble := false, false;
    var index := 0;
    assert input[index..] == input;
    assert Words(input).Ok? ==> [] + Words(input).value == Words(input).value;
    while index < |input|
      invariant 0 <= index <= |input|
      invariant After(tokens, Scan(input[index..], current, inSingle, inDouble)) == Words(input)
    {
      var ch := input[index];
      assert input[index..][1..] == input[index + 1..];
      if ch == '\\' && !inSingle {
        index := index + 1;
        if index < |input| {
          assert input[index - 1..][2..] == input[index + 1..];
          current := current + [input[index]];
          index := index + 1;
        }
        continue;
      }
      if ch == '\'' && !inDouble {
        inSingle := !inSingle;
      } else if ch == '\"' && !inSingle {
        inDouble := !inDouble;
      } else if IsSpace(ch) && !inSingle && !inDouble {
        if current != "" {
          AfterAfter(tokens, [current], Scan(input[index + 1..], "", inSingle, inDouble));
          tokens := tokens + [current];
          current := "";
        }
      } else {
        current := current + [ch];
      }
      index := index + 1;
    }
    assert input[index..] == "";
    if inSingle || inDouble {
      return Err(UNCLOSED);
    }
    assert tokens + [] == tokens;
    if current != "" {
      tokens := tokens + [current];
    }
    return Ok(tokens);
  }

  lemma AfterAfter(a: seq<string>, b: seq<string>, r: Result<seq<string>, string>)
    ensures After(a, After(b, r)) == After(a + b, r)
  {
    if r.Ok? {
      assert a + (b + r.value) == (a + b) + r.value;
    }
  }

  // ---------------------------------------------------------------- every way of writing a word

  datatype DoublePart = Literal(c: char) | Backslashed(c: char)

  /** A piece of a word: a bare character, an escaped one, or a quotation. */
  datatype Piece = Bare(c: char) | Escaped(c: char) | Single(s: string) | Double(parts: seq<DoublePart>)

  predicate LegalPart(p: DoublePart) {
    p.Literal? ==> p.c != '\\' && p.c != '\"'
  }

  predicate Legal(p: Piece) {
    match p
    case Bare(c) => c != '\\' && c != '\'' && c != '\"' && !IsSpace(c)
    case Escaped(_) => true
    case Single(s) => '\'' !in s
    case Double(parts) => forall part :: part in parts ==> LegalPart(part)
  }

  function PartText(p: DoublePart): string {
    if p.Literal? then [p.c] else ['\\', p.c]
  }

  function PartsText(parts: seq<DoublePart>): string {
    if parts == [] then "" else PartText(parts[0]) + PartsText(parts[1..])
  }

  function PartsValue(parts: seq<DoublePart>): string {
    if parts == [] then "" else [parts[0].c] + PartsValue(parts[1..])
  }

  function PieceText(p: Piece): string {
    match p
    case Bare(c) => [c]
    case Escaped(c) => ['\\', c]
    case Single(s) => "'" + s + "'"
    case Double(parts) => "\"" + PartsText(parts) + "\""
  }

  function PieceValue(p: Piece): string {
    match p
    case Bare(c) => [c]
    case Escaped(c) => [c]
    case Single(s) => s
    case Double(parts) => PartsValue(parts)
  }

  function Written(pieces: seq<Piece>): string {
    if pieces == [] then "" else PieceText(pieces[0]) + Written(pieces[1..])
  }

  function Meant(pieces: seq<Piece>): string {
    if pieces == [] then "" else PieceValue(pieces[0]) + Meant(pieces[1..])
  }

  lemma {:induction false} ScanSingle(s: string, rest: string, current: string)
    requires '\'' !in s
    ensures Scan(s + ("'" + rest), current, true, false) == Scan(rest, current + s, false, false)
  {
    var t := s + ("'" + rest);
    if s == "" {
      assert t[1..] == rest && current + s == current;
    } else {
      assert t[1..] == s[1..] + ("'" + rest);
      ScanSingle(s[1..], rest, current + [s[0]]);
      assert current + s == current + [s[0]] + s[1..];
    }
  }

  lemma {:induction false} ScanDouble(parts: seq<DoublePart>, rest: string, current: string)
    requires forall part :: part in parts ==> LegalPart(part)
    ensures Scan(PartsText(parts) + ("\"" + rest), current, false, true) == Scan(rest, current + PartsValue(parts), false, false)
  {
    if parts == [] {
      assert (PartsText(parts) + ("\"" + rest))[1..] == rest && current + PartsValue(parts) == current;
    } else {
      var part, more := parts[0], PartsText(parts[1..]) + ("\"" + rest);
      assert part in parts;
      Assoc(PartText(part), PartsText(parts[1..]), "\"" + rest);
      ScanPart(part, more, current);
      ScanDouble(parts[1..], rest, current + [part.c]);
      Assoc(current, [part.c], PartsValue(parts[1..]));
    }
  }

  lemma ScanPart(part: DoublePart, more: string, current: string)
    requires LegalPart(part)
    ensures Scan(PartText(part) + more, current, false, true) == Scan(more, current + [part.c], false, true)
  {
    var t := PartText(part) + more;
    if part.Literal? {
      assert t[0] == part.c && t[1..] == more;
    } else {
      assert t[0] == '\\' && t[1] == part.c && t[2..] == more;
    }
  }

  lemma ScanPiece(p: Piece, rest: string, current: string)
    requires Legal(p)
    ensures Scan(PieceText(p) + rest, current, false, false) == Scan(rest, current + PieceValue(p), false, false)
  {
    match p
    case Bare(c) => BareStep(c, rest, current);
    case Escaped(c) => EscapedStep(c, rest, current);
    case Single(s) => SingleStep(s, rest, current);
    case Double(parts) => DoubleStep(parts, rest, current);
  }

  lemma SingleStep(s: string, rest: string, current: string)
    requires '\'' !in s
    ensures Scan("'" + s + "'" + rest, current, false, false) == Scan(rest, current + s, false, false)
  {
    OpenSingle(s + ("'" + rest), current);
    assert "'" + s + "'" + rest == "'" + (s + ("'" + rest));
    ScanSingle(s, rest, current);
  }

  lemma DoubleStep(parts: seq<DoublePart>, rest: string, current: string)
    requires forall part :: part in parts ==> LegalPart(part)
    ensures Scan("\"" + PartsText(parts) + "\"" + rest, current, false, false) == Scan(rest, current + PartsValue(parts), false, false)
  {
    var text := PartsText(parts);
    OpenDouble(text + ("\"" + rest), current);
    assert "\"" + text + "\"" + rest == "\"" + (text + ("\"" + rest));
    ScanDouble(parts, rest, current);
  }

  lemma BareStep(c: char, rest: string, current: string)
    requires Legal(Bare(c))
    ensures Scan([c] + rest, current, false, false) == Scan(rest, current + [c], false, false)
  {
    assert ([c] + rest)[1..] == rest;
  }

  lemma EscapedStep(c: char, rest: string, current: string)
    ensures Scan(['\\', c] + rest, current, false, false) == Scan(rest, current + [c], false, false)
  {
    var t := ['\\', c] + rest;
    assert t[0] == '\\' && t[1] == c && t[2..] == rest;
  }

  lemma OpenSingle(text: string, current: string)
    ensures Scan("'" + text, current, false, false) == Scan(text, current, true, false)
  {
    assert ("'" + text)[1..] == text;
  }

  lemma OpenDouble(text: string, current: string)
    ensures Scan("\"" + text, current, false, false) == Scan(text, current, false, true)
  {
    assert ("\"" + text)[1..] == text;
  }

  predicate LegalWord(word: seq<Piece>) {
    forall p :: p in word ==> Legal(p)
  }

  lemma {:induction false} ScanWord(word: seq<Piece>, rest: string, current: string)
    requires LegalWord(word)
    ensures Scan(Written(word) + rest, current, false, false) == Scan(rest, current + Meant(word), false, false)
  {
    if word == [] {
      assert Written(word) + rest == rest && current + Meant(word) == current;
    } else {
      assert word[0] in word;
      var more := Written(word[1..]) + rest;
      Assoc(PieceText(word[0]), Written(word[1..]), rest);
      ScanPiece(word[0], more, current);
      ScanWord(word[1..], rest, current + PieceValue(word[0]));
      Assoc(current, PieceValue(word[0]), Meant(word[1..]));
    }
  }

  function Texts(words: seq<seq<Piece>>): (r: seq<string>)
    ensures |r| == |words|
  {
    if words == [] then [] else [Written(words[0])] + Texts(words[1..])
  }

  /** The values of the words; a word that stands for nothing disappears. */
  function Values(words: seq<seq<Piece>>): seq<string> {
    if words == [] then [] else (if Meant(words[0]) == "" then [] else [Meant(words[0])]) + Values(words[1..])
  }

  /** Words written in any mixture of bare, escaped and quoted pieces are read as what they stand for. */
  lemma {:induction false} ReadsWrittenWords(words: seq<seq<Piece>>)
    requires forall w :: w in words ==> LegalWord(w)
    ensures Words(Join(Texts(words), " ")) == Ok(Values(words))
  {
    if words != [] {
      var w := words[0];
      assert w in words;
      var value := if Meant(w) == "" then [] else [Meant(w)];
      if |words| == 1 {
        ScanLast(w);
        assert words[1..] == [] && Texts(words) == [Written(w)] && Values(words) == value + [] == value;
        assert Join(Texts(words), " ") == Written(w);
      } else {
        ReadsWrittenWords(words[1..]);
        assert Texts(words)[1..] == Texts(words[1..]);
        ScanFirst(w, Join(Texts(words[1..]), " "));
      }
    }
  }

  lemma ScanLast(w: seq<Piece>)
    requires LegalWord(w)
    ensures Words(Written(w)) == Ok(if Meant(w) == "" then [] else [Meant(w)])
  {
    ScanWord(w, "", "");
    assert Written(w) + "" == Written(w) && "" + Meant(w) == Meant(w);
  }

  lemma ScanFirst(w: seq<Piece>, more: string)
    requires LegalWord(w) && Words(more).Ok?
    ensures Words(Written(w) + " " + more) == Ok((if Meant(w) == "" then [] else [Meant(w)]) + Words(more).value)
  {
    ScanWord(w, " " + more, "");
    assert Written(w) + " " + more == Written(w) + (" " + more);
    assert (" " + more)[1..] == more && "" + Meant(w) == Meant(w);
    assert [] + Words(more).value == Words(more).value;
  }

  // ---------------------------------------------------------------- every input

  function OneWord(w: seq<Piece>): seq<string> {
    if Meant(w) == "" then [] else [Meant(w)]
  }

  /** White space of any kind ends a word; ... */
  lemma WordBreak(w: seq<Piece>, c: char, more: string)
    requires LegalWord(w) && IsSpace(c)
    ensures Words(Written(w) + ([c] + more)) == After(OneWord(w), Words(more))
  {
    ScanWord(w, [c] + more, "");
    assert ([c] + more)[1..] == more && "" + Meant(w) == Meant(w);
    assert Words(more).Ok? ==> [] + Words(more).value == Words(more).value;
  }

  /** ... a backslash at the very end stands for nothing; ... */
  lemma TrailingBackslash(w: seq<Piece>)
    requires LegalWord(w)
    ensures Words(Written(w) + "\\") == Ok(OneWord(w))
  {
    ScanWord(w, "\\", "");
    assert "" + Meant(w) == Meant(w);
  }

  lemma {:induction false} ScanOpenSingle(s: string, current: string)
    requires '\'' !in s
    ensures Scan(s, current, true, false) == Err(UNCLOSED)
    decreases |s|
  {
    if s != "" {
      assert s[0] in s;
      ScanOpenSingle(s[1..], current + [s[0]]);
    }
  }

  lemma {:induction false} ScanOpenDouble(parts: seq<DoublePart>, tail: string, current: string)
    requires (forall part :: part in parts ==> LegalPart(part)) && (tail == "" || tail == "\\")
    ensures Scan(PartsText(parts) + tail, current, false, true) == Err(UNCLOSED)
  {
    if parts == [] {
      assert PartsText(parts) + tail == tail;
    } else {
      assert parts[0] in parts;
      Assoc(PartText(parts[0]), PartsText(parts[1..]), tail);
      ScanPart(parts[0], PartsText(parts[1..]) + tail, current);
      ScanOpenDouble(parts[1..], tail, current + [parts[0].c]);
    }
  }

  /** ... and a quotation that is not closed is an error. */
  lemma OpenQuotation(w: seq<Piece>, s: string, parts: seq<DoublePart>, tail: string)
    requires LegalWord(w) && '\'' !in s
    requires (forall part :: part in parts ==> LegalPart(part)) && (tail == "" || tail == "\\")
    ensures Words(Written(w) + ("'" + s)) == Err("Unclosed quote in SSH command")
    ensures Words(Written(w) + ("\"" + (PartsText(parts) + tail))) == Err("Unclosed quote in SSH command")
  {
    ScanWord(w, "'" + s, "");
    OpenSingle(s, "" + Meant(w));
    ScanOpenSingle(s, "" + Meant(w));
    ScanWord(w, "\"" + (PartsText(parts) + tail), "");
    OpenDouble(PartsText(parts) + tail, "" + Meant(w));
    ScanOpenDouble(parts, tail, "" + Meant(w));
  }

  datatype Ending = Finished | Space(c: char, more: string) | Backslash | OpenedSingle(s: string)
    | OpenedDouble(parts: seq<DoublePart>, tail: string)

  function EndingText(e: Ending): string {
    match e
    case Finished => ""
    case Space(c, more) => [c] + more
    case Backslash => "\\"
    case OpenedSingle(s) => "'" + s
    case OpenedDouble(parts, tail) => "\"" + (PartsText(parts) + tail)
  }

  predicate LegalEnding(e: Ending) {
    match e
    case Space(c, _) => IsSpace(c)
    case OpenedSingle(s) => '\'' !in s
    case OpenedDouble(parts, tail) => (forall part :: part in parts ==> LegalPart(part)) && (tail == "" || tail == "\\")
    case _ => true
  }

  /** The inside of a double quotation, up to its end or that of the text. */
  lemma {:induction false} InsideDouble(text: string) returns (parts: seq<DoublePart>, rest: string)
    ensures text == PartsText(parts) + rest && forall part :: part in parts ==> LegalPart(part)
    ensures rest == "" || rest == "\\" || rest[0] == '\"'
    decreases |text|
  {
    parts, rest := [], text;
    if text != "" && text[0] != '\"' && !(text == "\\") {
      var part := if text[0] == '\\' then Backslashed(text[1]) else Literal(text[0]);
      var n := |PartText(part)|;
      assert text == PartText(part) + text[n..];
      var more;
      more, rest := InsideDouble(text[n..]);
      parts := [part] + more;
      assert parts[1..] == more;
      Assoc(PartText(part), PartsText(more), rest);
    }
  }

  lemma PieceFirst(p: Piece, w: seq<Piece>, e: Ending, input: string, more: string)
    requires Legal(p) && LegalWord(w) && input == PieceText(p) + more && more == Written(w) + EndingText(e)
    ensures LegalWord([p] + w) && input == Written([p] + w) + EndingText(e)
  {
    assert ([p] + w)[1..] == w;
    Assoc(PieceText(p), Written(w), EndingText(e));
  }

  /** Every input is a written word and one of these endings, so the laws above leave no input out. */
  lemma {:induction false} EveryInput(input: string) returns (w: seq<Piece>, e: Ending)
    ensures LegalWord(w) && LegalEnding(e) && input == Written(w) + EndingText(e)
    decreases |input|
  {
    var p, rest := FirstPiece(input);
    if p.None? {
      e := EndsHere(input, rest);
      w := [];
      assert Written(w) + EndingText(e) == EndingText(e);
    } else {
      var v: seq<Piece>;
      v, e := EveryInput(rest);
      PieceFirst(p.value, v, e, input, rest);
      w := [p.value] + v;
    }
  }

  /** The first piece of an input and what follows it; none if the input is one of the endings. */
  lemma FirstPiece(input: string) returns (p: Option<Piece>, rest: string)
    ensures p.Some? ==> Legal(p.value) && input == PieceText(p.value) + rest && |rest| < |input|
    ensures p.None? ==> exists e :: LegalEnding(e) && EndingText(e) == input
  {
    p, rest := None, "";
    if input == "" {
      assert EndingText(Finished) == input;
    } else if IsSpace(input[0]) {
      assert EndingText(Space(input[0], input[1..])) == input;
    } else if input == "\\" {
      assert EndingText(Backslash) == input;
    } else if input[0] == '\'' {
      p, rest := SinglePiece(input);
    } else if input[0] == '\"' {
      p, rest := DoublePiece(input);
    } else if input[0] == '\\' {
      p, rest := Some(Escaped(input[1])), input[2..];
    } else {
      p, rest := Some(Bare(input[0])), input[1..];
    }
  }

  lemma EndsHere(input: string, rest: string) returns (e: Ending)
    requires exists e :: LegalEnding(e) && EndingText(e) == input
    ensures LegalEnding(e) && EndingText(e) == input
  {
    e :| LegalEnding(e) && EndingText(e) == input;
  }

  lemma SinglePiece(input: string) returns (p: Option<Piece>, rest: string)
    requires input != "" && input[0] == '\''
    ensures p.Some? ==> Legal(p.value) && input == PieceText(p.value) + rest && |rest| < |input|
    ensures p.None? ==> exists e :: LegalEnding(e) && EndingText(e) == input
  {
    var tail := input[1..];
    var i := IndexOf(tail, '\'');
    if i == |tail| {
      assert tail[..i] == tail;
      assert LegalEnding(OpenedSingle(tail)) && EndingText(OpenedSingle(tail)) == input;
      p, rest := None, "";
    } else {
      p, rest := Some(Single(tail[..i])), tail[i + 1..];
      assert input == "'" + tail[..i] + "'" + rest;
    }
  }

  lemma DoublePiece(input: string) returns (p: Option<Piece>, rest: string)
    requires input != "" && input[0] == '\"'
    ensures p.Some? ==> Legal(p.value) && input == PieceText(p.value) + rest && |rest| < |input|
    ensures p.None? ==> exists e :: LegalEnding(e) && EndingText(e) == input
  {
    var parts, tail := InsideDouble(input[1..]);
    if tail == "" || tail == "\\" {
      assert EndingText(OpenedDouble(parts, tail)) == input;
      p, rest := None, "";
    } else {
      ClosedDouble(input, parts, tail);
      p, rest := Some(Double(parts)), tail[1..];
    }
  }

  lemma ClosedDouble(input: string, parts: seq<DoublePart>, rest: string)
    requires input != "" && input[0] == '\"' && input[1..] == PartsText(parts) + rest && rest != "" && rest[0] == '\"'
    ensures input == PieceText(Double(parts)) + rest[1..]
  {
    assert input == "\"" + input[1..] && rest == "\"" + rest[1..];
  }

  // ---------------------------------------------------------------- quoting, then splitting

  /** `ShellQuote` as pieces. */
  ghost function QuotePieces(s: string): seq<Piece> {
    var i := IndexOf(s, '\'');
    if i == |s| then [Single(s)] else [Single(s[..i]), Escaped('\'')] + QuotePieces(s[i + 1..])
  }

  lemma {:induction false} EscapeQuotesConcat(a: string, b: string)
    ensures EscapeQuotes(a + b) == EscapeQuotes(a) + EscapeQuotes(b)
  {
    if a == "" {
      assert a + b == b && EscapeQuotes(a) + EscapeQuotes(b) == EscapeQuotes(b);
    } else {
      var e, x, y := EscapeQuote(a[0]), EscapeQuotes(a[1..]), EscapeQuotes(b);
      EscapeQuotesConcat(a[1..], b);
      EscapeQuotesCons(a[0], a[1..] + b);
      assert a + b == [a[0]] + (a[1..] + b);
      Assoc(e, x, y);
    }
  }

  lemma EscapeQuotesCons(c: char, s: string)
    ensures EscapeQuotes([c] + s) == EscapeQuote(c) + EscapeQuotes(s)
  {
    assert ([c] + s)[1..] == s;
  }

  lemma {:induction false} EscapeQuotesNone(s: string)
    requires '\'' !in s
    ensures EscapeQuotes(s) == s
  {
    if s != "" {
      EscapeQuotesNone(s[1..]);
      assert s == [s[0]] + s[1..];
    }
  }

  lemma {:induction false} QuoteLegal(s: string)
    ensures LegalWord(QuotePieces(s))
    decreases |s|
  {
    var i := IndexOf(s, '\'');
    if i == |s| {
      assert s[..i] == s;
    } else {
      QuoteLegal(s[i + 1..]);
    }
  }

  lemma {:induction false} QuoteIsPieces(s: string)
    ensures Written(QuotePieces(s)) == ShellQuote(s) && Meant(QuotePieces(s)) == s
    decreases |s|
  {
    var i := IndexOf(s, '\'');
    if i == |s| {
      assert s[..i] == s;
      QuoteBase(s);
    } else {
      QuoteIsPieces(s[i + 1..]);
      CutAt(s, i);
      QuoteStep(s[..i], s[i + 1..]);
    }
  }

  lemma QuoteBase(s: string)
    requires '\'' !in s
    ensures Written(QuotePieces(s)) == ShellQuote(s) && Meant(QuotePieces(s)) == s
  {
    IndexOfUnique(s, '\'', |s|);
    EscapeQuotesNone(s);
    OnePiece(Single(s));
  }

  lemma QuoteStep(head: string, tail: string)
    requires '\'' !in head
    requires Written(QuotePieces(tail)) == ShellQuote(tail) && Meant(QuotePieces(tail)) == tail
    ensures
      var s := head + (['\''] + tail);
      Written(QuotePieces(s)) == ShellQuote(s) && Meant(QuotePieces(s)) == s
  {
    var s := head + (['\''] + tail);
    Uncut(head, '\'', tail);
    IndexOfUnique(s, '\'', |head|);
    QuoteTwice(head, tail);
    ConsQuote(head, QuotePieces(tail));
  }

  lemma ConsQuote(head: string, more: seq<Piece>)
    ensures Written([Single(head), Escaped('\'')] + more) == ("'" + head + "'") + ("\\'" + Written(more))
    ensures Meant([Single(head), Escaped('\'')] + more) == head + ("'" + Meant(more))
  {
    TwoPieces(Single(head), Escaped('\''), more);
  }

  lemma OnePiece(p: Piece)
    ensures Written([p]) == PieceText(p) && Meant([p]) == PieceValue(p)
  {
    assert [p][1..] == [];
  }

  lemma TwoPieces(p: Piece, q: Piece, more: seq<Piece>)
    ensures Written([p, q] + more) == PieceText(p) + (PieceText(q) + Written(more))
    ensures Meant([p, q] + more) == PieceValue(p) + (PieceValue(q) + Meant(more))
  {
    var pieces := [p, q] + more;
    assert pieces[1..] == [q] + more && pieces[1..][1..] == more;
  }

  /** Quoting up to and beyond a quote character. */
  lemma QuoteTwice(a: string, b: string)
    requires '\'' !in a
    ensures ShellQuote(a + ("'" + b)) == ("'" + a + "'") + ("\\'" + ShellQuote(b))
  {
    EscapeQuotesConcat(a, "'" + b);
    EscapeQuotesNone(a);
    assert ("'" + b)[1..] == b && ("'" + b)[0] == '\'';
    assert EscapeQuotes("'" + b) == "'\\''" + EscapeQuotes(b);
    RearrangeQuotes(a, EscapeQuotes(b));
  }

  lemma RearrangeQuotes(a: string, b: string)
    ensures "'" + (a + ("'\\''" + b)) + "'" == ("'" + a + "'") + ("\\'" + ("'" + b + "'"))
  {}

  function QuoteAll(words: seq<string>): (r: seq<string>)
    ensures |r| == |words|
  {
    if words == [] then [] else [ShellQuote(words[0])] + QuoteAll(words[1..])
  }

  function NonEmpty(words: seq<string>): seq<string> {
    if words == [] then [] else (if words[0] == "" then [] else [words[0]]) + NonEmpty(words[1..])
  }

  ghost function AllPieces(words: seq<string>): seq<seq<Piece>> {
    if words == [] then [] else [QuotePieces(words[0])] + AllPieces(words[1..])
  }

  lemma {:induction false} AllPiecesQuote(words: seq<string>)
    ensures Texts(AllPieces(words)) == QuoteAll(words)
    ensures Values(AllPieces(words)) == NonEmpty(words)
    ensures forall w :: w in AllPieces(words) ==> LegalWord(w)
  {
    if words != [] {
      QuoteIsPieces(words[0]);
      QuoteLegal(words[0]);
      AllPiecesQuote(words[1..]);
      assert AllPieces(words)[1..] == AllPieces(words[1..]);
    }
  }

  lemma {:induction false} NonEmptySame(words: seq<string>)
    ensures |NonEmpty(words)| <= |words|
    ensures NonEmpty(words) == words <==> "" !in words
  {
    if words != [] {
      NonEmptySame(words[1..]);
      assert words == [words[0]] + words[1..];
      assert words[0] != "" ==> NonEmpty(words)[1..] == NonEmpty(words[1..]);
    }
  }

  /**
   Splitting the space-joined quotations of any list returns its non-empty words, whatever quotes,
   backslashes or white space they contain; so it returns exactly the list when no word is empty.
   */
  lemma QuotedWordsSplit(words: seq<string>)
    ensures Words(Join(QuoteAll(words), " ")) == Ok(NonEmpty(words))
    ensures Words(Join(QuoteAll(words), " ")) == Ok(words) <==> "" !in words
  {
    AllPiecesQuote(words);
    ReadsWrittenWords(AllPieces(words));
    NonEmptySame(words);
  }
}
