/**
 The desktop entry reader and writer piece by piece, in terms of the characters they meet: quoting, value
 escapes, field codes, lines and whole entries.
 */
module DesktopLaws {
  import opened Text
  import opened DesktopExec
  import opened DesktopRoundTrip

  // ---------------------------------------------------------------- the writer

  /** An argument is quoted exactly when it has one of these characters. */
  lemma QuotingExactly(text: string)
    ensures NeedsQuoting(text) <==>
            ' ' in text || '\t' in text || '\n' in text || '\"' in text || '$' in text || '\\' in text
  {
    if i :| 0 <= i < |text| && text[i] in " \t\n\"$\\" {
      assert text[i] in text;
    }
    forall c | c in text && c in " \t\n\"$\\" ensures NeedsQuoting(text) {
      var i :| 0 <= i < |text| && text[i] == c;
    }
  }

  /** The inside of a quoted argument as the specification reads it: four characters need a backslash, and no other has one. */
  function ReadGuarded(t: string): Option<string>
    decreases |t|
  {
    if t == "" then Some("")
    else if t[0] == '\"' || t[0] == '`' || t[0] == '$' then None
    else if t[0] != '\\' then Prefixed(t[0], ReadGuarded(t[1..]))
    else if |t| == 1 || t[1] !in "\"`$\\" then None
    else Prefixed(t[1], ReadGuarded(t[2..]))
  }

  function Prefixed(c: char, rest: Option<string>): Option<string> {
    if rest.None? then None else Some([c] + rest.value)
  }

  lemma {:induction false} GuardedReadsBack(s: string)
    ensures ReadGuarded(EscapeExec(s)) == Some(s)
  {
    if s != "" {
      var c, rest := s[0], EscapeExec(s[1..]);
      GuardedReadsBack(s[1..]);
      var t := EscapeChar(c) + rest;
      assert t[|EscapeChar(c)|..] == rest && t[0] == EscapeChar(c)[0];
      assert s == [c] + s[1..];
    }
  }

  /** A blank background argument is no argument. */
  lemma BlankArgument(path: string, arg: string)
    ensures ExecText(path, Some(arg)) == if Blank(arg) then ExecText(path, None) else ExecText(path, None) + " " + Trim(arg)
  {
    TrimBlank(arg);
  }

  /** The lines of the written entry. */
  lemma EntryLines(app: string, path: string, arg: Option<string>)
    requires '\n' !in app && '\n' !in ExecText(path, arg)
    ensures Split(BuildEntry(app, path, arg), '\n') ==
            ["[Desktop Entry]", "Type=Application", "Name=" + app, "Exec=" + ExecText(path, arg)] +
            (["Terminal=false", "X-GNOME-Autostart-enabled=true", "StartupWMClass=varin"] + [""])
  {
    var exec := ExecText(path, arg);
    EndingLines();
    EndingPieces(TERMINAL, AUTOSTART, WM_CLASS);
    var tail := LinesOfEntry(app, exec, Ending(TERMINAL, AUTOSTART, WM_CLASS));
    assert FirstLine(exec) == exec by { IndexOfUnique(exec, '\n', |exec|); }
  }

  // ---------------------------------------------------------------- every way of writing an argument

  datatype QuotedPart = Inside(c: char) | Guarded(c: char)

  /** A piece of an argument: a bare character, one behind a backslash, or a quotation with either quote. */
  datatype Piece = Bare(c: char) | Backslashed(c: char) | Quotation(quote: char, parts: seq<QuotedPart>)

  predicate LegalPart(quote: char, part: QuotedPart) {
    part.Inside? ==> part.c != quote && part.c != '\\'
  }

  predicate LegalPiece(p: Piece) {
    match p
    case Bare(c) => !IsSpace(c) && c != '\'' && c != '\"' && c != '\\'
    case Backslashed(_) => true
    case Quotation(quote, parts) => (quote == '\"' || quote == '\'') && forall part :: part in parts ==> LegalPart(quote, part)
  }

  function PartText(part: QuotedPart): string {
    if part.Inside? then [part.c] else ['\\', part.c]
  }

  function PartsText(parts: seq<QuotedPart>): string {
    if parts == [] then "" else PartText(parts[0]) + PartsText(parts[1..])
  }

  function PartsValue(parts: seq<QuotedPart>): string {
    if parts == [] then "" else [parts[0].c] + PartsValue(parts[1..])
  }

  function PieceText(p: Piece): string {
    match p
    case Bare(c) => [c]
    case Backslashed(c) => ['\\', c]
    case Quotation(quote, parts) => [quote] + (PartsText(parts) + [quote])
  }

  function PieceValue(p: Piece): string {
    match p
    case Bare(c) => [c]
    case Backslashed(c) => [c]
    case Quotation(_, parts) => PartsValue(parts)
  }

  function Written(pieces: seq<Piece>): string {
    if pieces == [] then "" else PieceText(pieces[0]) + Written(pieces[1..])
  }

  function Meant(pieces: seq<Piece>): string {
    if pieces == [] then "" else PieceValue(pieces[0]) + Meant(pieces[1..])
  }

  predicate LegalPieces(pieces: seq<Piece>) {
    forall p :: p in pieces ==> LegalPiece(p)
  }

  lemma ScanPart(quote: char, part: QuotedPart, rest: string, current: string)
    requires LegalPart(quote, part)
    ensures ScanExec(PartText(part) + rest, current, Some(quote), false) == ScanExec(rest, current + [part.c], Some(quote), false)
  {
    var text := PartText(part) + rest;
    if part.Inside? {
      assert text[1..] == rest;
    } else {
      assert text[0] == '\\' && text[1..] == [part.c] + rest && ([part.c] + rest)[1..] == rest;
    }
  }

  lemma {:induction false} ScanParts(quote: char, parts: seq<QuotedPart>, rest: string, current: string)
    requires forall part :: part in parts ==> LegalPart(quote, part)
    ensures ScanExec(PartsText(parts) + rest, current, Some(quote), false) == ScanExec(rest, current + PartsValue(parts), Some(quote), false)
  {
    if parts == [] {
      assert PartsText(parts) + rest == rest && current + PartsValue(parts) == current;
    } else {
      assert parts[0] in parts;
      Assoc(PartText(parts[0]), PartsText(parts[1..]), rest);
      ScanPart(quote, parts[0], PartsText(parts[1..]) + rest, current);
      ScanParts(quote, parts[1..], rest, current + [parts[0].c]);
      Assoc(current, [parts[0].c], PartsValue(parts[1..]));
    }
  }

  lemma ScanBareChar(c: char, rest: string, current: string)
    requires LegalPiece(Bare(c))
    ensures ScanExec([c] + rest, current, None, false) == ScanExec(rest, current + [c], None, false)
  {
    assert ([c] + rest)[1..] == rest;
  }

  lemma ScanBackslashed(c: char, rest: string, current: string)
    ensures ScanExec(['\\', c] + rest, current, None, false) == ScanExec(rest, current + [c], None, false)
  {
    assert (['\\', c] + rest)[1..] == [c] + rest && ([c] + rest)[1..] == rest;
  }

  lemma OpensQuotation(quote: char, text: string, current: string)
    requires quote == '\"' || quote == '\''
    ensures ScanExec([quote] + text, current, None, false) == ScanExec(text, current, Some(quote), false)
  {
    assert ([quote] + text)[1..] == text;
  }

  lemma ClosesQuotation(quote: char, rest: string, current: string)
    requires quote == '\"' || quote == '\''
    ensures ScanExec([quote] + rest, current, Some(quote), false) == ScanExec(rest, current, None, false)
  {
    assert ([quote] + rest)[1..] == rest;
  }

  lemma QuotationText(quote: char, parts: string, rest: string)
    ensures [quote] + (parts + [quote]) + rest == [quote] + (parts + ([quote] + rest))
  {}

  lemma ScanPiece(p: Piece, rest: string, current: string)
    requires LegalPiece(p)
    ensures ScanExec(PieceText(p) + rest, current, None, false) == ScanExec(rest, current + PieceValue(p), None, false)
  {
    match p
    case Bare(c) => ScanBareChar(c, rest, current);
    case Backslashed(c) => ScanBackslashed(c, rest, current);
    case Quotation(quote, parts) =>
      QuotationText(quote, PartsText(parts), rest);
      OpensQuotation(quote, PartsText(parts) + ([quote] + rest), current);
      ScanParts(quote, parts, [quote] + rest, current);
      ClosesQuotation(quote, rest, current + PartsValue(parts));
  }

  lemma {:induction false} ScanPieces(pieces: seq<Piece>, rest: string, current: string)
    requires LegalPieces(pieces)
    ensures ScanExec(Written(pieces) + rest, current, None, false) == ScanExec(rest, current + Meant(pieces), None, false)
  {
    if pieces == [] {
      assert Written(pieces) + rest == rest && current + Meant(pieces) == current;
    } else {
      assert pieces[0] in pieces;
      Assoc(PieceText(pieces[0]), Written(pieces[1..]), rest);
      ScanPiece(pieces[0], Written(pieces[1..]) + rest, current);
      ScanPieces(pieces[1..], rest, current + PieceValue(pieces[0]));
      Assoc(current, PieceValue(pieces[0]), Meant(pieces[1..]));
    }
  }

  function Argument(s: string): seq<string> {
    if |s| == 0 then [] else [s]
  }

  lemma ReadsWhole(pieces: seq<Piece>, rest: string)
    requires LegalPieces(pieces)
    ensures ScanExec(Written(pieces) + rest, "", None, false) == ScanExec(rest, Meant(pieces), None, false)
  {
    ScanPieces(pieces, rest, "");
    assert "" + Meant(pieces) == Meant(pieces);
  }

  /** An argument written in any mixture of bare, backslashed and quoted pieces is read as what it means; white space of any kind ends it; ... */
  lemma ReadsArgument(pieces: seq<Piece>, c: char, rest: string)
    requires LegalPieces(pieces) && IsSpace(c)
    ensures ScanExec(Written(pieces), "", None, false) == Argument(Meant(pieces))
    ensures ScanExec(Written(pieces) + ([c] + rest), "", None, false) == Argument(Meant(pieces)) + ScanExec(rest, "", None, false)
  {
    ReadsWhole(pieces, "");
    assert Written(pieces) + "" == Written(pieces);
    ReadsWhole(pieces, [c] + rest);
    assert ([c] + rest)[1..] == rest;
  }

  /** ... and a lone backslash at the end stands for itself, and a quotation that is not closed ends with the text. */
  lemma ReadsUnfinished(pieces: seq<Piece>, quote: char, parts: seq<QuotedPart>)
    requires LegalPieces(pieces) && LegalPiece(Quotation(quote, parts))
    ensures ScanExec(Written(pieces) + "\\", "", None, false) == [Meant(pieces) + "\\"]
    ensures ScanExec(Written(pieces) + ([quote] + PartsText(parts)), "", None, false) == Argument(Meant(pieces) + PartsValue(parts))
  {
    ReadsWhole(pieces, "\\");
    ReadsWhole(pieces, [quote] + PartsText(parts));
    OpensQuotation(quote, PartsText(parts), Meant(pieces));
    ScanParts(quote, parts, "", Meant(pieces));
    assert PartsText(parts) + "" == PartsText(parts);
  }

  // ---------------------------------------------------------------- value escapes

  lemma {:induction false} ReplaceBehind(a: string, rest: string, first: char, second: char -> bool, replacement: string)
    requires first !in a
    ensures ReplacePairs(a + rest, first, second, replacement) == a + ReplacePairs(rest, first, second, replacement)
  {
    if a == "" {
      assert a + rest == rest;
    } else {
      assert (a + rest)[1..] == a[1..] + rest && a[0] in a;
      ReplaceBehind(a[1..], rest, first, second, replacement);
      assert a == [a[0]] + a[1..];
    }
  }

  lemma ReplaceFree(s: string, first: char, second: char -> bool, replacement: string)
    requires first !in s
    ensures ReplacePairs(s, first, second, replacement) == s
  {
    ReplaceNone(s, first, second, replacement);
  }

  /** One pair between texts without its first character: replaced, or left as it is. */
  lemma ReplaceOne(a: string, first: char, c: char, b: string, second: char -> bool, replacement: string)
    requires first !in a && first !in b && c != first
    ensures ReplacePairs(a + ([first, c] + b), first, second, replacement) ==
            a + ((if second(c) then replacement else [first, c]) + b)
  {
    var rest := [first, c] + b;
    ReplaceBehind(a, rest, first, second, replacement);
    ReplaceFree(b, first, second, replacement);
    assert rest[2..] == b && rest[1..] == [c] + b && ([c] + b)[1..] == b;
    if !second(c) {
      ReplaceFree([c] + b, first, second, replacement);
      assert [first] + ([c] + b) == [first, c] + b;
    }
  }

  /** What a letter behind a backslash stands for. */
  function Escaped(c: char): Option<char> {
    if c == 's' then Some(' ') else if c == 'n' then Some('\n') else if c == 't' then Some('\t')
    else if c == 'r' then Some('\r') else None
  }

  /** A backslash and one of the letters s, n, t, r stand for one character; with any other character both stay. */
  lemma UnescapeOne(a: string, c: char, b: string)
    requires '\\' !in a && '\\' !in b && c != '\\'
    ensures UnescapeValue(a + (['\\', c] + b)) == a + ((if Escaped(c).Some? then [Escaped(c).value] else ['\\', c]) + b)
  {
    var s := a + (['\\', c] + b);
    ReplaceOne(a, '\\', c, b, x => x == 's', " ");
    ReplaceOne(a, '\\', c, b, x => x == 'n', "\n");
    ReplaceOne(a, '\\', c, b, x => x == 't', "\t");
    ReplaceOne(a, '\\', c, b, x => x == 'r', "\r");
    ReplaceOne(a, '\\', c, b, x => x == '\\', "\\");
    if Escaped(c).Some? {
      var t := a + ([Escaped(c).value] + b);
      assert '\\' !in t;
      ReplaceFree(t, '\\', x => x == 's', " ");
      ReplaceFree(t, '\\', x => x == 'n', "\n");
      ReplaceFree(t, '\\', x => x == 't', "\t");
      ReplaceFree(t, '\\', x => x == 'r', "\r");
      ReplaceFree(t, '\\', x => x == '\\', "\\");
    }
  }

  lemma DoubleOne(a: string, b: string, second: char -> bool, replacement: string)
    requires '\\' !in a && '\\' !in b && !second('\\') && (b != "" ==> !second(b[0]))
    ensures ReplacePairs(a + (['\\', '\\'] + b), '\\', second, replacement) == a + (['\\', '\\'] + b)
  {
    var rest := ['\\', '\\'] + b;
    ReplaceBehind(a, rest, '\\', second, replacement);
    ReplaceFree(b, '\\', second, replacement);
    assert rest[1..] == ['\\'] + b && (['\\'] + b)[1..] == b;
  }

  /** Two backslashes stand for one, unless one of those letters follows, ... */
  lemma UnescapeDouble(a: string, b: string)
    requires '\\' !in a && '\\' !in b && (b != "" ==> Escaped(b[0]).None?)
    ensures UnescapeValue(a + (['\\', '\\'] + b)) == a + (['\\'] + b)
  {
    DoubleOne(a, b, x => x == 's', " ");
    DoubleOne(a, b, x => x == 'n', "\n");
    DoubleOne(a, b, x => x == 't', "\t");
    DoubleOne(a, b, x => x == 'r', "\r");
    var rest := ['\\', '\\'] + b;
    ReplaceBehind(a, rest, '\\', x => x == '\\', "\\");
    ReplaceFree(b, '\\', x => x == '\\', "\\");
    assert rest[2..] == b;
  }

  lemma TripleOne(a: string, c: char, b: string, second: char -> bool, replacement: string)
    requires '\\' !in a && '\\' !in b && c != '\\' && !second('\\')
    ensures ReplacePairs(a + (['\\', '\\', c] + b), '\\', second, replacement) ==
            a + (['\\'] + ((if second(c) then replacement else ['\\', c]) + b))
  {
    var rest := ['\\', '\\', c] + b;
    ReplaceBehind(a, rest, '\\', second, replacement);
    assert rest[1..] == "" + (['\\', c] + b);
    ReplaceOne("", '\\', c, b, second, replacement);
    var tail := (if second(c) then replacement else ['\\', c]) + b;
    assert "" + tail == tail;
  }

  /** ... in which case the second of them and the letter are taken together, and the first one stays. */
  lemma UnescapeTriple(a: string, c: char, b: string)
    requires '\\' !in a && '\\' !in b && Escaped(c).Some?
    ensures UnescapeValue(a + (['\\', '\\', c] + b)) == a + (['\\'] + ([Escaped(c).value] + b))
  {
    var m := [Escaped(c).value];
    TripleOne(a, c, b, x => x == 's', " ");
    TripleOne(a, c, b, x => x == 'n', "\n");
    TripleOne(a, c, b, x => x == 't', "\t");
    TripleOne(a, c, b, x => x == 'r', "\r");
    assert ['\\'] + (['\\', c] + b) == ['\\', '\\', c] + b;
    var t := a + (['\\'] + (m + b));
    assert ['\\'] + (m + b) == ['\\', m[0]] + b && m[0] != '\\';
    ReplaceOne(a, '\\', m[0], b, x => x == 's', " ");
    ReplaceOne(a, '\\', m[0], b, x => x == 'n', "\n");
    ReplaceOne(a, '\\', m[0], b, x => x == 't', "\t");
    ReplaceOne(a, '\\', m[0], b, x => x == 'r', "\r");
    ReplaceOne(a, '\\', m[0], b, x => x == '\\', "\\");
  }

  // ---------------------------------------------------------------- field codes in arguments

  lemma RenderFirst(c: char, rest: string, entry: Entry, target: string)
    requires c != '%'
    ensures Render([c] + rest, entry, target) == Rendered([c] + Render(rest, entry, target).text, Render(rest, entry, target).inserted)
  {
    assert ([c] + rest)[1..] == rest;
  }

  /** Text before a field code is taken as it is. */
  lemma {:induction false} RenderText(a: string, rest: string, entry: Entry, target: string)
    requires '%' !in a
    ensures Render(a + rest, entry, target) ==
            Rendered(a + Render(rest, entry, target).text, Render(rest, entry, target).inserted)
  {
    if a == "" {
      assert a + rest == rest;
    } else {
      var c, more := a[0], a[1..];
      assert a == [c] + more && c in a;
      RenderText(more, rest, entry, target);
      Assoc([c], more, rest);
      RenderFirst(c, more + rest, entry, target);
      Assoc([c], more, Render(rest, entry, target).text);
    }
  }

  /** What a field code stands for (section "The Exec key"): the target, the name, the entry's own file, a percent sign, or nothing. */
  lemma RenderCode(c: char, rest: string, entry: Entry, target: string)
    requires 'a' <= c <= 'z' || 'A' <= c <= 'Z' || c == '%'
    ensures
      var r, more := Render(['%', c] + rest, entry, target), Render(rest, entry, target);
      && (c == 'f' || c == 'F' || c == 'u' || c == 'U' ==> r == Rendered(target + more.text, true))
      && (c == 'c' ==> r == Rendered(entry.name + more.text, more.inserted))
      && (c == 'k' ==> r == Rendered(entry.filePath + more.text, more.inserted))
      && (c == '%' ==> r == Rendered("%" + more.text, more.inserted))
      && (c !in "fFuUck%" ==> r == more)
  {
    assert (['%', c] + rest)[2..] == rest;
    var more := Render(rest, entry, target);
    assert "" + more.text == more.text;
  }

  /** A percent sign that starts no field code stays. */
  lemma RenderPercent(rest: string, entry: Entry, target: string)
    requires rest == "" || !(IsLetter(rest[0]) || rest[0] == '%')
    ensures Render(['%'] + rest, entry, target) == Rendered("%" + Render(rest, entry, target).text, Render(rest, entry, target).inserted)
  {
    assert (['%'] + rest)[1..] == rest;
  }

  // ---------------------------------------------------------------- field codes stripped

  lemma CollapseWord(word: string, rest: string)
    requires forall i :: 0 <= i < |word| ==> !IsSpace(word[i])
    ensures CollapseSpaces(word + rest) == word + CollapseSpaces(rest)
    decreases |word|
  {
    if word == "" {
      assert word + rest == rest;
    } else {
      assert (word + rest)[1..] == word[1..] + rest;
      CollapseWord(word[1..], rest);
      assert word == [word[0]] + word[1..];
    }
  }

  lemma {:induction false} CollapseStart(s: string)
    ensures s != "" && IsSpace(s[0]) ==> CollapseSpaces(s) == " " + CollapseSpaces(TrimStart(s))
  {
    if s != "" && IsSpace(s[0]) {
      CollapseStart(s[1..]);
      if |s| > 1 && IsSpace(s[1]) {
        assert TrimStart(s) == TrimStart(s[1..]);
      } else {
        assert TrimStart(s) == s[1..];
      }
    }
  }

  /** The text is the joined fields, or has one space behind them; and joined fields have no space around them. */
  ghost predicate Collapsed(text: string, fields: seq<string>) {
    var joined := Join(fields, " ");
    && (text == joined || text == joined + " ")
    && Trimmed(joined) && (fields != [] ==> joined != "")
  }

  lemma OneFieldCollapsed(word: string, rest: string)
    requires PlainWord(word) && (rest == "" || rest == " ")
    ensures Collapsed(word + rest, [word])
  {
    assert word + "" == word;
  }

  lemma MoreFieldsCollapsed(word: string, text: string, fields: seq<string>)
    requires PlainWord(word) && fields != [] && Collapsed(text, fields)
    ensures Collapsed(word + (" " + text), [word] + fields)
  {
    var joined := Join(fields, " ");
    assert ([word] + fields)[1..] == fields;
    assert Join([word] + fields, " ") == word + " " + joined;
    assert word + (" " + joined) == word + " " + joined;
    assert word + (" " + (joined + " ")) == word + " " + joined + " ";
  }

  lemma {:induction false} CollapseFields(s: string)
    requires s == "" || !IsSpace(s[0])
    ensures Collapsed(CollapseSpaces(s), Fields(s)) && (s != "" ==> Fields(s) != [])
    decreases |s|
  {
    if s == "" {
      assert Join([], " ") == "";
    } else {
      var n := RunLength(s);
      var word, rest := s[..n], s[n..];
      var next := TrimStart(rest);
      assert s == word + rest;
      FirstField(s, n);
      CollapseWord(word, rest);
      FieldsTrimStart(rest);
      TrimStartShape(rest);
      CollapseStart(rest);
      if next == "" {
        assert Fields(s) == [word];
        OneFieldCollapsed(word, CollapseSpaces(rest));
      } else {
        CollapseFields(next);
        assert rest != "" && IsSpace(rest[0]);
        MoreFieldsCollapsed(word, CollapseSpaces(next), Fields(next));
      }
    }
  }

  lemma {:induction false} RunLength(s: string) returns (n: nat)
    requires s != "" && !IsSpace(s[0])
    ensures 0 < n <= |s| && (forall i :: 0 <= i < n ==> !IsSpace(s[i])) && (n < |s| ==> IsSpace(s[n]))
  {
    n := 1;
    if |s| > 1 && !IsSpace(s[1]) {
      var m := RunLength(s[1..]);
      n := m + 1;
      assert forall i :: 1 <= i < n ==> s[i] == s[1..][i - 1];
    }
  }

  /** Collapsing white space and trimming leaves the fields with single spaces between them. */
  lemma CollapsedIsJoined(s: string)
    ensures Trim(CollapseSpaces(s)) == Join(Fields(s), " ")
  {
    var t := TrimStart(s);
    TrimStartShape(s);
    CollapseStart(s);
    FieldsTrimStart(s);
    CollapseFields(t);
    var joined := Join(Fields(s), " ");
    if t == "" {
      TrimTrimmed("");
      TrimPad("");
    } else {
      TrimTrimmed(joined);
      TrimPad(joined);
    }
  }

  lemma TrimPad(s: string)
    requires Trimmed(s)
    ensures Trim(s + " ") == Trim(" " + s) == Trim(" " + (s + " ")) == s
  {
    TrimBehind(s);
    TrimBefore(s);
    TrimBefore(s + " ");
    TrimTrimmed(s);
  }

  lemma TrimBefore(s: string)
    ensures Trim(" " + s) == Trim(s)
  {
    assert (" " + s)[1..] == s;
  }

  lemma TrimBehind(s: string)
    requires Trimmed(s)
    ensures Trim(s + " ") == s
  {
    var t := s + " ";
    assert t[..|s|] == s;
    if s == "" {
      assert t == " " && " "[1..] == "";
      assert TrimStart(" ") == TrimStart("") == "";
    } else {
      assert t[0] == s[0] && TrimStart(t) == t;
      assert t[|t| - 1] == ' ' && t[..|t| - 1] == s;
      assert TrimEnd(t) == TrimEnd(s) == s;
    }
  }

  /** Without percent signs and carets nothing is stripped but white space; ... */
  lemma StripPlain(s: string)
    requires '%' !in s && '^' !in s
    ensures StripFieldCodes(s) == Join(Fields(s), " ")
  {
    ReplaceFree(s, '%', c => c == '%', "^@");
    ReplaceFree(s, '%', IsFieldCode, "");
    ReplaceFree(s, '%', NotLineEnd, "");
    ReplaceFree(s, '^', c => c == '@', "%");
    CollapsedIsJoined(s);
  }

  /** ... a field code between such texts disappears; ... */
  lemma StripCode(a: string, c: char, b: string)
    requires '%' !in a && '^' !in a && '%' !in b && '^' !in b && c != '%' && NotLineEnd(c)
    ensures StripFieldCodes(a + (['%', c] + b)) == Join(Fields(a + b), " ")
  {
    StripPasses(a, c, b);
    ReplaceFree(a + b, '^', x => x == '@', "%");
    CollapsedIsJoined(a + b);
  }

  lemma StripPasses(a: string, c: char, b: string)
    requires '%' !in a && '%' !in b && c != '%' && NotLineEnd(c)
    ensures
      var s := ReplacePairs(a + (['%', c] + b), '%', x => x == '%', "^@");
      ReplacePairs(ReplacePairs(s, '%', IsFieldCode, ""), '%', NotLineEnd, "") == a + b
  {
    ReplaceOne(a, '%', c, b, x => x == '%', "^@");
    TwoPasses(a, c, b, IsFieldCode, NotLineEnd);
  }

  /** What the first pass leaves, the second removes. */
  lemma TwoPasses(a: string, c: char, b: string, first: char -> bool, second: char -> bool)
    requires '%' !in a && '%' !in b && c != '%' && second(c)
    ensures ReplacePairs(ReplacePairs(a + (['%', c] + b), '%', first, ""), '%', second, "") == a + b
  {
    var text := a + (['%', c] + b);
    RemoveOne(a, c, b, text, first);
    if first(c) {
      ReplaceFree(a + b, '%', second, "");
    } else {
      RemoveOne(a, c, b, text, second);
    }
  }

  lemma RemoveOne(a: string, c: char, b: string, text: string, pass: char -> bool)
    requires '%' !in a && '%' !in b && c != '%' && text == a + (['%', c] + b)
    ensures ReplacePairs(text, '%', pass, "") == if pass(c) then a + b else text
  {
    ReplaceOne(a, '%', c, b, pass, "");
    assert "" + b == b;
  }

  /** ... and two percent signs become one. */
  lemma StripPercent(a: string, b: string)
    requires '%' !in a && '^' !in a && '%' !in b && '^' !in b
    ensures StripFieldCodes(a + ("%%" + b)) == Join(Fields(a + ("%" + b)), " ")
  {
    var rest := "%%" + b;
    ReplaceBehind(a, rest, '%', x => x == '%', "^@");
    ReplaceFree(b, '%', x => x == '%', "^@");
    assert rest[2..] == b;
    var t := a + ("^@" + b);
    assert '%' !in "^@" && '%' !in t;
    ReplaceFree(t, '%', IsFieldCode, "");
    ReplaceFree(t, '%', NotLineEnd, "");
    assert "^@" + b == ['^', '@'] + b;
    ReplaceOne(a, '^', '@', b, x => x == '@', "%");
    CollapsedIsJoined(a + ("%" + b));
  }

  // ---------------------------------------------------------------- lines and entries

  /** Comments and empty lines, keys of other groups, repeated keys, keys for other languages and lines that assign nothing are passed over. */
  lemma LinesPassedOver(line: string, key: string, value: string, r: Reading)
    requires PlainKey(key)
    ensures line == "" || line[0] == '#' ==> ReadLine(line, r) == r
    ensures r.group != "Desktop Entry" ==> ReadLine(key + "=" + value, r).values == r.values
    ensures r.group == "Desktop Entry" && key in r.values ==> ReadLine(key + "=" + value, r) == r
    ensures '=' !in line && (line == "" || line[0] != '[') ==> ReadLine(line, r) == r
  {
    var text := key + "=" + value;
    assert text[0] == key[0] && text[..|key|] == key;
    IndexOfUnique(text, '=', |key|);
    TrimTrimmed(key);
    if '=' !in line {
      IndexOfUnique(line, '=', |line|);
    }
  }

  /** A key for another language. */
  lemma LocalizedPassedOver(key: string, language: string, value: string, r: Reading)
    requires key != "" && Trimmed(key) && key[0] != '#' && key[0] != '[' && '=' !in key && '=' !in language
    requires value == "" || value[|value| - 1] != ']'
    ensures ReadLine(key + "[" + language + "]=" + value, r) == r
  {
    var name := key + "[" + language + "]";
    var text := name + "=" + value;
    assert key + "[" + language + "]=" + value == text;
    assert text[0] == key[0] && text[..|name|] == name && name[|key|] == '[';
    IndexOfUnique(text, '=', |name|);
    assert Trimmed(name) by { assert name[0] == key[0] && name[|name| - 1] == ']'; }
    TrimTrimmed(name);
    assert '[' in name;
  }

  /** A header line opens its group. */
  lemma HeaderOpens(name: string, r: Reading)
    ensures ReadLine("[" + name + "]", r) == r.(group := Trim(name))
  {
    var line := "[" + name + "]";
    assert line[1..|line| - 1] == name;
  }

  /** Which values make an entry, and which entry. */
  lemma EntryExactly(values: Values, filePath: string, e: Entry)
    ensures EntryOf(values, filePath) == Some(e) <==>
            && ("Type" in values ==> values["Type"] == "" || values["Type"] == "Application")
            && ("NoDisplay" in values ==> Lower(Trim(values["NoDisplay"])) != "true")
            && ("Hidden" in values ==> Lower(Trim(values["Hidden"])) != "true")
            && "Name" in values && e.name == Trim(values["Name"]) && e.name != ""
            && "Exec" in values && e.rawExec == Trim(values["Exec"]) && e.rawExec != ""
            && e.exec == StripFieldCodes(e.rawExec) && e.exec != ""
            && e.filePath == filePath
  {
    IsTrueEmpty();
    TrimTrimmed("");
  }
}
