/**
 Header parts with any field lines, in terms of their characters: where the length is announced, in which
 letter case and with which white space, and that everything else in the header part is passed over.
 */
module FramingHeaders {
  import opened Text
  import opened Framing

  // ---------------------------------------------------------------- white space in UTF-8

  /** The UTF-8 encoding of a character. */
  function Utf8(c: char): Bytes {
    var n := c as int;
    if n < 0x80 then [c]
    else if n < 0x800 then [(0xC0 + n / 64) as char, (0x80 + n % 64) as char]
    else if n < 0x1_0000 then [(0xE0 + n / 4096) as char, (0x80 + n / 64 % 64) as char, (0x80 + n % 64) as char]
    else [(0xF0 + n / 262144) as char, (0x80 + n / 4096 % 64) as char, (0x80 + n / 64 % 64) as char, (0x80 + n % 64) as char]
  }

  function Utf8Text(s: string): Bytes {
    if s == "" then "" else Utf8(s[0]) + Utf8Text(s[1..])
  }

  /** The reader skips the bytes of a character exactly when the character is white space. */
  lemma SpaceWidthExactly(c: char, rest: Bytes)
    ensures SpaceWidth(Utf8(c) + rest) == if IsSpace(c) then |Utf8(c)| else 0
  {
    var h := Utf8(c) + rest;
    assert forall i :: 0 <= i < |Utf8(c)| ==> h[i] == Utf8(c)[i];
    if c as int >= 0x800 {
      LongWidth(c, h);
    } else if c as int >= 0x80 {
      assert h[..2] == [h[0], h[1]];
    }
  }

  /** The white space characters of three bytes, by their code. */
  predicate LongSpaceCode(n: int) {
    n == 0x1680 || 0x2000 <= n <= 0x200A || n == 0x2028 || n == 0x2029 || n == 0x202F || n == 0x205F || n == 0x3000 || n == 0xFEFF
  }

  predicate LongSpaceBytes(a: int, b: int, c: int) {
    || (a == 0xE1 && b == 0x9A && c == 0x80)
    || (a == 0xE2 && b == 0x80 && (0x80 <= c <= 0x8A || c == 0xA8 || c == 0xA9 || c == 0xAF))
    || (a == 0xE2 && b == 0x81 && c == 0x9F)
    || (a == 0xE3 && b == 0x80 && c == 0x80)
    || (a == 0xEF && b == 0xBB && c == 0xBF)
  }

  lemma CodeByBytes(n: int, x: int, y: int, z: int)
    requires n == 4096 * x + 64 * y + z && 0 <= x && 0 <= y < 64 && 0 <= z < 64
    ensures LongSpaceCode(n) <==> LongSpaceBytes(0xE0 + x, 0x80 + y, 0x80 + z)
  {}

  lemma ThreeBytes(h: Bytes)
    requires |h| >= 3 && h[0] as int >= 0xE0
    ensures SpaceWidth(h) == if LongSpaceBytes(h[0] as int, h[1] as int, h[2] as int) then 3 else 0
  {
    assert h[..2] == [h[0], h[1]] && h[..3] == [h[0], h[1], h[2]];
  }

  lemma LongWidth(c: char, h: Bytes)
    requires c as int >= 0x800 && |h| >= |Utf8(c)| && forall i :: 0 <= i < |Utf8(c)| ==> h[i] == Utf8(c)[i]
    ensures SpaceWidth(h) == if IsSpace(c) then 3 else 0
  {
    var n := c as int;
    ThreeBytes(h);
    assert IsSpace(c) <==> LongSpaceCode(n);
    if n < 0x1_0000 {
      CodeByBytes(n, n / 4096, n / 64 % 64, n % 64);
    } else {
      assert h[0] as int >= 0xF0;
    }
  }

  /** What is skipped is a white space character in UTF-8. */
  lemma SkippedIsSpace(h: Bytes) returns (c: char)
    requires SpaceWidth(h) > 0
    ensures IsSpace(c) && h[..SpaceWidth(h)] == Utf8(c)
  {
    var w := SpaceWidth(h);
    if w == 1 {
      c := h[0];
    } else if w == 2 {
      c := 0xA0 as char;
      assert Utf8(c) == [0xC2 as char, 0xA0 as char];
    } else {
      var n := (h[0] as int - 0xE0) * 4096 + (h[1] as int - 0x80) * 64 + (h[2] as int - 0x80);
      assert h[..3] == [h[0], h[1], h[2]] && h[..2] == [h[0], h[1]];
      c := n as char;
      assert n / 4096 == h[0] as int - 0xE0 && n / 64 % 64 == h[1] as int - 0x80 && n % 64 == h[2] as int - 0x80;
    }
  }

  lemma {:induction false} SkipsSpaces(spaces: string, rest: Bytes)
    requires Blank(spaces) && (rest == "" || IsDigit(rest[0]))
    ensures SkipSpace(Utf8Text(spaces) + rest) == rest
  {
    if spaces == "" {
      assert Utf8Text(spaces) + rest == rest;
      assert |rest| >= 2 ==> rest[..2][0] == rest[0];
      assert |rest| >= 3 ==> rest[..3][0] == rest[0];
    } else {
      var c, more := spaces[0], Utf8Text(spaces[1..]) + rest;
      SkipsSpaces(spaces[1..], rest);
      Assoc(Utf8(c), Utf8Text(spaces[1..]), rest);
      SpaceWidthExactly(c, more);
      assert (Utf8(c) + more)[|Utf8(c)|..] == more;
    }
  }

  lemma SpaceInFront(h: Bytes, c: char, spaces: string, tail: Bytes, skipped: Bytes)
    requires h == Utf8(c) + tail && tail == Utf8Text(spaces) + skipped && IsSpace(c) && Blank(spaces)
    ensures Blank([c] + spaces) && h == Utf8Text([c] + spaces) + skipped
  {
    assert ([c] + spaces)[1..] == spaces;
    Assoc(Utf8(c), Utf8Text(spaces), skipped);
  }

  lemma {:induction false} SkippedSpaces(h: Bytes) returns (spaces: string)
    ensures Blank(spaces) && h == Utf8Text(spaces) + SkipSpace(h)
    decreases |h|
  {
    var w := SpaceWidth(h);
    if w == 0 {
      spaces := "";
    } else {
      var c := SkippedIsSpace(h);
      var rest := SkippedSpaces(h[w..]);
      PrefixCut(h[..w], h);
      SpaceInFront(h, c, rest, h[w..], SkipSpace(h[w..]));
      spaces := [c] + rest;
    }
  }

  // ---------------------------------------------------------------- a field that announces a length

  /** The field name in any letter case, white space, and digits that are not followed by another one. */
  ghost predicate LengthField(h: Bytes, name: Bytes, spaces: string, digits: Bytes, after: Bytes) {
    && h == name + (Utf8Text(spaces) + (digits + after))
    && Lower(name) == "content-length:"
    && Blank(spaces)
    && digits != "" && (forall i :: 0 <= i < |digits| ==> IsDigit(digits[i]))
    && (after != "" ==> !IsDigit(after[0]))
  }

  ghost predicate Announces(h: Bytes, n: nat) {
    exists name, spaces, digits, after :: LengthField(h, name, spaces, digits, after) && DigitsValue(digits) == n
  }

  lemma NamesExactly(h: Bytes, name: Bytes, rest: Bytes)
    requires h == name + rest && |name| == 15
    ensures NamesLength(h) <==> Lower(name) == "content-length:"
  {
    assert |"content-length:"| == 15 && FIELD_NAME == "content-length:";
    assert forall i :: 0 <= i < 15 ==> Lower(name)[i] == LowerAscii(h[i]);
    if NamesLength(h) {
      assert forall i :: 0 <= i < 15 ==> Lower(name)[i] == FIELD_NAME[i];
    }
  }

  lemma {:induction false} LeadingDigitsOf(digits: Bytes, after: Bytes)
    requires (forall i :: 0 <= i < |digits| ==> IsDigit(digits[i])) && (after != "" ==> !IsDigit(after[0]))
    ensures LeadingDigits(digits + after) == digits
  {
    if digits == "" {
      assert digits + after == after;
    } else {
      assert (digits + after)[1..] == digits[1..] + after;
      LeadingDigitsOf(digits[1..], after);
    }
  }

  lemma FieldMatches(h: Bytes, name: Bytes, spaces: string, digits: Bytes, after: Bytes)
    requires LengthField(h, name, spaces, digits, after)
    ensures MatchHere(h) == Some(DigitsValue(digits))
  {
    assert |Lower(name)| == 15;
    NamesExactly(h, name, Utf8Text(spaces) + (digits + after));
    assert h[15..] == Utf8Text(spaces) + (digits + after);
    SkipsSpaces(spaces, digits + after);
    LeadingDigitsOf(digits, after);
  }

  lemma MatchHasField(h: Bytes)
    requires MatchHere(h).Some?
    ensures Announces(h, MatchHere(h).value)
  {
    var name, rest := h[..15], h[15..];
    assert h == name + rest;
    NamesExactly(h, name, rest);
    var spaces := SkippedSpaces(rest);
    var digits := LeadingDigits(SkipSpace(rest));
    var after := SkipSpace(rest)[|digits|..];
    PrefixCut(digits, SkipSpace(rest));
    assert LengthField(h, name, spaces, digits, after);
  }

  /** A length is read at a place exactly when a field that announces it stands there. */
  lemma MatchExactly(h: Bytes, n: nat)
    ensures MatchHere(h) == Some(n) <==> Announces(h, n)
  {
    if name, spaces, digits, after :| LengthField(h, name, spaces, digits, after) && DigitsValue(digits) == n {
      FieldMatches(h, name, spaces, digits, after);
    }
    if MatchHere(h) == Some(n) {
      MatchHasField(h);
    }
  }

  /** The header part announces a length exactly when, at the first place where any is announced, that one is. */
  lemma {:induction false} AnnouncedExactly(h: Bytes, n: nat)
    ensures AnnouncedLength(h) == Some(n) <==> exists i :: FirstAnnounced(h, i, n)
  {
    if h != "" {
      AnnouncedExactly(h[1..], n);
      MatchSome(h);
      if MatchHere(h).Some? {
        MatchExactly(h, n);
        if Announces(h, n) {
          FirstHere(h, n);
        }
        if i :| FirstAnnounced(h, i, n) {
          FirstIsHere(h, i, n);
        }
      } else {
        if i :| FirstAnnounced(h[1..], i, n) {
          FirstLater(h, i, n);
        }
        if i :| FirstAnnounced(h, i, n) {
          FirstBehind(h, i, n);
        }
      }
    }
  }

  ghost predicate FirstAnnounced(h: Bytes, i: nat, n: nat) {
    i < |h| && Announces(h[i..], n) && forall j, m: nat :: 0 <= j < i ==> !Announces(h[j..], m)
  }

  lemma MatchSome(h: Bytes)
    ensures MatchHere(h).Some? <==> exists m: nat :: Announces(h, m)
  {
    if MatchHere(h).Some? {
      MatchExactly(h, MatchHere(h).value);
    }
    if m: nat :| Announces(h, m) {
      MatchExactly(h, m);
    }
  }

  lemma FirstHere(h: Bytes, n: nat)
    requires h != "" && Announces(h, n)
    ensures FirstAnnounced(h, 0, n)
  {
    assert h[0..] == h;
  }

  lemma FirstIsHere(h: Bytes, i: nat, n: nat)
    requires FirstAnnounced(h, i, n) && MatchHere(h).Some?
    ensures MatchHere(h) == Some(n)
  {
    assert h[0..] == h;
    MatchExactly(h, MatchHere(h).value);
    MatchExactly(h, n);
  }

  lemma FirstLater(h: Bytes, i: nat, n: nat)
    requires h != "" && MatchHere(h).None? && FirstAnnounced(h[1..], i, n)
    ensures FirstAnnounced(h, i + 1, n)
  {
    assert h[i + 1..] == h[1..][i..];
    forall j, m: nat | 0 <= j < i + 1 ensures !Announces(h[j..], m) {
      if j == 0 {
        assert h[0..] == h;
        MatchExactly(h, m);
      } else {
        assert h[j..] == h[1..][j - 1..];
      }
    }
  }

  lemma FirstBehind(h: Bytes, i: nat, n: nat)
    requires h != "" && MatchHere(h).None? && FirstAnnounced(h, i, n)
    ensures i > 0 && FirstAnnounced(h[1..], i - 1, n)
  {
    assert h[0..] == h;
    MatchExactly(h, n);
    assert i > 0;
    assert h[i..] == h[1..][i - 1..];
    forall j, m: nat | 0 <= j < i - 1 ensures !Announces(h[1..][j..], m) {
      assert h[1..][j..] == h[j + 1..];
    }
  }

  // ---------------------------------------------------------------- what stands before the field

  /** The field name, in any letter case, stands at `i`. */
  ghost predicate NamedAt(h: Bytes, i: nat) {
    i + 15 <= |h| && Lower(h[i..i + 15]) == "content-length:"
  }

  ghost predicate NoFieldName(h: Bytes) {
    forall i: nat :: !NamedAt(h, i)
  }

  /** The name is the same wherever its characters stand. */
  lemma NamedAlike(h: Bytes, i: nat, g: Bytes, j: nat)
    requires i + 15 <= |h| && j + 15 <= |g| && h[i..i + 15] == g[j..j + 15]
    ensures NamedAt(h, i) <==> NamedAt(g, j)
  {}

  lemma NoNameBehind(h: Bytes)
    requires NoFieldName(h) && h != ""
    ensures NoFieldName(h[1..])
  {
    forall i: nat ensures !NamedAt(h[1..], i) {
      if i + 15 <= |h[1..]| {
        assert h[1..][i..i + 15] == h[i + 1..i + 1 + 15];
        NamedAlike(h[1..], i, h, i + 1);
        assert !NamedAt(h, i + 1);
      }
    }
  }

  /** A window that takes in a line break is not the name. */
  lemma NotAcrossBreak(h: Bytes, i: nat, k: nat)
    requires i <= k < i + 15 && k < |h| && (h[k] == '\r' || h[k] == '\n')
    ensures !NamedAt(h, i)
  {
    if i + 15 <= |h| {
      var window := h[i..i + 15];
      assert Lower(window)[k - i] == window[k - i] == h[k];
      var name := "content-length:";
      assert forall m :: 0 <= m < 15 ==> name[m] != '\r' && name[m] != '\n';
    }
  }

  lemma NamesHere(h: Bytes)
    ensures NamesLength(h) <==> NamedAt(h, 0)
  {
    if |h| >= 15 {
      assert h[0..15] == h[..15] && h == h[..15] + h[15..];
      NamesExactly(h, h[..15], h[15..]);
    }
  }

  /** Lines without the field name are passed over. */
  lemma {:induction false} PassesOver(before: Bytes, rest: Bytes)
    requires NoFieldName(before) && (before == "" || before[|before| - 1] == '\n')
    ensures AnnouncedLength(before + rest) == AnnouncedLength(rest)
  {
    if before == "" {
      assert before + rest == rest;
    } else {
      var h := before + rest;
      NotNamedFirst(before, rest);
      NamesHere(h);
      assert h[1..] == before[1..] + rest;
      NoNameBehind(before);
      PassesOver(before[1..], rest);
    }
  }

  lemma NotNamedFirst(before: Bytes, rest: Bytes)
    requires NoFieldName(before) && before != "" && before[|before| - 1] == '\n'
    ensures !NamedAt(before + rest, 0)
  {
    var h, n := before + rest, |before|;
    if n >= 15 {
      assert h[0..15] == before[0..15];
      NamedAlike(h, 0, before, 0);
    } else {
      NotAcrossBreak(h, 0, n - 1);
    }
  }

  lemma {:induction false} NothingAnnounced(h: Bytes)
    requires NoFieldName(h)
    ensures AnnouncedLength(h) == None
  {
    if h != "" {
      NamesHere(h);
      NoNameBehind(h);
      NothingAnnounced(h[1..]);
    }
  }

  // ---------------------------------------------------------------- header parts of several lines

  /** A field line: not empty, and without line breaks. */
  predicate FieldLine(line: Bytes) {
    line != "" && '\r' !in line && '\n' !in line
  }

  predicate FieldLines(lines: seq<Bytes>) {
    forall line :: line in lines ==> FieldLine(line)
  }

  lemma JoinStep(lines: seq<Bytes>)
    requires |lines| > 1
    ensures Join(lines, "\r\n") == lines[0] + ("\r\n" + Join(lines[1..], "\r\n"))
  {}

  lemma JoinStart(lines: seq<Bytes>)
    requires lines != [] && FieldLines(lines)
    ensures Join(lines, "\r\n") != "" && lines[0] != "" && Join(lines, "\r\n")[0] == lines[0][0]
  {
    assert lines[0] in lines;
    if |lines| > 1 { JoinStep(lines); }
  }

  /** No blank line stands in a header part of field lines. */
  lemma {:induction false} NoSeparator(lines: seq<Bytes>, j: nat)
    requires lines != [] && FieldLines(lines) && j < |Join(lines, "\r\n")|
    ensures !SeparatorAt(Join(lines, "\r\n") + SEPARATOR, j)
    decreases |lines|
  {
    var text := Join(lines, "\r\n");
    var line := lines[0];
    assert line in lines;
    if j < |line| {
      assert (text + SEPARATOR)[j] == line[j];
    } else {
      var more := Join(lines[1..], "\r\n");
      JoinStep(lines);
      JoinStart(lines[1..]);
      assert text == line + ("\r\n" + more);
      var k := j - |line|;
      if k == 0 {
        assert lines[1] in lines;
        assert (text + SEPARATOR)[j + 2] == more[0];
      } else if k == 1 {
        assert (text + SEPARATOR)[j] == '\n';
      } else {
        NoSeparator(lines[1..], k - 2);
        assert forall i :: k - 2 <= i < |more + SEPARATOR| ==> (more + SEPARATOR)[i] == (text + SEPARATOR)[i + |line| + 2];
      }
    }
  }

  lemma HeaderEndsAtBlankLine(lines: seq<Bytes>)
    requires lines != [] && FieldLines(lines)
    ensures
      var text := Join(lines, "\r\n");
      HeaderEnd(text + SEPARATOR) == Some(|text|)
  {
    var text := Join(lines, "\r\n");
    forall j: nat | j < |text| ensures !SeparatorAt(text + SEPARATOR, j) { NoSeparator(lines, j); }
    assert SeparatorAt(text + SEPARATOR, |text|);
    HeaderEndUnique(text + SEPARATOR, |text|);
  }

  /** The lines before a line, each with its line break. */
  ghost function Before(lines: seq<Bytes>): Bytes {
    if lines == [] then "" else lines[0] + ("\r\n" + Before(lines[1..]))
  }

  ghost function Behind(lines: seq<Bytes>): Bytes {
    if lines == [] then "" else "\r\n" + Join(lines, "\r\n")
  }

  lemma {:induction false} JoinAround(before: seq<Bytes>, line: Bytes, after: seq<Bytes>)
    ensures Join(before + [line] + after, "\r\n") == Before(before) + (line + Behind(after))
  {
    var all := before + [line] + after;
    if before == [] {
      assert all == [line] + after && all[1..] == after;
    } else {
      JoinAround(before[1..], line, after);
      assert all[1..] == before[1..] + [line] + after;
      JoinStep(all);
      Rearrange(before[0], Before(before[1..]), line + Behind(after));
    }
  }

  lemma Rearrange(a: Bytes, b: Bytes, c: Bytes)
    ensures a + ("\r\n" + (b + c)) == (a + ("\r\n" + b)) + c
  {}

  lemma {:induction false} BeforeNoName(lines: seq<Bytes>)
    requires FieldLines(lines) && forall line :: line in lines ==> NoFieldName(line)
    ensures NoFieldName(Before(lines)) && (lines != [] ==> Before(lines) != "" && Before(lines)[|Before(lines)| - 1] == '\n')
  {
    if lines != [] {
      assert lines[0] in lines;
      BeforeNoName(lines[1..]);
      NameNotAcross(lines[0], Before(lines[1..]));
    }
  }

  lemma NameNotAcross(line: Bytes, more: Bytes)
    requires NoFieldName(line) && NoFieldName(more)
    ensures NoFieldName(line + ("\r\n" + more))
  {
    var h, n := line + ("\r\n" + more), |line|;
    assert h[n] == '\r' && h[n + 1] == '\n';
    forall i: nat ensures !NamedAt(h, i) {
      if i + 15 > |h| {
      } else if i + 15 <= n {
        assert h[i..i + 15] == line[i..i + 15];
        NamedAlike(h, i, line, i);
      } else if i >= n + 2 {
        assert h[i..i + 15] == more[i - n - 2..i - n - 2 + 15];
        NamedAlike(h, i, more, i - n - 2);
      } else {
        NotAcrossBreak(h, i, if i <= n then n else n + 1);
      }
    }
  }

  /**
   Any header part of field lines, with the length announced in one of them, in any letter case and with any
   white space, and the name in none before it: the body is handed over and reading goes on behind it.
   */
  lemma DrainLines(before: seq<Bytes>, name: Bytes, spaces: string, digits: Bytes, after: seq<Bytes>, body: Bytes, more: Bytes)
    requires
      var line := name + (Utf8Text(spaces) + digits);
      FieldLines(before) && FieldLine(line) && FieldLines(after)
    requires forall line :: line in before ==> NoFieldName(line)
    requires LengthField(name + (Utf8Text(spaces) + (digits + "")), name, spaces, digits, "")
    requires DigitsValue(digits) == |body|
    ensures
      var header := Join(before + [name + (Utf8Text(spaces) + digits)] + after, "\r\n");
      Drain(header + SEPARATOR + body + more) == Drained([body] + Drain(more).bodies, Drain(more).rest)
  {
    var line := name + (Utf8Text(spaces) + digits);
    var lines := before + [line] + after;
    var header := Join(lines, "\r\n");
    HeaderEndsAtBlankLine(lines);
    JoinAround(before, line, after);
    BeforeNoName(before);
    PassesOver(Before(before), line + Behind(after));
    LineAnnounces(name, spaces, digits, Behind(after));
    DrainBlock(header, body, more);
  }

  lemma LineAnnounces(name: Bytes, spaces: string, digits: Bytes, after: Bytes)
    requires LengthField(name + (Utf8Text(spaces) + (digits + "")), name, spaces, digits, "")
    requires after != "" ==> !IsDigit(after[0])
    ensures AnnouncedLength(name + (Utf8Text(spaces) + digits) + after) == Some(DigitsValue(digits))
  {
    var h := name + (Utf8Text(spaces) + (digits + after));
    assert name + (Utf8Text(spaces) + digits) + after == h;
    assert |Lower(name)| == 15;
    assert LengthField(h, name, spaces, digits, after);
    FieldMatches(h, name, spaces, digits, after);
  }

  /** A header part without the field name is dropped with its blank line, and nothing else is. */
  lemma DrainWithoutLength(lines: seq<Bytes>, more: Bytes)
    requires lines != [] && FieldLines(lines) && forall line :: line in lines ==> NoFieldName(line)
    ensures Drain(Join(lines, "\r\n") + SEPARATOR + more) == Drain(more)
  {
    var n := |lines| - 1;
    var front, last := lines[..n], lines[n];
    assert lines == front + [last] + [];
    JoinAround(front, last, []);
    BeforeNoName(front);
    assert last in lines;
    assert last + Behind([]) == last;
    PassesOver(Before(front), last);
    NothingAnnounced(last);
    HeaderEndsAtBlankLine(lines);
    DrainJunk(Join(lines, "\r\n"), more);
  }
}
