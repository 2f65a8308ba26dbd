/**
 Strings as the program sees them: the white space class shared by `trim` and `\s`,
 splitting and joining, and decimal numerals.
 */
module Text {

  datatype Option<+T> = None | Some(value: T)

  datatype Result<+T, +E> = Ok(value: T) | Err(error: E)

  lemma Assoc<T>(a: seq<T>, b: seq<T>, c: seq<T>)
    ensures a + (b + c) == (a + b) + c
  {}

  lemma CutAt<T>(s: seq<T>, i: nat)
    requires i < |s|
    ensures s == s[..i] + ([s[i]] + s[i + 1..])
  {}

  lemma Uncut<T>(head: seq<T>, c: T, tail: seq<T>)
    ensures
      var s := head + ([c] + tail);
      s[..|head|] == head && s[|head|] == c && s[|head| + 1..] == tail
  {}

  lemma PrefixCut<T>(p: seq<T>, s: seq<T>)
    requires p <= s
    ensures s == p + s[|p|..]
  {}

  lemma DropStep<T>(s: seq<T>, i: nat)
    requires i < |s|
    ensures s[i..] == [s[i]] + s[i + 1..]
  {}

  // ---------------------------------------------------------------- white space

  /** The ECMAScript white space and line terminator characters. */
  predicate IsSpace(c: char) {
    || '\t' <= c <= '\r'
    || c == ' '
    || c == '\U{00A0}'
    || c == '\U{1680}'
    || '\U{2000}' <= c <= '\U{200A}'
    || c == '\U{2028}'
    || c == '\U{2029}'
    || c == '\U{202F}'
    || c == '\U{205F}'
    || c == '\U{3000}'
    || c == '\U{FEFF}'
  }

  /** The white space characters, one by one. */
  lemma SpaceSet(c: char)
    ensures IsSpace(c) <==>
            c in "\t\n\U{000B}\U{000C}\r \U{00A0}\U{1680}\U{2000}\U{2001}\U{2002}\U{2003}\U{2004}\U{2005}\U{2006}\U{2007}\U{2008}\U{2009}\U{200A}\U{2028}\U{2029}\U{202F}\U{205F}\U{3000}\U{FEFF}"
  {}

  function TrimStart(s: string): string {
    if s != "" && IsSpace(s[0]) then TrimStart(s[1..]) else s
  }

  function TrimEnd(s: string): string {
    if s != "" && IsSpace(s[|s| - 1]) then TrimEnd(s[..|s| - 1]) else s
  }

  function Trim(s: string): string {
    TrimEnd(TrimStart(s))
  }

  /** No white space at either end; the empty string is trimmed. */
  predicate Trimmed(s: string) {
    s == "" || (!IsSpace(s[0]) && !IsSpace(s[|s| - 1]))
  }

  predicate Blank(s: string) {
    forall i :: 0 <= i < |s| ==> IsSpace(s[i])
  }

  /** `TrimStart` drops exactly the white space at the front. */
  lemma {:induction false} TrimStartShape(s: string)
    ensures
      var r := TrimStart(s);
      && |r| <= |s|
      && r == s[|s| - |r|..]
      && (forall i :: 0 <= i < |s| - |r| ==> IsSpace(s[i]))
      && (r == "" || !IsSpace(r[0]))
  {
    if s != "" && IsSpace(s[0]) {
      var rest := s[1..];
      TrimStartShape(rest);
      assert forall i :: 1 <= i < |s| ==> s[i] == rest[i - 1];
    }
  }

  /** `TrimEnd` drops exactly the white space at the back. */
  lemma {:induction false} TrimEndShape(s: string)
    ensures
      var r := TrimEnd(s);
      && r <= s
      && (forall i :: |r| <= i < |s| ==> IsSpace(s[i]))
      && (r == "" || !IsSpace(r[|r| - 1]))
  {
    if s != "" && IsSpace(s[|s| - 1]) {
      TrimEndShape(s[..|s| - 1]);
    }
  }

  lemma {:induction false} TrimEndKeeps(s: string, i: nat)
    requires i < |s| && !IsSpace(s[i])
    ensures |TrimEnd(s)| > i
  {
    if IsSpace(s[|s| - 1]) {
      TrimEndKeeps(s[..|s| - 1], i);
    }
  }

  /** `Trim` leaves no white space at either end. */
  lemma TrimIsTrimmed(s: string)
    ensures Trimmed(Trim(s))
  {
    TrimStartShape(s);
    TrimEndShape(TrimStart(s));
  }

  lemma TrimKeepsHead(s: string)
    requires s != "" && !IsSpace(s[0])
    ensures Trim(s) != "" && Trim(s)[0] == s[0]
  {
    TrimEndKeeps(s, 0);
    TrimEndShape(s);
  }

  lemma TrimTrimmed(s: string)
    requires Trimmed(s)
    ensures Trim(s) == s
  {}

  lemma TrimBlank(s: string)
    ensures Trim(s) == "" <==> Blank(s)
  {
    var t := TrimStart(s);
    TrimStartShape(s);
    TrimEndShape(t);
    assert forall i :: |s| - |t| <= i < |s| ==> s[i] == t[i - (|s| - |t|)];
    assert t != "" ==> t[0] == s[|s| - |t|];
    if t != "" {
      TrimEndKeeps(t, 0);
    }
  }

  /** Every character of a trimmed text stands in the original. */
  lemma TrimCharacters(s: string, c: char)
    requires c in Trim(s)
    ensures c in s
  {
    var t := TrimStart(s);
    TrimStartShape(s);
    TrimEndShape(t);
    var i :| 0 <= i < |Trim(s)| && Trim(s)[i] == c;
    assert t[i] == c;
    assert s[|s| - |t| + i] == t[i];
  }

  // ---------------------------------------------------------------- letter case

  function LowerAscii(c: char): char {
    if 'A' <= c <= 'Z' then c - 'A' + 'a' else c
  }

  function Lower(s: string): (r: string)
    ensures |r| == |s|
  {
    seq(|s|, i requires 0 <= i < |s| => LowerAscii(s[i]))
  }

  /** Exactly the capital letters change, each to the small letter of its place in the alphabet. */
  lemma LowerAlphabet(c: char)
    ensures
      var capitals, small := "ABCDEFGHIJKLMNOPQRSTUVWXYZ", "abcdefghijklmnopqrstuvwxyz";
      && |capitals| == |small|
      && (forall i :: 0 <= i < |capitals| ==> LowerAscii(capitals[i]) == small[i])
      && (c !in capitals ==> LowerAscii(c) == c)
  {
    var capitals := "ABCDEFGHIJKLMNOPQRSTUVWXYZ";
    if 'A' <= c <= 'Z' {
      assert capitals[(c - 'A') as int] == c;
    }
  }

  // ---------------------------------------------------------------- searching

  /** The length of the longest prefix of `s` without `c`: the index of the first `c`, or |s|. */
  function IndexOf(s: string, c: char): (i: nat)
    ensures i <= |s|
    ensures c !in s[..i]
    ensures i < |s| ==> s[i] == c
  {
    if s == "" || s[0] == c then 0
    else
      var i := IndexOf(s[1..], c) + 1;
      assert s[..i] == [s[0]] + s[1..][..i - 1];
      i
  }

  lemma {:induction false} IndexOfUnique(s: string, c: char, i: nat)
    requires i <= |s| && c !in s[..i] && (i < |s| ==> s[i] == c)
    ensures IndexOf(s, c) == i
  {
    if i > 0 {
      assert s[..i][0] == s[0];
      assert s[1..][..i - 1] == s[..i][1..];
      IndexOfUnique(s[1..], c, i - 1);
    }
  }

  /** The text before the first mark, and the text after it, can be read in one way only. */
  lemma BeforeMark(a: string, b: string, mark: char, x: string, y: string)
    requires mark !in a && mark !in b
    requires a + ([mark] + x) == b + ([mark] + y)
    ensures a == b && x == y
  {
    var t, u := a + ([mark] + x), b + ([mark] + y);
    assert t[..|a|] == a && u[..|b|] == b;
    IndexOfUnique(t, mark, |a|);
    IndexOfUnique(u, mark, |b|);
    assert t[|a| + 1..] == x && u[|b| + 1..] == y;
  }

  // ---------------------------------------------------------------- split and join

  /** The pieces between the occurrences of `sep`; never empty. */
  function Split(s: string, sep: char): (r: seq<string>)
    ensures |r| >= 1
    decreases |s|
  {
    var i := IndexOf(s, sep);
    if i == |s| then [s] else [s[..i]] + Split(s[i + 1..], sep)
  }

  function Flatten(chunks: seq<string>): string {
    if chunks == [] then "" else chunks[0] + Flatten(chunks[1..])
  }

  lemma FlattenStep(chunks: seq<string>, i: nat)
    requires i < |chunks|
    ensures Flatten(chunks[i..]) == chunks[i] + Flatten(chunks[i + 1..])
  {
    assert chunks[i..][1..] == chunks[i + 1..];
  }

  function Join(parts: seq<string>, sep: string): string {
    if |parts| == 0 then ""
    else if |parts| == 1 then parts[0]
    else parts[0] + sep + Join(parts[1..], sep)
  }

  /** Joining undoes splitting, and no piece contains the separator. */
  lemma {:induction false} JoinSplit(s: string, sep: char)
    ensures Join(Split(s, sep), [sep]) == s
    ensures forall p :: p in Split(s, sep) ==> sep !in p
    decreases |s|
  {
    var i := IndexOf(s, sep);
    if i < |s| {
      JoinSplit(s[i + 1..], sep);
      assert s == s[..i] + [sep] + s[i + 1..];
      assert Split(s, sep)[1..] == Split(s[i + 1..], sep);
    } else {
      assert s == s[..i];
    }
  }

  lemma SplitFirst(piece: string, sep: char, rest: string)
    requires sep !in piece
    ensures Split(piece + [sep] + rest, sep) == [piece] + Split(rest, sep)
  {
    var s := piece + [sep] + rest;
    assert s[..|piece|] == piece;
    IndexOfUnique(s, sep, |piece|);
    assert s[|piece| + 1..] == rest;
  }

  /** Splitting undoes joining of pieces that do not contain the separator. */
  lemma {:induction false} SplitJoin(parts: seq<string>, sep: char)
    requires |parts| >= 1
    requires forall p :: p in parts ==> sep !in p
    ensures Split(Join(parts, [sep]), sep) == parts
  {
    var s := Join(parts, [sep]);
    assert parts[0] in parts;
    if |parts| == 1 {
      IndexOfUnique(s, sep, |s|);
    } else {
      SplitFirst(parts[0], sep, Join(parts[1..], [sep]));
      SplitJoin(parts[1..], sep);
    }
  }

  lemma AppendCut<T>(head: seq<T>, c: T, rest: seq<T>, more: seq<T>)
    ensures (head + ([c] + rest)) + more == head + [c] + (rest + more)
  {}

  lemma FrontOfCons<T>(head: T, x: seq<T>)
    requires x != []
    ensures
      var all := [head] + x;
      all[..|all| - 1] == [head] + x[..|x| - 1] && all[|all| - 1] == x[|x| - 1]
  {}

  lemma OnePieceFront<T>(x: T, more: seq<T>)
    ensures [x][..0] + more == more
  {}

  /** What `SplitConcat` says of the pieces `x` of the front and `y` of the whole. */
  ghost predicate Continues(x: seq<string>, y: seq<string>, b: string, sep: char) {
    x != [] && y == x[..|x| - 1] + Split(x[|x| - 1] + b, sep)
  }

  lemma ContinuesCons(head: string, x: seq<string>, y: seq<string>, b: string, sep: char)
    requires Continues(x, y, b, sep)
    ensures Continues([head] + x, [head] + y, b, sep)
  {
    FrontOfCons(head, x);
    Assoc([head], x[..|x| - 1], Split(x[|x| - 1] + b, sep));
  }

  /** The pieces of a text cut anywhere: the last piece of the front grows by the first piece of the back. */
  lemma {:induction false} SplitConcat(a: string, b: string, sep: char)
    ensures Continues(Split(a, sep), Split(a + b, sep), b, sep)
    decreases |a|
  {
    var i := IndexOf(a, sep);
    if i < |a| {
      var head, rest := a[..i], a[i + 1..];
      SplitConcat(rest, b, sep);
      CutAt(a, i);
      AppendCut(head, sep, rest, b);
      SplitFirst(head, sep, rest + b);
      ContinuesCons(head, Split(rest, sep), Split(rest + b, sep), b, sep);
    } else {
      OnePieceFront(a, Split(a + b, sep));
    }
  }

  // ---------------------------------------------------------------- fields

  /** The parts between runs of white space. */
  function Fields(s: string): seq<string> {
    FieldsFrom(s, "")
  }

  function FieldsFrom(s: string, current: string): seq<string>
    decreases |s|
  {
    var word := if current == "" then [] else [current];
    if s == "" then word
    else if IsSpace(s[0]) then word + FieldsFrom(s[1..], "")
    else FieldsFrom(s[1..], current + [s[0]])
  }

  predicate PlainWord(s: string) {
    s != "" && forall i :: 0 <= i < |s| ==> !IsSpace(s[i])
  }

  lemma {:induction false} FieldsOfWord(word: string, rest: string, current: string)
    requires forall i :: 0 <= i < |word| ==> !IsSpace(word[i])
    ensures FieldsFrom(word + rest, current) == FieldsFrom(rest, current + word)
  {
    if word == "" {
      assert word + rest == rest && current + word == current;
    } else {
      assert (word + rest)[1..] == word[1..] + rest;
      FieldsOfWord(word[1..], rest, current + [word[0]]);
      assert current + [word[0]] + word[1..] == current + word;
    }
  }

  /** Words without white space, joined by spaces, are read back. */
  lemma {:induction false} FieldsOfJoin(words: seq<string>)
    requires forall w :: w in words ==> PlainWord(w)
    ensures Fields(Join(words, " ")) == words
  {
    if words != [] {
      var w := words[0];
      assert w in words;
      if |words| == 1 {
        FieldsOfWord(w, "", "");
        assert w + "" == w && "" + w == w;
      } else {
        var more := Join(words[1..], " ");
        FieldsOfJoin(words[1..]);
        FieldsOfWord(w, " " + more, "");
        assert Join(words, " ") == w + (" " + more) && "" + w == w;
        assert (" " + more)[1..] == more;
      }
    }
  }

  /** White space of any kind ends a field and, repeated, adds none. */
  lemma FieldsBreak(word: string, c: char, rest: string)
    requires (forall i :: 0 <= i < |word| ==> !IsSpace(word[i])) && IsSpace(c)
    ensures Fields(word + ([c] + rest)) == (if word == "" then [] else [word]) + Fields(rest)
  {
    FieldsOfWord(word, [c] + rest, "");
    assert ([c] + rest)[1..] == rest && "" + word == word;
  }

  lemma {:induction false} FieldsSpaceEnd(s: string, c: char, current: string)
    requires IsSpace(c)
    ensures FieldsFrom(s + [c], current) == FieldsFrom(s, current)
    decreases |s|
  {
    if s == "" {
      assert s + [c] == [c] && [c][1..] == "";
    } else {
      assert (s + [c])[1..] == s[1..] + [c];
      FieldsSpaceEnd(s[1..], c, if IsSpace(s[0]) then "" else current + [s[0]]);
    }
  }

  lemma {:induction false} FieldsTrimEnd(s: string)
    ensures Fields(TrimEnd(s)) == Fields(s)
  {
    if s != "" && IsSpace(s[|s| - 1]) {
      FieldsTrimEnd(s[..|s| - 1]);
      FieldsSpaceEnd(s[..|s| - 1], s[|s| - 1], "");
      assert s == s[..|s| - 1] + [s[|s| - 1]];
    }
  }

  lemma {:induction false} FieldsTrimStart(s: string)
    ensures Fields(TrimStart(s)) == Fields(s)
  {
    if s != "" && IsSpace(s[0]) {
      FieldsTrimStart(s[1..]);
    }
  }

  /** White space around a text adds no field. */
  lemma FieldsTrim(s: string)
    ensures Fields(Trim(s)) == Fields(s)
  {
    FieldsTrimStart(s);
    FieldsTrimEnd(TrimStart(s));
  }

  /** The first field of a text is its longest start without white space. */
  lemma FirstField(s: string, n: nat)
    requires 0 < n <= |s| && (forall i :: 0 <= i < n ==> !IsSpace(s[i])) && (n < |s| ==> IsSpace(s[n]))
    ensures Fields(s) == [s[..n]] + Fields(s[n..])
  {
    var word, rest := s[..n], s[n..];
    assert s == word + rest && "" + word == word;
    FieldsOfWord(word, rest, "");
    assert rest != "" ==> IsSpace(rest[0]);
  }

  // ---------------------------------------------------------------- numerals

  predicate IsDigit(c: char) {
    '0' <= c <= '9'
  }

  /** The decimal numeral of a natural number, without leading zeros. */
  function Decimal(n: nat): (r: string)
    ensures r != "" && forall i :: 0 <= i < |r| ==> IsDigit(r[i])
  {
    if n < 10 then [(n as char) + '0'] else Decimal(n / 10) + [((n % 10) as char) + '0']
  }

  /** The value of a string of digits. */
  function DigitsValue(s: string): nat
    requires forall i :: 0 <= i < |s| ==> IsDigit(s[i])
  {
    if s == "" then 0
    else
      var last := s[|s| - 1];
      assert IsDigit(last);
      10 * DigitsValue(s[..|s| - 1]) + (last - '0') as nat
  }

  lemma DecimalInjective(m: nat, n: nat)
    requires Decimal(m) == Decimal(n)
    ensures m == n
  {
    DecimalValue(m);
    DecimalValue(n);
  }

  lemma {:induction false} DecimalValue(n: nat)
    ensures DigitsValue(Decimal(n)) == n
  {
    if n >= 10 {
      DecimalValue(n / 10);
      assert Decimal(n)[..|Decimal(n)| - 1] == Decimal(n / 10);
    } else {
      assert Decimal(n)[..0] == "";
    }
  }

  /** No numeral starts with a zero but that of zero. */
  lemma {:induction false} DecimalPlain(n: nat)
    ensures n > 0 ==> Decimal(n)[0] != '0'
    ensures n == 0 ==> Decimal(n) == "0"
  {
    if n >= 10 {
      DecimalPlain(n / 10);
    }
  }
}
