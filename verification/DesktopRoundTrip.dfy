/** Writing an autostart entry and reading it back: exactly when the program path is recovered. */
module DesktopRoundTrip {
  import opened Text
  import opened DesktopExec

  predicate HasSpace(s: string) {
    exists i :: 0 <= i < |s| && IsSpace(s[i])
  }

  /** An argument no rule of the reader touches. */
  predicate PlainArgument(s: string) {
    s != "" && forall i :: 0 <= i < |s| ==> !IsSpace(s[i]) && s[i] != '\'' && s[i] != '\"' && s[i] != '\\' && s[i] != '%'
  }

  /** A name that survives as one line. */
  predicate PlainName(s: string) {
    s != "" && Trimmed(s) && '\n' !in s && '\\' !in s
  }

  predicate PlainBackground(arg: Option<string>) {
    arg.Some? ==> PlainArgument(arg.value)
  }

  predicate PlainPath(path: string) {
    "/" <= path && '\\' !in path
  }

  /** The condition under which a path without backslashes comes back. */
  predicate Recoverable(path: string) {
    '\n' !in path && (NeedsQuoting(path) || ('\'' !in path && !HasSpace(path)))
  }

  // ---------------------------------------------------------------- value escapes do not meet argument escapes

  /** Every backslash is followed by a character that value unescaping does not know. */
  ghost predicate NoValueEscape(s: string) {
    forall i, j :: 0 <= i && j == i + 1 < |s| && s[i] == '\\' ==> s[j] !in "sntr\\"
  }

  lemma UnescapeIdentity(s: string)
    requires NoValueEscape(s)
    ensures UnescapeValue(s) == s
  {
    forall second: char -> bool, replacement | forall c :: second(c) ==> c in "sntr\\"
      ensures ReplacePairs(s, '\\', second, replacement) == s
    {
      assert !HasPair(s, '\\', second);
      ReplaceNone(s, '\\', second, replacement);
    }
  }

  lemma {:induction false} EscapeExecSafe(path: string)
    requires '\\' !in path
    ensures NoValueEscape(EscapeExec(path))
    ensures EscapeExec(path) != "" ==> EscapeExec(path)[|EscapeExec(path)| - 1] != '\\'
    ensures '\n' in EscapeExec(path) <==> '\n' in path
  {
    if path != "" {
      var e, rest := EscapeChar(path[0]), EscapeExec(path[1..]);
      assert path == [path[0]] + path[1..] && path[0] in path;
      EscapeExecSafe(path[1..]);
      EscapeCharSafe(path[0]);
      ConcatSafe(e, rest);
    }
  }

  lemma EscapeCharSafe(c: char)
    requires c != '\\'
    ensures NoValueEscape(EscapeChar(c)) && EscapeChar(c)[|EscapeChar(c)| - 1] == c
    ensures '\n' in EscapeChar(c) <==> c == '\n'
  {}

  lemma ConcatSafe(a: string, b: string)
    requires NoValueEscape(a) && NoValueEscape(b) && (a != "" ==> a[|a| - 1] != '\\')
    ensures NoValueEscape(a + b)
  {}

  lemma SliceSafe(s: string, i: nat, j: nat)
    requires NoValueEscape(s) && i <= j <= |s|
    ensures NoValueEscape(s[i..j])
  {
    var t := s[i..j];
    forall k, l | 0 <= k && l == k + 1 < |t| && t[k] == '\\' ensures t[l] !in "sntr\\" {
      assert s[i + k] == '\\' && s[i + l] == t[l];
    }
  }

  lemma ExecTextSafe(path: string, arg: Option<string>)
    requires '\\' !in path && PlainBackground(arg)
    ensures NoValueEscape(ExecText(path, arg))
  {
    var q := QuoteExecArg(path);
    if NeedsQuoting(path) {
      EscapeExecSafe(path);
      ConcatSafe("\"", EscapeExec(path));
      ConcatSafe("\"" + EscapeExec(path), "\"");
    }
    assert NoValueEscape(q) && (q != "" ==> q[|q| - 1] != '\\');
    if arg.Some? {
      TrimTrimmed(arg.value);
      assert NoValueEscape(arg.value);
      ConcatSafe(q, " ");
      ConcatSafe(q + " ", arg.value);
    }
  }

  // ---------------------------------------------------------------- scanning what was written

  lemma {:induction false} ScanQuoted(path: string, rest: string, current: string)
    ensures ScanExec(EscapeExec(path) + ("\"" + rest), current, Some('\"'), false) == ScanExec(rest, current + path, None, false)
  {
    var t := EscapeExec(path) + ("\"" + rest);
    if path == "" {
      assert t[1..] == rest && current + path == current;
    } else {
      var more := EscapeExec(path[1..]) + ("\"" + rest);
      ScanQuoted(path[1..], rest, current + [path[0]]);
      assert current + [path[0]] + path[1..] == current + path;
      if IsSpecial(path[0]) {
        assert t[0] == '\\' && t[1..] == [path[0]] + more && t[1..][1..] == more;
      } else {
        assert t[0] == path[0] && t[1..] == more;
      }
    }
  }

  lemma {:induction false} ScanBare(word: string, rest: string, current: string)
    requires forall i :: 0 <= i < |word| ==> BareChar(word[i])
    ensures ScanExec(word + rest, current, None, false) == ScanExec(rest, current + word, None, false)
  {
    if word == "" {
      assert word + rest == rest && current + word == current;
    } else {
      assert (word + rest)[1..] == word[1..] + rest;
      ScanBare(word[1..], rest, current + [word[0]]);
      assert current + [word[0]] + word[1..] == current + word;
    }
  }

  predicate BareChar(c: char) {
    !IsSpace(c) && c != '\'' && c != '\"' && c != '\\'
  }

  lemma UnquotedChars(path: string)
    requires !NeedsQuoting(path)
    ensures '\"' !in path && '\\' !in path && '\n' !in path
  {
    forall i | 0 <= i < |path| ensures path[i] != '\"' && path[i] != '\\' && path[i] != '\n' {
      assert path[i] !in " \t\n\"$\\";
    }
  }

  lemma BarePath(path: string)
    requires !NeedsQuoting(path) && '\'' !in path && !HasSpace(path)
    ensures forall i :: 0 <= i < |path| ==> BareChar(path[i])
  {
    UnquotedChars(path);
    forall i | 0 <= i < |path| ensures BareChar(path[i]) {
      assert path[i] in path;
    }
  }

  lemma ScanPath(path: string, rest: string)
    requires Recoverable(path)
    ensures ScanExec(QuoteExecArg(path) + rest, "", None, false) == ScanExec(rest, path, None, false)
  {
    if NeedsQuoting(path) {
      var quoted := EscapeExec(path) + ("\"" + rest);
      assert QuoteExecArg(path) + rest == "\"" + quoted;
      OpenQuote(quoted);
      ScanQuoted(path, rest, "");
    } else {
      BarePath(path);
      ScanBare(path, rest, "");
    }
    assert "" + path == path;
  }

  lemma OpenQuote(text: string)
    ensures ScanExec("\"" + text, "", None, false) == ScanExec(text, "", Some('\"'), false)
  {
    assert ("\"" + text)[1..] == text;
  }

  /** The arguments written are the arguments read. */
  lemma ScanExecText(path: string, arg: Option<string>)
    requires PlainPath(path) && Recoverable(path) && PlainBackground(arg)
    ensures ScanExec(ExecText(path, arg), "", None, false) == [path] + (if arg.Some? then [arg.value] else [])
  {
    if arg.Some? {
      TrimTrimmed(arg.value);
      ScanPath(path, " " + arg.value);
      assert ExecText(path, arg) == QuoteExecArg(path) + (" " + arg.value);
      ScanArgument(path, arg.value);
    } else {
      ScanPath(path, "");
      assert QuoteExecArg(path) + "" == QuoteExecArg(path);
    }
  }

  lemma ScanArgument(current: string, word: string)
    requires current != "" && PlainArgument(word)
    ensures ScanExec(" " + word, current, None, false) == [current, word]
  {
    assert (" " + word)[1..] == word;
    ScanBare(word, "", "");
    assert word + "" == word && "" + word == word;
    assert [current] + [word] == [current, word];
  }

  // ---------------------------------------------------------------- the lines of the entry

  const GROUP: string := "Desktop Entry"

  ghost function FirstLine(s: string): string {
    s[..IndexOf(s, '\n')]
  }

  /** The Exec line and what follows it. */
  lemma ExecLines(exec: string, ending: string) returns (tail: seq<string>)
    ensures Split("Exec=" + exec + ['\n'] + ending, '\n') == ["Exec=" + FirstLine(exec)] + tail
    ensures '\n' !in exec ==> tail == Split(ending, '\n')
  {
    var i := IndexOf(exec, '\n');
    if i == |exec| {
      tail := Split(ending, '\n');
      assert FirstLine(exec) == exec;
      SplitFirst("Exec=" + exec, '\n', ending);
    } else {
      var rest := exec[i + 1..] + ['\n'] + ending;
      assert exec == FirstLine(exec) + ['\n'] + exec[i + 1..];
      assert "Exec=" + exec + ['\n'] + ending == ("Exec=" + FirstLine(exec)) + ['\n'] + rest;
      SplitFirst("Exec=" + FirstLine(exec), '\n', rest);
      tail := Split(rest, '\n');
    }
  }

  lemma SplitThree(a: string, b: string, c: string, rest: string)
    requires '\n' !in a && '\n' !in b && '\n' !in c
    ensures Split(a + ['\n'] + (b + ['\n'] + (c + ['\n'] + rest)), '\n') == [a, b, c] + Split(rest, '\n')
  {
    SplitFirst(c, '\n', rest);
    SplitFirst(b, '\n', c + ['\n'] + rest);
    SplitFirst(a, '\n', b + ['\n'] + (c + ['\n'] + rest));
  }

  lemma LinesOfEntry(app: string, exec: string, ending: string) returns (tail: seq<string>)
    requires '\n' !in app
    ensures Split(EntryText(app, exec, ending), '\n') ==
            ["[Desktop Entry]", "Type=Application", "Name=" + app, "Exec=" + FirstLine(exec)] + tail
    ensures '\n' !in exec ==> tail == Split(ending, '\n')
  {
    tail := LinesOf("[Desktop Entry]", "Type=Application", "Name=" + app, exec, ending);
  }

  lemma LinesOf(a: string, b: string, c: string, exec: string, ending: string) returns (tail: seq<string>)
    requires '\n' !in a && '\n' !in b && '\n' !in c
    ensures Split(Join([a, b, c, "Exec=" + exec, ending], "\n"), '\n') == [a, b, c, "Exec=" + FirstLine(exec)] + tail
    ensures '\n' !in exec ==> tail == Split(ending, '\n')
  {
    tail := ExecLines(exec, ending);
    JoinFive(a, b, c, "Exec=" + exec, ending);
    SplitThree(a, b, c, "Exec=" + exec + ['\n'] + ending);
    ThreeAndOne(a, b, c, "Exec=" + FirstLine(exec), tail);
  }

  lemma ThreeAndOne<T>(a: T, b: T, c: T, d: T, tail: seq<T>)
    ensures [a, b, c] + ([d] + tail) == [a, b, c, d] + tail
  {}

  lemma JoinFive(a: string, b: string, c: string, d: string, e: string)
    ensures Join([a, b, c, d, e], "\n") == a + ['\n'] + (b + ['\n'] + (c + ['\n'] + (d + ['\n'] + e)))
  {
    assert [a, b, c, d, e][1..] == [b, c, d, e];
    assert [b, c, d, e][1..] == [c, d, e];
    assert [c, d, e][1..] == [d, e];
    assert [d, e][1..] == [e];
    assert Join([d, e], "\n") == d + "\n" + e;
    assert Join([c, d, e], "\n") == c + "\n" + Join([d, e], "\n");
    assert Join([b, c, d, e], "\n") == b + "\n" + Join([c, d, e], "\n");
  }

  predicate PlainKey(key: string) {
    key != "" && Trimmed(key) && key[0] != '#' && key[0] != '[' && '=' !in key && '[' !in key
  }

  lemma ReadKey(key: string, value: string, r: Reading)
    requires r.group == GROUP && PlainKey(key) && key !in r.values
    ensures ReadLine(key + "=" + value, r) == Reading(GROUP, r.values[key := UnescapeValue(value)])
  {
    var line := key + "=" + value;
    assert line[0] == key[0];
    assert line[..|key|] == key;
    IndexOfUnique(line, '=', |key|);
    TrimTrimmed(key);
    assert line[|key| + 1..] == value;
  }

  /** A trimmed `key=value` line still starts with the key and a prefix of the value follows. */
  lemma TrimKeyLine(key: string, value: string) returns (w: string)
    requires PlainKey(key)
    ensures Trim(key + "=" + value) == key + "=" + w && w <= value
    ensures value == "" || !IsSpace(value[|value| - 1]) ==> w == value
  {
    var line := key + "=" + value;
    assert TrimStart(line) == line;
    var t := TrimEnd(line);
    TrimEndShape(line);
    assert line[|key|] == '=';
    TrimEndKeeps(line, |key|);
    w := t[|key| + 1..];
    assert t == line[..|t|];
    assert w == value[..|w|];
  }

  lemma {:induction false} ReadKeeps(lines: seq<string>, r: Reading, key: string)
    requires key in r.values
    ensures key in ReadLines(lines, r).values && ReadLines(lines, r).values[key] == r.values[key]
  {
    if lines != [] {
      ReadKeeps(lines[1..], ReadLine(Trim(lines[0]), r), key);
    }
  }

  lemma ReadHeader(line: string)
    requires line == "[Desktop Entry]"
    ensures ReadLine(Trim(line), Reading("", map[])) == Reading(GROUP, map[])
  {
    TrimTrimmed(line);
    var inner := line[1..|line| - 1];
    assert inner == GROUP;
    TrimTrimmed(inner);
  }

  lemma ReadCons(a: string, rest: seq<string>, r: Reading)
    ensures ReadLines([a] + rest, r) == ReadLines(rest, ReadLine(Trim(a), r))
  {
    assert ([a] + rest)[1..] == rest;
  }

  lemma NoBackslashIdentity(s: string)
    requires '\\' !in s
    ensures UnescapeValue(s) == s
  {
    UnescapeIdentity(s);
  }

  ghost function FirstValues(app: string, w: string): Values {
    map["Type" := "Application", "Name" := app, "Exec" := w]
  }

  lemma DistinctKeys()
    ensures "Type" != "Name" && "Type" != "Exec" && "Name" != "Exec"
  {
    assert "Type"[0] == 'T' && "Name"[0] == 'N' && "Exec"[0] == 'E';
  }

  ghost function NamedValues(app: string): Values {
    map["Type" := "Application", "Name" := app]
  }

  /** A plain `key=value` line of the right group adds its value. */
  lemma ReadPlainLine(line: string, key: string, value: string, values: Values)
    requires line == key + "=" + value
    requires PlainKey(key) && key !in values && value != "" && Trimmed(value) && '\\' !in value
    ensures ReadLine(Trim(line), Reading(GROUP, values)) == Reading(GROUP, values[key := value])
  {
    TrimTrimmed(line);
    ReadKey(key, value, Reading(GROUP, values));
    NoBackslashIdentity(value);
  }

  ghost function TypedValues(): Values {
    map["Type" := "Application"]
  }

  lemma ReadType(line: string)
    requires line == "Type=Application"
    ensures ReadLine(Trim(line), Reading(GROUP, map[])) == Reading(GROUP, TypedValues())
  {
    ReadPlainLine(line, "Type", "Application", map[]);
  }

  lemma ReadName(line: string, app: string)
    requires line == "Name=" + app && PlainName(app)
    ensures ReadLine(Trim(line), Reading(GROUP, TypedValues())) == Reading(GROUP, NamedValues(app))
  {
    DistinctKeys();
    ReadPlainLine(line, "Name", app, TypedValues());
  }

  /** What the first four lines establish; `w` is what is left of the Exec value's first line. */
  lemma ReadStart(header: string, typed: string, named: string, app: string, exec: string, tail: seq<string>)
    returns (w: string)
    requires header == "[Desktop Entry]" && typed == "Type=Application" && named == "Name=" + app
    requires PlainName(app) && NoValueEscape(exec)
    ensures w <= FirstLine(exec)
    ensures FirstLine(exec) != "" && !IsSpace(FirstLine(exec)[|FirstLine(exec)| - 1]) ==> w == FirstLine(exec)
    ensures ReadLines([header, typed, named, "Exec=" + FirstLine(exec)] + tail, Reading("", map[])) ==
            ReadLines(tail, Reading(GROUP, FirstValues(app, w)))
  {
    var execLine := "Exec=" + FirstLine(exec);
    ReadHeader(header);
    ReadType(typed);
    ReadName(named, app);
    w := ReadExec(app, exec);
    FourReads(header, typed, named, execLine, tail, Reading("", map[]), Reading(GROUP, map[]),
              Reading(GROUP, TypedValues()), Reading(GROUP, NamedValues(app)), Reading(GROUP, FirstValues(app, w)));
  }

  lemma FourThen(a: string, b: string, c: string, d: string, tail: seq<string>)
    ensures [a, b, c, d] + tail == [a] + ([b] + ([c] + ([d] + tail)))
  {}

  lemma FourReads(a: string, b: string, c: string, d: string, tail: seq<string>,
                  r0: Reading, r1: Reading, r2: Reading, r3: Reading, r4: Reading)
    requires ReadLine(Trim(a), r0) == r1 && ReadLine(Trim(b), r1) == r2
    requires ReadLine(Trim(c), r2) == r3 && ReadLine(Trim(d), r3) == r4
    ensures ReadLines([a, b, c, d] + tail, r0) == ReadLines(tail, r4)
  {
    var l3 := [d] + tail;
    var l2 := [c] + l3;
    var l1 := [b] + l2;
    FourThen(a, b, c, d, tail);
    ReadCons(a, l1, r0);
    ReadCons(b, l2, r1);
    ReadCons(c, l3, r2);
    ReadCons(d, tail, r3);
  }

  lemma ReadExec(app: string, exec: string) returns (w: string)
    requires NoValueEscape(exec)
    ensures w <= FirstLine(exec)
    ensures FirstLine(exec) != "" && !IsSpace(FirstLine(exec)[|FirstLine(exec)| - 1]) ==> w == FirstLine(exec)
    ensures ReadLine(Trim("Exec=" + FirstLine(exec)), Reading(GROUP, NamedValues(app))) == Reading(GROUP, FirstValues(app, w))
  {
    DistinctKeys();
    var first := FirstLine(exec);
    SliceSafe(exec, 0, |first|);
    w := ReadKeyLine("Exec=" + first, "Exec", first, NamedValues(app));
  }

  /** Any `key=value` line of the right group, with a value that needs no unescaping. */
  lemma ReadKeyLine(line: string, key: string, value: string, values: Values) returns (w: string)
    requires line == key + "=" + value && PlainKey(key) && key !in values && NoValueEscape(value)
    ensures w <= value && (value == "" || !IsSpace(value[|value| - 1]) ==> w == value)
    ensures ReadLine(Trim(line), Reading(GROUP, values)) == Reading(GROUP, values[key := w])
  {
    w := TrimKeyLine(key, value);
    ReadKey(key, w, Reading(GROUP, values));
    SliceSafe(value, 0, |w|);
    assert w == value[0..|w|];
    UnescapeIdentity(w);
  }

  // ---------------------------------------------------------------- what every entry reads as

  /** The Exec value of a written entry is a prefix of the first line of what was written. */
  lemma ReadWritten(app: string, exec: string, ending: string) returns (w: string, tail: seq<string>)
    requires PlainName(app) && NoValueEscape(exec)
    ensures w <= FirstLine(exec)
    ensures FirstLine(exec) != "" && !IsSpace(FirstLine(exec)[|FirstLine(exec)| - 1]) ==> w == FirstLine(exec)
    ensures '\n' !in exec ==> tail == Split(ending, '\n')
    ensures ReadLines(Split(EntryText(app, exec, ending), '\n'), Reading("", map[])) ==
            ReadLines(tail, Reading(GROUP, FirstValues(app, w)))
  {
    tail := LinesOfEntry(app, exec, ending);
    w := ReadStart("[Desktop Entry]", "Type=Application", "Name=" + app, app, exec, tail);
  }

  lemma FirstValuesKept(app: string, w: string, tail: seq<string>)
    ensures
      var values := ReadLines(tail, Reading(GROUP, FirstValues(app, w))).values;
      GetText(values, "Type") == "Application" && GetText(values, "Name") == app && GetText(values, "Exec") == w
  {
    DistinctKeys();
    var r := Reading(GROUP, FirstValues(app, w));
    ReadKeeps(tail, r, "Type");
    ReadKeeps(tail, r, "Name");
    ReadKeeps(tail, r, "Exec");
  }

  /** Whatever comes out, the program is read from that prefix. */
  lemma ProgramSource(app: string, path: string, arg: Option<string>, filePath: string, target: string) returns (w: string)
    requires PlainName(app) && '\\' !in path && PlainBackground(arg)
    ensures w <= FirstLine(ExecText(path, arg))
    ensures
      var r := ReadCommand(BuildEntry(app, path, arg), filePath, target);
      r.Some? ==> r.value.program in ScanExec(Trim(w), "", None, false)
  {
    var exec := ExecText(path, arg);
    ExecTextSafe(path, arg);
    var tail;
    w, tail := ReadWritten(app, exec, Ending(TERMINAL, AUTOSTART, WM_CLASS));
    FirstValuesKept(app, w, tail);
  }

  // ---------------------------------------------------------------- paths that are not recovered

  /** Arguments are made of characters of the text, apart from a final backslash. */
  lemma {:induction false} ScanChars(rest: string, current: string, quote: Option<char>, escaped: bool, c: char)
    requires c != '\\' && c !in rest && c !in current
    ensures forall token :: token in ScanExec(rest, current, quote, escaped) ==> c !in token
    decreases |rest|
  {
    if rest != "" {
      var more := rest[1..];
      assert rest[0] in rest;
      ScanChars(more, current, quote, false, c);
      ScanChars(more, current + [rest[0]], quote, false, c);
      ScanChars(more, current, quote, true, c);
      ScanChars(more, current, None, false, c);
      ScanChars(more, current, Some(rest[0]), false, c);
      ScanChars(more, "", quote, false, c);
    }
  }

  /** Without double quotes and backslashes there is no way to write a single quote. */
  lemma {:induction false} ScanNoSingle(rest: string, current: string, quote: Option<char>)
    requires '\"' !in rest && '\\' !in rest && '\'' !in current && (quote == None || quote == Some('\''))
    ensures forall token :: token in ScanExec(rest, current, quote, false) ==> '\'' !in token
    decreases |rest|
  {
    if rest != "" {
      var c, more := rest[0], rest[1..];
      assert c in rest;
      if c == '\'' {
        ScanNoSingle(more, current, if quote.Some? then None else Some(c));
      } else {
        ScanNoSingle(more, current + [c], quote);
        ScanNoSingle(more, "", quote);
      }
    }
  }

  /** Without quotes and backslashes there is no way to write white space. */
  lemma {:induction false} ScanNoSpace(rest: string, current: string)
    requires '\"' !in rest && '\\' !in rest && '\'' !in rest && !HasSpace(current)
    ensures forall token :: token in ScanExec(rest, current, None, false) ==> !HasSpace(token)
    decreases |rest|
  {
    if rest != "" {
      var c, more := rest[0], rest[1..];
      assert c in rest;
      if IsSpace(c) {
        ScanNoSpace(more, "");
      } else {
        assert !HasSpace(current + [c]);
        ScanNoSpace(more, current + [c]);
      }
    }
  }

  lemma TrimmedPrefixChars(w: string, s: string, c: char)
    requires w <= s && c !in s
    ensures c !in Trim(w)
  {
    if c in Trim(w) {
      TrimCharacters(w, c);
    }
  }

  lemma UnquotedExecChars(path: string, arg: Option<string>, c: char)
    requires !NeedsQuoting(path) && PlainBackground(arg) && c !in path
    requires c == '\"' || c == '\\' || c == '\''
    ensures c !in ExecText(path, arg)
  {
    if arg.Some? {
      TrimTrimmed(arg.value);
    }
  }

  lemma NotRecovered(app: string, path: string, arg: Option<string>, filePath: string, target: string)
    requires PlainName(app) && PlainPath(path) && PlainBackground(arg) && !Recoverable(path)
    ensures
      var r := ReadCommand(BuildEntry(app, path, arg), filePath, target);
      r.Some? ==> r.value.program != path
  {
    var w := ProgramSource(app, path, arg, filePath, target);
    var exec := ExecText(path, arg);
    var line := FirstLine(exec);
    if '\n' in path {
      TrimmedPrefixChars(w, line, '\n');
      ScanChars(Trim(w), "", None, false, '\n');
    } else {
      UnquotedChars(path);
      UnquotedExecChars(path, arg, '\"');
      UnquotedExecChars(path, arg, '\\');
      TrimmedPrefixChars(w, exec, '\"');
      TrimmedPrefixChars(w, exec, '\\');
      if '\'' in path {
        ScanNoSingle(Trim(w), "", None);
      } else {
        UnquotedExecChars(path, arg, '\'');
        TrimmedPrefixChars(w, exec, '\'');
        ScanNoSpace(Trim(w), "");
      }
    }
  }

  // ---------------------------------------------------------------- paths that are recovered

  /** A line can only set a key that starts like the line. */
  lemma ReadOther(line: string, r: Reading, key: string)
    requires key != "" && (line == "" || (!IsSpace(line[0]) && line[0] != key[0]))
    ensures key in ReadLine(line, r).values <==> key in r.values
  {
    if line != "" {
      var i := IndexOf(line, '=');
      if i > 0 {
        assert line[..i][0] == line[0];
        TrimKeepsHead(line[..i]);
      }
    }
  }

  lemma {:induction false} ReadOthers(lines: seq<string>, r: Reading, key: string)
    requires key != ""
    requires forall i :: 0 <= i < |lines| ==> Trimmed(lines[i]) && (lines[i] == "" || lines[i][0] != key[0])
    ensures key in ReadLines(lines, r).values <==> key in r.values
  {
    if lines != [] {
      TrimTrimmed(lines[0]);
      ReadOther(lines[0], r, key);
      ReadOthers(lines[1..], ReadLine(Trim(lines[0]), r), key);
    }
  }

  /** A line of the ending: one trimmed line that starts with none of the letters of the hiding keys. */
  predicate EndingLine(line: string) {
    line != "" && Trimmed(line) && '\n' !in line && line[0] != 'N' && line[0] != 'H'
  }

  lemma NothingHidden(app: string, w: string, a: string, b: string, c: string)
    requires EndingLine(a) && EndingLine(b) && EndingLine(c)
    ensures
      var values := ReadLines(Split(Ending(a, b, c), '\n'), Reading(GROUP, FirstValues(app, w))).values;
      GetText(values, "NoDisplay") == "" && GetText(values, "Hidden") == ""
  {
    EndingPieces(a, b, c);
    HiddenKeysAbsent(app, w);
    KeyStaysAbsent(FirstValues(app, w), a, b, c, "NoDisplay");
    KeyStaysAbsent(FirstValues(app, w), a, b, c, "Hidden");
  }

  lemma KeyStaysAbsent(values: Values, a: string, b: string, c: string, key: string)
    requires EndingLine(a) && EndingLine(b) && EndingLine(c)
    requires key != "" && (key[0] == 'N' || key[0] == 'H') && key !in values
    ensures GetText(ReadLines([a, b, c] + [""], Reading(GROUP, values)).values, key) == ""
  {
    var lines := [a, b, c] + [""];
    ReadOthers(lines, Reading(GROUP, values), key);
  }

  lemma EndingPieces(a: string, b: string, c: string)
    requires EndingLine(a) && EndingLine(b) && EndingLine(c)
    ensures Split(Ending(a, b, c), '\n') == [a, b, c] + [""]
  {
    SplitThree(a, b, c, "");
    IndexOfUnique("", '\n', 0);
  }

  lemma HiddenKeysAbsent(app: string, w: string)
    ensures "NoDisplay" !in FirstValues(app, w) && "Hidden" !in FirstValues(app, w)
  {
    assert |"NoDisplay"| == 9 && |"Hidden"| == 6 && |"Type"| == 4 && |"Name"| == 4 && |"Exec"| == 4;
  }

  lemma EndingLines()
    ensures EndingLine(TERMINAL) && EndingLine(AUTOSTART) && EndingLine(WM_CLASS)
  {}

  lemma StripKeepsSomething(s: string)
    requires s != "" && s[0] != '%' && s[0] != '^' && !IsSpace(s[0])
    ensures StripFieldCodes(s) != ""
  {
    var a := ReplacePairs(s, '%', c => c == '%', "^@");
    ReplaceKeepsStart(s, '%', c => c == '%', "^@");
    var b := ReplacePairs(a, '%', IsFieldCode, "");
    ReplaceKeepsStart(a, '%', IsFieldCode, "");
    var c := ReplacePairs(b, '%', NotLineEnd, "");
    ReplaceKeepsStart(b, '%', NotLineEnd, "");
    var d := ReplacePairs(c, '^', c => c == '@', "%");
    ReplaceKeepsStart(c, '^', c => c == '@', "%");
    var e := CollapseSpaces(d);
    assert e != "" && e[0] == s[0];
    TrimBlank(e);
  }

  lemma IsTrueEmpty()
    ensures !IsTrue("")
  {
    TrimTrimmed("");
    assert |Lower("")| == 0;
  }

  lemma EntryReadBack(app: string, values: Values, exec: string, filePath: string)
    requires PlainName(app)
    requires GetText(values, "Type") == "Application" && GetText(values, "Name") == app && GetText(values, "Exec") == exec
    requires GetText(values, "NoDisplay") == "" && GetText(values, "Hidden") == ""
    requires exec != "" && Trimmed(exec) && exec[0] != '%' && exec[0] != '^'
    ensures EntryOf(values, filePath) == Some(Entry(app, StripFieldCodes(exec), exec, filePath))
  {
    IsTrueEmpty();
    TrimTrimmed(app);
    TrimTrimmed(exec);
    StripKeepsSomething(exec);
  }

  lemma ExecTextShape(path: string, arg: Option<string>)
    requires PlainPath(path) && Recoverable(path) && PlainBackground(arg)
    ensures
      var exec := ExecText(path, arg);
      && exec != "" && (exec[0] == '/' || exec[0] == '\"')
      && !IsSpace(exec[|exec| - 1])
      && '\n' !in exec
  {
    var q := QuoteExecArg(path);
    assert q != "" && (q[0] == '/' || q[0] == '\"') && !IsSpace(q[|q| - 1]) && '\n' !in q by {
      if NeedsQuoting(path) {
        EscapeExecSafe(path);
      } else {
        BarePath(path);
        assert BareChar(path[|path| - 1]);
      }
    }
    if arg.Some? {
      TrimTrimmed(arg.value);
    }
  }

  lemma {:induction false} RenderPlain(token: string, entry: Entry, target: string)
    requires '%' !in token
    ensures Render(token, entry, target) == Rendered(token, false)
  {
    if token != "" {
      assert token[0] in token;
      RenderPlain(token[1..], entry, target);
    }
  }

  lemma CommandReadBack(entry: Entry, path: string, arg: Option<string>, target: string)
    requires PlainPath(path) && Recoverable(path) && PlainBackground(arg)
    requires entry.rawExec == ExecText(path, arg) && entry.rawExec != ""
    ensures CommandOf(entry, target) == Some(Command(path, (if arg.Some? then [arg.value] else []) + [target]))
  {
    ScanExecText(path, arg);
    var tokens := ScanExec(entry.rawExec, "", None, false);
    if arg.Some? {
      assert tokens[1..] == [arg.value] && [arg.value][1..] == [];
      RenderPlain(arg.value, entry, target);
      TrimTrimmed(arg.value);
      assert RenderAll([arg.value], entry, target) == [arg.value] + [] == [arg.value];
      assert !InsertsTarget([arg.value], entry, target);
    } else {
      assert tokens[1..] == [];
    }
  }

  /** The written entry is parsed back with the whole Exec text. */
  lemma EntryRecovered(app: string, exec: string, filePath: string)
    requires PlainName(app) && NoValueEscape(exec) && '\n' !in exec
    requires exec != "" && (exec[0] == '/' || exec[0] == '\"') && !IsSpace(exec[|exec| - 1])
    ensures
      var content := EntryText(app, exec, Ending(TERMINAL, AUTOSTART, WM_CLASS));
      var values := ReadLines(Split(content, '\n'), Reading("", map[])).values;
      EntryOf(values, filePath) == Some(Entry(app, StripFieldCodes(exec), exec, filePath))
  {
    var w, tail := ReadWritten(app, exec, Ending(TERMINAL, AUTOSTART, WM_CLASS));
    assert FirstLine(exec) == exec;
    FirstValuesKept(app, exec, tail);
    EndingLines();
    NothingHidden(app, exec, TERMINAL, AUTOSTART, WM_CLASS);
    EntryReadBack(app, ReadLines(tail, Reading(GROUP, FirstValues(app, exec))).values, exec, filePath);
  }

  lemma Recovered(app: string, path: string, arg: Option<string>, filePath: string, target: string)
    requires PlainName(app) && PlainPath(path) && PlainBackground(arg) && Recoverable(path)
    ensures ReadCommand(BuildEntry(app, path, arg), filePath, target) ==
            Some(Command(path, (if arg.Some? then [arg.value] else []) + [target]))
  {
    var exec := ExecText(path, arg);
    ExecTextShape(path, arg);
    ExecTextSafe(path, arg);
    EntryRecovered(app, exec, filePath);
    CommandReadBack(Entry(app, StripFieldCodes(exec), exec, filePath), path, arg, target);
  }

  /**
   For an absolute path without backslashes, the program read back from the written entry is that
   path exactly when it has no newline and either is quoted or has no single quote and no white
   space; the background argument and the target then follow it.
   */
  lemma ProgramRecovered(app: string, path: string, arg: Option<string>, filePath: string, target: string)
    requires PlainName(app) && PlainPath(path) && PlainBackground(arg)
    ensures
      var r := ReadCommand(BuildEntry(app, path, arg), filePath, target);
      && (r.Some? && r.value.program == path <==> Recoverable(path))
      && (Recoverable(path) ==> r == Some(Command(path, (if arg.Some? then [arg.value] else []) + [target])))
  {
    if Recoverable(path) {
      Recovered(app, path, arg, filePath, target);
    } else {
      NotRecovered(app, path, arg, filePath, target);
    }
  }
}
