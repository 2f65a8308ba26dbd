/**
 Desktop entries: the writer of the autostart entry, and the reader that discovers applications and
 builds the command to run (section "The Exec key" of the Desktop Entry Specification).
 */
module DesktopExec {
  import opened Text

  // ---------------------------------------------------------------- the writer

  predicate NeedsQuoting(text: string) {
    exists i :: 0 <= i < |text| && text[i] in " \t\n\"$\\"
  }

  predicate IsSpecial(c: char) {
    c == '\"' || c == '\\' || c == '$' || c == '`'
  }

  function EscapeChar(c: char): string {
    if IsSpecial(c) then ['\\', c] else [c]
  }

  function EscapeExec(text: string): string {
    if text == "" then "" else EscapeChar(text[0]) + EscapeExec(text[1..])
  }

  function QuoteExecArg(text: string): string {
    if NeedsQuoting(text) then "\"" + EscapeExec(text) + "\"" else text
  }

  function ExecText(launchPath: string, backgroundArg: Option<string>): string {
    if backgroundArg.Some? && Trim(backgroundArg.value) != "" then QuoteExecArg(launchPath) + " " + Trim(backgroundArg.value)
    else QuoteExecArg(launchPath)
  }

  const TERMINAL: string := "Terminal=false"
  const AUTOSTART: string := "X-GNOME-Autostart-enabled=true"
  const WM_CLASS: string := "StartupWMClass=varin"

  /** Lines that end the entry, each with its newline. */
  function Ending(a: string, b: string, c: string): string {
    a + ['\n'] + (b + ['\n'] + (c + ['\n'] + ""))
  }

  function EntryText(appName: string, exec: string, ending: string): string {
    Join(["[Desktop Entry]", "Type=Application", "Name=" + appName, "Exec=" + exec, ending], "\n")
  }

  function BuildEntry(appName: string, launchPath: string, backgroundArg: Option<string>): string {
    EntryText(appName, ExecText(launchPath, backgroundArg), Ending(TERMINAL, AUTOSTART, WM_CLASS))
  }

  // ---------------------------------------------------------------- replacing two-character sequences

  /** Every `first` followed by a character that satisfies `second`, from left to right. */
  function ReplacePairs(s: string, first: char, second: char -> bool, replacement: string): string
    decreases |s|
  {
    if s == "" then ""
    else if |s| >= 2 && s[0] == first && second(s[1]) then replacement + ReplacePairs(s[2..], first, second, replacement)
    else [s[0]] + ReplacePairs(s[1..], first, second, replacement)
  }

  ghost predicate HasPair(s: string, first: char, second: char -> bool) {
    exists i :: 0 <= i < |s| - 1 && s[i] == first && second(s[i + 1])
  }

  lemma {:induction false} ReplaceNone(s: string, first: char, second: char -> bool, replacement: string)
    requires !HasPair(s, first, second)
    ensures ReplacePairs(s, first, second, replacement) == s
    decreases |s|
  {
    if s != "" {
      var rest := s[1..];
      forall i | 0 <= i < |rest| - 1 ensures !(rest[i] == first && second(rest[i + 1])) {
        assert rest[i] == s[i + 1];
      }
      ReplaceNone(rest, first, second, replacement);
    }
  }

  lemma ReplaceKeepsStart(s: string, first: char, second: char -> bool, replacement: string)
    requires s != "" && s[0] != first
    ensures ReplacePairs(s, first, second, replacement) != "" && ReplacePairs(s, first, second, replacement)[0] == s[0]
  {}

  function UnescapeValue(s: string): string {
    var a := ReplacePairs(s, '\\', c => c == 's', " ");
    var b := ReplacePairs(a, '\\', c => c == 'n', "\n");
    var c := ReplacePairs(b, '\\', c => c == 't', "\t");
    var d := ReplacePairs(c, '\\', c => c == 'r', "\r");
    ReplacePairs(d, '\\', c => c == '\\', "\\")
  }

  predicate IsFieldCode(c: char) {
    c in "fFuUdDnNickvm"
  }

  predicate NotLineEnd(c: char) {
    c != '\n' && c != '\r' && c != '\U{2028}' && c != '\U{2029}'
  }

  function CollapseSpaces(s: string): string {
    if s == "" then ""
    else if IsSpace(s[0]) then
      if |s| > 1 && IsSpace(s[1]) then CollapseSpaces(s[1..]) else " " + CollapseSpaces(s[1..])
    else [s[0]] + CollapseSpaces(s[1..])
  }

  function StripFieldCodes(s: string): string {
    var a := ReplacePairs(s, '%', c => c == '%', "^@");
    var b := ReplacePairs(a, '%', IsFieldCode, "");
    var c := ReplacePairs(b, '%', NotLineEnd, "");
    var d := ReplacePairs(c, '^', c => c == '@', "%");
    Trim(CollapseSpaces(d))
  }

  // ---------------------------------------------------------------- reading entries

  type Values = map<string, string>

  datatype Reading = Reading(group: string, values: Values)

  /** One line, already trimmed. */
  function ReadLine(line: string, r: Reading): Reading {
    if line == "" || line[0] == '#' then r
    else if line[0] == '[' && line[|line| - 1] == ']' then r.(group := Trim(line[1..|line| - 1]))
    else if r.group != "Desktop Entry" then r
    else
      var separator := IndexOf(line, '=');
      if separator == |line| || separator == 0 then r
      else
        var key := Trim(line[..separator]);
        if key == "" || '[' in key || key in r.values then r
        else r.(values := r.values[key := UnescapeValue(line[separator + 1..])])
  }

  function ReadLines(lines: seq<string>, r: Reading): Reading {
    if lines == [] then r else ReadLines(lines[1..], ReadLine(Trim(lines[0]), r))
  }

  /** Trimming makes a carriage return before the newline invisible, so lines are split at newlines. */
  method ParseDesktopValues(content: string) returns (values: Values)
    ensures values == ReadLines(Split(content, '\n'), Reading("", map[])).values
  {
    var lines := Split(content, '\n');
    var r := Reading("", map[]);
    for i := 0 to |lines|
      invariant ReadLines(lines[i..], r) == ReadLines(lines, Reading("", map[]))
    {
      assert lines[i..][1..] == lines[i + 1..];
      r := ReadLine(Trim(lines[i]), r);
    }
    values := r.values;
  }

  datatype Entry = Entry(name: string, exec: string, rawExec: string, filePath: string)

  function GetText(values: Values, key: string): string {
    if key in values then values[key] else ""
  }

  predicate IsTrue(value: string) {
    Lower(Trim(value)) == "true"
  }

  function EntryOf(values: Values, filePath: string): Option<Entry> {
    var kind := GetText(values, "Type");
    if kind != "" && kind != "Application" then None
    else if IsTrue(GetText(values, "NoDisplay")) || IsTrue(GetText(values, "Hidden")) then None
    else
      var name, rawExec := Trim(GetText(values, "Name")), Trim(GetText(values, "Exec"));
      var exec := StripFieldCodes(rawExec);
      if name == "" || rawExec == "" || exec == "" then None else Some(Entry(name, exec, rawExec, filePath))
  }

  // ---------------------------------------------------------------- the command of an entry

  function Finish(current: string): seq<string> {
    if current == "" then [] else [current]
  }

  /** The arguments of `rest`, with an unfinished one. */
  function ScanExec(rest: string, current: string, quote: Option<char>, escaped: bool): seq<string> {
    if rest == "" then Finish(if escaped then current + "\\" else current)
    else
      var c, more := rest[0], rest[1..];
      if escaped then ScanExec(more, current + [c], quote, false)
      else if c == '\\' then ScanExec(more, current, quote, true)
      else if quote.Some? then
        if c == quote.value then ScanExec(more, current, None, false) else ScanExec(more, current + [c], quote, false)
      else if c == '\"' || c == '\'' then ScanExec(more, current, Some(c), false)
      else if IsSpace(c) then Finish(current) + ScanExec(more, "", quote, false)
      else ScanExec(more, current + [c], quote, false)
  }

  method ParseExecCommand(exec: string) returns (args: seq<string>)
    ensures args == ScanExec(exec, "", None, false)
  {
    args := [];
    var current := "";
    var quote: Option<char> := None;
    var escaped := false;
    for i := 0 to |exec|
      invariant args + ScanExec(exec[i..], current, quote, escaped) == ScanExec(exec, "", None, false)
    {
      var c := exec[i];
      assert exec[i..][1..] == exec[i + 1..];
      if escaped {
        current := current + [c];
        escaped := false;
      } else if c == '\\' {
        escaped := true;
      } else if quote.Some? {
        if c == quote.value { quote := None; } else { current := current + [c]; }
      } else if c == '\"' || c == '\'' {
        quote := Some(c);
      } else if IsSpace(c) {
        if current != "" {
          args := args + [current];
          current := "";
        }
      } else {
        current := current + [c];
      }
    }
    if escaped { current := current + "\\"; }
    if current != "" { args := args + [current]; }
  }

  datatype Rendered = Rendered(text: string, inserted: bool)

  predicate IsLetter(c: char) {
    'a' <= c <= 'z' || 'A' <= c <= 'Z'
  }

  function FieldValue(code: char, entry: Entry, target: string): string {
    if code in "fFuU" then target
    else if code == 'c' then entry.name
    else if code == 'k' then entry.filePath
    else if code == '%' then "%"
    else ""
  }

  function Render(token: string, entry: Entry, target: string): Rendered
    decreases |token|
  {
    if token == "" then Rendered("", false)
    else if |token| >= 2 && token[0] == '%' && (IsLetter(token[1]) || token[1] == '%') then
      var rest := Render(token[2..], entry, target);
      Rendered(FieldValue(token[1], entry, target) + rest.text, rest.inserted || token[1] in "fFuU")
    else
      var rest := Render(token[1..], entry, target);
      Rendered([token[0]] + rest.text, rest.inserted)
  }

  datatype Command = Command(program: string, args: seq<string>)

  function RenderAll(tokens: seq<string>, entry: Entry, target: string): seq<string> {
    if tokens == [] then []
    else
      var text := Trim(Render(tokens[0], entry, target).text);
      (if text == "" then [] else [text]) + RenderAll(tokens[1..], entry, target)
  }

  predicate InsertsTarget(tokens: seq<string>, entry: Entry, target: string) {
    tokens != [] && (Render(tokens[0], entry, target).inserted || InsertsTarget(tokens[1..], entry, target))
  }

  function CommandOf(entry: Entry, target: string): Option<Command> {
    var tokens := ScanExec(if entry.rawExec != "" then entry.rawExec else entry.exec, "", None, false);
    if tokens == [] then None
    else
      var rest := tokens[1..];
      var args := RenderAll(rest, entry, target);
      Some(Command(tokens[0], if InsertsTarget(rest, entry, target) then args else args + [target]))
  }

  method BuildCommandFromDesktopExec(entry: Entry, target: string) returns (r: Option<Command>)
    ensures r == CommandOf(entry, target)
  {
    var tokens := ParseExecCommand(if entry.rawExec != "" then entry.rawExec else entry.exec);
    if |tokens| == 0 { return None; }
    var args, targetInserted := RenderArguments(tokens[1..], entry, target);
    if !targetInserted { args := args + [target]; }
    return Some(Command(tokens[0], args));
  }

  /** The loop over the arguments. */
  method RenderArguments(tokens: seq<string>, entry: Entry, target: string) returns (args: seq<string>, targetInserted: bool)
    ensures args == RenderAll(tokens, entry, target)
    ensures targetInserted == InsertsTarget(tokens, entry, target)
  {
    args, targetInserted := [], false;
    assert tokens[0..] == tokens;
    for i := 0 to |tokens|
      invariant args + RenderAll(tokens[i..], entry, target) == RenderAll(tokens, entry, target)
      invariant targetInserted || InsertsTarget(tokens[i..], entry, target) <==> InsertsTarget(tokens, entry, target)
    {
      RenderStep(tokens, i, entry, target, args);
      var rendered := Render(tokens[i], entry, target);
      targetInserted := targetInserted || rendered.inserted;
      var text := Trim(rendered.text);
      if text != "" { args := args + [text]; }
    }
  }

  lemma RenderStep(tokens: seq<string>, i: nat, entry: Entry, target: string, args: seq<string>)
    requires i < |tokens|
    ensures
      var text := Trim(Render(tokens[i], entry, target).text);
      args + RenderAll(tokens[i..], entry, target) ==
      (if text == "" then args else args + [text]) + RenderAll(tokens[i + 1..], entry, target)
    ensures InsertsTarget(tokens[i..], entry, target) <==>
            Render(tokens[i], entry, target).inserted || InsertsTarget(tokens[i + 1..], entry, target)
  {
    assert tokens[i..][1..] == tokens[i + 1..];
  }

  /** The whole reader: a file's content to the command for a target. */
  function ReadCommand(content: string, filePath: string, target: string): Option<Command> {
    match EntryOf(ReadLines(Split(content, '\n'), Reading("", map[])).values, filePath)
    case None => None
    case Some(entry) => CommandOf(entry, target)
  }
}
