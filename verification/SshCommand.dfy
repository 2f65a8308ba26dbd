/** Parsing an `ssh` command line into permitted options and a destination. */
module SshCommand {
  import opened Text
  import opened ShellWords

  datatype Parsed = Parsed(args: seq<string>, destination: string)

  const FLAGS: seq<string> := ["-4", "-6", "-A", "-a", "-C", "-K", "-k", "-X", "-x", "-Y", "-y"]

  const VALUE_OPTIONS: seq<string> := ["-B", "-b", "-c", "-D", "-F", "-I", "-i", "-J", "-l", "-m", "-o", "-P", "-p", "-R"]

  const DISALLOWED: seq<string> :=
    ["-M", "-S", "-O", "-N", "-t", "-T", "-f", "-G", "-W", "-v", "-V", "-q", "-n", "-s", "-e", "-E", "-g"]

  const FORBIDDEN_O: seq<string> := ["controlmaster", "controlpath", "controlpersist", "batchmode", "proxycommand"]

  predicate ForbiddenValue(value: string) {
    var lower := Lower(Trim(value));
    exists i :: 0 <= i < |FORBIDDEN_O| && FORBIDDEN_O[i] <= lower
  }

  const NO_DESTINATION: string := "SSH command must include destination"

  // ---------------------------------------------------------------- one value option

  /** How many tokens an option takes, or why it is refused. */
  datatype Taken = Takes(count: nat) | Refused(error: string) | NotAnOption

  function NotAllowed(value: string): string {
    "SSH option -o " + value + " is not allowed"
  }

  /** The token against one option that takes a value; `next` is the token after it, empty if there is none. */
  function TakeOne(option: string, token: string, next: string): Taken {
    if token == option then
      if next == "" then Refused("SSH option " + option + " requires a value")
      else if option == "-o" && ForbiddenValue(next) then Refused(NotAllowed(next))
      else Takes(2)
    else if option <= token then
      if option == "-o" && ForbiddenValue(token[|option|..]) then Refused(NotAllowed(token[|option|..])) else Takes(1)
    else NotAnOption
  }

  /** The loop over the options: the first that fits decides. */
  function TakeFirst(options: seq<string>, token: string, next: string): Taken {
    if options == [] then NotAnOption
    else if TakeOne(options[0], token, next) != NotAnOption then TakeOne(options[0], token, next)
    else TakeFirst(options[1..], token, next)
  }

  /** A token that starts with a hyphen. */
  function TakeOption(token: string, next: string): (t: Taken)
    ensures !t.NotAnOption?
    ensures t.Takes? ==> t.count == 1 || (t.count == 2 && next != "")
  {
    TakesAtMostTwo(VALUE_OPTIONS, token, next);
    if token in DISALLOWED then Refused("SSH option " + token + " is not allowed")
    else if token in FLAGS then Takes(1)
    else if TakeFirst(VALUE_OPTIONS, token, next).NotAnOption? then Refused("Unsupported SSH option: " + token)
    else TakeFirst(VALUE_OPTIONS, token, next)
  }

  // ---------------------------------------------------------------- the parser

  function Prepend(args: seq<string>, r: Result<Parsed, string>): Result<Parsed, string> {
    match r
    case Ok(p) => Ok(Parsed(args + p.args, p.destination))
    case Err(e) => Err(e)
  }

  function NextToken(tokens: seq<string>): string {
    if |tokens| > 1 then tokens[1] else ""
  }

  /** The rest of a command whose destination has not been seen. */
  function ParseFrom(tokens: seq<string>): Result<Parsed, string> {
    if tokens == [] then Err(NO_DESTINATION)
    else
      var token := tokens[0];
      if !("-" <= token) then
        if Trim(token) == "" then ParseFrom(tokens[1..])
        else if |tokens| == 1 then Ok(Parsed([], Trim(token)))
        else Err("SSH command has unsupported trailing argument: " + tokens[1])
      else
        match TakeOption(token, NextToken(tokens))
        case Refused(e) => Err(e)
        case Takes(n) => Prepend(tokens[..n], ParseFrom(tokens[n..]))
  }

  function ParseTokens(tokens: seq<string>): Result<Parsed, string> {
    if tokens == [] then Err("SSH command is empty")
    else ParseFrom(AfterProgram(tokens))
  }

  /** The tokens without a leading program name. */
  function AfterProgram(tokens: seq<string>): seq<string> {
    if tokens != [] && tokens[0] == "ssh" then tokens[1..] else tokens
  }

  function ParseText(raw: string): Result<Parsed, string> {
    match Words(raw)
    case Err(e) => Err(e)
    case Ok(tokens) => ParseTokens(tokens)
  }

  /** The checks on one option, with the inner loop over the options that take a value. */
  method MatchOption(token: string, next: string) returns (r: Taken)
    ensures r == TakeOption(token, next)
  {
    if token in DISALLOWED { return Refused("SSH option " + token + " is not allowed"); }
    if token in FLAGS { return Takes(1); }
    r := MatchValueOption(VALUE_OPTIONS, token, next);
    if r.NotAnOption? { return Refused("Unsupported SSH option: " + token); }
  }

  method MatchValueOption(options: seq<string>, token: string, next: string) returns (r: Taken)
    ensures r == TakeFirst(options, token, next)
  {
    for i := 0 to |options|
      invariant TakeFirst(options[i..], token, next) == TakeFirst(options, token, next)
    {
      var option := options[i];
      assert options[i..][1..] == options[i + 1..];
      if token == option {
        if next == "" {
          return Refused("SSH option " + option + " requires a value");
        }
        if option == "-o" && ForbiddenValue(next) {
          return Refused(NotAllowed(next));
        }
        return Takes(2);
      }
      if option <= token && |token| > |option| {
        var value := token[|option|..];
        if option == "-o" && ForbiddenValue(value) {
          return Refused(NotAllowed(value));
        }
        return Takes(1);
      }
    }
    return NotAnOption;
  }

  method ParseSshCommand(raw: string) returns (r: Result<Parsed, string>)
    ensures r == ParseText(raw)
  {
    var words := SplitShellWords(raw);
    if words.Err? { return Err(words.error); }
    var tokens := words.value;
    if |tokens| == 0 { return Err("SSH command is empty"); }
    if tokens[0] == "ssh" { tokens := tokens[1..]; }
    if |tokens| == 0 { return Err(NO_DESTINATION); }
    r := ParseOptions(tokens);
  }

  /** The outer loop, over the tokens after the program name. */
  method ParseOptions(tokens: seq<string>) returns (r: Result<Parsed, string>)
    ensures r == ParseFrom(tokens)
  {
    var args: seq<string> := [];
    var destination := "";
    var index := 0;
    assert tokens[index..] == tokens;
    PrependNothing(ParseFrom(tokens));
    while index < |tokens|
      invariant 0 <= index <= |tokens|
      invariant destination == "" ==> Prepend(args, ParseFrom(tokens[index..])) == ParseFrom(tokens)
      invariant destination != "" ==> ParseFrom(tokens) == AtEnd(tokens, index, args, destination)
    {
      var token := tokens[index];
      if destination != "" { return Trailing(token); }
      if !("-" <= token) {
        DestinationStep(tokens, index, args);
        destination := Trim(token);
        index := index + 1;
        continue;
      }
      var next := if index + 1 < |tokens| then tokens[index + 1] else "";
      OptionStep(tokens, index, args, next);
      var taken := MatchOption(token, next);
      if taken.Refused? { return Err(taken.error); }
      args := args + tokens[index..index + taken.count];
      index := index + taken.count;
    }
    if destination == "" { return Err(NO_DESTINATION); }
    return Ok(Parsed(args, destination));
  }

  /** What a command is once its destination is known and `index` tokens are read. */
  ghost function AtEnd(tokens: seq<string>, index: nat, args: seq<string>, destination: string): Result<Parsed, string> {
    if index < |tokens| then Trailing(tokens[index]) else Ok(Parsed(args, destination))
  }

  lemma DestinationStep(tokens: seq<string>, index: nat, args: seq<string>)
    requires index < |tokens| && !("-" <= tokens[index])
    ensures
      var d := Trim(tokens[index]);
      Prepend(args, ParseFrom(tokens[index..])) ==
      if d == "" then Prepend(args, ParseFrom(tokens[index + 1..])) else AtEnd(tokens, index + 1, args, d)
  {
    assert tokens[index..][1..] == tokens[index + 1..];
    assert args + [] == args;
  }

  lemma OptionStep(tokens: seq<string>, index: nat, args: seq<string>, next: string)
    requires index < |tokens| && "-" <= tokens[index]
    requires next == if index + 1 < |tokens| then tokens[index + 1] else ""
    ensures
      var t := TakeOption(tokens[index], next);
      && (t.Takes? ==> index + t.count <= |tokens|)
      && Prepend(args, ParseFrom(tokens[index..])) ==
         if t.Refused? then Err(t.error)
         else Prepend(args + tokens[index..index + t.count], ParseFrom(tokens[index + t.count..]))
  {
    var rest := tokens[index..];
    var t := TakeOption(tokens[index], next);
    assert NextToken(rest) == next;
    if t.Takes? {
      var end := index + t.count;
      assert rest[..t.count] == tokens[index..end] && rest[t.count..] == tokens[end..];
      PrependPrepend(args, tokens[index..end], ParseFrom(tokens[end..]));
    }
  }

  function Trailing(token: string): Result<Parsed, string> {
    Err("SSH command has unsupported trailing argument: " + token)
  }

  lemma PrependNothing(r: Result<Parsed, string>)
    ensures Prepend([], r) == r
  {
    if r.Ok? {
      assert [] + r.value.args == r.value.args;
    }
  }

  lemma PrependPrepend(a: seq<string>, b: seq<string>, r: Result<Parsed, string>)
    ensures Prepend(a, Prepend(b, r)) == Prepend(a + b, r)
  {
    if r.Ok? {
      assert a + (b + r.value.args) == (a + b) + r.value.args;
    }
  }

  lemma {:induction false} TakesAtMostTwo(options: seq<string>, token: string, next: string)
    ensures
      var t := TakeFirst(options, token, next);
      t.Takes? ==> t.count == 1 || (t.count == 2 && next != "")
  {
    if options != [] {
      TakesAtMostTwo(options[1..], token, next);
    }
  }

  // ---------------------------------------------------------------- the order of the options

  lemma {:induction false} TakeFirstByPrefix(options: seq<string>, token: string, next: string)
    requires forall i :: 0 <= i < |options| ==> |options[i]| == 2
    ensures TakeFirst(options, token, next) ==
            if |token| >= 2 && token[..2] in options then TakeOne(token[..2], token, next) else NotAnOption
  {
    if options != [] {
      var option := options[0];
      assert |option| == 2;
      TakeFirstByPrefix(options[1..], token, next);
      assert option <= token <==> |token| >= 2 && token[..2] == option;
      assert |token| >= 2 ==> (token[..2] in options <==> token[..2] == option || token[..2] in options[1..]);
    }
  }

  /** At most one option fits a token, so the order of the option list does not matter. */
  lemma OptionOrderIrrelevant(options: seq<string>, token: string, next: string)
    requires forall o :: o in options <==> o in VALUE_OPTIONS
    ensures TakeFirst(options, token, next) == TakeFirst(VALUE_OPTIONS, token, next)
  {
    forall i | 0 <= i < |options| ensures |options[i]| == 2 {
      assert options[i] in options;
      assert options[i] in VALUE_OPTIONS;
    }
    TakeFirstByPrefix(options, token, next);
    TakeFirstByPrefix(VALUE_OPTIONS, token, next);
  }

  // ---------------------------------------------------------------- the grammar

  /** One permitted item before the destination; a token of white space alone is skipped. */
  datatype Item = Flag(token: string) | Attached(token: string) | Separate(token: string, value: string) | Skipped(token: string)

  /** The option letters that stand alone, that take a value, and that are refused by name. */
  const FLAG_LETTERS: string := "46AaCKkXxYy"
  const VALUE_LETTERS: string := "BbcDFIiJlmoPpR"
  const REFUSED_LETTERS: string := "MSONtTfGWvVqnseEg"

  /** A hyphen and one of the letters. */
  predicate IsOption(token: string, letters: string) {
    |token| == 2 && token[0] == '-' && token[1] in letters
  }

  /** The text starts with the word, in any letter case. */
  predicate StartsWithWord(text: string, word: string) {
    |text| >= |word| && forall i :: 0 <= i < |word| ==> LowerAscii(text[i]) == word[i]
  }

  /** Without the white space around it, the value of an `-o` option starts with one of five names. */
  predicate RefusedValue(value: string) {
    || StartsWithWord(Trim(value), "controlmaster")
    || StartsWithWord(Trim(value), "controlpath")
    || StartsWithWord(Trim(value), "controlpersist")
    || StartsWithWord(Trim(value), "batchmode")
    || StartsWithWord(Trim(value), "proxycommand")
  }

  predicate LegalItem(item: Item) {
    match item
    case Flag(token) => IsOption(token, FLAG_LETTERS)
    case Attached(token) =>
      |token| > 2 && IsOption(token[..2], VALUE_LETTERS) && (token[1] == 'o' ==> !RefusedValue(token[2..]))
    case Separate(token, value) =>
      IsOption(token, VALUE_LETTERS) && value != "" && (token[1] == 'o' ==> !RefusedValue(value))
    case Skipped(token) => Blank(token)
  }

  function ItemTokens(item: Item): seq<string> {
    match item
    case Separate(token, value) => [token, value]
    case _ => [item.token]
  }

  function ItemArgs(item: Item): seq<string> {
    if item.Skipped? then [] else ItemTokens(item)
  }

  function AllTokens(items: seq<Item>): seq<string> {
    if items == [] then [] else ItemTokens(items[0]) + AllTokens(items[1..])
  }

  function AllArgs(items: seq<Item>): seq<string> {
    if items == [] then [] else ItemArgs(items[0]) + AllArgs(items[1..])
  }

  predicate LegalItems(items: seq<Item>) {
    forall item :: item in items ==> LegalItem(item)
  }

  predicate LegalDestination(token: string) {
    !("-" <= token) && !Blank(token)
  }

  /** A command: permitted items, then a destination that ends it. */
  ghost predicate Derives(items: seq<Item>, destination: string, tokens: seq<string>, p: Parsed) {
    && LegalItems(items)
    && LegalDestination(destination)
    && tokens == AllTokens(items) + [destination]
    && p == Parsed(AllArgs(items), Trim(destination))
  }

  /** A list of options spelt out, by its letters. */
  ghost predicate Spells(options: seq<string>, letters: string) {
    |options| == |letters| && forall i :: 0 <= i < |letters| ==> options[i] == ['-', letters[i]]
  }

  lemma OptionLists(flags: string, values: string, refused: string)
    requires flags == FLAG_LETTERS && values == VALUE_LETTERS && refused == REFUSED_LETTERS
    ensures Spells(FLAGS, flags) && Spells(VALUE_OPTIONS, values) && Spells(DISALLOWED, refused)
  {}

  lemma SpelledOptions(options: seq<string>, letters: string, token: string)
    requires Spells(options, letters)
    ensures token in options <==> IsOption(token, letters)
  {
    if token in options {
      var i :| 0 <= i < |options| && options[i] == token;
      assert token[1] == letters[i];
    }
    if IsOption(token, letters) {
      var i :| 0 <= i < |letters| && letters[i] == token[1];
      assert options[i] == token;
    }
  }

  /** No letter is of two kinds. */
  lemma LetterKinds(c: char, flags: string, values: string, refused: string)
    requires flags == FLAG_LETTERS && values == VALUE_LETTERS && refused == REFUSED_LETTERS
    ensures !(c in flags && c in values) && !(c in flags && c in refused) && !(c in values && c in refused)
  {}

  lemma OptionShapes(token: string)
    ensures token in FLAGS <==> IsOption(token, FLAG_LETTERS)
    ensures token in VALUE_OPTIONS <==> IsOption(token, VALUE_LETTERS)
    ensures token in DISALLOWED <==> IsOption(token, REFUSED_LETTERS)
    ensures !(token in FLAGS && token in VALUE_OPTIONS) && !(token in FLAGS && token in DISALLOWED) && !(token in VALUE_OPTIONS && token in DISALLOWED)
  {
    OptionLists(FLAG_LETTERS, VALUE_LETTERS, REFUSED_LETTERS);
    SpelledOptions(FLAGS, FLAG_LETTERS, token);
    SpelledOptions(VALUE_OPTIONS, VALUE_LETTERS, token);
    SpelledOptions(DISALLOWED, REFUSED_LETTERS, token);
    if |token| == 2 {
      LetterKinds(token[1], FLAG_LETTERS, VALUE_LETTERS, REFUSED_LETTERS);
    }
  }

  lemma LowerPrefix(text: string, word: string)
    ensures word <= Lower(text) <==> StartsWithWord(text, word)
  {
    if StartsWithWord(text, word) {
      assert forall i :: 0 <= i < |word| ==> Lower(text)[i] == word[i];
    }
    if word <= Lower(text) {
      forall i | 0 <= i < |word| ensures LowerAscii(text[i]) == word[i] {
        assert Lower(text)[i] == word[i];
      }
    }
  }

  /** A value is forbidden exactly when, trimmed, it starts with one of the five names in any letter case. */
  lemma ForbiddenExactly(value: string)
    ensures ForbiddenValue(value) <==> RefusedValue(value)
  {
    var text := Trim(value);
    forall i | 0 <= i < |FORBIDDEN_O| ensures FORBIDDEN_O[i] <= Lower(text) <==> StartsWithWord(text, FORBIDDEN_O[i]) {
      LowerPrefix(text, FORBIDDEN_O[i]);
    }
    assert FORBIDDEN_O[0] == "controlmaster" && FORBIDDEN_O[1] == "controlpath" && FORBIDDEN_O[2] == "controlpersist";
    assert FORBIDDEN_O[3] == "batchmode" && FORBIDDEN_O[4] == "proxycommand";
  }

  /** A token of at most two characters takes its value, if it needs one, from the next token. */
  lemma ShortOption(token: string, next: string)
    requires "-" <= token && |token| <= 2
    ensures
      var t := TakeOption(token, next);
      && (t == Takes(2) <==> LegalItem(Separate(token, next)))
      && (t == Takes(1) <==> LegalItem(Flag(token)))
  {
    OptionShapes(token);
    ShortValueOption(token, next);
    ForbiddenExactly(next);
    assert |token| == 2 ==> (token == "-o" <==> token[1] == 'o');
  }

  lemma ShortValueOption(token: string, next: string)
    requires |token| <= 2
    ensures TakeFirst(VALUE_OPTIONS, token, next) == if token in VALUE_OPTIONS then TakeOne(token, token, next) else NotAnOption
  {
    OptionLengths();
    TakeFirstByPrefix(VALUE_OPTIONS, token, next);
    assert |token| == 2 ==> token[..2] == token;
  }

  lemma OptionLengths()
    ensures forall i :: 0 <= i < |VALUE_OPTIONS| ==> |VALUE_OPTIONS[i]| == 2
  {}

  /** A longer token carries its value. */
  lemma LongOption(token: string, next: string)
    requires "-" <= token && |token| > 2
    ensures
      var t := TakeOption(token, next);
      && t != Takes(2)
      && (t == Takes(1) <==> LegalItem(Attached(token)))
  {
    OptionShapes(token);
    OptionShapes(token[..2]);
    OptionLengths();
    TakeFirstByPrefix(VALUE_OPTIONS, token, next);
    ForbiddenExactly(token[2..]);
    assert token[..2] == "-o" <==> token[1] == 'o';
  }

  /** What a hyphenated token takes, in terms of items. */
  lemma TakeOptionItems(token: string, next: string)
    requires "-" <= token
    ensures
      var t := TakeOption(token, next);
      && (t == Takes(2) <==> LegalItem(Separate(token, next)))
      && (t == Takes(1) <==> LegalItem(Flag(token)) || LegalItem(Attached(token)))
  {
    OptionShapes(token);
    if |token| <= 2 {
      ShortOption(token, next);
    } else {
      LongOption(token, next);
    }
  }

  lemma {:induction false} DerivedParses(items: seq<Item>, destination: string, tokens: seq<string>, p: Parsed)
    requires Derives(items, destination, tokens, p)
    ensures ParseFrom(tokens) == Ok(p)
    decreases |items|
  {
    if items == [] {
      assert tokens == [destination];
      TrimBlank(destination);
    } else {
      var item := items[0];
      assert item in items;
      var n := |ItemTokens(item)|;
      var rest := AllTokens(items[1..]) + [destination];
      assert tokens == ItemTokens(item) + rest;
      assert tokens[..n] == ItemTokens(item) && tokens[n..] == rest;
      DerivedParses(items[1..], destination, rest, Parsed(AllArgs(items[1..]), p.destination));
      ItemParses(item, tokens);
    }
  }

  lemma ItemParses(item: Item, tokens: seq<string>)
    requires LegalItem(item) && ItemTokens(item) <= tokens
    ensures ParseFrom(tokens) == Prepend(ItemArgs(item), ParseFrom(tokens[|ItemTokens(item)|..]))
  {
    if item.Skipped? {
      SkippedParses(item.token, tokens);
    } else {
      HyphenItem(item);
      var n := |ItemTokens(item)|;
      PrefixCut(ItemTokens(item), tokens);
      assert tokens[..n] == ItemTokens(item);
      assert item.Separate? ==> NextToken(tokens) == item.value;
      OptionParses(item.token, NextToken(tokens), tokens, n);
    }
  }

  lemma SkippedParses(token: string, tokens: seq<string>)
    requires Blank(token) && tokens != [] && tokens[0] == token
    ensures ParseFrom(tokens) == Prepend([], ParseFrom(tokens[1..]))
  {
    TrimBlank(token);
    PrependNothing(ParseFrom(tokens[1..]));
  }

  lemma OptionParses(token: string, next: string, tokens: seq<string>, n: nat)
    requires tokens != [] && tokens[0] == token && "-" <= token && next == NextToken(tokens) && 1 <= n <= |tokens|
    requires n == 1 ==> LegalItem(Flag(token)) || LegalItem(Attached(token))
    requires n != 1 ==> n == 2 && LegalItem(Separate(token, next))
    ensures ParseFrom(tokens) == Prepend(tokens[..n], ParseFrom(tokens[n..]))
  {
    TakeOptionItems(token, next);
  }

  lemma HyphenItem(item: Item)
    requires LegalItem(item) && !item.Skipped?
    ensures "-" <= item.token
  {
    OptionShapes(item.token);
    if item.Attached? {
      OptionShapes(item.token[..2]);
      assert item.token[0] == item.token[..2][0];
    }
  }

  lemma {:induction false} ParsedDerives(tokens: seq<string>) returns (items: seq<Item>, destination: string)
    requires ParseFrom(tokens).Ok?
    ensures Derives(items, destination, tokens, ParseFrom(tokens).value)
  {
    var token := tokens[0];
    TrimBlank(token);
    if LegalDestination(token) {
      items, destination := [], token;
    } else {
      var item := FirstItem(tokens);
      var n := |ItemTokens(item)|;
      ItemParses(item, tokens);
      var more;
      more, destination := ParsedDerives(tokens[n..]);
      items := [item] + more;
      PrefixCut(ItemTokens(item), tokens);
      DerivesCons(item, more, destination, tokens[n..], ParseFrom(tokens[n..]).value);
    }
  }

  lemma DerivesCons(item: Item, items: seq<Item>, destination: string, tokens: seq<string>, p: Parsed)
    requires LegalItem(item) && Derives(items, destination, tokens, p)
    ensures Derives([item] + items, destination, ItemTokens(item) + tokens, Parsed(ItemArgs(item) + p.args, p.destination))
  {
    assert ([item] + items)[1..] == items;
    Assoc(ItemTokens(item), AllTokens(items), [destination]);
  }

  lemma FirstItem(tokens: seq<string>) returns (item: Item)
    requires ParseFrom(tokens).Ok? && !LegalDestination(tokens[0])
    ensures LegalItem(item) && ItemTokens(item) <= tokens
  {
    var token, next := tokens[0], NextToken(tokens);
    TrimBlank(token);
    if !("-" <= token) {
      item := Skipped(token);
    } else {
      TakeOptionItems(token, next);
      if LegalItem(Separate(token, next)) {
        item := Separate(token, next);
      } else if LegalItem(Flag(token)) {
        item := Flag(token);
      } else {
        item := Attached(token);
      }
    }
  }

  /** The tokens after the program name. */
  lemma OptionsExact(tokens: seq<string>, p: Parsed)
    ensures ParseFrom(tokens) == Ok(p) <==> exists items, destination :: Derives(items, destination, tokens, p)
  {
    if ParseFrom(tokens) == Ok(p) {
      var items, destination := ParsedDerives(tokens);
    }
    if items, destination :| Derives(items, destination, tokens, p) {
      DerivedParses(items, destination, tokens, p);
    }
  }

  /** A command: options and a destination, after one `ssh` if that is the first token. */
  ghost predicate CommandDerives(items: seq<Item>, destination: string, tokens: seq<string>, p: Parsed) {
    if tokens != [] && tokens[0] == "ssh" then Derives(items, destination, tokens[1..], p)
    else Derives(items, destination, tokens, p)
  }

  /**
   The tokens are accepted exactly when they follow the grammar, and then with its arguments and
   destination. A first token `ssh` is the program name and never the destination.
   */
  lemma GrammarExact(tokens: seq<string>, p: Parsed)
    ensures ParseTokens(tokens) == Ok(p) <==> exists items, destination :: CommandDerives(items, destination, tokens, p)
    ensures ParseTokens(["ssh"]).Err?
  {
    var rest := AfterProgram(tokens);
    OptionsExact(rest, p);
    if items, destination :| Derives(items, destination, rest, p) {
      assert CommandDerives(items, destination, tokens, p);
    }
    if items, destination :| CommandDerives(items, destination, tokens, p) {
      assert Derives(items, destination, rest, p);
    }
  }

  // ---------------------------------------------------------------- what is refused, and how

  /** Why a hyphenated token that starts no permitted item is refused. */
  ghost function Refusal(token: string, next: string): string {
    if IsOption(token, REFUSED_LETTERS) then "SSH option " + token + " is not allowed"
    else if IsOption(token, VALUE_LETTERS) && next == "" then "SSH option " + token + " requires a value"
    else if IsOption(token, VALUE_LETTERS) then "SSH option -o " + next + " is not allowed"
    else if |token| > 2 && IsOption(token[..2], VALUE_LETTERS) then "SSH option -o " + token[2..] + " is not allowed"
    else "Unsupported SSH option: " + token
  }

  predicate StartsItem(token: string, next: string) {
    LegalItem(Flag(token)) || LegalItem(Attached(token)) || LegalItem(Separate(token, next))
  }

  lemma RefusedOption(token: string, next: string)
    requires "-" <= token && !StartsItem(token, next)
    ensures TakeOption(token, next) == Refused(Refusal(token, next))
  {
    OptionShapes(token);
    TakeOptionItems(token, next);
    if |token| <= 2 {
      ShortValueOption(token, next);
      ForbiddenExactly(next);
    } else {
      OptionShapes(token[..2]);
      OptionLengths();
      TakeFirstByPrefix(VALUE_OPTIONS, token, next);
      ForbiddenExactly(token[2..]);
    }
  }

  /** Permitted items first: then what follows them decides. */
  lemma {:induction false} ItemsThen(items: seq<Item>, rest: seq<string>)
    requires LegalItems(items)
    ensures ParseFrom(AllTokens(items) + rest) == Prepend(AllArgs(items), ParseFrom(rest))
  {
    if items == [] {
      assert AllTokens(items) + rest == rest;
      PrependNothing(ParseFrom(rest));
    } else {
      var item, more := items[0], AllTokens(items[1..]) + rest;
      assert item in items;
      ItemsThen(items[1..], rest);
      Assoc(ItemTokens(item), AllTokens(items[1..]), rest);
      var all := ItemTokens(item) + more;
      assert all[|ItemTokens(item)|..] == more;
      ItemParses(item, all);
      PrependPrepend(ItemArgs(item), AllArgs(items[1..]), ParseFrom(rest));
    }
  }

  /** Every command that is not derived is refused, for one of three reasons, each with its own message. */
  lemma RefusalExactly(items: seq<Item>, token: string, more: seq<string>)
    requires LegalItems(items)
    ensures ParseFrom(AllTokens(items)) == Err("SSH command must include destination")
    ensures LegalDestination(token) && more != [] ==>
              ParseFrom(AllTokens(items) + ([token] + more)) == Err("SSH command has unsupported trailing argument: " + more[0])
    ensures
      var next := if more == [] then "" else more[0];
      "-" <= token && !StartsItem(token, next) ==> ParseFrom(AllTokens(items) + ([token] + more)) == Err(Refusal(token, next))
  {
    var rest := [token] + more;
    ItemsThen(items, []);
    assert AllTokens(items) + [] == AllTokens(items);
    ItemsThen(items, rest);
    TrimBlank(token);
    assert rest[1..] == more;
    var next := if more == [] then "" else more[0];
    if "-" <= token && !StartsItem(token, next) {
      RefusedOption(token, next);
    }
  }

  /** Those reasons and the grammar leave no command out. */
  lemma {:induction false} EveryCommand(tokens: seq<string>) returns (items: seq<Item>, rest: seq<string>)
    ensures LegalItems(items) && tokens == AllTokens(items) + rest
    ensures rest == [] || LegalDestination(rest[0]) || ("-" <= rest[0] && !StartsItem(rest[0], NextToken(rest)))
    decreases |tokens|
  {
    items, rest := [], tokens;
    if tokens != [] && !LegalDestination(tokens[0]) {
      var token, next := tokens[0], NextToken(tokens);
      if !("-" <= token) || StartsItem(token, next) {
        var item := if !("-" <= token) then Skipped(token) else if LegalItem(Flag(token)) then Flag(token)
                    else if LegalItem(Attached(token)) then Attached(token) else Separate(token, next);
        PrefixCut(ItemTokens(item), tokens);
        var others;
        others, rest := EveryCommand(tokens[|ItemTokens(item)|..]);
        items := [item] + others;
        assert items[1..] == others;
        Assoc(ItemTokens(item), AllTokens(others), rest);
      }
    }
  }

  /** The value an item gives to an `-o` option, if it is one. */
  function ConfigValue(item: Item): Option<string> {
    match item
    case Attached(token) => if |token| > 2 && token[..2] == "-o" then Some(token[2..]) else None
    case Separate(token, value) => if token == "-o" then Some(value) else None
    case _ => None
  }

  /** The arguments of an accepted command are permitted options, and no `-o` value among them starts with a refused name. */
  lemma AcceptedArguments(raw: string, p: Parsed) returns (items: seq<Item>)
    requires ParseText(raw) == Ok(p)
    ensures AllTokens(items) == p.args && LegalItems(items)
    ensures forall item :: item in items && ConfigValue(item).Some? ==> !RefusedValue(ConfigValue(item).value)
  {
    var all, destination := ParsedDerives(AfterProgram(Words(raw).value));
    KeptItems(all);
    items := Kept(all);
    forall item | item in items && ConfigValue(item).Some? ensures !RefusedValue(ConfigValue(item).value) {
      assert LegalItem(item);
      if item.Attached? { assert item.token[1] == item.token[..2][1]; }
    }
  }

  // ---------------------------------------------------------------- nothing is lost

  lemma {:induction false} NoneSkipped(items: seq<Item>)
    requires forall item :: item in items ==> !item.Skipped?
    ensures AllArgs(items) == AllTokens(items)
  {
    if items != [] {
      NoneSkipped(items[1..]);
    }
  }

  lemma {:induction false} ItemTokensOccur(items: seq<Item>, item: Item)
    requires item in items
    ensures item.token in AllTokens(items)
  {
    if items[0] != item {
      ItemTokensOccur(items[1..], item);
    }
  }

  lemma OptionsKept(tokens: seq<string>, p: Parsed)
    requires forall t :: t in tokens ==> t != "" && Trimmed(t)
    requires ParseFrom(tokens) == Ok(p)
    ensures tokens == p.args + [p.destination]
  {
    var items, destination := ParsedDerives(tokens);
    forall item | item in items ensures !item.Skipped? {
      ItemTokensOccur(items, item);
      assert item.token in tokens && LegalItem(item);
      TrimTrimmed(item.token);
      TrimBlank(item.token);
    }
    NoneSkipped(items);
    assert destination in tokens;
    TrimTrimmed(destination);
  }

  /** Tokens without surrounding white space are all kept, in order, but for a leading program name. */
  lemma NothingLost(tokens: seq<string>, p: Parsed)
    requires forall t :: t in tokens ==> t != "" && Trimmed(t)
    requires ParseTokens(tokens) == Ok(p)
    ensures tokens == (if tokens[0] == "ssh" then ["ssh"] else []) + p.args + [p.destination]
  {
    assert forall t :: t in AfterProgram(tokens) ==> t in tokens;
    OptionsKept(AfterProgram(tokens), p);
    assert tokens[0] == "ssh" ==> tokens == ["ssh"] + tokens[1..];
  }

  // ---------------------------------------------------------------- writing a parsed command back

  function Kept(items: seq<Item>): seq<Item> {
    if items == [] then [] else (if items[0].Skipped? then [] else [items[0]]) + Kept(items[1..])
  }

  lemma {:induction false} KeptItems(items: seq<Item>)
    requires LegalItems(items)
    ensures LegalItems(Kept(items))
    ensures AllTokens(Kept(items)) == AllArgs(items) && AllArgs(Kept(items)) == AllArgs(items)
    ensures "" !in AllArgs(items)
  {
    if items != [] {
      assert items[0] in items;
      KeptItems(items[1..]);
      if !items[0].Skipped? {
        HyphenItem(items[0]);
        assert Kept(items)[1..] == Kept(items[1..]);
      } else {
        assert Kept(items) == Kept(items[1..]);
      }
    }
  }

  lemma LastIsDestination(tokens: seq<string>)
    requires ParseFrom(tokens).Ok?
    ensures tokens != [] && !("-" <= tokens[|tokens| - 1])
  {
    var items, destination := ParsedDerives(tokens);
    assert tokens[|tokens| - 1] == destination;
  }

  /**
   The destination is the last token, trimmed. That token never starts with a hyphen, so the destination
   does if and only if the token starts with white space, and a hyphen follows it.
   */
  lemma HyphenExactly(tokens: seq<string>, p: Parsed)
    requires ParseTokens(tokens) == Ok(p)
    ensures tokens != [] && !("-" <= tokens[|tokens| - 1]) && p.destination == Trim(tokens[|tokens| - 1])
    ensures
      var last := tokens[|tokens| - 1];
      last != "" && ("-" <= p.destination <==> IsSpace(last[0]) && "-" <= Trim(last))
  {
    var rest := AfterProgram(tokens);
    var items, destination := ParsedDerives(rest);
    assert rest[|rest| - 1] == destination == tokens[|tokens| - 1];
    assert destination != "";
    if !IsSpace(destination[0]) {
      TrimKeepsHead(destination);
    }
  }

  function CommandWords(p: Parsed): seq<string> {
    ["ssh"] + p.args + [p.destination]
  }

  /**
   A parsed command, quoted word by word and parsed again, gives the same result exactly when its
   destination does not start with a hyphen. (A quoted destination with leading white space is
   trimmed only after the test for options, so it can.)
   */
  lemma CommandRoundTrip(raw: string, p: Parsed)
    requires ParseText(raw) == Ok(p)
    ensures ParseText(Join(QuoteAll(CommandWords(p)), " ")) == Ok(p) <==> !("-" <= p.destination)
    ensures "-" <= p.destination <==> "-" <= Trim(Words(raw).value[|Words(raw).value| - 1])
  {
    var tokens := Words(raw).value;
    HyphenExactly(tokens, p);
    var items, destination := ParsedDerives(AfterProgram(tokens));
    var again := p.args + [p.destination];
    assert p.destination != "" && "" !in p.args && Trimmed(p.destination) by {
      KeptItems(items);
      TrimIsTrimmed(destination);
      TrimBlank(destination);
    }
    ParseQuoted(p);
    if "-" <= p.destination {
      if ParseFrom(again).Ok? {
        LastIsDestination(again);
      }
    } else {
      KeptItems(items);
      TrimTrimmed(p.destination);
      TrimBlank(p.destination);
      DerivedParses(Kept(items), p.destination, again, p);
    }
  }

  lemma ParseQuoted(p: Parsed)
    requires p.destination != "" && "" !in p.args
    ensures ParseText(Join(QuoteAll(CommandWords(p)), " ")) == ParseFrom(p.args + [p.destination])
  {
    assert CommandWords(p)[1..] == p.args + [p.destination];
    QuotedCommand(CommandWords(p));
  }

  lemma QuotedCommand(words: seq<string>)
    requires words != [] && words[0] == "ssh" && "" !in words
    ensures ParseText(Join(QuoteAll(words), " ")) == ParseFrom(words[1..])
  {
    QuotedWordsSplit(words);
    ParseOfWords(Join(QuoteAll(words), " "), words);
  }

  lemma ParseOfWords(text: string, words: seq<string>)
    requires Words(text) == Ok(words) && words != [] && words[0] == "ssh"
    ensures ParseText(text) == ParseFrom(words[1..])
  {}

  lemma ScanQuotedToken(raw: string, token: string)
    requires '\'' !in token && token != "" && raw == "'" + (token + ("'" + ""))
    ensures Words(raw) == Ok([token])
  {
    OpenSingle(token + ("'" + ""), "");
    ScanSingle(token, "", "");
    assert "" + token == token;
  }

  lemma TrimHyphen(padded: string, token: string)
    requires padded == " -x" && token == "-x"
    ensures Trim(padded) == token && !("-" <= padded)
  {
    assert padded[1..] == token;
    assert TrimStart(padded) == TrimStart(token) == token;
  }

  lemma ParseOneToken(raw: string, token: string)
    requires Words(raw) == Ok([token]) && token != "ssh" && !("-" <= token) && Trim(token) != ""
    ensures ParseText(raw) == Ok(Parsed([], Trim(token)))
  {}

  /** The smallest such command: one quoted token, a space and an option. */
  lemma HyphenDestination()
    ensures ParseText("' -x'") == Ok(Parsed([], "-x"))
  {
    TrimHyphen(" -x", "-x");
    assert "' -x'" == "'" + (" -x" + ("'" + ""));
    ScanQuotedToken("' -x'", " -x");
    ParseOneToken("' -x'", " -x");
  }
}
