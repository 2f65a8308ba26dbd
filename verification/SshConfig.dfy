/**
 Collecting host names from SSH client configuration files that may include each other, in cycles
 too, and merging the user's and the system's lists.
 */
module SshConfig {
  import opened Text
  import opened Sorting
  import opened ShellWords

  type Path = string

  datatype Candidate = Candidate(host: string, pattern: bool, source: string, sshCommand: string)

  // ---------------------------------------------------------------- lines

  /** The keyword in any letter case, alone or followed by white space. */
  predicate HasKeyword(line: string, keyword: string) {
    && |line| >= |keyword|
    && Lower(line[..|keyword|]) == keyword
    && (|line| == |keyword| || IsSpace(line[|keyword|]))
  }

  /** What follows the keyword and its white space. A line that is the keyword alone is left as it is. */
  function Operands(line: string, keyword: string): string
    requires |keyword| <= |line|
  {
    if |line| == |keyword| then line else Trim(line[|keyword|..])
  }

  datatype Directive = Include(tokens: seq<string>) | Host(tokens: seq<string>) | Other

  /** Include operands are shell words, or fields when a quote is left open. */
  function IncludeTokens(operands: string): seq<string> {
    match Words(operands)
    case Ok(words) => words
    case Err(_) => Fields(operands)
  }

  /** A line without its comment and surrounding white space, a carriage return included. */
  function Uncommented(rawLine: string): string {
    Trim(rawLine[..IndexOf(rawLine, '#')])
  }

  function DirectiveOf(rawLine: string): Directive {
    var line := Uncommented(rawLine);
    if HasKeyword(line, "include") then
      Include(IncludeTokens(Operands(line, "include")))
    else if HasKeyword(line, "host") then Host(Fields(Operands(line, "host")))
    else Other
  }

  // ---------------------------------------------------------------- files

  /** What a file contributes, in order: files to read, and host names. */
  datatype Item = Link(path: Path) | Name(host: string)

  /** Resolves an include token against the including file to the paths it stands for. */
  type Expand = (string, Path) -> seq<Path>

  function LinkItems(paths: seq<Path>): seq<Item> {
    if paths == [] then [] else [Link(paths[0])] + LinkItems(paths[1..])
  }

  function IncludeItems(expand: Expand, tokens: seq<string>, path: Path): seq<Item> {
    if tokens == [] then [] else LinkItems(expand(tokens[0], path)) + IncludeItems(expand, tokens[1..], path)
  }

  /** Negated patterns and the catch-all pattern name no host. */
  function HostItems(tokens: seq<string>): seq<Item> {
    if tokens == [] then []
    else (if tokens[0] == "" || "!" <= tokens[0] || tokens[0] == "*" then [] else [Name(tokens[0])]) + HostItems(tokens[1..])
  }

  function LineItems(expand: Expand, line: string, path: Path): seq<Item> {
    match DirectiveOf(line)
    case Include(tokens) => IncludeItems(expand, tokens, path)
    case Host(tokens) => HostItems(tokens)
    case Other => []
  }

  function LinesItems(expand: Expand, lines: seq<string>, path: Path): seq<Item> {
    if lines == [] then [] else LineItems(expand, lines[0], path) + LinesItems(expand, lines[1..], path)
  }

  /** The existing files, by resolved path, with what each contributes. */
  type System = map<Path, seq<Item>>

  type Files = map<Path, string>

  function Load(files: Files, expand: Expand): System {
    map path | path in files :: LinesItems(expand, Split(files[path], '\n'), path)
  }

  function ToCandidate(host: string, source: string): Candidate {
    Candidate(host, '*' in host || '?' in host, source, "ssh " + host)
  }

  // ---------------------------------------------------------------- the walk

  datatype Walked = Walked(candidates: seq<Candidate>, visited: set<Path>)

  function WalkFile(sys: System, path: Path, source: string, visited: set<Path>): (r: Walked)
    ensures visited <= r.visited
    decreases sys.Keys - visited, 0, 0
  {
    if path in visited || path !in sys then Walked([], visited)
    else WalkItems(sys, sys[path], source, visited + {path})
  }

  function WalkItems(sys: System, items: seq<Item>, source: string, visited: set<Path>): (r: Walked)
    ensures visited <= r.visited
    decreases sys.Keys - visited, 1, |items|
  {
    if items == [] then Walked([], visited)
    else
      match items[0]
      case Name(host) =>
        var more := WalkItems(sys, items[1..], source, visited);
        Walked([ToCandidate(host, source)] + more.candidates, more.visited)
      case Link(path) =>
        var found := WalkFile(sys, path, source, visited);
        var more := WalkItems(sys, items[1..], source, found.visited);
        Walked(found.candidates + more.candidates, more.visited)
  }

  /** The recursive reader; `visited` is shared by all the calls of one walk. */
  class Reader {
    const files: Files
    const expand: Expand
    var visited: set<Path>

    constructor (files: Files, expand: Expand)
      ensures this.files == files && this.expand == expand && visited == {}
    {
      this.files := files;
      this.expand := expand;
      visited := {};
    }

    method ParseCandidates(path: Path, source: string) returns (candidates: seq<Candidate>)
      modifies this
      ensures Walked(candidates, visited) == WalkFile(Load(files, expand), path, source, old(visited))
      decreases files.Keys - visited, 0
    {
      ghost var sys := Load(files, expand);
      if path in visited || path !in files { return []; }
      visited := visited + {path};
      candidates := [];
      var lines := Split(files[path], '\n');
      ghost var all := WalkItems(sys, sys[path], source, visited);
      for i := 0 to |lines|
        invariant old(visited) + {path} <= visited
        invariant Continued(sys, LinesItems(expand, lines[i..], path), source, candidates, visited) == all
      {
        LinesStep(sys, expand, lines, i, path, source, candidates, visited);
        var found := ParseLine(lines[i], path, source);
        candidates := candidates + found;
      }
    }

    method ParseLine(line: string, path: Path, source: string) returns (found: seq<Candidate>)
      modifies this
      ensures Walked(found, visited) == WalkItems(Load(files, expand), LineItems(expand, line, path), source, old(visited))
      decreases files.Keys - visited, 3
    {
      match DirectiveOf(line) {
        case Include(tokens) => found := ParseIncludes(tokens, path, source);
        case Host(tokens) =>
          found := HostCandidates(tokens, source);
          WalkNames(Load(files, expand), tokens, source, visited);
        case Other => found := [];
      }
    }

    /** The files an include line stands for, token by token. */
    method ParseIncludes(tokens: seq<string>, path: Path, source: string) returns (found: seq<Candidate>)
      modifies this
      ensures Walked(found, visited) == WalkItems(Load(files, expand), IncludeItems(expand, tokens, path), source, old(visited))
      decreases files.Keys - visited, 2
    {
      found := [];
      ghost var sys := Load(files, expand);
      ghost var all := WalkItems(sys, IncludeItems(expand, tokens, path), source, visited);
      assert tokens[0..] == tokens;
      for i := 0 to |tokens|
        invariant old(visited) <= visited
        invariant Continued(sys, IncludeItems(expand, tokens[i..], path), source, found, visited) == all
      {
        IncludeStep(sys, expand, tokens, i, path, source, found, visited);
        var more := ParsePaths(expand(tokens[i], path), source);
        found := found + more;
      }
    }

    method ParsePaths(paths: seq<Path>, source: string) returns (found: seq<Candidate>)
      modifies this
      ensures Walked(found, visited) == WalkItems(Load(files, expand), LinkItems(paths), source, old(visited))
      decreases files.Keys - visited, 1
    {
      found := [];
      ghost var sys := Load(files, expand);
      ghost var all := WalkItems(sys, LinkItems(paths), source, visited);
      assert paths[0..] == paths;
      for i := 0 to |paths|
        invariant old(visited) <= visited
        invariant Continued(sys, LinkItems(paths[i..]), source, found, visited) == all
      {
        assert paths[i..][1..] == paths[i + 1..];
        var more := ParseCandidates(paths[i], source);
        found := found + more;
      }
    }
  }

  /** The walk that goes on with `items` after `found` and `visited`. */
  ghost function Continued(sys: System, items: seq<Item>, source: string, found: seq<Candidate>, visited: set<Path>): Walked {
    var more := WalkItems(sys, items, source, visited);
    Walked(found + more.candidates, more.visited)
  }

  /** Walking two lists of items is walking one and then the other. */
  lemma {:induction false} WalkConcat(sys: System, a: seq<Item>, b: seq<Item>, source: string, visited: set<Path>)
    ensures
      var first := WalkItems(sys, a, source, visited);
      WalkItems(sys, a + b, source, visited) == Continued(sys, b, source, first.candidates, first.visited)
    decreases |a|
  {
    if a == [] {
      assert a + b == b;
    } else {
      assert (a + b)[1..] == a[1..] + b;
      match a[0]
      case Name(_) => WalkConcat(sys, a[1..], b, source, visited);
      case Link(path) => WalkConcat(sys, a[1..], b, source, WalkFile(sys, path, source, visited).visited);
    }
  }

  lemma ContinuedConcat(sys: System, a: seq<Item>, b: seq<Item>, source: string, found: seq<Candidate>, visited: set<Path>)
    ensures
      var first := WalkItems(sys, a, source, visited);
      Continued(sys, a + b, source, found, visited) == Continued(sys, b, source, found + first.candidates, first.visited)
  {
    WalkConcat(sys, a, b, source, visited);
    var first := WalkItems(sys, a, source, visited);
    Assoc(found, first.candidates, WalkItems(sys, b, source, first.visited).candidates);
  }

  lemma LinesStep(sys: System, expand: Expand, lines: seq<string>, i: nat, path: Path, source: string,
                  found: seq<Candidate>, visited: set<Path>)
    requires i < |lines|
    ensures
      var first := WalkItems(sys, LineItems(expand, lines[i], path), source, visited);
      Continued(sys, LinesItems(expand, lines[i..], path), source, found, visited) ==
      Continued(sys, LinesItems(expand, lines[i + 1..], path), source, found + first.candidates, first.visited)
  {
    DropStep(lines, i);
    assert lines[i..][1..] == lines[i + 1..];
    ContinuedConcat(sys, LineItems(expand, lines[i], path), LinesItems(expand, lines[i + 1..], path), source, found, visited);
  }

  lemma IncludeStep(sys: System, expand: Expand, tokens: seq<string>, i: nat, path: Path, source: string,
                    found: seq<Candidate>, visited: set<Path>)
    requires i < |tokens|
    ensures
      var first := WalkItems(sys, LinkItems(expand(tokens[i], path)), source, visited);
      Continued(sys, IncludeItems(expand, tokens[i..], path), source, found, visited) ==
      Continued(sys, IncludeItems(expand, tokens[i + 1..], path), source, found + first.candidates, first.visited)
  {
    DropStep(tokens, i);
    assert tokens[i..][1..] == tokens[i + 1..];
    ContinuedConcat(sys, LinkItems(expand(tokens[i], path)), IncludeItems(expand, tokens[i + 1..], path), source, found, visited);
  }

  /** The candidates of a `Host` line: every token but the empty, the negated and the catch-all ones. */
  method HostCandidates(tokens: seq<string>, source: string) returns (found: seq<Candidate>)
    ensures found == Names(HostItems(tokens), source)
  {
    found := [];
    assert tokens[0..] == tokens;
    for i := 0 to |tokens|
      invariant found + Names(HostItems(tokens[i..]), source) == Names(HostItems(tokens), source)
    {
      assert tokens[i..][1..] == tokens[i + 1..];
      HostNamesStep(tokens[i..], source);
      var host := tokens[i];
      if host == "" || "!" <= host || host == "*" { continue; }
      found := found + [ToCandidate(host, source)];
    }
  }

  lemma HostNamesStep(tokens: seq<string>, source: string)
    requires tokens != []
    ensures
      var host, rest := tokens[0], Names(HostItems(tokens[1..]), source);
      Names(HostItems(tokens), source) ==
      if host == "" || "!" <= host || host == "*" then rest else [ToCandidate(host, source)] + rest
  {
    var host, rest := tokens[0], HostItems(tokens[1..]);
    if host == "" || "!" <= host || host == "*" {
      assert HostItems(tokens) == rest;
    } else {
      assert HostItems(tokens)[1..] == rest;
    }
  }

  lemma {:induction false} WalkNames(sys: System, tokens: seq<string>, source: string, visited: set<Path>)
    ensures WalkItems(sys, HostItems(tokens), source, visited) == Walked(Names(HostItems(tokens), source), visited)
  {
    if tokens != [] {
      WalkNames(sys, tokens[1..], source, visited);
      if HostItems(tokens) != HostItems(tokens[1..]) {
        assert HostItems(tokens)[1..] == HostItems(tokens[1..]);
      }
    }
  }

  // ---------------------------------------------------------------- reachability

  /** `from` includes `to`, and both exist. */
  ghost predicate Includes(sys: System, from: Path, to: Path) {
    from in sys && to in sys && Link(to) in sys[from]
  }

  ghost predicate IsChain(sys: System, chain: seq<Path>) {
    && chain != []
    && chain[0] in sys
    && forall i :: 0 <= i < |chain| - 1 ==> Includes(sys, chain[i], chain[i + 1])
  }

  ghost predicate Reachable(sys: System, root: Path, path: Path) {
    exists chain :: IsChain(sys, chain) && chain[0] == root && chain[|chain| - 1] == path
  }

  lemma ReachableFirst(sys: System, root: Path, next: Path, path: Path)
    requires Includes(sys, root, next) && Reachable(sys, next, path)
    ensures Reachable(sys, root, path)
  {
    var chain :| IsChain(sys, chain) && chain[0] == next && chain[|chain| - 1] == path;
    var longer := [root] + chain;
    assert IsChain(sys, longer);
  }

  /** Every existing file a set's members include is in `all`. */
  ghost predicate ClosedUnder(sys: System, part: set<Path>, all: set<Path>) {
    forall p, q :: p in part && Includes(sys, p, q) ==> q in all
  }

  ghost predicate FromSome(sys: System, items: seq<Item>, path: Path) {
    exists q :: Link(q) in items && q in sys && Reachable(sys, q, path)
  }

  lemma {:induction false} FileVisits(sys: System, path: Path, source: string, visited: set<Path>)
    ensures
      var added := WalkFile(sys, path, source, visited).visited - visited;
      && (path in sys ==> path in WalkFile(sys, path, source, visited).visited)
      && (forall p :: p in added ==> p in sys && Reachable(sys, path, p))
      && ClosedUnder(sys, added, WalkFile(sys, path, source, visited).visited)
    decreases sys.Keys - visited, 0, 0
  {
    if path in sys && path !in visited {
      var items := sys[path];
      ItemsVisit(sys, items, source, visited + {path});
      var r := WalkItems(sys, items, source, visited + {path});
      assert Reachable(sys, path, path) by { assert IsChain(sys, [path]); }
      forall p | p in r.visited - visited && p != path ensures p in sys && Reachable(sys, path, p) {
        assert p in r.visited - (visited + {path});
        assert FromSome(sys, items, p);
        var q :| Link(q) in items && q in sys && Reachable(sys, q, p);
        ReachableFirst(sys, path, q, p);
      }
    }
  }

  lemma {:induction false} ItemsVisit(sys: System, items: seq<Item>, source: string, visited: set<Path>)
    ensures
      var r := WalkItems(sys, items, source, visited);
      && (forall q :: Link(q) in items && q in sys ==> q in r.visited)
      && (forall p :: p in r.visited - visited ==> p in sys && FromSome(sys, items, p))
      && ClosedUnder(sys, r.visited - visited, r.visited)
    decreases sys.Keys - visited, 1, |items|
  {
    if items != [] {
      match items[0]
      case Name(_) =>
        ItemsVisit(sys, items[1..], source, visited);
      case Link(path) =>
        FileVisits(sys, path, source, visited);
        ItemsVisit(sys, items[1..], source, WalkFile(sys, path, source, visited).visited);
    }
  }

  /** A walk visits exactly the existing files reachable from its root. */
  lemma WalkVisitsReachable(sys: System, root: Path, source: string, path: Path)
    ensures path in WalkFile(sys, root, source, {}).visited <==> Reachable(sys, root, path)
  {
    FileVisits(sys, root, source, {});
    var visited := WalkFile(sys, root, source, {}).visited;
    if Reachable(sys, root, path) {
      var chain :| IsChain(sys, chain) && chain[0] == root && chain[|chain| - 1] == path;
      for i := 0 to |chain|
        invariant i > 0 ==> chain[i - 1] in visited
      {
        assert i > 0 ==> Includes(sys, chain[i - 1], chain[i]);
      }
    }
  }

  // ---------------------------------------------------------------- every file once

  function Names(items: seq<Item>, source: string): seq<Candidate> {
    if items == [] then []
    else (if items[0].Name? then [ToCandidate(items[0].host, source)] else []) + Names(items[1..], source)
  }

  /** The host candidates of one file, as a bag. */
  ghost function Own(sys: System, source: string, path: Path): multiset<Candidate> {
    if path in sys then multiset(Names(sys[path], source)) else multiset{}
  }

  /** The host candidates of a set of files, each file counted once. */
  ghost function Total(sys: System, source: string, paths: set<Path>): multiset<Candidate> {
    if paths == {} then multiset{}
    else
      var p :| p in paths;
      Own(sys, source, p) + Total(sys, source, paths - {p})
  }

  lemma {:induction false} TotalInsert(sys: System, source: string, paths: set<Path>, p: Path)
    requires p in paths
    ensures Total(sys, source, paths) == Own(sys, source, p) + Total(sys, source, paths - {p})
    decreases paths
  {
    var q :| q in paths && Total(sys, source, paths) == Own(sys, source, q) + Total(sys, source, paths - {q});
    if p != q {
      TotalInsert(sys, source, paths - {q}, p);
      TotalInsert(sys, source, paths - {p}, q);
      assert paths - {q} - {p} == paths - {p} - {q};
    }
  }

  lemma {:induction false} TotalUnion(sys: System, source: string, a: set<Path>, b: set<Path>)
    requires a !! b
    ensures Total(sys, source, a + b) == Total(sys, source, a) + Total(sys, source, b)
    decreases a
  {
    if a == {} {
      assert a + b == b;
    } else {
      var p :| p in a;
      var rest, both := a - {p}, a + b;
      assert both - {p} == rest + b;
      TotalUnion(sys, source, rest, b);
      assert Total(sys, source, both) == Own(sys, source, p) + Total(sys, source, rest + b) by {
        TotalInsert(sys, source, both, p);
      }
      assert Total(sys, source, a) == Own(sys, source, p) + Total(sys, source, rest) by {
        TotalInsert(sys, source, a, p);
      }
    }
  }

  lemma TotalSpan(sys: System, source: string, a: set<Path>, b: set<Path>, c: set<Path>)
    requires a <= b <= c
    ensures Total(sys, source, c - a) == Total(sys, source, b - a) + Total(sys, source, c - b)
  {
    TotalUnion(sys, source, b - a, c - b);
    assert c - a == (b - a) + (c - b);
  }

  lemma {:induction false} FileCandidates(sys: System, path: Path, source: string, visited: set<Path>)
    ensures
      var r := WalkFile(sys, path, source, visited);
      multiset(r.candidates) == Total(sys, source, r.visited - visited)
    decreases sys.Keys - visited, 0, 0
  {
    if path in sys && path !in visited {
      var items := sys[path];
      ItemsCandidates(sys, items, source, visited + {path});
      var r := WalkItems(sys, items, source, visited + {path});
      TotalInsert(sys, source, r.visited - visited, path);
      assert r.visited - visited - {path} == r.visited - (visited + {path});
    } else {
      assert visited - visited == {};
    }
  }

  lemma {:induction false} ItemsCandidates(sys: System, items: seq<Item>, source: string, visited: set<Path>)
    ensures
      var r := WalkItems(sys, items, source, visited);
      multiset(r.candidates) == multiset(Names(items, source)) + Total(sys, source, r.visited - visited)
    decreases sys.Keys - visited, 1, |items|
  {
    var r := WalkItems(sys, items, source, visited);
    if items == [] {
      assert r.visited - visited == {};
    } else {
      match items[0]
      case Name(_) =>
        ItemsCandidates(sys, items[1..], source, visited);
      case Link(path) =>
        var found := WalkFile(sys, path, source, visited);
        FileCandidates(sys, path, source, visited);
        ItemsCandidates(sys, items[1..], source, found.visited);
        TotalSpan(sys, source, visited, found.visited, r.visited);
    }
  }

  /** The candidates of a walk are the host names of the reachable files, each file's exactly once. */
  lemma WalkCollectsOnce(sys: System, root: Path, source: string)
    ensures
      var r := WalkFile(sys, root, source, {});
      multiset(r.candidates) == Total(sys, source, r.visited)
  {
    FileCandidates(sys, root, source, {});
    var r := WalkFile(sys, root, source, {});
    assert r.visited - {} == r.visited;
  }

  // ---------------------------------------------------------------- merging the two lists

  function HostOf(candidate: Candidate): string {
    candidate.host
  }

  /** `le` stands for `localeCompare` giving at most zero. */
  function ByHost(le: (string, string) -> bool): (Candidate, Candidate) -> bool {
    (a: Candidate, b: Candidate) => le(a.host, b.host)
  }

  function Collected(sys: System, user: Path, global: Path): seq<Candidate> {
    WalkFile(sys, user, "user", {}).candidates + WalkFile(sys, global, "global", {}).candidates
  }

  function Imported(candidates: seq<Candidate>, le: (string, string) -> bool): seq<Candidate> {
    StableSort(KeepFirst(candidates, HostOf, {}), ByHost(le))
  }

  method ImportHosts(files: Files, expand: Expand, user: Path, global: Path, le: (string, string) -> bool)
    returns (r: seq<Candidate>)
    ensures r == Imported(Collected(Load(files, expand), user, global), le)
  {
    var userReader := new Reader(files, expand);
    var fromUser := userReader.ParseCandidates(user, "user");
    var globalReader := new Reader(files, expand);
    var fromGlobal := globalReader.ParseCandidates(global, "global");
    var kept := KeepFirsts(fromUser + fromGlobal, HostOf);
    r := StableSort(kept, ByHost(le));
  }

  /**
   The imported hosts are distinct and sorted, and they are the first occurrence of every host
   among the collected candidates.
   */
  lemma ImportedHosts(candidates: seq<Candidate>, le: (string, string) -> bool, c: Candidate)
    requires TotalPreorder(le)
    ensures Sorted(Imported(candidates, le), ByHost(le))
    ensures DistinctBy(Imported(candidates, le), HostOf)
    ensures c in Imported(candidates, le) <==> IsFirst(candidates, HostOf, c)
  {
    var kept := KeepFirst(candidates, HostOf, {});
    KeepFirstShape(candidates, HostOf, {});
    assert TotalPreorder(ByHost(le)) by {
      assert forall a, b :: ByHost(le)(a, b) == le(a.host, b.host);
    }
    SortSorted(kept, ByHost(le));
    SortMultiset(kept, ByHost(le));
    DistinctPermuted(kept, Imported(candidates, le), HostOf);
    SortMembers(kept, ByHost(le), c);
  }

  lemma {:induction false} ItemsSource(sys: System, items: seq<Item>, source: string, visited: set<Path>)
    ensures forall c :: c in WalkItems(sys, items, source, visited).candidates ==> c.source == source
    decreases sys.Keys - visited, 1, |items|
  {
    if items != [] {
      match items[0]
      case Name(_) => ItemsSource(sys, items[1..], source, visited);
      case Link(path) =>
        FileSource(sys, path, source, visited);
        ItemsSource(sys, items[1..], source, WalkFile(sys, path, source, visited).visited);
    }
  }

  lemma {:induction false} FileSource(sys: System, path: Path, source: string, visited: set<Path>)
    ensures forall c :: c in WalkFile(sys, path, source, visited).candidates ==> c.source == source
    decreases sys.Keys - visited, 0, 0
  {
    if path in sys && path !in visited {
      ItemsSource(sys, sys[path], source, visited + {path});
    }
  }

  /** A host the user's files name is never imported from the system's file. */
  lemma UserWins(sys: System, user: Path, global: Path, le: (string, string) -> bool, c: Candidate, u: Candidate)
    requires TotalPreorder(le)
    requires c in Imported(Collected(sys, user, global), le)
    requires u in WalkFile(sys, user, "user", {}).candidates && u.host == c.host
    ensures c.source == "user"
  {
    var first, second := WalkFile(sys, user, "user", {}).candidates, WalkFile(sys, global, "global", {}).candidates;
    FileSource(sys, user, "user", {});
    ImportedHosts(first + second, le, c);
    var i :| 0 <= i < |first + second| && (first + second)[i] == c && NoneBefore(first + second, HostOf, i, c.host);
    var j :| 0 <= j < |first| && first[j] == u;
    assert (first + second)[j] == u && HostOf(u) == c.host;
    assert i < |first|;
  }

  // ---------------------------------------------------------------- reading a line

  lemma NoFields(s: string)
    requires s == ""
    ensures Fields(s) == [] && Words(s) == Ok([])
  {}

  lemma FieldsOfPlain(word: string)
    requires PlainWord(word)
    ensures Fields(word) == [word]
  {
    FieldsOfJoin([word]);
    assert Join([word], " ") == word;
  }

  /** A line that has one keyword does not have the other. */
  lemma OneKeyword(line: string, a: string, b: string)
    requires a == "include" && b == "host"
    ensures HasKeyword(line, a) ==> !HasKeyword(line, b)
  {
    assert HasKeyword(line, a) ==> Lower(line[..|a|])[0] == 'i';
    assert HasKeyword(line, b) ==> Lower(line[..|b|])[0] == 'h';
  }

  /**
   A raw line is a `Host` line exactly when what precedes its comment has the keyword; it contributes
   exactly its operands if and only if something follows the keyword, and itself otherwise.
   */
  lemma HostLine(rawLine: string)
    ensures
      var line := Uncommented(rawLine);
      && (DirectiveOf(rawLine).Host? <==> HasKeyword(line, "host"))
      && (HasKeyword(line, "host") ==>
            && (DirectiveOf(rawLine) == Host(Fields(Trim(line[4..]))) <==> |line| > 4)
            && (|line| == 4 ==> DirectiveOf(rawLine) == Host([line])))
  {
    var line := Uncommented(rawLine);
    OneKeyword(line, "include", "host");
    if HasKeyword(line, "host") && |line| == 4 {
      PlainKeyword(line, "host");
      FieldsOfPlain(line);
      NoFields(Trim(line[4..]));
    }
  }

  /** The same for `include`: a bare keyword includes the file of that name. */
  lemma IncludeLine(rawLine: string)
    ensures
      var line := Uncommented(rawLine);
      && (DirectiveOf(rawLine).Include? <==> HasKeyword(line, "include"))
      && (HasKeyword(line, "include") ==>
            && (DirectiveOf(rawLine) == Include(IncludeTokens(Trim(line[7..]))) <==> |line| > 7)
            && (|line| == 7 ==> DirectiveOf(rawLine) == Include([line])))
  {
    var line := Uncommented(rawLine);
    if HasKeyword(line, "include") && |line| == 7 {
      PlainKeyword(line, "include");
      PlainWords(line);
      NoFields(Trim(line[7..]));
    }
  }

  predicate Letters(s: string) {
    forall i :: 0 <= i < |s| ==> 'a' <= s[i] <= 'z'
  }

  /** A line of letters only reads as one word. */
  lemma PlainKeyword(line: string, keyword: string)
    requires Lower(line) == keyword && keyword != "" && Letters(keyword)
    ensures PlainWord(line)
    ensures forall i :: 0 <= i < |line| ==> Legal(Bare(line[i]))
  {
    forall i | 0 <= i < |line| ensures !IsSpace(line[i]) && Legal(Bare(line[i])) {
      assert 'a' <= Lower(line)[i] <= 'z';
    }
  }

  lemma PlainWords(word: string)
    requires word != "" && forall i :: 0 <= i < |word| ==> Legal(Bare(word[i]))
    ensures Words(word) == Ok([word])
  {
    var pieces := seq(|word|, i requires 0 <= i < |word| => Bare(word[i]));
    BarePieces(word, pieces);
    ScanLast(pieces);
  }

  lemma {:induction false} BarePieces(word: string, pieces: seq<Piece>)
    requires |pieces| == |word| && forall i :: 0 <= i < |word| ==> pieces[i] == Bare(word[i]) && Legal(pieces[i])
    ensures LegalWord(pieces) && Written(pieces) == word && Meant(pieces) == word
  {
    if word != "" {
      BarePieces(word[1..], pieces[1..]);
    }
  }

  lemma KeywordIsFirst(line: string, keyword: string)
    requires keyword != "" && Letters(keyword) && Trimmed(line)
    ensures
      var words := Fields(line);
      && (HasKeyword(line, keyword) <==> words != [] && Lower(words[0]) == keyword)
      && (HasKeyword(line, keyword) ==> words == [line[..|keyword|]] + Fields(line[|keyword|..]))
  {
    var k := |keyword|;
    if HasKeyword(line, keyword) {
      PlainKeyword(line[..k], keyword);
      FirstField(line, k);
    }
    if line != "" {
      var n := FirstSpace(line);
      FirstField(line, n);
      var first := line[..n];
      if Lower(first) == keyword {
        assert |Lower(first)| == n == k;
      }
    } else {
      NoFields(line);
    }
  }

  lemma {:induction false} FirstSpace(s: string) returns (n: nat)
    requires s != "" && !IsSpace(s[0])
    ensures 0 < n <= |s| && (forall i :: 0 <= i < n ==> !IsSpace(s[i])) && (n < |s| ==> IsSpace(s[n]))
  {
    n := 1;
    if |s| > 1 && !IsSpace(s[1]) {
      var m := FirstSpace(s[1..]);
      n := m + 1;
      assert forall i :: 1 <= i < n ==> s[i] == s[1..][i - 1];
    }
  }

  /** The operands of a line of words: those after the keyword, or the keyword itself if it is alone. */
  function AfterKeyword(words: seq<string>): seq<string>
    requires words != []
  {
    if |words| == 1 then words else words[1..]
  }

  /** A line by its words, comment cut off: the first word, in any letter case, tells a `Host` line, and the others are its tokens. */
  lemma HostByWords(rawLine: string)
    ensures
      var words := Fields(rawLine[..IndexOf(rawLine, '#')]);
      && (DirectiveOf(rawLine).Host? <==> words != [] && Lower(words[0]) == "host")
      && (DirectiveOf(rawLine).Host? ==> DirectiveOf(rawLine).tokens == AfterKeyword(words))
  {
    var line := Uncommented(rawLine);
    FieldsTrim(rawLine[..IndexOf(rawLine, '#')]);
    TrimIsTrimmed(rawLine[..IndexOf(rawLine, '#')]);
    HostLine(rawLine);
    KeywordIsFirst(line, "host");
    if HasKeyword(line, "host") {
      OperandFields(line, "host");
    }
  }

  lemma OperandFields(line: string, keyword: string)
    requires keyword != "" && Letters(keyword) && HasKeyword(line, keyword) && Trimmed(line)
    ensures
      var words := Fields(line);
      words != [] && Fields(Operands(line, keyword)) == AfterKeyword(words)
  {
    KeywordIsFirst(line, keyword);
    var k := |keyword|;
    if |line| == k {
      NoFields(line[k..]);
      assert line[..k] == line;
    } else {
      FieldsTrim(line[k..]);
      TrimBlank(line[k..]);
      assert line[k..][|line| - k - 1] == line[|line| - 1];
      TrimIsTrimmed(line[k..]);
      SomeField(Trim(line[k..]));
    }
  }

  lemma SomeField(s: string)
    requires Trimmed(s) && s != ""
    ensures Fields(s) != []
  {
    var n := FirstSpace(s);
    FirstField(s, n);
  }

  /** The same for an include line, if its text has no quotes and backslashes. */
  lemma IncludeByWords(rawLine: string)
    ensures
      var text := rawLine[..IndexOf(rawLine, '#')];
      var words := Fields(text);
      && (DirectiveOf(rawLine).Include? <==> words != [] && Lower(words[0]) == "include")
      && (DirectiveOf(rawLine).Include? && '\'' !in text && '\"' !in text && '\\' !in text ==>
            DirectiveOf(rawLine).tokens == AfterKeyword(words))
  {
    var text := rawLine[..IndexOf(rawLine, '#')];
    var line := Uncommented(rawLine);
    FieldsTrim(text);
    TrimIsTrimmed(text);
    IncludeLine(rawLine);
    KeywordIsFirst(line, "include");
    if HasKeyword(line, "include") && '\'' !in text && '\"' !in text && '\\' !in text {
      OperandFields(line, "include");
      UnquotedOperands(text, line, "include");
      UnquotedWords(Operands(line, "include"), "");
    }
  }

  predicate Unquoted(s: string) {
    '\'' !in s && '\"' !in s && '\\' !in s
  }

  lemma UnquotedOperands(text: string, line: string, keyword: string)
    requires Unquoted(text) && line == Trim(text) && |keyword| <= |line|
    ensures Unquoted(Operands(line, keyword))
  {
    forall c | c in Operands(line, keyword) ensures c in text {
      if |line| != |keyword| {
        TrimCharacters(line[|keyword|..], c);
      }
      TrimCharacters(text, c);
    }
  }

  /** Without quotes and backslashes, shell words are fields. */
  lemma {:induction false} UnquotedWords(s: string, current: string)
    requires Unquoted(s)
    ensures Scan(s, current, false, false) == Ok(FieldsFrom(s, current))
    decreases |s|
  {
    if s != "" {
      assert s[0] in s;
      UnquotedWords(s[1..], if IsSpace(s[0]) then "" else current + [s[0]]);
      assert [] + FieldsFrom(s[1..], "") == FieldsFrom(s[1..], "");
    }
  }

  /** An include line whose quotation is not closed is split at white space instead. */
  lemma OpenInclude(operands: string)
    requires Words(operands).Err?
    ensures IncludeTokens(operands) == Fields(operands)
  {}

  /** The smallest such line: a bare `Host` names a host of that name. */
  lemma BareHost()
    ensures DirectiveOf("Host") == Host(["Host"])
  {
    IndexOfUnique("Host", '#', 4);
    assert "Host"[..4] == "Host";
    assert Trim("Host") == "Host" by { TrimTrimmed("Host"); }
    assert Lower("Host") == "host";
    HostLine("Host");
  }

  // ---------------------------------------------------------------- from the text of the files

  /** The line names the host: a `Host` line with that token, which is neither negated nor the catch-all. */
  ghost predicate NamesHost(line: string, host: string) {
    var d := DirectiveOf(line);
    d.Host? && host in d.tokens && !("!" <= host) && host != "*"
  }

  /** The line of the file `path` includes the file `to`. */
  ghost predicate NamesFile(expand: Expand, line: string, path: Path, to: Path) {
    var d := DirectiveOf(line);
    d.Include? && exists token :: token in d.tokens && to in expand(token, path)
  }

  lemma {:induction false} FieldsNotEmpty(s: string, current: string)
    ensures "" !in FieldsFrom(s, current)
    decreases |s|
  {
    if s != "" {
      FieldsNotEmpty(s[1..], if IsSpace(s[0]) then "" else current + [s[0]]);
    }
  }

  lemma {:induction false} HostItemsNames(tokens: seq<string>, item: Item)
    ensures item in HostItems(tokens) <==>
            item.Name? && item.host in tokens && item.host != "" && !("!" <= item.host) && item.host != "*"
  {
    if tokens != [] {
      HostItemsNames(tokens[1..], item);
    }
  }

  lemma {:induction false} LinkItemsLinks(paths: seq<Path>, item: Item)
    ensures item in LinkItems(paths) <==> item.Link? && item.path in paths
  {
    if paths != [] {
      LinkItemsLinks(paths[1..], item);
    }
  }

  lemma {:induction false} IncludeItemsLinks(expand: Expand, tokens: seq<string>, path: Path, item: Item)
    ensures item in IncludeItems(expand, tokens, path) <==>
            item.Link? && exists token :: token in tokens && item.path in expand(token, path)
  {
    if tokens != [] {
      LinkItemsLinks(expand(tokens[0], path), item);
      IncludeItemsLinks(expand, tokens[1..], path, item);
      assert tokens == [tokens[0]] + tokens[1..];
    }
  }

  ghost predicate Contributes(expand: Expand, line: string, path: Path, item: Item) {
    match item
    case Name(host) => NamesHost(line, host)
    case Link(to) => NamesFile(expand, line, path, to)
  }

  lemma LineContributes(expand: Expand, line: string, path: Path, item: Item)
    ensures item in LineItems(expand, line, path) <==> Contributes(expand, line, path, item)
  {
    match DirectiveOf(line)
    case Include(tokens) => IncludeItemsLinks(expand, tokens, path, item);
    case Host(tokens) =>
      HostItemsNames(tokens, item);
      FieldsNotEmpty(Operands(Uncommented(line), "host"), "");
    case Other =>
  }

  lemma {:induction false} LinesContribute(expand: Expand, lines: seq<string>, path: Path, item: Item)
    ensures item in LinesItems(expand, lines, path) <==> exists line :: line in lines && Contributes(expand, line, path, item)
  {
    if lines != [] {
      LineContributes(expand, lines[0], path, item);
      LinesContribute(expand, lines[1..], path, item);
      assert lines == [lines[0]] + lines[1..];
    }
  }

  /** A file includes another exactly when one of its lines does and both exist. */
  lemma IncludesByText(files: Files, expand: Expand, path: Path, to: Path)
    ensures Includes(Load(files, expand), path, to) <==>
            path in files && to in files && exists line :: line in Split(files[path], '\n') && NamesFile(expand, line, path, to)
  {
    if path in files {
      var lines := Split(files[path], '\n');
      LinesContribute(expand, lines, path, Link(to));
      if line :| line in lines && Contributes(expand, line, path, Link(to)) {
        assert NamesFile(expand, line, path, to);
      }
      if line :| line in lines && NamesFile(expand, line, path, to) {
        assert Contributes(expand, line, path, Link(to));
      }
    }
  }

  lemma {:induction false} NamesMembers(items: seq<Item>, source: string, c: Candidate)
    ensures c in Names(items, source) <==> c == ToCandidate(c.host, source) && Name(c.host) in items
  {
    if items != [] {
      NamesMembers(items[1..], source, c);
      assert items == [items[0]] + items[1..];
    }
  }

  lemma {:induction false} TotalMembers(sys: System, source: string, paths: set<Path>, c: Candidate)
    ensures c in Total(sys, source, paths) <==> exists path :: path in paths && c in Own(sys, source, path)
    decreases paths
  {
    if paths != {} {
      var p :| p in paths && Total(sys, source, paths) == Own(sys, source, p) + Total(sys, source, paths - {p});
      TotalMembers(sys, source, paths - {p}, c);
    }
  }

  /** The file, at one of its lines, names the host. */
  ghost predicate FileNames(files: Files, path: Path, host: string) {
    path in files && exists line :: line in Split(files[path], '\n') && NamesHost(line, host)
  }

  lemma OwnByText(files: Files, expand: Expand, source: string, path: Path, c: Candidate)
    ensures c in Own(Load(files, expand), source, path) <==> c == ToCandidate(c.host, source) && FileNames(files, path, c.host)
  {
    if path in files {
      var lines := Split(files[path], '\n');
      NamesMembers(LinesItems(expand, lines, path), source, c);
      LinesContribute(expand, lines, path, Name(c.host));
      if line :| line in lines && Contributes(expand, line, path, Name(c.host)) {
        assert NamesHost(line, c.host);
      }
      if line :| line in lines && NamesHost(line, c.host) {
        assert Contributes(expand, line, path, Name(c.host));
      }
    }
  }

  lemma CandidateFields(c: Candidate, source: string)
    ensures c == ToCandidate(c.host, source) <==>
            && c.source == source && c.sshCommand == "ssh " + c.host
            && (c.pattern <==> exists i :: 0 <= i < |c.host| && (c.host[i] == '*' || c.host[i] == '?'))
  {}

  /**
   From the text of the files: a host is collected if and only if some file reachable from the root has
   a `Host` line with that token, which is neither negated nor the catch-all.
   */
  lemma CollectedByText(files: Files, expand: Expand, root: Path, source: string, c: Candidate)
    ensures c in WalkFile(Load(files, expand), root, source, {}).candidates <==>
            && c.source == source && c.sshCommand == "ssh " + c.host
            && (c.pattern <==> exists i :: 0 <= i < |c.host| && (c.host[i] == '*' || c.host[i] == '?'))
            && exists path :: Reachable(Load(files, expand), root, path) && FileNames(files, path, c.host)
  {
    var sys := Load(files, expand);
    var r := WalkFile(sys, root, source, {});
    WalkCollectsOnce(sys, root, source);
    CandidateFields(c, source);
    assert c in r.candidates <==> c in multiset(r.candidates);
    TotalMembers(sys, source, r.visited, c);
    forall path ensures path in r.visited <==> Reachable(sys, root, path) {
      WalkVisitsReachable(sys, root, source, path);
    }
    forall path ensures c in Own(sys, source, path) <==> c == ToCandidate(c.host, source) && FileNames(files, path, c.host) {
      OwnByText(files, expand, source, path, c);
    }
  }
}
