/**
 Replacing `var(--name)` tokens by what they stand for. Unlike theme references, a chain that meets
 a name again or a missing name keeps the last value it reached.
 */
module ThemeTokens {
  import opened Text

  type Tokens = map<string, string>

  /** `[a-z0-9-]` under the `i` and `u` flags, whose case folding also admits U+017F and U+212A. */
  predicate IsKeyChar(c: char) {
    'a' <= c <= 'z' || 'A' <= c <= 'Z' || '0' <= c <= '9' || c == '-' || c == '\U{017F}' || c == '\U{212A}'
  }

  const OPENING: string := "var(--"

  /** The name in a value of the form `var(--name)`. */
  function TokenKey(value: string): Option<string> {
    var t := Trim(value);
    if |t| > |OPENING| + 1 && Lower(t[..|OPENING|]) == OPENING && t[|t| - 1] == ')'
       && (forall i :: |OPENING| <= i < |t| - 1 ==> IsKeyChar(t[i])) then
      Some(t[|OPENING|..|t| - 1])
    else None
  }

  /** The name a value refers to, when that token can be followed. */
  function Target(value: string, tokens: Tokens): Option<string> {
    var key := TokenKey(value);
    if key.Some? && key.value in tokens && tokens[key.value] != "" then key else None
  }

  function ResolveToken(value: string, tokens: Tokens, seen: set<string>): string
    decreases tokens.Keys - seen
  {
    match Target(value, tokens)
    case None => value
    case Some(key) => if key in seen then value else ResolveToken(tokens[key], tokens, seen + {key})
  }

  function Materialized(tokens: Tokens): (r: Tokens)
    ensures r.Keys == tokens.Keys
  {
    map key | key in tokens :: ResolveToken(tokens[key], tokens, {})
  }

  method MaterializeTokens(tokens: Tokens) returns (out: Tokens)
    ensures out == Materialized(tokens)
  {
    out := map[];
    var todo := tokens.Keys;
    while todo != {}
      invariant todo <= tokens.Keys && out.Keys == tokens.Keys - todo
      invariant forall key :: key in out ==> out[key] == ResolveToken(tokens[key], tokens, {})
      decreases todo
    {
      var key :| key in todo;
      out := out[key := ResolveToken(tokens[key], tokens, {})];
      todo := todo - {key};
    }
  }

  // ---------------------------------------------------------------- where a chain stops

  ghost predicate Step(tokens: Tokens, from: string, to: string) {
    from in tokens && Target(tokens[from], tokens) == Some(to)
  }

  /** Names that refer to each other in turn, the last one to the first. */
  ghost predicate IsCycle(tokens: Tokens, c: seq<string>) {
    && c != []
    && (forall i :: 0 <= i < |c| ==> c[i] in tokens)
    && (forall i, j :: 0 <= i < j < |c| ==> c[i] != c[j])
    && (forall i, j :: 0 <= i && j == i + 1 < |c| ==> Step(tokens, c[i], c[j]))
    && Step(tokens, c[|c| - 1], c[0])
  }

  /** A value at which following stops: it refers to nothing that can be followed, or closes a cycle. */
  ghost predicate Settled(tokens: Tokens, value: string) {
    || Target(value, tokens) == None
    || exists c :: IsCycle(tokens, c) && value == tokens[c[|c| - 1]]
  }

  /** Distinct names, each referring to the next, the last one's value being `value`. */
  ghost predicate Trail(tokens: Tokens, path: seq<string>, value: string) {
    && (forall i, j :: 0 <= i < j < |path| ==> path[i] != path[j])
    && (forall i, j :: 0 <= i && j == i + 1 < |path| ==> Step(tokens, path[i], path[j]))
    && (path != [] ==> path[|path| - 1] in tokens && tokens[path[|path| - 1]] == value)
  }

  ghost predicate TrailFrom(tokens: Tokens, start: string, path: seq<string>, end: string) {
    && Trail(tokens, path, end)
    && if path == [] then start == end else Target(start, tokens) == Some(path[0])
  }

  /** Following references from `start`, the first value that leads nowhere or back to a name already met is `end`. */
  ghost predicate StopsAt(tokens: Tokens, start: string, end: string) {
    exists path :: TrailFrom(tokens, start, path, end) && Stops(tokens, path, end)
  }

  ghost predicate Stops(tokens: Tokens, path: seq<string>, end: string) {
    Target(end, tokens).Some? ==> Target(end, tokens).value in path
  }

  ghost function Names(path: seq<string>): set<string> {
    set name | name in path
  }

  lemma TrailCloses(tokens: Tokens, path: seq<string>, value: string, i: nat)
    requires Trail(tokens, path, value) && i < |path| && Target(value, tokens) == Some(path[i])
    ensures IsCycle(tokens, path[i..]) && value == tokens[path[|path| - 1]]
  {
    var c := path[i..];
    forall k | 0 <= k < |c| ensures c[k] in tokens {
      assert k + 1 < |c| ==> Step(tokens, path[i + k], path[i + k + 1]);
    }
    assert c[|c| - 1] == path[|path| - 1];
  }

  lemma TrailGrows(tokens: Tokens, path: seq<string>, value: string, key: string)
    requires Trail(tokens, path, value) && Target(value, tokens) == Some(key) && key !in path
    ensures Trail(tokens, path + [key], tokens[key])
  {
    assert path != [] ==> Step(tokens, path[|path| - 1], key);
  }

  lemma {:induction false} ResolveSettles(start: string, value: string, tokens: Tokens, path: seq<string>, seen: set<string>)
    requires TrailFrom(tokens, start, path, value) && seen == Names(path)
    ensures Settled(tokens, ResolveToken(value, tokens, seen))
    ensures StopsAt(tokens, start, ResolveToken(value, tokens, seen))
    decreases tokens.Keys - seen
  {
    match Target(value, tokens)
    case None =>
    case Some(key) =>
      if key in seen {
        var i :| 0 <= i < |path| && path[i] == key;
        TrailCloses(tokens, path, value, i);
      } else {
        TrailGrows(tokens, path, value, key);
        assert seen + {key} == Names(path + [key]);
        ResolveSettles(start, tokens[key], tokens, path + [key], seen + {key});
      }
  }

  ghost function ValueAt(tokens: Tokens, start: string, path: seq<string>, n: nat): string
    requires n <= |path| && forall name :: name in path ==> name in tokens
  {
    if n == 0 then start else tokens[path[n - 1]]
  }

  lemma TrailNames(tokens: Tokens, start: string, path: seq<string>, end: string)
    requires TrailFrom(tokens, start, path, end)
    ensures forall name :: name in path ==> name in tokens
  {
    forall i | 0 <= i < |path| ensures path[i] in tokens {
      assert i + 1 < |path| ==> Step(tokens, path[i], path[i + 1]);
    }
  }

  lemma TrailStep(tokens: Tokens, start: string, path: seq<string>, end: string, n: nat)
    requires TrailFrom(tokens, start, path, end) && n < |path|
    requires forall name :: name in path ==> name in tokens
    ensures Target(ValueAt(tokens, start, path, n), tokens) == Some(path[n])
    ensures path[n] !in Names(path[..n])
    ensures Names(path[..n + 1]) == Names(path[..n]) + {path[n]}
  {
    assert n > 0 ==> Step(tokens, path[n - 1], path[n]);
    NamesStep(path, n);
  }

  lemma NamesStep(path: seq<string>, n: nat)
    requires n < |path| && forall i, j :: 0 <= i < j < |path| ==> path[i] != path[j]
    ensures path[n] !in Names(path[..n])
    ensures Names(path[..n + 1]) == Names(path[..n]) + {path[n]}
  {
    assert path[..n + 1] == path[..n] + [path[n]];
  }

  lemma {:induction false} FollowTrail(tokens: Tokens, start: string, path: seq<string>, end: string, n: nat)
    requires TrailFrom(tokens, start, path, end) && Stops(tokens, path, end) && n <= |path|
    requires forall name :: name in path ==> name in tokens
    ensures ResolveToken(ValueAt(tokens, start, path, n), tokens, Names(path[..n])) == end
    decreases |path| - n
  {
    if n == |path| {
      assert path[..n] == path;
    } else {
      TrailStep(tokens, start, path, end, n);
      FollowTrail(tokens, start, path, end, n + 1);
    }
  }

  /** A token becomes exactly the value at which following its references stops, and that value is settled. */
  lemma MaterializedMeaning(tokens: Tokens, key: string, value: string)
    requires key in tokens
    ensures Materialized(tokens)[key] == value <==> StopsAt(tokens, tokens[key], value)
    ensures Materialized(tokens)[key] == value ==> Settled(tokens, value)
  {
    ResolveSettles(tokens[key], tokens[key], tokens, [], {});
    if StopsAt(tokens, tokens[key], value) {
      var path :| TrailFrom(tokens, tokens[key], path, value) && Stops(tokens, path, value);
      TrailNames(tokens, tokens[key], path, value);
      FollowTrail(tokens, tokens[key], path, value, 0);
      assert Names(path[..0]) == {};
    }
  }

  // ---------------------------------------------------------------- cycles stand still

  /** Once round a cycle from its last value and back to it. */
  lemma {:induction false} AroundCycle(tokens: Tokens, c: seq<string>, m: nat)
    requires IsCycle(tokens, c) && m <= |c|
    ensures ResolveToken(tokens[c[if m == 0 then |c| - 1 else m - 1]], tokens, Names(c[..m])) == tokens[c[|c| - 1]]
    decreases |c| - m
  {
    if m < |c| {
      NamesStep(c, m);
      assert Step(tokens, c[if m == 0 then |c| - 1 else m - 1], c[m]);
      AroundCycle(tokens, c, m + 1);
    } else {
      assert c[..m][0] == c[0];
      assert Step(tokens, c[|c| - 1], c[0]);
    }
  }

  lemma CycleValueStays(tokens: Tokens, c: seq<string>)
    requires IsCycle(tokens, c)
    ensures ResolveToken(tokens[c[|c| - 1]], tokens, {}) == tokens[c[|c| - 1]]
  {
    AroundCycle(tokens, c, 0);
    assert Names(c[..0]) == {};
  }

  lemma Rotate(tokens: Tokens, c: seq<string>, i: nat) returns (r: seq<string>)
    requires IsCycle(tokens, c) && i < |c|
    ensures IsCycle(tokens, r) && r[|r| - 1] == c[i]
  {
    r := c[i + 1..] + c[..i + 1];
    forall a, b | 0 <= a && b == a + 1 < |r| ensures Step(tokens, r[a], r[b]) {
      if a + i + 1 == |c| - 1 {
        assert r[a] == c[|c| - 1] && r[b] == c[0];
      } else if a + i + 1 < |c| - 1 {
        assert r[a] == c[a + i + 1] && r[b] == c[a + i + 2];
      } else {
        assert r[a] == c[a + i + 1 - |c|] && r[b] == c[a + i + 2 - |c|];
      }
    }
    assert r[|r| - 1] == c[i];
    assert r[0] == if i + 1 < |c| then c[i + 1] else c[0];
  }

  /** Materializing leaves the members of a cycle as they were. */
  lemma CycleMembersStay(tokens: Tokens, c: seq<string>, i: nat)
    requires IsCycle(tokens, c) && i < |c|
    ensures c[i] in tokens && Materialized(tokens)[c[i]] == tokens[c[i]]
  {
    var r := Rotate(tokens, c, i);
    CycleValueStays(tokens, r);
  }

  lemma CycleSurvives(tokens: Tokens, c: seq<string>)
    requires IsCycle(tokens, c)
    ensures IsCycle(Materialized(tokens), c)
    ensures Materialized(tokens)[c[|c| - 1]] == tokens[c[|c| - 1]]
  {
    var out := Materialized(tokens);
    forall i | 0 <= i < |c| ensures c[i] in tokens && out[c[i]] == tokens[c[i]] {
      CycleMembersStay(tokens, c, i);
    }
    forall i, j | 0 <= i < |c| && 0 <= j < |c| && Step(tokens, c[i], c[j]) ensures Step(out, c[i], c[j]) {
      assert out[c[j]] == tokens[c[j]];
    }
  }

  // ---------------------------------------------------------------- materializing twice

  lemma EmptyStays(tokens: Tokens)
    ensures ResolveToken("", tokens, {}) == ""
  {}

  /** A settled value is not changed by resolving it among the materialized tokens. */
  lemma SettledStays(tokens: Tokens, value: string)
    requires Settled(tokens, value)
    ensures ResolveToken(value, Materialized(tokens), {}) == value
  {
    var out := Materialized(tokens);
    if Target(value, tokens) == None {
      EmptyStays(tokens);
      assert Target(value, out) == None;
    } else {
      var c :| IsCycle(tokens, c) && value == tokens[c[|c| - 1]];
      CycleSurvives(tokens, c);
      CycleValueStays(out, c);
    }
  }

  /**
   Materializing is idempotent on every set of tokens: literals, chains, missing names, empty tokens,
   cycles and chains that run into cycles.
   */
  lemma MaterializeIdempotent(tokens: Tokens)
    ensures Materialized(Materialized(tokens)) == Materialized(tokens)
  {
    var out := Materialized(tokens);
    forall key | key in tokens ensures ResolveToken(out[key], out, {}) == out[key] {
      MaterializedMeaning(tokens, key, Materialized(tokens)[key]);
      SettledStays(tokens, out[key]);
    }
  }

  // ---------------------------------------------------------------- what a reference looks like

  /** Letters, digits and hyphens; the two other characters fold to the letters s and k. */
  predicate NameChar(c: char) {
    LowerAscii(c) in "abcdefghijklmnopqrstuvwxyz" || c in "0123456789-" || c == '\U{017F}' || c == '\U{212A}'
  }

  /** `var(--`, in any letter case, a name, and a closing parenthesis. */
  ghost predicate RefersByName(text: string, opening: string, name: string) {
    && text == opening + (name + ")") && Lower(opening) == "var(--"
    && name != "" && forall i :: 0 <= i < |name| ==> NameChar(name[i])
  }

  lemma InAlphabet(d: char, letters: string)
    requires letters == "abcdefghijklmnopqrstuvwxyz"
    ensures d in letters <==> 'a' <= d <= 'z'
  {
    if 'a' <= d <= 'z' {
      assert letters[(d - 'a') as int] == d;
    }
  }

  lemma InDigits(d: char, digits: string)
    requires digits == "0123456789-"
    ensures d in digits <==> '0' <= d <= '9' || d == '-'
  {
    if '0' <= d <= '9' {
      assert digits[(d - '0') as int] == d;
    }
  }

  lemma KeyCharacter(c: char)
    ensures IsKeyChar(c) <==> NameChar(c)
  {
    InAlphabet(LowerAscii(c), "abcdefghijklmnopqrstuvwxyz");
    InDigits(c, "0123456789-");
  }

  lemma KeyCharacters(s: string)
    ensures (forall i :: 0 <= i < |s| ==> IsKeyChar(s[i])) <==> (forall i :: 0 <= i < |s| ==> NameChar(s[i]))
  {
    forall i | 0 <= i < |s| ensures IsKeyChar(s[i]) <==> NameChar(s[i]) {
      KeyCharacter(s[i]);
    }
  }

  lemma WrittenReference(value: string, t: string, opening: string, name: string)
    requires t == Trim(value) && RefersByName(t, opening, name)
    ensures TokenKey(value) == Some(name)
  {
    assert |Lower(opening)| == 6 && |OPENING| == 6;
    assert t[..6] == opening && t[6..|t| - 1] == name && t[|t| - 1] == ')';
    KeyCharacters(name);
    forall i | 6 <= i < |t| - 1 ensures IsKeyChar(t[i]) {
      assert t[i] == name[i - 6];
    }
  }

  lemma ReadReference(value: string, t: string, name: string)
    requires t == Trim(value) && TokenKey(value) == Some(name)
    ensures RefersByName(t, t[..6], name)
  {
    assert |OPENING| == 6 && name == t[6..|t| - 1];
    assert t == t[..6] + (name + ")");
    forall i | 0 <= i < |name| ensures IsKeyChar(name[i]) {
      assert name[i] == t[i + 6];
    }
    KeyCharacters(name);
  }

  /** A value refers to a name exactly when, trimmed, it is written so. */
  lemma TokenKeyExactly(value: string, name: string)
    ensures TokenKey(value) == Some(name) <==> exists opening :: RefersByName(Trim(value), opening, name)
  {
    if opening :| RefersByName(Trim(value), opening, name) {
      WrittenReference(value, Trim(value), opening, name);
    }
    if TokenKey(value) == Some(name) {
      ReadReference(value, Trim(value), name);
    }
  }

  /** A token that is no reference, or refers to a missing or empty token, stays; one that refers to a plain token becomes it. */
  lemma OneStep(tokens: Tokens, key: string, other: string)
    requires key in tokens
    ensures TokenKey(tokens[key]) == None ==> Materialized(tokens)[key] == tokens[key]
    ensures TokenKey(tokens[key]) == Some(other) && (other !in tokens || tokens[other] == "") ==> Materialized(tokens)[key] == tokens[key]
    ensures TokenKey(tokens[key]) == Some(other) && other in tokens && tokens[other] != "" && TokenKey(tokens[other]) == None ==>
              Materialized(tokens)[key] == tokens[other]
  {
    var value := tokens[key];
    if TokenKey(value) == Some(other) && other in tokens && tokens[other] != "" && TokenKey(tokens[other]) == None {
      assert Target(value, tokens) == Some(other);
      assert ResolveToken(tokens[other], tokens, {} + {other}) == tokens[other];
    }
  }
}
