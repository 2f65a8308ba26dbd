/**
 Resolving a service to a provider: the matching rules are sorted by specificity and walked in
 groups of equal rank. The walk is proved against a declarative account of which rank decides.
 */
module RoutingResolver {
  import opened Text
  import opened Json
  import opened Sorting
  import opened RoutingKeys
  import opened RoutingDocument

  datatype Candidate = Candidate(providerId: string, providerKey: string)

  datatype Status = Ambiguous | Resolved | Unavailable

  /** The diagnostic codes; severity, message wording and timestamp follow from these. */
  datatype Diagnostic =
    | ScopeConflict
    | Fallback(providerKey: string)
    | SelectedUnavailable(providerKey: string)
    | AmbiguousProviders
    | NoProvider

  datatype Resolution = Resolution(
    status: Status,
    providerId: Option<string>,
    providerKey: Option<string>,
    matchedRule: Option<Rule>,
    diagnostics: seq<Diagnostic>)

  // ---------------------------------------------------------------- precedence

  /** The place of the most specific selected dimension, then the number of dimensions. */
  datatype Rank = Rank(highest: int, dimensions: nat)

  function HighestBelow(scope: Scope, n: nat): int
    requires n <= |SCOPE_FIELDS|
  {
    if n == 0 then -1 else if SCOPE_FIELDS[n - 1] in scope then n - 1 else HighestBelow(scope, n - 1)
  }

  function RankOf(scope: Scope): Rank {
    Rank(HighestBelow(scope, |SCOPE_FIELDS|), |scope|)
  }

  /** Strictly more specific. */
  predicate Above(a: Rank, b: Rank) {
    a.highest > b.highest || (a.highest == b.highest && a.dimensions > b.dimensions)
  }

  lemma {:induction false} HighestIsMaximum(scope: Scope, n: nat)
    requires n <= |SCOPE_FIELDS|
    ensures
      var h := HighestBelow(scope, n);
      && -1 <= h < n
      && (h >= 0 ==> SCOPE_FIELDS[h] in scope)
      && (forall f :: f in scope && Index(f) < n ==> Index(f) <= h)
  {
    if n > 0 {
      HighestIsMaximum(scope, n - 1);
      assert forall f :: Index(f) == n - 1 ==> f == SCOPE_FIELDS[n - 1];
    }
  }

  ghost function SelectedBelow(scope: Scope, n: nat): set<Field> {
    set f | f in scope && Index(f) < n
  }

  lemma SelectedStep(scope: Scope, n: nat)
    requires n < |SCOPE_FIELDS|
    ensures SelectedBelow(scope, n + 1) == SelectedBelow(scope, n) + (if SCOPE_FIELDS[n] in scope then {SCOPE_FIELDS[n]} else {})
    ensures SCOPE_FIELDS[n] !in SelectedBelow(scope, n)
  {
    assert forall f :: Index(f) == n ==> f == SCOPE_FIELDS[n];
  }

  /** The loop over all dimensions finds the largest selected place and counts the selected ones. */
  method Precedence(scope: Scope) returns (rank: Rank)
    ensures rank == RankOf(scope)
  {
    var highest, dimensions := -1, 0;
    for index := 0 to |SCOPE_FIELDS|
      invariant highest == HighestBelow(scope, index) < index
      invariant dimensions == |SelectedBelow(scope, index)|
    {
      SelectedStep(scope, index);
      if SCOPE_FIELDS[index] in scope {
        highest := if highest > index then highest else index;
        dimensions := dimensions + 1;
      }
    }
    assert SelectedBelow(scope, |SCOPE_FIELDS|) == scope.Keys;
    rank := Rank(highest, dimensions);
  }

  predicate MatchesContext(scope: Scope, context: Scope) {
    forall f :: f in scope ==> f in context && scope[f] == context[f]
  }

  // ---------------------------------------------------------------- the resolver

  predicate Usable(candidate: Candidate) {
    Trim(candidate.providerId) != "" && Trim(candidate.providerKey) != ""
  }

  predicate Applies(rule: Rule, id: string, version: nat, context: Scope) {
    rule.serviceId == id && rule.version == version && MatchesContext(rule.scope, context)
  }

  /** The rules of a document that apply to an invocation, in document order. */
  function Matching(rules: seq<Rule>, id: string, version: nat, context: Scope): seq<Rule> {
    Filter(rules, (rule: Rule) => Applies(rule, id, version, context))
  }

  predicate NotBefore(a: Rule, b: Rule) {
    !Above(RankOf(b.scope), RankOf(a.scope))
  }

  /** The first candidate with the given key. */
  function Provider(candidates: seq<Candidate>, key: string): (r: Option<Candidate>)
    ensures r.Some? ==> r.value in candidates && r.value.providerKey == key
    ensures r.None? ==> forall c :: c in candidates ==> c.providerKey != key
  {
    if candidates == [] then None
    else if candidates[0].providerKey == key then Some(candidates[0])
    else Provider(candidates[1..], key)
  }

  method Resolve(candidates: seq<Candidate>, context: Value, document: Value, serviceId: Value, version: Value,
                 isTimestamp: string -> bool)
    returns (r: Result<Resolution, string>)
    ensures r.Err? <==>
            || ParseDocument(document, isTimestamp).Err?
            || ParseContext(ContextOrEmpty(context), true).Err?
            || ParseServiceId(serviceId, "serviceId").Err?
            || ParseRevision(version, "version", 1).Err?
    ensures r.Ok? ==>
              && var rules := ParseDocument(document, isTimestamp).value.rules;
              && var scope := ParseContext(ContextOrEmpty(context), true).value;
              && var id, v := ParseServiceId(serviceId, "serviceId").value, ParseRevision(version, "version", 1).value;
              && ValidRules(rules)
              && Specified(Matching(rules, id, v, scope), Filter(candidates, Usable), r.value)
  {
    var parsed := ParseDocument(document, isTimestamp);
    if parsed.Err? { return Err(parsed.error); }
    var scope := ParseContext(ContextOrEmpty(context), true);
    if scope.Err? { return Err(scope.error); }
    var id := ParseServiceId(serviceId, "serviceId");
    if id.Err? { return Err(id.error); }
    var v := ParseRevision(version, "version", 1);
    if v.Err? { return Err(v.error); }
    ParsedDocument(document, isTimestamp);
    var resolution := Walk(Matching(parsed.value.rules, id.value, v.value, scope.value), Filter(candidates, Usable));
    return Ok(resolution);
  }

  function ContextOrEmpty(context: Value): Value {
    if context == Undefined || context == Null then Obj(map[]) else context
  }

  /** A maximal run of equally ranked rules, as far as it extends to the right. */
  ghost predicate IsRun(matching: seq<Rule>, start: nat, end: nat, rank: Rank) {
    && start < end <= |matching|
    && (forall i :: start <= i < end ==> RankOf(matching[i].scope) == rank)
    && (end < |matching| ==> RankOf(matching[end].scope) != rank)
  }

  /** The inner loop: the run of equally ranked rules that starts at `start`. */
  method TakePeers(matching: seq<Rule>, start: nat) returns (rank: Rank, peers: seq<Rule>, index: nat)
    requires start < |matching|
    ensures rank == RankOf(matching[start].scope)
    ensures IsRun(matching, start, index, rank) && peers == matching[start..index]
  {
    index := start;
    rank := Precedence(matching[index].scope);
    peers := [];
    while index < |matching|
      invariant start <= index <= |matching|
      invariant peers == matching[start..index]
      invariant forall i :: start <= i < index ==> RankOf(matching[i].scope) == rank
      decreases |matching| - index
    {
      var current := matching[index];
      var currentRank := Precedence(current.scope);
      if currentRank != rank { break; }
      peers := peers + [current];
      index := index + 1;
    }
  }

  /** Sorting, grouping and walking, given the applicable rules and the usable candidates. */
  method Walk(rules: seq<Rule>, candidates: seq<Candidate>) returns (r: Resolution)
    ensures Specified(rules, candidates, r)
  {
    var matching := StableSort(rules, NotBefore);
    var diagnostics: seq<Diagnostic> := [];
    ghost var passed: seq<Rank> := [];
    var index := 0;
    WalkStarts(rules, candidates);
    while index < |matching|
      invariant Walking(rules, candidates, matching, index, passed)
      invariant diagnostics == Notes(rules, passed)
      decreases |matching| - index
    {
      ghost var start := index;
      var rank, peers, end := TakePeers(matching, index);
      index := end;
      if !Unanimous(peers) {
        StopsOnConflict(rules, candidates, matching, start, end, passed, rank);
        return Resolution(Ambiguous, None, None, None, [ScopeConflict]);
      }
      var rule := peers[0];
      var provider := Provider(candidates, rule.providerKey);
      if provider.Some? {
        StopsOnProvider(rules, candidates, matching, start, end, passed, rank);
        return Resolution(Resolved, Some(provider.value.providerId), Some(provider.value.providerKey), Some(rule), diagnostics);
      }
      if !rule.allowFallback {
        StopsUnavailable(rules, candidates, matching, start, end, passed, rank);
        diagnostics := diagnostics + [SelectedUnavailable(rule.providerKey)];
        return Resolution(Unavailable, None, Some(rule.providerKey), Some(rule), diagnostics);
      }
      PassesOn(rules, candidates, matching, start, end, passed, rank);
      diagnostics := diagnostics + [Fallback(rule.providerKey)];
      passed := passed + [rank];
    }
    WalkEnds(rules, candidates, matching, passed);
    if |candidates| == 1 {
      r := Resolution(Resolved, Some(candidates[0].providerId), Some(candidates[0].providerKey), None, diagnostics);
    } else if |candidates| > 1 {
      r := Resolution(Ambiguous, None, None, None, diagnostics + [AmbiguousProviders]);
    } else {
      r := Resolution(Unavailable, None, None, None, diagnostics + [NoProvider]);
    }
  }

  // ---------------------------------------------------------------- the declarative account

  /** The applicable rules of one rank, in document order. */
  function Class(rules: seq<Rule>, rank: Rank): seq<Rule> {
    Filter(rules, (rule: Rule) => RankOf(rule.scope) == rank)
  }

  ghost function RanksOf(rules: seq<Rule>): set<Rank> {
    set rule | rule in rules :: RankOf(rule.scope)
  }

  predicate Unanimous(peers: seq<Rule>) {
    forall p, q :: p in peers && q in peers ==> p.providerKey == q.providerKey
  }

  /** A class is passed over when it agrees on an absent provider and its first rule allows fallback. */
  ghost predicate PassedOver(rules: seq<Rule>, candidates: seq<Candidate>, rank: Rank) {
    var peers := Class(rules, rank);
    && peers != []
    && Unanimous(peers)
    && Provider(candidates, peers[0].providerKey).None?
    && peers[0].allowFallback
  }

  ghost predicate Descending(ranks: seq<Rank>) {
    forall i, j :: 0 <= i < j < |ranks| ==> Above(ranks[i], ranks[j])
  }

  ghost function Members(ranks: seq<Rank>): set<Rank> {
    set rank | rank in ranks
  }

  ghost function RanksAboveRank(rules: seq<Rule>, rank: Rank): set<Rank> {
    set r | r in RanksOf(rules) && Above(r, rank)
  }

  /** One fallback diagnostic for each class passed over. */
  ghost function Notes(rules: seq<Rule>, passed: seq<Rank>): (r: seq<Diagnostic>)
    requires forall rank :: rank in passed ==> Class(rules, rank) != []
    ensures |r| == |passed|
  {
    seq(|passed|, i requires 0 <= i < |passed| => assert passed[i] in passed; Fallback(Class(rules, passed[i])[0].providerKey))
  }

  /** What the deciding class leads to. */
  ghost function Decision(rules: seq<Rule>, candidates: seq<Candidate>, rank: Rank, passed: seq<Rank>): Resolution
    requires Class(rules, rank) != []
    requires forall p :: p in passed ==> Class(rules, p) != []
  {
    var peers := Class(rules, rank);
    var key := peers[0].providerKey;
    if !Unanimous(peers) then
      Resolution(Ambiguous, None, None, None, [ScopeConflict])
    else match Provider(candidates, key)
      case Some(c) => Resolution(Resolved, Some(c.providerId), Some(key), Some(peers[0]), Notes(rules, passed))
      case None => Resolution(Unavailable, None, Some(key), Some(peers[0]), Notes(rules, passed) + [SelectedUnavailable(key)])
  }

  /** What happens when every class is passed over, or no rule applies. */
  ghost function Undecided(rules: seq<Rule>, candidates: seq<Candidate>, passed: seq<Rank>): Resolution
    requires forall p :: p in passed ==> Class(rules, p) != []
  {
    var notes := Notes(rules, passed);
    if |candidates| == 1 then
      Resolution(Resolved, Some(candidates[0].providerId), Some(candidates[0].providerKey), None, notes)
    else if |candidates| > 1 then
      Resolution(Ambiguous, None, None, None, notes + [AmbiguousProviders])
    else
      Resolution(Unavailable, None, None, None, notes + [NoProvider])
  }

  /** `rank` is the highest class that is not passed over; `passed` lists the classes above it. */
  ghost predicate Decides(rules: seq<Rule>, candidates: seq<Candidate>, passed: seq<Rank>, rank: Rank) {
    && rank in RanksOf(rules)
    && !PassedOver(rules, candidates, rank)
    && Members(passed) == RanksAboveRank(rules, rank)
  }

  ghost predicate DecidedBy(rules: seq<Rule>, candidates: seq<Candidate>, passed: seq<Rank>, r: Resolution) {
    && Descending(passed)
    && (forall p :: p in passed ==> PassedOver(rules, candidates, p))
    && (|| (exists rank :: Class(rules, rank) != [] && Decides(rules, candidates, passed, rank) && r == Decision(rules, candidates, rank, passed))
        || (Members(passed) == RanksOf(rules) && r == Undecided(rules, candidates, passed)))
  }

  ghost predicate Specified(rules: seq<Rule>, candidates: seq<Candidate>, r: Resolution) {
    exists passed :: DecidedBy(rules, candidates, passed, r)
  }

  // ---------------------------------------------------------------- lemmas for the walk

  /** Everything before `index` is strictly more specific than everything from it on. */
  ghost predicate SplitAt(matching: seq<Rule>, index: nat) {
    forall i, j :: 0 <= i < index <= j < |matching| ==> Above(RankOf(matching[i].scope), RankOf(matching[j].scope))
  }

  /** The walk has come to `index`, having passed over exactly the classes in `passed`. */
  ghost predicate Walking(rules: seq<Rule>, candidates: seq<Candidate>, matching: seq<Rule>, index: nat, passed: seq<Rank>) {
    && matching == StableSort(rules, NotBefore) && Sorted(matching, NotBefore)
    && index <= |matching| && SplitAt(matching, index)
    && (forall rank :: rank in passed ==> PassedOver(rules, candidates, rank))
    && Descending(passed) && RanksOf(matching[..index]) == Members(passed)
  }

  lemma WalkStarts(rules: seq<Rule>, candidates: seq<Candidate>)
    ensures Walking(rules, candidates, StableSort(rules, NotBefore), 0, [])
  {
    SortedRules(rules);
  }

  /** A run the walk comes to is a class, and what it has passed over are the classes above. */
  lemma RunIsClass(rules: seq<Rule>, candidates: seq<Candidate>, matching: seq<Rule>, start: nat, end: nat,
                   passed: seq<Rank>, rank: Rank)
    requires Walking(rules, candidates, matching, start, passed) && IsRun(matching, start, end, rank)
    ensures matching[start..end] == Class(rules, rank) && Class(rules, rank) != []
    ensures Members(passed) == RanksAboveRank(rules, rank) && rank in RanksOf(rules)
  {
    GroupIsClass(rules, matching, start, end, rank);
    RanksAbove(rules, matching, start, rank);
  }

  /** A run that is not passed over decides. */
  lemma RunDecides(rules: seq<Rule>, candidates: seq<Candidate>, matching: seq<Rule>, start: nat, end: nat,
                   passed: seq<Rank>, rank: Rank)
    requires Walking(rules, candidates, matching, start, passed) && IsRun(matching, start, end, rank)
    requires !PassedOver(rules, candidates, rank)
    ensures matching[start..end] == Class(rules, rank) && Class(rules, rank) != []
    ensures Specified(rules, candidates, Decision(rules, candidates, rank, passed))
  {
    RunIsClass(rules, candidates, matching, start, end, passed, rank);
    assert Decides(rules, candidates, passed, rank);
    assert DecidedBy(rules, candidates, passed, Decision(rules, candidates, rank, passed));
  }

  lemma StopsOnConflict(rules: seq<Rule>, candidates: seq<Candidate>, matching: seq<Rule>, start: nat, end: nat,
                        passed: seq<Rank>, rank: Rank)
    requires Walking(rules, candidates, matching, start, passed) && IsRun(matching, start, end, rank)
    requires !Unanimous(matching[start..end])
    ensures Specified(rules, candidates, Resolution(Ambiguous, None, None, None, [ScopeConflict]))
  {
    RunIsClass(rules, candidates, matching, start, end, passed, rank);
    RunDecides(rules, candidates, matching, start, end, passed, rank);
  }

  lemma StopsOnProvider(rules: seq<Rule>, candidates: seq<Candidate>, matching: seq<Rule>, start: nat, end: nat,
                        passed: seq<Rank>, rank: Rank)
    requires Walking(rules, candidates, matching, start, passed) && IsRun(matching, start, end, rank)
    requires Unanimous(matching[start..end]) && Provider(candidates, matching[start].providerKey).Some?
    ensures
      var rule, c := matching[start], Provider(candidates, matching[start].providerKey).value;
      Specified(rules, candidates, Resolution(Resolved, Some(c.providerId), Some(c.providerKey), Some(rule), Notes(rules, passed)))
  {
    RunIsClass(rules, candidates, matching, start, end, passed, rank);
    RunDecides(rules, candidates, matching, start, end, passed, rank);
  }

  lemma StopsUnavailable(rules: seq<Rule>, candidates: seq<Candidate>, matching: seq<Rule>, start: nat, end: nat,
                         passed: seq<Rank>, rank: Rank)
    requires Walking(rules, candidates, matching, start, passed) && IsRun(matching, start, end, rank)
    requires Unanimous(matching[start..end]) && Provider(candidates, matching[start].providerKey).None?
    requires !matching[start].allowFallback
    ensures
      var rule := matching[start];
      var notes := Notes(rules, passed) + [SelectedUnavailable(rule.providerKey)];
      Specified(rules, candidates, Resolution(Unavailable, None, Some(rule.providerKey), Some(rule), notes))
  {
    RunIsClass(rules, candidates, matching, start, end, passed, rank);
    RunDecides(rules, candidates, matching, start, end, passed, rank);
  }

  /** A run that allows fallback from an absent provider is passed over, with one more note. */
  lemma PassesOn(rules: seq<Rule>, candidates: seq<Candidate>, matching: seq<Rule>, start: nat, end: nat,
                 passed: seq<Rank>, rank: Rank)
    requires Walking(rules, candidates, matching, start, passed) && IsRun(matching, start, end, rank)
    requires Unanimous(matching[start..end]) && Provider(candidates, matching[start].providerKey).None?
    requires matching[start].allowFallback
    ensures Walking(rules, candidates, matching, end, passed + [rank])
    ensures Notes(rules, passed + [rank]) == Notes(rules, passed) + [Fallback(matching[start].providerKey)]
  {
    RunIsClass(rules, candidates, matching, start, end, passed, rank);
    BelowGroup(matching, start, end, rank);
    NextGroup(rules, matching, start, end, passed, rank);
    assert PassedOver(rules, candidates, rank);
  }

  lemma WalkEnds(rules: seq<Rule>, candidates: seq<Candidate>, matching: seq<Rule>, passed: seq<Rank>)
    requires Walking(rules, candidates, matching, |matching|, passed)
    ensures Specified(rules, candidates, Undecided(rules, candidates, passed))
  {
    assert matching[..|matching|] == matching;
    SameRanks(rules);
    assert DecidedBy(rules, candidates, passed, Undecided(rules, candidates, passed));
  }

  lemma SameRanks(rules: seq<Rule>)
    ensures RanksOf(StableSort(rules, NotBefore)) == RanksOf(rules)
  {
    forall rule ensures rule in StableSort(rules, NotBefore) <==> rule in rules {
      SortMembers(rules, NotBefore, rule);
    }
  }

  lemma SortedRules(rules: seq<Rule>)
    ensures Sorted(StableSort(rules, NotBefore), NotBefore)
  {
    assert TotalPreorder(NotBefore);
    SortSorted(rules, NotBefore);
  }

  lemma ClassIsStable(rules: seq<Rule>, rank: Rank)
    ensures Class(StableSort(rules, NotBefore), rank) == Class(rules, rank)
  {
    SortStable(rules, NotBefore, (rule: Rule) => RankOf(rule.scope) == rank);
  }

  lemma GroupIsClass(rules: seq<Rule>, matching: seq<Rule>, start: nat, end: nat, rank: Rank)
    requires matching == StableSort(rules, NotBefore) && Sorted(matching, NotBefore)
    requires IsRun(matching, start, end, rank) && SplitAt(matching, start)
    ensures matching[start..end] == Class(rules, rank)
  {
    var before, group, after := matching[..start], matching[start..end], matching[end..];
    OutsideRun(matching, start, end, rank);
    MiddleOf(matching, start, end);
    FilterMiddle(before, group, after, (rule: Rule) => RankOf(rule.scope) == rank);
    ClassIsStable(rules, rank);
  }

  lemma MiddleOf<T>(s: seq<T>, start: nat, end: nat)
    requires start <= end <= |s|
    ensures s == s[..start] + s[start..end] + s[end..]
  {}

  /** Before and after a run of a sorted list, no rule has its rank. */
  lemma OutsideRun(matching: seq<Rule>, start: nat, end: nat, rank: Rank)
    requires Sorted(matching, NotBefore) && IsRun(matching, start, end, rank) && SplitAt(matching, start)
    ensures forall rule :: rule in matching[..start] ==> RankOf(rule.scope) != rank
    ensures forall rule :: rule in matching[end..] ==> RankOf(rule.scope) != rank
  {
    BelowGroup(matching, start, end, rank);
    forall rule | rule in matching[..start] ensures RankOf(rule.scope) != rank {
      var i :| 0 <= i < start && matching[i] == rule;
      assert Above(RankOf(matching[i].scope), RankOf(matching[start].scope));
    }
  }

  lemma BelowGroup(matching: seq<Rule>, start: nat, end: nat, rank: Rank)
    requires Sorted(matching, NotBefore) && IsRun(matching, start, end, rank) && SplitAt(matching, start)
    ensures forall j :: end <= j < |matching| ==> Above(rank, RankOf(matching[j].scope))
    ensures SplitAt(matching, end)
  {
    forall j | end <= j < |matching| ensures Above(rank, RankOf(matching[j].scope)) {
      assert NotBefore(matching[start], matching[end]);
      assert j > end ==> NotBefore(matching[end], matching[j]);
    }
  }

  lemma RanksAbove(rules: seq<Rule>, matching: seq<Rule>, start: nat, rank: Rank)
    requires matching == StableSort(rules, NotBefore) && Sorted(matching, NotBefore)
    requires start < |matching| && RankOf(matching[start].scope) == rank
    requires SplitAt(matching, start)
    ensures RanksOf(matching[..start]) == RanksAboveRank(rules, rank)
    ensures rank in RanksOf(rules)
  {
    forall rule ensures rule in matching <==> rule in rules {
      SortMembers(rules, NotBefore, rule);
    }
    assert matching[start] in matching;
    forall r | r in RanksAboveRank(rules, rank) ensures r in RanksOf(matching[..start]) {
      var rule :| rule in rules && RankOf(rule.scope) == r;
      FoundBefore(matching, start, rule);
    }
    forall r | r in RanksOf(matching[..start]) ensures r in RanksAboveRank(rules, rank) {
      var rule :| rule in matching[..start] && RankOf(rule.scope) == r;
      var i :| 0 <= i < start && matching[..start][i] == rule;
      assert matching[i] in matching;
    }
  }

  /** In a sorted list, a rule above the one at `start` stands before it. */
  lemma FoundBefore(matching: seq<Rule>, start: nat, rule: Rule)
    requires Sorted(matching, NotBefore) && start < |matching| && rule in matching
    requires Above(RankOf(rule.scope), RankOf(matching[start].scope))
    ensures rule in matching[..start]
  {
    var i :| 0 <= i < |matching| && matching[i] == rule;
    assert i > start ==> NotBefore(matching[start], matching[i]);
    assert matching[..start][i] == rule;
  }

  lemma NextGroup(rules: seq<Rule>, matching: seq<Rule>, start: nat, end: nat, passed: seq<Rank>, rank: Rank)
    requires IsRun(matching, start, end, rank)
    requires RanksOf(matching[..start]) == Members(passed) && Descending(passed)
    requires SplitAt(matching, start)
    ensures RanksOf(matching[..end]) == Members(passed + [rank])
    ensures Descending(passed + [rank])
  {
    assert matching[..end] == matching[..start] + matching[start..end];
    forall r ensures r in RanksOf(matching[start..end]) <==> r == rank {
      assert matching[start..end][0] in matching[start..end];
    }
    assert RanksOf(matching[..end]) == RanksOf(matching[..start]) + RanksOf(matching[start..end]);
    forall p | p in passed ensures Above(p, rank) {
      assert p in RanksOf(matching[..start]);
      var rule :| rule in matching[..start] && RankOf(rule.scope) == p;
      var i :| 0 <= i < start && matching[..start][i] == rule;
      assert Above(RankOf(matching[i].scope), RankOf(matching[start].scope));
    }
  }

  // ---------------------------------------------------------------- the account determines the result

  /** A strictly descending list is determined by its members. */
  lemma {:induction false} DescendingUnique(a: seq<Rank>, b: seq<Rank>)
    requires Descending(a) && Descending(b) && Members(a) == Members(b)
    ensures a == b
  {
    assert a != [] ==> a[0] in Members(a);
    assert b != [] ==> b[0] in Members(b);
    if a != [] && b != [] {
      assert a[0] in b && b[0] in a;
      assert a[0] == b[0];
      var a', b' := a[1..], b[1..];
      forall x ensures x in Members(a') <==> x in Members(b') {
        assert x in a' <==> x in a && x != a[0];
        assert x in b' <==> x in b && x != b[0];
        assert x in Members(a) <==> x in Members(b);
      }
      DescendingUnique(a', b');
      assert a == [a[0]] + a' && b == [b[0]] + b';
    }
  }

  /** At most one class decides, and if one does, not every class is passed over. */
  lemma DeciderUnique(rules: seq<Rule>, candidates: seq<Candidate>, p: seq<Rank>, q: seq<Rank>, a: Rank, b: Rank)
    requires forall x :: x in p ==> PassedOver(rules, candidates, x)
    requires forall x :: x in q ==> PassedOver(rules, candidates, x)
    requires Decides(rules, candidates, p, a) && Decides(rules, candidates, q, b)
    ensures a == b
  {
    assert Above(a, b) ==> a in Members(q);
    assert Above(b, a) ==> b in Members(p);
  }

  /** The declarative account allows exactly one resolution. */
  lemma SpecifiedUnique(rules: seq<Rule>, candidates: seq<Candidate>, r: Resolution, s: Resolution)
    requires Specified(rules, candidates, r) && Specified(rules, candidates, s)
    ensures r == s
  {
    var p :| DecidedBy(rules, candidates, p, r);
    var q :| DecidedBy(rules, candidates, q, s);
    assert forall x :: x in p <==> x in Members(p);
    assert forall x :: x in q <==> x in Members(q);
    if a :| Class(rules, a) != [] && Decides(rules, candidates, p, a) && r == Decision(rules, candidates, a, p) {
      assert a !in q;
      var b :| Class(rules, b) != [] && Decides(rules, candidates, q, b) && s == Decision(rules, candidates, b, q);
      DeciderUnique(rules, candidates, p, q, a, b);
      DescendingUnique(p, q);
    } else {
      forall b ensures !Decides(rules, candidates, q, b) {
        assert b in RanksOf(rules) ==> b in p;
      }
      DescendingUnique(p, q);
    }
  }

  /** A resolved result carries exactly one diagnostic for each class above the one that decided. */
  lemma ResolvedDiagnostics(rules: seq<Rule>, candidates: seq<Candidate>, r: Resolution)
    requires Specified(rules, candidates, r) && r.status == Resolved
    ensures r.matchedRule.Some? ==> |r.diagnostics| == |RanksAboveRank(rules, RankOf(r.matchedRule.value.scope))|
    ensures r.matchedRule.None? ==> |r.diagnostics| == |RanksOf(rules)|
    ensures forall d :: d in r.diagnostics ==> d.Fallback? && Provider(candidates, d.providerKey).None?
  {
    var p :| DecidedBy(rules, candidates, p, r);
    DescendingCount(p);
    NotesAreFallbacks(rules, candidates, p);
    if a :| Class(rules, a) != [] && Decides(rules, candidates, p, a) && r == Decision(rules, candidates, a, p) {
      DecisionResolved(rules, candidates, a, p);
    }
  }

  lemma DecisionResolved(rules: seq<Rule>, candidates: seq<Candidate>, rank: Rank, passed: seq<Rank>)
    requires Class(rules, rank) != []
    requires forall p :: p in passed ==> Class(rules, p) != []
    requires Decision(rules, candidates, rank, passed).status == Resolved
    ensures
      var r := Decision(rules, candidates, rank, passed);
      r.matchedRule.Some? && RankOf(r.matchedRule.value.scope) == rank && r.diagnostics == Notes(rules, passed)
  {
    assert Class(rules, rank)[0] in Class(rules, rank);
  }

  lemma NotesAreFallbacks(rules: seq<Rule>, candidates: seq<Candidate>, passed: seq<Rank>)
    requires forall x :: x in passed ==> Class(rules, x) != [] && PassedOver(rules, candidates, x)
    ensures forall d :: d in Notes(rules, passed) ==> d.Fallback? && Provider(candidates, d.providerKey).None?
  {
    forall d | d in Notes(rules, passed) ensures d.Fallback? && Provider(candidates, d.providerKey).None? {
      var i :| 0 <= i < |passed| && Notes(rules, passed)[i] == d;
      assert passed[i] in passed;
    }
  }

  lemma {:induction false} DescendingCount(ranks: seq<Rank>)
    requires Descending(ranks)
    ensures |Members(ranks)| == |ranks|
  {
    if ranks != [] {
      var front, last := ranks[..|ranks| - 1], ranks[|ranks| - 1];
      DescendingCount(front);
      assert Members(ranks) == Members(front) + {last};
    } else {
      assert Members(ranks) == {};
    }
  }
}
