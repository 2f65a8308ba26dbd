/** Whole-document consequences: specificity of scopes, and how far the order of the rules matters. */
module RoutingOrder {
  import opened Text
  import opened Sorting
  import opened RoutingKeys
  import opened RoutingDocument
  import opened RoutingResolver

  // ---------------------------------------------------------------- scopes

  lemma ProperSubsetSize<T>(a: set<T>, b: set<T>)
    requires a < b
    ensures |a| < |b|
  {
    assert |b| == |a| + |b - a| by {
      assert b == a + (b - a);
    }
  }

  /** A scope that selects everything another selects, and more, is strictly more specific. */
  lemma ExtensionOutranks(a: Scope, b: Scope)
    requires a.Keys < b.Keys
    ensures Above(RankOf(b), RankOf(a))
  {
    ProperSubsetSize(a.Keys, b.Keys);
    HighestMonotone(a, b, |SCOPE_FIELDS|);
  }

  lemma {:induction false} HighestMonotone(a: Scope, b: Scope, n: nat)
    requires a.Keys <= b.Keys && n <= |SCOPE_FIELDS|
    ensures HighestBelow(a, n) <= HighestBelow(b, n) < n
  {
    if n > 0 {
      HighestMonotone(a, b, n - 1);
    }
  }

  lemma SameDimensionsSameScope(a: Scope, b: Scope, context: Scope)
    requires MatchesContext(a, context) && MatchesContext(b, context) && a.Keys == b.Keys
    ensures a == b
  {
    assert forall f :: f in a ==> a[f] == context[f] == b[f];
  }

  /** In an accepted document, two rules that apply to one invocation select different dimensions. */
  lemma NeverBothMatch(rules: seq<Rule>, i: nat, j: nat, id: string, version: nat, context: Scope)
    requires ValidRules(rules) && i < j < |rules|
    requires Applies(rules[i], id, version, context) && Applies(rules[j], id, version, context)
    ensures rules[i].scope.Keys != rules[j].scope.Keys
  {
    var p, q := rules[i], rules[j];
    assert !SameIdentity(p, q);
    if p.scope.Keys == q.scope.Keys {
      SameDimensionsSameScope(p.scope, q.scope, context);
    }
  }

  lemma Incomparable(a: Scope, b: Scope)
    requires RankOf(a) == RankOf(b) && a.Keys != b.Keys
    ensures !(a.Keys <= b.Keys) && !(b.Keys <= a.Keys)
  {
    if a.Keys < b.Keys { ExtensionOutranks(a, b); }
    if b.Keys < a.Keys { ExtensionOutranks(b, a); }
  }

  lemma DistinctRulesDiffer(rules: seq<Rule>, p: Rule, q: Rule, id: string, version: nat, context: Scope)
    requires ValidRules(rules) && p in rules && q in rules && p != q
    requires Applies(p, id, version, context) && Applies(q, id, version, context)
    ensures p.scope.Keys != q.scope.Keys
  {
    var i :| 0 <= i < |rules| && rules[i] == p;
    var j :| 0 <= j < |rules| && rules[j] == q;
    if i < j {
      NeverBothMatch(rules, i, j, id, version, context);
    } else {
      NeverBothMatch(rules, j, i, id, version, context);
    }
  }

  lemma UndecidedNoConflict(rules: seq<Rule>, candidates: seq<Candidate>, passed: seq<Rank>)
    requires forall p :: p in passed ==> Class(rules, p) != []
    ensures Undecided(rules, candidates, passed).diagnostics != [ScopeConflict]
  {
    assert passed != [] ==> Notes(rules, passed)[0].Fallback?;
    var d := Undecided(rules, candidates, passed).diagnostics;
    assert d != [] ==> d[0] != ScopeConflict;
  }

  lemma DecisionConflict(rules: seq<Rule>, candidates: seq<Candidate>, passed: seq<Rank>)
    requires forall p :: p in passed ==> Class(rules, p) != []
    ensures forall rank | Class(rules, rank) != [] && Decision(rules, candidates, rank, passed).diagnostics == [ScopeConflict] ::
              !Unanimous(Class(rules, rank))
  {
    assert passed != [] ==> Notes(rules, passed)[0].Fallback?;
    forall rank | Class(rules, rank) != [] && Unanimous(Class(rules, rank))
      ensures Decision(rules, candidates, rank, passed).diagnostics != [ScopeConflict]
    {
      var d := Decision(rules, candidates, rank, passed).diagnostics;
      assert d != [] ==> d[0] != ScopeConflict;
    }
  }

  /** Only a class that disagrees on the provider is reported as a conflict. */
  lemma ConflictHasClass(rules: seq<Rule>, candidates: seq<Candidate>, r: Resolution) returns (rank: Rank)
    requires Specified(rules, candidates, r) && r.diagnostics == [ScopeConflict]
    ensures !Unanimous(Class(rules, rank))
  {
    var passed :| DecidedBy(rules, candidates, passed, r);
    UndecidedNoConflict(rules, candidates, passed);
    DecisionConflict(rules, candidates, passed);
    rank :| Class(rules, rank) != [] && Decides(rules, candidates, passed, rank) && r == Decision(rules, candidates, rank, passed);
  }

  /**
   A resolution that reports a scope conflict has two applicable rules of one rank for different
   providers, and neither scope extends the other.
   */
  lemma ConflictNeedsDifferentDimensions(rules: seq<Rule>, id: string, version: nat, context: Scope,
                                         candidates: seq<Candidate>, r: Resolution)
    returns (p: Rule, q: Rule)
    requires ValidRules(rules)
    requires Specified(Matching(rules, id, version, context), candidates, r) && r.diagnostics == [ScopeConflict]
    ensures p in rules && q in rules && p.providerKey != q.providerKey
    ensures Applies(p, id, version, context) && Applies(q, id, version, context)
    ensures RankOf(p.scope) == RankOf(q.scope)
    ensures !(p.scope.Keys <= q.scope.Keys) && !(q.scope.Keys <= p.scope.Keys)
  {
    var rank := ConflictHasClass(Matching(rules, id, version, context), candidates, r);
    var peers := Class(Matching(rules, id, version, context), rank);
    p, q :| p in peers && q in peers && p.providerKey != q.providerKey;
    DistinctRulesDiffer(rules, p, q, id, version, context);
    Incomparable(p.scope, q.scope);
  }

  // ---------------------------------------------------------------- rule order

  /**
   A class that the walk reaches, that agrees on an absent provider, but not on whether its absence
   may be skipped.
   */
  ghost predicate Torn(rules: seq<Rule>, candidates: seq<Candidate>, rank: Rank) {
    var peers := Class(rules, rank);
    && peers != []
    && Unanimous(peers)
    && Provider(candidates, peers[0].providerKey).None?
    && (exists p :: p in peers && p.allowFallback != peers[0].allowFallback)
    && (forall x :: x in RanksAboveRank(rules, rank) ==> PassedOver(rules, candidates, x))
  }

  lemma SameMembers<T>(a: seq<T>, b: seq<T>, x: T)
    requires multiset(a) == multiset(b)
    ensures x in a <==> x in b
  {
    assert x in a <==> x in multiset(a);
    assert x in b <==> x in multiset(b);
  }

  lemma ClassPermuted(a: seq<Rule>, b: seq<Rule>, rank: Rank)
    requires multiset(a) == multiset(b)
    ensures Class(a, rank) == [] <==> Class(b, rank) == []
    ensures forall x :: x in Class(a, rank) <==> x in Class(b, rank)
    ensures Unanimous(Class(a, rank)) <==> Unanimous(Class(b, rank))
  {
    FilterPermuted(a, b, (rule: Rule) => RankOf(rule.scope) == rank);
    var p, q := Class(a, rank), Class(b, rank);
    forall x ensures x in p <==> x in q { SameMembers(p, q, x); }
    assert |p| == |multiset(p)| && |q| == |multiset(q)|;
  }

  /** The first rule of a unanimous class names the same provider in either order, ... */
  lemma FirstPeers(a: seq<Rule>, b: seq<Rule>, rank: Rank)
    requires multiset(a) == multiset(b)
    requires Class(a, rank) != [] && Unanimous(Class(a, rank))
    ensures Class(b, rank) != [] && Class(b, rank)[0] in Class(a, rank)
    ensures Class(a, rank)[0].providerKey == Class(b, rank)[0].providerKey
  {
    ClassPermuted(a, b, rank);
    var p, q := Class(a, rank)[0], Class(b, rank)[0];
    assert p in Class(a, rank) && q in Class(b, rank);
  }

  /** ... so whether a reached class is passed over depends on the order only if the class is torn. */
  lemma PassedOverPermuted(a: seq<Rule>, b: seq<Rule>, candidates: seq<Candidate>, rank: Rank)
    requires multiset(a) == multiset(b) && !Torn(a, candidates, rank)
    requires forall x :: x in RanksAboveRank(a, rank) ==> PassedOver(a, candidates, x)
    ensures PassedOver(a, candidates, rank) <==> PassedOver(b, candidates, rank)
  {
    ClassPermuted(a, b, rank);
    if Class(a, rank) != [] && Unanimous(Class(a, rank)) {
      FirstPeers(a, b, rank);
    }
  }

  lemma RanksPermuted(a: seq<Rule>, b: seq<Rule>)
    requires multiset(a) == multiset(b)
    ensures RanksOf(a) == RanksOf(b)
  {
    forall x ensures x in a <==> x in b { SameMembers(a, b, x); }
  }

  /** Equal but for which of several agreeing rules is named as the matched one. */
  predicate SameReport(r: Resolution, s: Resolution) {
    r.status == s.status && r.providerId == s.providerId && r.providerKey == s.providerKey && r.diagnostics == s.diagnostics
  }

  lemma NotesPermuted(a: seq<Rule>, b: seq<Rule>, passed: seq<Rank>)
    requires multiset(a) == multiset(b)
    requires forall x :: x in passed ==> Class(a, x) != [] && Class(b, x) != [] && Unanimous(Class(a, x))
    ensures Notes(a, passed) == Notes(b, passed)
  {
    forall i | 0 <= i < |passed| ensures Notes(a, passed)[i] == Notes(b, passed)[i] {
      assert passed[i] in passed;
      FirstPeers(a, b, passed[i]);
    }
  }

  lemma DecisionPermuted(a: seq<Rule>, b: seq<Rule>, candidates: seq<Candidate>, rank: Rank, passed: seq<Rank>)
    requires multiset(a) == multiset(b)
    requires Class(a, rank) != [] && Class(b, rank) != []
    requires forall x :: x in passed ==> Class(a, x) != [] && Class(b, x) != [] && Unanimous(Class(a, x))
    ensures SameReport(Decision(a, candidates, rank, passed), Decision(b, candidates, rank, passed))
  {
    ClassPermuted(a, b, rank);
    NotesPermuted(a, b, passed);
    if Unanimous(Class(a, rank)) {
      FirstPeers(a, b, rank);
    }
  }

  /** Every class the walk passes over or stops at has only passed-over classes above it. */
  lemma Reached(rules: seq<Rule>, candidates: seq<Candidate>, passed: seq<Rank>, r: Resolution, x: Rank, y: Rank)
    requires DecidedBy(rules, candidates, passed, r)
    requires x in passed || Decides(rules, candidates, passed, x)
    requires y in RanksAboveRank(rules, x)
    ensures y in passed && PassedOver(rules, candidates, y)
  {
    assert x in passed ==> x in Members(passed);
    assert y in Members(passed);
  }

  /** Whatever decides for one order of the rules decides for the other, to the same report. */
  lemma DecidedByPermuted(a: seq<Rule>, b: seq<Rule>, candidates: seq<Candidate>, passed: seq<Rank>, r: Resolution)
    returns (s: Resolution)
    requires multiset(a) == multiset(b) && forall rank :: !Torn(a, candidates, rank)
    requires DecidedBy(a, candidates, passed, r)
    ensures DecidedBy(b, candidates, passed, s) && SameReport(r, s)
  {
    RanksPermuted(a, b);
    forall x | x in passed ensures Class(b, x) != [] && PassedOver(b, candidates, x) {
      forall y | y in RanksAboveRank(a, x) ensures PassedOver(a, candidates, y) { Reached(a, candidates, passed, r, x, y); }
      PassedOverPermuted(a, b, candidates, x);
    }
    if x :| Class(a, x) != [] && Decides(a, candidates, passed, x) && r == Decision(a, candidates, x, passed) {
      forall y | y in RanksAboveRank(a, x) ensures PassedOver(a, candidates, y) { Reached(a, candidates, passed, r, x, y); }
      ClassPermuted(a, b, x);
      PassedOverPermuted(a, b, candidates, x);
      DecisionPermuted(a, b, candidates, x, passed);
      s := Decision(b, candidates, x, passed);
      assert Decides(b, candidates, passed, x);
    } else {
      NotesPermuted(a, b, passed);
      s := Undecided(b, candidates, passed);
    }
  }

  /** With no torn class, reordering the applicable rules changes nothing but the choice of matched rule. */
  lemma ReportPermuted(a: seq<Rule>, b: seq<Rule>, candidates: seq<Candidate>, r: Resolution, s: Resolution)
    requires multiset(a) == multiset(b) && forall rank :: !Torn(a, candidates, rank)
    requires Specified(a, candidates, r) && Specified(b, candidates, s)
    ensures SameReport(r, s)
  {
    var passed :| DecidedBy(a, candidates, passed, r);
    var t := DecidedByPermuted(a, b, candidates, passed, r);
    SpecifiedUnique(b, candidates, s, t);
  }

  // ---------------------------------------------------------------- a torn class shows

  function MoveFirst<T>(s: seq<T>, i: nat): seq<T>
    requires i < |s|
  {
    [s[i]] + s[..i] + s[i + 1..]
  }

  lemma MoveFirstPieces<T>(s: seq<T>, i: nat)
    requires i < |s|
    ensures s == s[..i] + ([s[i]] + s[i + 1..])
    ensures MoveFirst(s, i) == [s[i]] + (s[..i] + s[i + 1..])
  {
  }

  lemma MovedMultiset<T>(s: seq<T>, i: nat)
    requires i < |s|
    ensures multiset(MoveFirst(s, i)) == multiset(s)
  {
    assert s == s[..i] + [s[i]] + s[i + 1..];
  }

  lemma MovedFilter<T>(s: seq<T>, i: nat, keep: T -> bool)
    requires i < |s|
    ensures keep(s[i]) ==> Filter(MoveFirst(s, i), keep) != [] && Filter(MoveFirst(s, i), keep)[0] == s[i]
    ensures !keep(s[i]) ==> Filter(MoveFirst(s, i), keep) == Filter(s, keep)
  {
    MoveFirstPieces(s, i);
    MovedPieces(s[i], s[..i], s[i + 1..], keep);
  }

  lemma MovedPieces<T>(x: T, before: seq<T>, after: seq<T>, keep: T -> bool)
    ensures
      var moved := Filter([x] + (before + after), keep);
      if keep(x) then moved != [] && moved[0] == x else moved == Filter(before + ([x] + after), keep)
  {
    FilterCons(x, before + after, keep);
    FilterConcat(before, [x] + after, keep);
    FilterCons(x, after, keep);
    FilterConcat(before, after, keep);
  }

  /** Moving one applicable rule to the front of a document brings it to the front of its class, and leaves the others. */
  lemma MovedClass(rules: seq<Rule>, i: nat, id: string, version: nat, context: Scope, x: Rank)
    requires i < |rules| && Applies(rules[i], id, version, context)
    ensures
      var moved := Class(Matching(MoveFirst(rules, i), id, version, context), x);
      if x == RankOf(rules[i].scope) then moved != [] && moved[0] == rules[i]
      else moved == Class(Matching(rules, id, version, context), x)
  {
    var applies := (rule: Rule) => Applies(rule, id, version, context);
    var ranked := (rule: Rule) => RankOf(rule.scope) == x;
    var both := (rule: Rule) => applies(rule) && ranked(rule);
    FilterTwice(rules, applies, ranked, both);
    FilterTwice(MoveFirst(rules, i), applies, ranked, both);
    MovedFilter(rules, i, both);
  }

  /** The account is never empty: some resolution always fits. */
  lemma SpecifiedExists(rules: seq<Rule>, candidates: seq<Candidate>) returns (passed: seq<Rank>, r: Resolution)
    ensures DecidedBy(rules, candidates, passed, r)
  {
    var stops := set x | x in RanksOf(rules) && !PassedOver(rules, candidates, x);
    if stops == {} {
      passed := ListDescending(RanksOf(rules));
      forall x | x in passed ensures PassedOver(rules, candidates, x) { assert x in Members(passed) && x !in stops; }
      r := Undecided(rules, candidates, passed);
    } else {
      var rank := Topmost(stops);
      passed := ListDescending(RanksAboveRank(rules, rank));
      forall x | x in passed ensures PassedOver(rules, candidates, x) { assert x in Members(passed) && x !in stops; }
      var rule :| rule in rules && RankOf(rule.scope) == rank;
      assert rule in Class(rules, rank);
      r := Decision(rules, candidates, rank, passed);
      assert Decides(rules, candidates, passed, rank);
    }
  }

  lemma {:induction false} Topmost(ranks: set<Rank>) returns (top: Rank)
    requires ranks != {}
    ensures top in ranks && forall x :: x in ranks ==> !Above(x, top)
  {
    var x :| x in ranks;
    top := x;
    if ranks - {x} != {} {
      var y := Topmost(ranks - {x});
      top := if Above(x, y) then x else y;
      forall z | z in ranks ensures !Above(z, top) {
        assert z == x || z in ranks - {x};
      }
    } else {
      assert ranks == {x};
    }
  }

  lemma {:induction false} ListDescending(ranks: set<Rank>) returns (list: seq<Rank>)
    ensures Descending(list) && Members(list) == ranks
  {
    list := [];
    if ranks != {} {
      var top := Topmost(ranks);
      var rest := ListDescending(ranks - {top});
      list := [top] + rest;
      forall x | x in rest ensures Above(top, x) {
        assert x in Members(rest);
      }
      assert Members(list) == {top} + Members(rest);
    }
  }

  /** The walk passes over a reached class exactly when it is skipped in its first rule's name, and the diagnostics tell. */
  lemma TornDiagnostic(rules: seq<Rule>, candidates: seq<Candidate>, rank: Rank, r: Resolution)
    requires Class(rules, rank) != [] && Unanimous(Class(rules, rank))
    requires Provider(candidates, Class(rules, rank)[0].providerKey).None?
    requires forall x :: x in RanksAboveRank(rules, rank) ==> PassedOver(rules, candidates, x)
    requires Specified(rules, candidates, r)
    ensures
      var k := |RanksAboveRank(rules, rank)|;
      Class(rules, rank)[0].allowFallback <==>
      (r.diagnostics == [ScopeConflict] || (k < |r.diagnostics| && r.diagnostics[k].Fallback?))
  {
    var passed :| DecidedBy(rules, candidates, passed, r);
    assert Class(rules, rank)[0] in Class(rules, rank);
    assert rank in RanksOf(rules);
    DescendingCount(passed);
    if !Class(rules, rank)[0].allowFallback {
      TornStops(rules, candidates, rank, passed, r);
    } else {
      TornSkipped(rules, candidates, rank, passed, r);
      StartsWithNotes(rules, candidates, passed, r, |RanksAboveRank(rules, rank)|);
    }
  }

  lemma TornStops(rules: seq<Rule>, candidates: seq<Candidate>, rank: Rank, passed: seq<Rank>, r: Resolution)
    requires Class(rules, rank) != [] && Unanimous(Class(rules, rank)) && rank in RanksOf(rules)
    requires Provider(candidates, Class(rules, rank)[0].providerKey).None?
    requires forall x :: x in RanksAboveRank(rules, rank) ==> PassedOver(rules, candidates, x)
    requires DecidedBy(rules, candidates, passed, r) && |Members(passed)| == |passed|
    requires !Class(rules, rank)[0].allowFallback
    ensures
      var k := |RanksAboveRank(rules, rank)|;
      |r.diagnostics| == k + 1 && r.diagnostics[k].SelectedUnavailable?
  {
    assert !PassedOver(rules, candidates, rank) && rank !in passed;
    assert rank !in Members(passed);
    var x :| Class(rules, x) != [] && Decides(rules, candidates, passed, x) && r == Decision(rules, candidates, x, passed);
    assert Above(x, rank) ==> x in RanksAboveRank(rules, rank);
    assert Above(rank, x) ==> rank in RanksAboveRank(rules, x);
    assert x == rank;
  }

  lemma TornSkipped(rules: seq<Rule>, candidates: seq<Candidate>, rank: Rank, passed: seq<Rank>, r: Resolution)
    requires rank in RanksOf(rules) && PassedOver(rules, candidates, rank)
    requires forall x :: x in RanksAboveRank(rules, rank) ==> PassedOver(rules, candidates, x)
    requires DecidedBy(rules, candidates, passed, r) && |Members(passed)| == |passed|
    ensures |RanksAboveRank(rules, rank)| < |passed|
  {
    var higher := RanksAboveRank(rules, rank);
    forall y | y in higher ensures y in Members(passed) {
      SkippedIsPassed(rules, candidates, rank, passed, r, y);
    }
    SkippedIsPassed(rules, candidates, rank, passed, r, rank);
    assert rank !in higher;
    ProperSubsetSize(higher, Members(passed));
  }

  lemma SkippedIsPassed(rules: seq<Rule>, candidates: seq<Candidate>, rank: Rank, passed: seq<Rank>, r: Resolution, y: Rank)
    requires rank in RanksOf(rules) && PassedOver(rules, candidates, rank)
    requires forall x :: x in RanksAboveRank(rules, rank) ==> PassedOver(rules, candidates, x)
    requires DecidedBy(rules, candidates, passed, r)
    requires y in RanksAboveRank(rules, rank) || y == rank
    ensures y in Members(passed)
  {
    if x :| Class(rules, x) != [] && Decides(rules, candidates, passed, x) {
      assert Above(x, rank) ==> x in RanksAboveRank(rules, rank);
      assert y in RanksAboveRank(rules, x);
    }
  }

  /** Short of a conflict, the diagnostics begin with one fallback for each class passed over. */
  lemma StartsWithNotes(rules: seq<Rule>, candidates: seq<Candidate>, passed: seq<Rank>, r: Resolution, k: nat)
    requires DecidedBy(rules, candidates, passed, r) && k < |passed|
    ensures r.diagnostics == [ScopeConflict] || (k < |r.diagnostics| && r.diagnostics[k].Fallback?)
  {
    assert passed[k] in passed;
    assert Notes(rules, passed)[k].Fallback?;
  }

  /** A torn class can be made to decide the other way by moving one rule to the front of the document. */
  lemma TornShows(rules: seq<Rule>, id: string, version: nat, context: Scope, candidates: seq<Candidate>,
                  r: Resolution, rank: Rank)
    returns (b: seq<Rule>, s: Resolution)
    requires Specified(Matching(rules, id, version, context), candidates, r)
    requires Torn(Matching(rules, id, version, context), candidates, rank)
    ensures multiset(b) == multiset(rules) && Specified(Matching(b, id, version, context), candidates, s)
    ensures !SameReport(r, s)
  {
    var a := Matching(rules, id, version, context);
    var q :| q in Class(a, rank) && q.allowFallback != Class(a, rank)[0].allowFallback;
    var i :| 0 <= i < |rules| && rules[i] == q;
    b := MoveFirst(rules, i);
    MovedMultiset(rules, i);
    var m := Matching(b, id, version, context);
    FilterPermuted(rules, b, (rule: Rule) => Applies(rule, id, version, context));
    RanksPermuted(a, m);
    ClassPermuted(a, m, rank);
    FirstPeers(a, m, rank);
    MovedClass(rules, i, id, version, context, rank);
    forall x | x in RanksAboveRank(m, rank) ensures PassedOver(m, candidates, x) {
      MovedClass(rules, i, id, version, context, x);
      assert x in RanksAboveRank(a, rank);
    }
    var passed, t := SpecifiedExists(m, candidates);
    s := t;
    TornDiagnostic(a, candidates, rank, r);
    TornDiagnostic(m, candidates, rank, s);
  }

  /**
   The report of an invocation is the same for every order of the document's rules exactly when no
   class the walk reaches is torn.
   */
  lemma OrderIrrelevantExactly(rules: seq<Rule>, id: string, version: nat, context: Scope,
                               candidates: seq<Candidate>, r: Resolution)
    requires Specified(Matching(rules, id, version, context), candidates, r)
    ensures (forall b, s | multiset(b) == multiset(rules) && Specified(Matching(b, id, version, context), candidates, s) ::
               SameReport(r, s))
            <==> !exists rank :: Torn(Matching(rules, id, version, context), candidates, rank)
  {
    var a := Matching(rules, id, version, context);
    if rank :| Torn(a, candidates, rank) {
      var b, s := TornShows(rules, id, version, context, candidates, r, rank);
    } else {
      forall b, s | multiset(b) == multiset(rules) && Specified(Matching(b, id, version, context), candidates, s)
        ensures SameReport(r, s)
      {
        FilterPermuted(rules, b, (rule: Rule) => Applies(rule, id, version, context));
        ReportPermuted(a, Matching(b, id, version, context), candidates, r, s);
      }
    }
  }

  /** In particular, it is enough that equally ranked applicable rules for one provider agree on fallback. */
  lemma DocumentPermuted(a: seq<Rule>, b: seq<Rule>, id: string, version: nat, context: Scope,
                         candidates: seq<Candidate>, r: Resolution, s: Resolution)
    requires multiset(a) == multiset(b)
    requires forall p, q :: p in Matching(a, id, version, context) && q in Matching(a, id, version, context) &&
                            RankOf(p.scope) == RankOf(q.scope) && p.providerKey == q.providerKey
                            ==> p.allowFallback == q.allowFallback
    requires Specified(Matching(a, id, version, context), candidates, r)
    requires Specified(Matching(b, id, version, context), candidates, s)
    ensures SameReport(r, s)
  {
    var rules := Matching(a, id, version, context);
    forall rank ensures !Torn(rules, candidates, rank) {
      assert Class(rules, rank) != [] ==> Class(rules, rank)[0] in Class(rules, rank);
    }
    FilterPermuted(a, b, (rule: Rule) => Applies(rule, id, version, context));
    ReportPermuted(rules, Matching(b, id, version, context), candidates, r, s);
  }

  // ---------------------------------------------------------------- why the proviso is needed

  const LENIENT: Rule := Rule(true, "gone", map[SessionId := "s", UserId := "u"], "memory", 1)
  const STRICT: Rule := Rule(false, "gone", map[SessionId := "s", WorkspaceId := "w"], "memory", 1)

  lemma SameRank()
    ensures RankOf(LENIENT.scope) == RankOf(STRICT.scope) == Rank(6, 2)
  {
    var l, t := LENIENT.scope, STRICT.scope;
    assert l.Keys == {SessionId, UserId} && t.Keys == {SessionId, WorkspaceId};
    assert HighestBelow(l, 7) == 6 && HighestBelow(t, 7) == 6;
    assert HighestBelow(l, 9) == 6 && HighestBelow(t, 9) == 6;
    assert HighestBelow(l, 11) == 6 && HighestBelow(t, 11) == 6;
  }

  lemma OneClass(a: seq<Rule>)
    requires a == [LENIENT, STRICT] || a == [STRICT, LENIENT]
    ensures Class(a, Rank(6, 2)) == a && RanksOf(a) == {Rank(6, 2)}
  {
    SameRank();
    FilterAll(a, (rule: Rule) => RankOf(rule.scope) == Rank(6, 2));
    assert LENIENT in a && STRICT in a;
  }

  const BOTH_APPLY: Scope := map[SessionId := "s", UserId := "u", WorkspaceId := "w"]

  lemma WitnessNormal(rule: Rule)
    requires rule == LENIENT || rule == STRICT
    ensures NormalRule(rule) && Applies(rule, "memory", 1, BOTH_APPLY)
  {
    assert SessionId in rule.scope;
    WitnessId(rule.serviceId);
    WitnessApplies(rule);
  }

  lemma WitnessId(id: string)
    requires id == "memory"
    ensures IsServiceId(id)
  {
    assert forall i :: 0 <= i < |id| ==> IsIdLetter(id[i]);
  }

  lemma WitnessApplies(rule: Rule)
    requires rule == LENIENT || rule == STRICT
    ensures Applies(rule, "memory", 1, BOTH_APPLY)
  {}

  /** In either order the two rules make a valid document, and both apply in one context. */
  lemma WitnessDocument(a: seq<Rule>)
    requires a == [LENIENT, STRICT] || a == [STRICT, LENIENT]
    ensures ValidRules(a) && Matching(a, "memory", 1, BOTH_APPLY) == a
  {
    WitnessNormal(LENIENT);
    WitnessNormal(STRICT);
    assert UserId in LENIENT.scope && UserId !in STRICT.scope;
    FilterAll(a, (rule: Rule) => Applies(rule, "memory", 1, BOTH_APPLY));
  }

  /** Two equally ranked rules for an absent provider disagree on fallback; with the lenient one first, it is skipped, ... */
  lemma LenientFirst(only: Candidate)
    requires only.providerKey != "gone"
    ensures ValidRules([LENIENT, STRICT])
    ensures Specified(Matching([LENIENT, STRICT], "memory", 1, BOTH_APPLY), [only],
                      Resolution(Resolved, Some(only.providerId), Some(only.providerKey), None, [Fallback("gone")]))
  {
    WitnessDocument([LENIENT, STRICT]);
    LenientOutcome(only);
  }

  lemma LenientOutcome(only: Candidate)
    requires only.providerKey != "gone"
    ensures Specified([LENIENT, STRICT], [only],
                      Resolution(Resolved, Some(only.providerId), Some(only.providerKey), None, [Fallback("gone")]))
  {
    var rank, a := Rank(6, 2), [LENIENT, STRICT];
    OneClass(a);
    assert Provider([only], "gone").None?;
    assert PassedOver(a, [only], rank);
    assert Members([rank]) == RanksOf(a);
    assert DecidedBy(a, [only], [rank], Undecided(a, [only], [rank]));
    assert Notes(a, [rank]) == [Fallback("gone")];
  }

  /** ... and with the strict one first the service is unavailable. */
  lemma StrictFirst(only: Candidate)
    requires only.providerKey != "gone"
    ensures ValidRules([STRICT, LENIENT])
    ensures Specified(Matching([STRICT, LENIENT], "memory", 1, BOTH_APPLY), [only],
                      Resolution(Unavailable, None, Some("gone"), Some(STRICT), [SelectedUnavailable("gone")]))
  {
    WitnessDocument([STRICT, LENIENT]);
    StrictOutcome(only);
  }

  lemma StrictOutcome(only: Candidate)
    requires only.providerKey != "gone"
    ensures Specified([STRICT, LENIENT], [only],
                      Resolution(Unavailable, None, Some("gone"), Some(STRICT), [SelectedUnavailable("gone")]))
  {
    var rank, b := Rank(6, 2), [STRICT, LENIENT];
    OneClass(b);
    assert Provider([only], "gone").None?;
    assert Decides(b, [only], [], rank);
    assert DecidedBy(b, [only], [], Decision(b, [only], rank, []));
    assert Notes(b, []) + [SelectedUnavailable("gone")] == [SelectedUnavailable("gone")];
  }
}
