/**
 What the resolver prefers, in terms of the dimensions the scopes select: the most specific dimension
 decides, then the number of dimensions, and a resolution never overlooks a more specific rule.
 */
module RoutingPrecedence {
  import opened Text
  import opened Sorting
  import opened Json
  import opened RoutingKeys
  import opened RoutingDocument
  import opened RoutingResolver

  /** The dimensions by name, from the least to the most specific. */
  lemma FieldOrder()
    ensures seq(|SCOPE_FIELDS|, i requires 0 <= i < |SCOPE_FIELDS| => Name(SCOPE_FIELDS[i])) ==
            ["distributionId", "profileId", "userId", "workspaceId", "projectId", "runtimeId",
             "sessionId", "agentId", "modelProviderId", "modelId", "invocationId"]
  {}

  /** `b` selects a dimension more specific than all that `a` selects. */
  ghost predicate GoesFurther(b: Scope, a: Scope) {
    exists f :: f in b && Beyond(f, a)
  }

  ghost predicate Beyond(f: Field, a: Scope) {
    forall g :: g in a ==> Index(g) < Index(f)
  }

  /** The most specific dimension decides, whatever the numbers; between equals, the larger scope wins. */
  ghost predicate MoreSpecific(b: Scope, a: Scope) {
    GoesFurther(b, a) || (!GoesFurther(a, b) && |b| > |a|)
  }

  lemma FurtherIsHigher(b: Scope, a: Scope, x: Rank, y: Rank)
    requires x == RankOf(b) && y == RankOf(a)
    ensures GoesFurther(b, a) <==> x.highest > y.highest
  {
    var n := |SCOPE_FIELDS|;
    HighestIsMaximum(a, n);
    HighestIsMaximum(b, n);
    var h, k := HighestBelow(a, n), HighestBelow(b, n);
    if h >= 0 { IndexAt(h); }
    if k >= 0 { IndexAt(k); }
    if k > h {
      assert Beyond(SCOPE_FIELDS[k], a);
    }
    if f :| f in b && Beyond(f, a) {
      assert h >= 0 ==> Index(SCOPE_FIELDS[h]) < Index(f);
    }
  }

  lemma AboveParts(b: Rank, a: Rank, further: bool, back: bool)
    requires (further <==> b.highest > a.highest) && (back <==> a.highest > b.highest)
    ensures Above(b, a) <==> further || (!back && b.dimensions > a.dimensions)
  {}

  /** The order of ranks is that order of scopes. */
  lemma AboveExactly(b: Scope, a: Scope, x: Rank, y: Rank)
    requires x == RankOf(b) && y == RankOf(a)
    ensures Above(x, y) <==> MoreSpecific(b, a)
  {
    FurtherIsHigher(b, a, x, y);
    FurtherIsHigher(a, b, y, x);
    AboveParts(x, y, GoesFurther(b, a), GoesFurther(a, b));
  }

  /** A scope matches a context exactly when all it says, the context says too. */
  lemma MatchesExactly(scope: Scope, context: Scope)
    ensures MatchesContext(scope, context) <==> scope.Items <= context.Items
  {
    if scope.Items <= context.Items {
      forall f | f in scope ensures f in context && scope[f] == context[f] {
        assert (f, scope[f]) in scope.Items;
      }
    }
  }

  /** An invocation without a context is one with an empty context, which only rules without dimensions would match. */
  lemma AbsentContext(scope: Scope)
    ensures ParseContext(ContextOrEmpty(Undefined), true) == ParseContext(ContextOrEmpty(Null), true) == Ok(map[])
    ensures MatchesContext(scope, map[]) <==> scope == map[]
  {
    ContextParses(Obj(map[]), true, map[]);
    var empty: Scope := map[];
    if scope != empty {
      var f :| f in scope;
      assert f !in empty;
    }
  }

  function KeyOf(candidate: Candidate): string {
    candidate.providerKey
  }

  /** The provider of a key is the first candidate that has it. */
  lemma {:induction false} ProviderIsFirst(candidates: seq<Candidate>, c: Candidate)
    ensures Provider(candidates, c.providerKey) == Some(c) <==> IsFirst(candidates, KeyOf, c)
  {
    if candidates != [] {
      ProviderIsFirst(candidates[1..], c);
      IsFirstStep(candidates, KeyOf, c);
    }
  }

  /** Candidates with a blank id or key are never considered, and all others are, in order. */
  lemma UsableExactly(candidate: Candidate)
    ensures Usable(candidate) <==> !Blank(candidate.providerId) && !Blank(candidate.providerKey)
  {
    TrimBlank(candidate.providerId);
    TrimBlank(candidate.providerKey);
  }

  /**
   A result that names a matched rule names one of the applicable rules; every equally specific one
   selects the same provider, and every more specific one a provider that is absent. Resolved, it gives the
   first candidate with the rule's key; unavailable, there is none and the rule forbids fallback.
   */
  lemma MatchedRule(rules: seq<Rule>, candidates: seq<Candidate>, r: Resolution, m: Rule)
    requires Specified(rules, candidates, r) && r.matchedRule == Some(m)
    ensures m in rules && r.providerKey == Some(m.providerKey)
    ensures forall q :: q in rules && MoreSpecific(q.scope, m.scope) ==> forall c :: c in candidates ==> c.providerKey != q.providerKey
    ensures forall q :: q in rules && !MoreSpecific(q.scope, m.scope) && !MoreSpecific(m.scope, q.scope) ==> q.providerKey == m.providerKey
    ensures r.status == Resolved ==> exists c :: IsFirst(candidates, KeyOf, c) && c.providerKey == m.providerKey && r.providerId == Some(c.providerId)
    ensures r.status != Resolved ==> r.status == Unavailable && !m.allowFallback && forall c :: c in candidates ==> c.providerKey != m.providerKey
  {
    var passed :| DecidedBy(rules, candidates, passed, r);
    var rank :| Class(rules, rank) != [] && Decides(rules, candidates, passed, rank) && r == Decision(rules, candidates, rank, passed);
    DecisionOutcome(rules, candidates, rank, passed, m);
    MatchedOrder(rules, candidates, rank, passed, m);
  }

  lemma DecisionOutcome(rules: seq<Rule>, candidates: seq<Candidate>, rank: Rank, passed: seq<Rank>, m: Rule)
    requires Class(rules, rank) != [] && (forall x :: x in passed ==> Class(rules, x) != [])
    requires !PassedOver(rules, candidates, rank) && Decision(rules, candidates, rank, passed).matchedRule == Some(m)
    ensures m in Class(rules, rank) && Unanimous(Class(rules, rank))
    ensures
      var r := Decision(rules, candidates, rank, passed);
      && r.providerKey == Some(m.providerKey)
      && (r.status == Resolved ==> exists c :: IsFirst(candidates, KeyOf, c) && c.providerKey == m.providerKey && r.providerId == Some(c.providerId))
      && (r.status != Resolved ==> r.status == Unavailable && !m.allowFallback && forall c :: c in candidates ==> c.providerKey != m.providerKey)
  {
    if Provider(candidates, m.providerKey).Some? {
      ProviderIsFirst(candidates, Provider(candidates, m.providerKey).value);
    }
  }

  lemma MatchedOrder(rules: seq<Rule>, candidates: seq<Candidate>, rank: Rank, passed: seq<Rank>, m: Rule)
    requires Decides(rules, candidates, passed, rank) && (forall x :: x in passed ==> PassedOver(rules, candidates, x))
    requires m in Class(rules, rank) && Unanimous(Class(rules, rank))
    ensures forall q :: q in rules && MoreSpecific(q.scope, m.scope) ==> forall c :: c in candidates ==> c.providerKey != q.providerKey
    ensures forall q :: q in rules && !MoreSpecific(q.scope, m.scope) && !MoreSpecific(m.scope, q.scope) ==> q.providerKey == m.providerKey
  {
    forall q | q in rules && MoreSpecific(q.scope, m.scope) ensures forall c :: c in candidates ==> c.providerKey != q.providerKey {
      HigherPassedOver(rules, candidates, passed, rank, m, q);
    }
    forall q | q in rules && !MoreSpecific(q.scope, m.scope) && !MoreSpecific(m.scope, q.scope) ensures q.providerKey == m.providerKey {
      EqualInClass(rules, rank, m, q);
    }
  }

  /** A result that names no rule and no conflict: every applicable rule selects an absent provider, and the candidates decide. */
  lemma NoMatchedRule(rules: seq<Rule>, candidates: seq<Candidate>, r: Resolution)
    requires Specified(rules, candidates, r) && r.matchedRule.None? && r.diagnostics != [ScopeConflict]
    ensures forall q :: q in rules ==> forall c :: c in candidates ==> c.providerKey != q.providerKey
    ensures r.status == (if |candidates| == 0 then Unavailable else if |candidates| == 1 then Resolved else Ambiguous)
    ensures |candidates| == 1 ==> r.providerId == Some(candidates[0].providerId) && r.providerKey == Some(candidates[0].providerKey)
    ensures |candidates| != 1 ==> r.providerId == None && r.providerKey == None
  {
    var passed :| DecidedBy(rules, candidates, passed, r);
    forall q | q in rules ensures forall c :: c in candidates ==> c.providerKey != q.providerKey {
      assert RankOf(q.scope) in RanksOf(rules);
      assert RankOf(q.scope) in Members(passed);
      PassedOverAbsent(rules, candidates, q);
    }
  }

  lemma HigherPassedOver(rules: seq<Rule>, candidates: seq<Candidate>, passed: seq<Rank>, rank: Rank, m: Rule, q: Rule)
    requires Decides(rules, candidates, passed, rank) && (forall x :: x in passed ==> PassedOver(rules, candidates, x))
    requires m in Class(rules, rank) && q in rules && MoreSpecific(q.scope, m.scope)
    ensures forall c :: c in candidates ==> c.providerKey != q.providerKey
  {
    var x := RankOf(q.scope);
    AboveExactly(q.scope, m.scope, x, rank);
    assert x in RanksAboveRank(rules, rank);
    assert x in Members(passed);
    PassedOverAbsent(rules, candidates, q);
  }

  lemma EqualInClass(rules: seq<Rule>, rank: Rank, m: Rule, q: Rule)
    requires m in Class(rules, rank) && q in rules
    requires !MoreSpecific(q.scope, m.scope) && !MoreSpecific(m.scope, q.scope)
    ensures q in Class(rules, rank)
  {
    var x := RankOf(q.scope);
    AboveExactly(q.scope, m.scope, x, rank);
    AboveExactly(m.scope, q.scope, rank, x);
  }

  lemma PassedOverAbsent(rules: seq<Rule>, candidates: seq<Candidate>, q: Rule)
    requires q in rules && PassedOver(rules, candidates, RankOf(q.scope))
    ensures forall c :: c in candidates ==> c.providerKey != q.providerKey
  {
    var peers := Class(rules, RankOf(q.scope));
    assert q in peers && peers[0] in peers;
  }
}
