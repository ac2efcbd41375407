/**
 * The iteration of follow.cpp:39-142 as maps computed from the map before:
 * one alternative (Rule 1, then Rule 2), one rule (its alternatives in
 * order), one pass (the rules in order). For each level: the pass only adds,
 * it adds nothing exactly when the map is already closed, it never goes past
 * a closed map above it, and it stays inside a finite universe.
 */
module FollowPass {
  import opened Wrappers
  import opened Rules
  import opened FollowRules

  // ---------------------------------------------------------------------
  // Growth of FOLLOW maps
  // ---------------------------------------------------------------------

  /**
   * Growth over a prefix and one more step: q adds nothing to m exactly when
   * the prefix added nothing and the last step, taken at m, adds nothing.
   */
  lemma ChainGrowth(m: FollowMap, p: FollowMap, q: FollowMap, prefixClosed: bool, lastClosedAtP: bool, lastClosedAtM: bool)
    requires Below(m, p) && Below(p, q)
    requires Below(p, m) <==> prefixClosed
    requires Below(q, p) <==> lastClosedAtP
    requires SameSets(p, m) ==> (lastClosedAtP <==> lastClosedAtM)
    ensures Below(m, q)
    ensures Below(q, m) <==> prefixClosed && lastClosedAtM
  {
    BelowTransitive(m, p, q);
    if Below(q, m) {
      BelowTransitive(p, q, m);
      MutualBelow(p, m);
      BelowTransitive(q, m, p);
    }
    if prefixClosed && lastClosedAtM {
      MutualBelow(p, m);
      BelowTransitive(q, p, m);
    }
  }

  /** Two maps below each other hold the same sets. */
  lemma MutualBelow(m: FollowMap, n: FollowMap)
    requires Below(m, n) && Below(n, m)
    ensures SameSets(m, n)
  {
    forall k ensures Get(m, k) == Get(n, k) {
      assert Get(m, k) <= Get(n, k) && Get(n, k) <= Get(m, k);
    }
  }

  // ---------------------------------------------------------------------
  // One alternative (follow.cpp:57-139)
  // ---------------------------------------------------------------------

  /** The map after Rule 1 and then Rule 2 over one normalised alternative of `left`. */
  function AltApplied(g: Grammar, first: FirstMap, m: FollowMap, left: string, syms: seq<string>): FollowMap
    requires LookupsDefined(g, first, syms)
  {
    var a := AdjacencyApplied(g, first, syms, |syms|, m);
    TrailerApplied(g, first, Get(a, left), syms, 0, Touch(a, left))
  }

  /**
   * What one alternative does: the entries of the nonterminals it mentions
   * and of `left` exist afterwards; every set gains its Rule-1 share and its
   * Rule-2 share, where the trailer starts from FOLLOW(left) as Rule 1 left it.
   */
  lemma AltAppliedMeaning(g: Grammar, first: FirstMap, m: FollowMap, left: string, syms: seq<string>)
    requires LookupsDefined(g, first, syms)
    ensures AltApplied(g, first, m, left, syms).Keys
         == m.Keys + AdjacencyKeys(g, syms, |syms|) + {left} + NonTerminalsFrom(g, syms, 0)
    ensures forall k :: (Get(AltApplied(g, first, m, left, syms), k)
         == Get(m, k) + AdjacencyAdds(g, first, syms, |syms|, k)
            + TrailerAdds(g, first, Get(m, left) + AdjacencyAdds(g, first, syms, |syms|, left), syms, 0, k))
  {
    var a := AdjacencyApplied(g, first, syms, |syms|, m);
    AdjacencyAppliedMeaning(g, first, syms, |syms|, m);
    TrailerAppliedMeaning(g, first, Get(a, left), syms, 0, Touch(a, left));
  }

  /** One alternative only adds, and it adds nothing exactly when both rules already hold. */
  lemma AltGrowth(g: Grammar, first: FirstMap, m: FollowMap, left: string, syms: seq<string>)
    requires LookupsDefined(g, first, syms)
    ensures m.Keys <= AltApplied(g, first, m, left, syms).Keys
    ensures Below(m, AltApplied(g, first, m, left, syms))
    ensures Below(AltApplied(g, first, m, left, syms), m) <==> AltClosed(g, first, m, left, syms)
  {
    var r := AltApplied(g, first, m, left, syms);
    AltAppliedMeaning(g, first, m, left, syms);
    AdjacencyClosedIffNothingToAdd(g, first, m, syms, |syms|);
    TrailerClosedIffNothingToAdd(g, first, m, Get(m, left), syms, 0);
    var t := Get(m, left) + AdjacencyAdds(g, first, syms, |syms|, left);
    if AltClosed(g, first, m, left, syms) {
      assert t == Get(m, left);
      forall k ensures Get(r, k) <= Get(m, k) {
        assert TrailerAdds(g, first, t, syms, 0, k) <= Get(m, k);
      }
    }
    if Below(r, m) {
      forall k ensures AdjacencyAdds(g, first, syms, |syms|, k) <= Get(m, k) {
        assert Get(r, k) <= Get(m, k);
      }
      assert t == Get(m, left);
      forall k ensures TrailerAdds(g, first, Get(m, left), syms, 0, k) <= Get(m, k) {
        assert Get(r, k) <= Get(m, k);
      }
    }
  }

  /** One alternative never goes past a map above m where both rules hold. */
  lemma AltLeast(g: Grammar, first: FirstMap, m: FollowMap, left: string, syms: seq<string>, t: FollowMap)
    requires LookupsDefined(g, first, syms)
    requires Below(m, t) && AltClosed(g, first, t, left, syms)
    ensures Below(AltApplied(g, first, m, left, syms), t)
  {
    AltAppliedMeaning(g, first, m, left, syms);
    AdjacencyClosedIffNothingToAdd(g, first, t, syms, |syms|);
    TrailerClosedIffNothingToAdd(g, first, t, Get(t, left), syms, 0);
    var start := Get(m, left) + AdjacencyAdds(g, first, syms, |syms|, left);
    assert start <= Get(t, left);
    forall k ensures Get(AltApplied(g, first, m, left, syms), k) <= Get(t, k) {
      TrailerAddsMonotone(g, first, start, Get(t, left), syms, 0, k);
    }
  }

  /** One alternative keeps the map inside the keys and members that bound it. */
  lemma AltBounded(g: Grammar, first: FirstMap, m: FollowMap, left: string, syms: seq<string>,
                   keys: set<string>, universe: set<string>)
    requires LookupsDefined(g, first, syms)
    requires Bounded(m, keys, universe) && left in keys && g.nonTerminals <= keys
    requires Forms(syms) + FirstValues(first) <= universe
    ensures Bounded(AltApplied(g, first, m, left, syms), keys, universe)
  {
    var r := AltApplied(g, first, m, left, syms);
    AltAppliedMeaning(g, first, m, left, syms);
    AdjacencyAddsBounded(g, first, syms, |syms|, left);
    var start := Get(m, left) + AdjacencyAdds(g, first, syms, |syms|, left);
    assert start <= universe;
    forall k | k in r ensures r[k] <= universe {
      AdjacencyAddsBounded(g, first, syms, |syms|, k);
      TrailerAddsBounded(g, first, start, syms, 0, k);
      assert Get(r, k) == r[k];
    }
  }

  /** Whether both rules hold depends only on the sets, not on which entries exist. */
  lemma AltClosedSameSets(g: Grammar, first: FirstMap, s: FollowMap, s': FollowMap, left: string, syms: seq<string>)
    requires LookupsDefined(g, first, syms) && SameSets(s, s')
    ensures AltClosed(g, first, s, left, syms) <==> AltClosed(g, first, s', left, syms)
  {
    AdjacencyClosedIffNothingToAdd(g, first, s, syms, |syms|);
    AdjacencyClosedIffNothingToAdd(g, first, s', syms, |syms|);
    assert Get(s, left) == Get(s', left);
    TrailerClosedIffNothingToAdd(g, first, s, Get(s, left), syms, 0);
    TrailerClosedIffNothingToAdd(g, first, s', Get(s', left), syms, 0);
  }

  // ---------------------------------------------------------------------
  // One rule: its alternatives in order (follow.cpp:45-56)
  // ---------------------------------------------------------------------

  predicate AltsLookupsDefined(g: Grammar, first: FirstMap, alts: seq<seq<string>>) {
    forall j :: 0 <= j < |alts| ==> LookupsDefined(g, first, alts[j])
  }

  /** The map after the alternatives alts[..n] of `left`, in order. */
  function AltsApplied(g: Grammar, first: FirstMap, m: FollowMap, left: string, alts: seq<seq<string>>, n: nat): FollowMap
    requires n <= |alts| && AltsLookupsDefined(g, first, alts)
  {
    if n == 0 then m
    else AltApplied(g, first, AltsApplied(g, first, m, left, alts, n - 1), left, alts[n - 1])
  }

  /** Both rules hold at S for the alternatives alts[..n] of `left`. */
  predicate AltsClosed(g: Grammar, first: FirstMap, s: FollowMap, left: string, alts: seq<seq<string>>, n: nat)
    requires n <= |alts| && AltsLookupsDefined(g, first, alts)
  {
    n == 0 || (AltsClosed(g, first, s, left, alts, n - 1) && AltClosed(g, first, s, left, alts[n - 1]))
  }

  lemma {:induction false} AltsGrowth(g: Grammar, first: FirstMap, m: FollowMap, left: string, alts: seq<seq<string>>, n: nat)
    requires n <= |alts| && AltsLookupsDefined(g, first, alts)
    ensures m.Keys <= AltsApplied(g, first, m, left, alts, n).Keys
    ensures Below(m, AltsApplied(g, first, m, left, alts, n))
    ensures Below(AltsApplied(g, first, m, left, alts, n), m) <==> AltsClosed(g, first, m, left, alts, n)
  {
    if n > 0 {
      var p := AltsApplied(g, first, m, left, alts, n - 1);
      var syms := alts[n - 1];
      assert LookupsDefined(g, first, syms);
      var q := AltApplied(g, first, p, left, syms);
      assert q == AltsApplied(g, first, m, left, alts, n);
      var closedAtP, closedAtM := AltClosed(g, first, p, left, syms), AltClosed(g, first, m, left, syms);
      var prefixClosed := AltsClosed(g, first, m, left, alts, n - 1);
      assert m.Keys <= p.Keys && Below(m, p) && (Below(p, m) <==> prefixClosed) by {
        AltsGrowth(g, first, m, left, alts, n - 1);
      }
      assert p.Keys <= q.Keys && Below(p, q) && (Below(q, p) <==> closedAtP) by {
        AltGrowth(g, first, p, left, syms);
      }
      assert SameSets(p, m) ==> (closedAtP <==> closedAtM) by {
        if SameSets(p, m) {
          AltClosedSameSets(g, first, p, m, left, syms);
        }
      }
      ChainGrowth(m, p, q, prefixClosed, closedAtP, closedAtM);
    }
  }

  lemma {:induction false} AltsLeast(g: Grammar, first: FirstMap, m: FollowMap, left: string, alts: seq<seq<string>>, n: nat, t: FollowMap)
    requires n <= |alts| && AltsLookupsDefined(g, first, alts)
    requires Below(m, t) && AltsClosed(g, first, t, left, alts, n)
    ensures Below(AltsApplied(g, first, m, left, alts, n), t)
  {
    if n > 0 {
      AltsLeast(g, first, m, left, alts, n - 1, t);
      AltLeast(g, first, AltsApplied(g, first, m, left, alts, n - 1), left, alts[n - 1], t);
    }
  }

  /** The texts of one alternative are among those of its rule. */
  lemma {:induction false} AlternativeFormsWithin(alts: seq<seq<string>>, j: nat)
    requires j < |alts|
    ensures Forms(alts[j]) <= AlternativesForms(alts)
    decreases |alts|
  {
    if j > 0 {
      AlternativeFormsWithin(alts[1..], j - 1);
    }
  }

  lemma {:induction false} AltsBounded(g: Grammar, first: FirstMap, m: FollowMap, left: string, alts: seq<seq<string>>, n: nat,
                                       keys: set<string>, universe: set<string>)
    requires n <= |alts| && AltsLookupsDefined(g, first, alts)
    requires Bounded(m, keys, universe) && left in keys && g.nonTerminals <= keys
    requires AlternativesForms(alts) + FirstValues(first) <= universe
    ensures Bounded(AltsApplied(g, first, m, left, alts, n), keys, universe)
  {
    if n > 0 {
      AltsBounded(g, first, m, left, alts, n - 1, keys, universe);
      AlternativeFormsWithin(alts, n - 1);
      AltBounded(g, first, AltsApplied(g, first, m, left, alts, n - 1), left, alts[n - 1], keys, universe);
    }
  }

  // ---------------------------------------------------------------------
  // One rule (follow.cpp:45-56): a blank or arrow-less rule text is skipped
  // ---------------------------------------------------------------------

  /** A rule as one pass consumes it: its left name and its normalised alternatives. */
  datatype NormalRule = NormalRule(left: string, alternatives: seq<seq<string>>)

  /** follow.cpp:46-64 for one rule text: None when the text is skipped. */
  function NormalizeRule(r: string): Option<NormalRule> {
    match Decompose(r)
    case None => None
    case Some(p) => Some(NormalRule(p.left, AllAlternativeSymbols(p.alternatives)))
  }

  /** Every rule text of the grammar, normalised, in order. */
  function NormalRules(rules: seq<string>): (r: seq<Option<NormalRule>>)
    ensures |r| == |rules|
  {
    if rules == [] then [] else [NormalizeRule(rules[0])] + NormalRules(rules[1..])
  }

  lemma {:induction false} NormalRulesAt(rules: seq<string>, i: nat)
    requires i < |rules|
    ensures NormalRules(rules)[i] == NormalizeRule(rules[i])
  {
    if i > 0 {
      NormalRulesAt(rules[1..], i - 1);
    }
  }

  /** Every Rule-1 lookup of one rule finds its FIRST entry. */
  predicate RuleLookupsDefined(g: Grammar, first: FirstMap, rule: Option<NormalRule>) {
    match rule
    case None => true
    case Some(p) => AltsLookupsDefined(g, first, p.alternatives)
  }

  /** The map after all alternatives of one rule; a skipped rule changes nothing. */
  function RuleApplied(g: Grammar, first: FirstMap, m: FollowMap, rule: Option<NormalRule>): FollowMap
    requires RuleLookupsDefined(g, first, rule)
  {
    match rule
    case None => m
    case Some(p) => AltsApplied(g, first, m, p.left, p.alternatives, |p.alternatives|)
  }

  /** Both rules hold at S for every alternative of one rule. */
  predicate RuleClosed(g: Grammar, first: FirstMap, s: FollowMap, rule: Option<NormalRule>)
    requires RuleLookupsDefined(g, first, rule)
  {
    match rule
    case None => true
    case Some(p) => AltsClosed(g, first, s, p.left, p.alternatives, |p.alternatives|)
  }

  /** The texts one rule can contribute. */
  function RuleForms(rule: Option<NormalRule>): set<string> {
    match rule
    case None => {}
    case Some(p) => AlternativesForms(p.alternatives)
  }

  lemma RuleGrowth(g: Grammar, first: FirstMap, m: FollowMap, rule: Option<NormalRule>)
    requires RuleLookupsDefined(g, first, rule)
    ensures m.Keys <= RuleApplied(g, first, m, rule).Keys
    ensures Below(m, RuleApplied(g, first, m, rule))
    ensures Below(RuleApplied(g, first, m, rule), m) <==> RuleClosed(g, first, m, rule)
  {
    match rule
    case None =>
    case Some(p) => AltsGrowth(g, first, m, p.left, p.alternatives, |p.alternatives|);
  }

  lemma RuleLeast(g: Grammar, first: FirstMap, m: FollowMap, rule: Option<NormalRule>, t: FollowMap)
    requires RuleLookupsDefined(g, first, rule)
    requires Below(m, t) && RuleClosed(g, first, t, rule)
    ensures Below(RuleApplied(g, first, m, rule), t)
  {
    match rule
    case None =>
    case Some(p) => AltsLeast(g, first, m, p.left, p.alternatives, |p.alternatives|, t);
  }

  lemma RuleBounded(g: Grammar, first: FirstMap, m: FollowMap, rule: Option<NormalRule>, keys: set<string>, universe: set<string>)
    requires RuleLookupsDefined(g, first, rule)
    requires Bounded(m, keys, universe) && g.nonTerminals <= keys
    requires rule.Some? ==> rule.value.left in keys
    requires RuleForms(rule) + FirstValues(first) <= universe
    ensures Bounded(RuleApplied(g, first, m, rule), keys, universe)
  {
    match rule
    case None =>
    case Some(p) => AltsBounded(g, first, m, p.left, p.alternatives, |p.alternatives|, keys, universe);
  }

  lemma {:induction false} AltsClosedSameSets(g: Grammar, first: FirstMap, s: FollowMap, s': FollowMap, left: string, alts: seq<seq<string>>, n: nat)
    requires n <= |alts| && AltsLookupsDefined(g, first, alts) && SameSets(s, s')
    ensures AltsClosed(g, first, s, left, alts, n) <==> AltsClosed(g, first, s', left, alts, n)
  {
    if n > 0 {
      AltsClosedSameSets(g, first, s, s', left, alts, n - 1);
      AltClosedSameSets(g, first, s, s', left, alts[n - 1]);
    }
  }

  lemma RuleClosedSameSets(g: Grammar, first: FirstMap, s: FollowMap, s': FollowMap, rule: Option<NormalRule>)
    requires RuleLookupsDefined(g, first, rule) && SameSets(s, s')
    ensures RuleClosed(g, first, s, rule) <==> RuleClosed(g, first, s', rule)
  {
    match rule
    case None =>
    case Some(p) => AltsClosedSameSets(g, first, s, s', p.left, p.alternatives, |p.alternatives|);
  }

  // ---------------------------------------------------------------------
  // One pass over the rules (follow.cpp:42-141)
  // ---------------------------------------------------------------------

  predicate RulesLookupsDefined(g: Grammar, first: FirstMap, rules: seq<Option<NormalRule>>) {
    forall i :: 0 <= i < |rules| ==> RuleLookupsDefined(g, first, rules[i])
  }

  /** Every Rule-1 lookup of the grammar finds its FIRST entry: `at()` never throws. */
  predicate GrammarLookupsDefined(g: Grammar, first: FirstMap) {
    RulesLookupsDefined(g, first, NormalRules(g.rules))
  }

  /** The map after the rules rules[..n], in order. */
  function PassApplied(g: Grammar, first: FirstMap, m: FollowMap, rules: seq<Option<NormalRule>>, n: nat): FollowMap
    requires n <= |rules| && RulesLookupsDefined(g, first, rules)
  {
    if n == 0 then m else RuleApplied(g, first, PassApplied(g, first, m, rules, n - 1), rules[n - 1])
  }

  /** Both rules hold at S for every alternative of rules[..n]. */
  predicate ClosedUpTo(g: Grammar, first: FirstMap, s: FollowMap, rules: seq<Option<NormalRule>>, n: nat)
    requires n <= |rules| && RulesLookupsDefined(g, first, rules)
  {
    n == 0 || (ClosedUpTo(g, first, s, rules, n - 1) && RuleClosed(g, first, s, rules[n - 1]))
  }

  /** S is a fixed point: a pass over the grammar would add nothing. */
  predicate Closed(g: Grammar, first: FirstMap, s: FollowMap)
    requires GrammarLookupsDefined(g, first)
  {
    ClosedUpTo(g, first, s, NormalRules(g.rules), |g.rules|)
  }

  lemma {:induction false} PassGrowth(g: Grammar, first: FirstMap, m: FollowMap, rules: seq<Option<NormalRule>>, n: nat)
    requires n <= |rules| && RulesLookupsDefined(g, first, rules)
    ensures m.Keys <= PassApplied(g, first, m, rules, n).Keys
    ensures Below(m, PassApplied(g, first, m, rules, n))
    ensures Below(PassApplied(g, first, m, rules, n), m) <==> ClosedUpTo(g, first, m, rules, n)
  {
    if n > 0 {
      var p := PassApplied(g, first, m, rules, n - 1);
      var r := rules[n - 1];
      assert RuleLookupsDefined(g, first, r);
      var q := RuleApplied(g, first, p, r);
      assert q == PassApplied(g, first, m, rules, n);
      var closedAtP, closedAtM := RuleClosed(g, first, p, r), RuleClosed(g, first, m, r);
      var prefixClosed := ClosedUpTo(g, first, m, rules, n - 1);
      assert m.Keys <= p.Keys && Below(m, p) && (Below(p, m) <==> prefixClosed) by {
        PassGrowth(g, first, m, rules, n - 1);
      }
      assert p.Keys <= q.Keys && Below(p, q) && (Below(q, p) <==> closedAtP) by {
        RuleGrowth(g, first, p, r);
      }
      assert SameSets(p, m) ==> (closedAtP <==> closedAtM) by {
        if SameSets(p, m) {
          RuleClosedSameSets(g, first, p, m, r);
        }
      }
      ChainGrowth(m, p, q, prefixClosed, closedAtP, closedAtM);
    }
  }

  lemma {:induction false} PassLeast(g: Grammar, first: FirstMap, m: FollowMap, rules: seq<Option<NormalRule>>, n: nat, t: FollowMap)
    requires n <= |rules| && RulesLookupsDefined(g, first, rules)
    requires Below(m, t) && ClosedUpTo(g, first, t, rules, n)
    ensures Below(PassApplied(g, first, m, rules, n), t)
  {
    if n > 0 {
      PassLeast(g, first, m, rules, n - 1, t);
      RuleLeast(g, first, PassApplied(g, first, m, rules, n - 1), rules[n - 1], t);
    }
  }

  /** Every text that any alternative of rules[..n] can contribute. */
  function RulesForms(rules: seq<Option<NormalRule>>, n: nat): set<string>
    requires n <= |rules|
  {
    if n == 0 then {} else RulesForms(rules, n - 1) + RuleForms(rules[n - 1])
  }

  /** The left names of the well-formed rules among rules[..n]. */
  function LeftNames(rules: seq<Option<NormalRule>>, n: nat): set<string>
    requires n <= |rules|
  {
    if n == 0 then {}
    else LeftNames(rules, n - 1) + (match rules[n - 1] case None => {} case Some(p) => {p.left})
  }

  lemma {:induction false} PassBounded(g: Grammar, first: FirstMap, m: FollowMap, rules: seq<Option<NormalRule>>, n: nat,
                                       keys: set<string>, universe: set<string>)
    requires n <= |rules| && RulesLookupsDefined(g, first, rules)
    requires Bounded(m, keys, universe) && g.nonTerminals + LeftNames(rules, n) <= keys
    requires RulesForms(rules, n) + FirstValues(first) <= universe
    ensures Bounded(PassApplied(g, first, m, rules, n), keys, universe)
  {
    if n > 0 {
      PassBounded(g, first, m, rules, n - 1, keys, universe);
      RuleBounded(g, first, PassApplied(g, first, m, rules, n - 1), rules[n - 1], keys, universe);
    }
  }

  lemma {:induction false} ClosedUpToSameSets(g: Grammar, first: FirstMap, s: FollowMap, s': FollowMap, rules: seq<Option<NormalRule>>, n: nat)
    requires n <= |rules| && RulesLookupsDefined(g, first, rules) && SameSets(s, s')
    ensures ClosedUpTo(g, first, s, rules, n) <==> ClosedUpTo(g, first, s', rules, n)
  {
    if n > 0 {
      ClosedUpToSameSets(g, first, s, s', rules, n - 1);
      RuleClosedSameSets(g, first, s, s', rules[n - 1]);
    }
  }

  lemma ClosedSameSets(g: Grammar, first: FirstMap, s: FollowMap, s': FollowMap)
    requires GrammarLookupsDefined(g, first) && SameSets(s, s')
    ensures Closed(g, first, s) <==> Closed(g, first, s')
  {
    ClosedUpToSameSets(g, first, s, s', NormalRules(g.rules), |g.rules|);
  }

  // ---------------------------------------------------------------------
  // What a closed map guarantees, alternative by alternative
  // ---------------------------------------------------------------------

  lemma {:induction false} AltsClosedAt(g: Grammar, first: FirstMap, s: FollowMap, left: string, alts: seq<seq<string>>, n: nat, j: nat)
    requires n <= |alts| && AltsLookupsDefined(g, first, alts) && AltsClosed(g, first, s, left, alts, n)
    requires j < n
    ensures AltClosed(g, first, s, left, alts[j])
  {
    if j < n - 1 {
      AltsClosedAt(g, first, s, left, alts, n - 1, j);
    }
  }

  lemma {:induction false} ClosedUpToAt(g: Grammar, first: FirstMap, s: FollowMap, rules: seq<Option<NormalRule>>, n: nat, i: nat)
    requires n <= |rules| && RulesLookupsDefined(g, first, rules) && ClosedUpTo(g, first, s, rules, n)
    requires i < n
    ensures RuleClosed(g, first, s, rules[i])
  {
    if i < n - 1 {
      ClosedUpToAt(g, first, s, rules, n - 1, i);
    }
  }

  /**
   * At a closed map both rules hold for every alternative of every rule
   * text that is not skipped.
   */
  lemma ClosedAt(g: Grammar, first: FirstMap, s: FollowMap, i: nat, j: nat)
    requires GrammarLookupsDefined(g, first) && Closed(g, first, s)
    requires i < |g.rules| && NormalizeRule(g.rules[i]).Some?
    requires j < |NormalizeRule(g.rules[i]).value.alternatives|
    ensures NormalizeRule(g.rules[i]).value.alternatives[j] == AlternativeSymbols(Decompose(g.rules[i]).value.alternatives[j])
    ensures AltsLookupsDefined(g, first, NormalizeRule(g.rules[i]).value.alternatives)
    ensures AltClosed(g, first, s, NormalizeRule(g.rules[i]).value.left, NormalizeRule(g.rules[i]).value.alternatives[j])
  {
    var rules := NormalRules(g.rules);
    NormalRulesAt(g.rules, i);
    assert RuleLookupsDefined(g, first, rules[i]);
    ClosedUpToAt(g, first, s, rules, |rules|, i);
    var p := rules[i].value;
    AllAlternativeSymbolsAt(Decompose(g.rules[i]).value.alternatives, j);
    AltsClosedAt(g, first, s, p.left, p.alternatives, |p.alternatives|, j);
  }

  /**
   * The second FOLLOW rule at its simplest: at a closed map, an alternative
   * ending in a nonterminal X gives FOLLOW(left) within FOLLOW(X)
   * (follow.cpp:98-107, the first step of the scan).
   */
  lemma LastInheritsLeft(g: Grammar, first: FirstMap, s: FollowMap, i: nat, j: nat)
    requires GrammarLookupsDefined(g, first) && Closed(g, first, s)
    requires i < |g.rules| && NormalizeRule(g.rules[i]).Some?
    requires j < |NormalizeRule(g.rules[i]).value.alternatives|
    requires var syms := NormalizeRule(g.rules[i]).value.alternatives[j]; |syms| > 0 && syms[|syms| - 1] in g.nonTerminals
    ensures var p := NormalizeRule(g.rules[i]).value;
            Get(s, p.left) <= Get(s, p.alternatives[j][|p.alternatives[j]| - 1])
  {
    ClosedAt(g, first, s, i, j);
    var p := NormalizeRule(g.rules[i]).value;
    var syms := p.alternatives[j];
    assert TrailerClosedFrom(g, first, s, Get(s, p.left), syms, 0);
    assert TrailerAfter(g, first, Get(s, p.left), syms, |syms|) == Get(s, p.left);
  }

  /** Every member of an entry is among the members of the map. */
  lemma ValuesHold(m: FollowMap)
    ensures forall k :: k in m ==> m[k] <= Values(m)
  {
  }

  // ---------------------------------------------------------------------
  // Epsilon aliases stay out of FOLLOW sets in a leak-free grammar
  // ---------------------------------------------------------------------

  /** One alternative without a leaking token keeps every FOLLOW set alias-free. */
  lemma AltKeepsEpsFree(g: Grammar, first: FirstMap, m: FollowMap, left: string, syms: seq<string>)
    requires LookupsDefined(g, first, syms) && EpsFree(m) && LeakFree(g, syms)
    ensures EpsFree(AltApplied(g, first, m, left, syms))
  {
    var r := AltApplied(g, first, m, left, syms);
    AltAppliedMeaning(g, first, m, left, syms);
    AdjacencyAddsNoEps(g, first, syms, |syms|, left);
    var start := Get(m, left) + AdjacencyAdds(g, first, syms, |syms|, left);
    assert NoEpsIn(start);
    forall k | k in r ensures NoEpsIn(r[k]) {
      AdjacencyAddsNoEps(g, first, syms, |syms|, k);
      TrailerAddsNoEps(g, first, start, syms, 0, k);
      assert Get(r, k) == r[k];
      assert NoEpsIn(Get(m, k));
    }
  }

  predicate AltsLeakFree(g: Grammar, alts: seq<seq<string>>) {
    forall j :: 0 <= j < |alts| ==> LeakFree(g, alts[j])
  }

  lemma {:induction false} AltsKeepEpsFree(g: Grammar, first: FirstMap, m: FollowMap, left: string, alts: seq<seq<string>>, n: nat)
    requires n <= |alts| && AltsLookupsDefined(g, first, alts) && EpsFree(m) && AltsLeakFree(g, alts)
    ensures EpsFree(AltsApplied(g, first, m, left, alts, n))
  {
    if n > 0 {
      AltsKeepEpsFree(g, first, m, left, alts, n - 1);
      AltKeepsEpsFree(g, first, AltsApplied(g, first, m, left, alts, n - 1), left, alts[n - 1]);
    }
  }

  predicate RuleLeakFree(g: Grammar, rule: Option<NormalRule>) {
    match rule
    case None => true
    case Some(p) => AltsLeakFree(g, p.alternatives)
  }

  lemma RuleKeepsEpsFree(g: Grammar, first: FirstMap, m: FollowMap, rule: Option<NormalRule>)
    requires RuleLookupsDefined(g, first, rule) && EpsFree(m) && RuleLeakFree(g, rule)
    ensures EpsFree(RuleApplied(g, first, m, rule))
  {
    match rule
    case None =>
    case Some(p) => AltsKeepEpsFree(g, first, m, p.left, p.alternatives, |p.alternatives|);
  }

  predicate RulesLeakFree(g: Grammar, rules: seq<Option<NormalRule>>) {
    forall i :: 0 <= i < |rules| ==> RuleLeakFree(g, rules[i])
  }

  /** No token of any alternative of the grammar leaks an epsilon alias. */
  predicate GrammarLeakFree(g: Grammar) {
    RulesLeakFree(g, NormalRules(g.rules))
  }

  /** A pass over leak-free rules keeps every FOLLOW set alias-free. */
  lemma {:induction false} PassKeepsEpsFree(g: Grammar, first: FirstMap, m: FollowMap, rules: seq<Option<NormalRule>>, n: nat)
    requires n <= |rules| && RulesLookupsDefined(g, first, rules) && EpsFree(m) && RulesLeakFree(g, rules)
    ensures EpsFree(PassApplied(g, first, m, rules, n))
  {
    if n > 0 {
      PassKeepsEpsFree(g, first, m, rules, n - 1);
      RuleKeepsEpsFree(g, first, PassApplied(g, first, m, rules, n - 1), rules[n - 1]);
    }
  }

  // ---------------------------------------------------------------------
  // The bounds behind termination, as functions of the computation's inputs
  // ---------------------------------------------------------------------

  /** Every key the computation from m0 can give an entry: the seeded keys and the left names. */
  function KeyBound(g: Grammar, m0: FollowMap): set<string> {
    Seed(g, m0).Keys + LeftNames(NormalRules(g.rules), |g.rules|)
  }

  /** Every member the computation from m0 can put into a set. */
  function MemberBound(g: Grammar, first: FirstMap, m0: FollowMap): set<string> {
    Values(Seed(g, m0)) + RulesForms(NormalRules(g.rules), |g.rules|) + FirstValues(first)
  }
}
