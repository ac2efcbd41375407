/**
 * `Follow::compute()` of follow.cpp: the FOLLOW map owned by a Follow object,
 * grown in place by an iterative fixed-point loop over the grammar's rules.
 */
module FollowSets {
  import opened Wrappers
  import opened Text
  import opened Rules
  import opened FollowRules
  import opened FollowPass

  /** The loops of follow.cpp:90-91 and 119-120: keep the members that are no epsilon alias. */
  method RemoveEps(f: set<string>) returns (r: set<string>)
    ensures r <= f
    ensures forall s :: s in r ==> !IsEps(s)
    ensures forall s :: s in f && !IsEps(s) ==> s in r
    ensures r == NoEps(f)
  {
    r := {};
    var rest := f;
    while rest != {}
      invariant rest <= f
      invariant r == NoEps(f - rest)
      decreases rest
    {
      var s :| s in rest;
      if !IsEps(s) {
        r := r + {s};
      }
      rest := rest - {s};
    }
  }

  class Follow {
    /** The grammar read by the computation (`grammar`). */
    const grammar: Grammar
    /** The finished FIRST sets (`first.firstSets`). */
    const firstSets: FirstMap
    /** The owned result, updated in place. */
    var followSets: FollowMap

    constructor(grammar: Grammar, firstSets: FirstMap)
      ensures this.grammar == grammar && this.firstSets == firstSets
      ensures followSets == map[]
    {
      this.grammar := grammar;
      this.firstSets := firstSets;
      followSets := map[];
    }

    /**
     * `followSets[a].insert(add)` with the size comparison around it
     * (follow.cpp:88-92 and 104-108): the entry is created if missing.
     */
    method Insert(a: string, add: set<string>) returns (grew: bool)
      modifies this
      ensures followSets == old(followSets)[a := Get(old(followSets), a) + add]
      ensures grew <==> |Get(old(followSets), a)| < |Get(old(followSets), a) + add|
    {
      var before := |Get(followSets, a)|;
      followSets := followSets[a := Get(followSets, a) + add];
      grew := |followSets[a]| > before;
    }

    /**
     * Rule 1 over one alternative (follow.cpp:68-95): for each nonterminal
     * with a symbol after it, FIRST of that symbol minus epsilon joins its
     * FOLLOW set. `grew` reports whether some set got larger.
     */
    method ApplyAdjacency(symbols: seq<string>) returns (grew: bool)
      requires Normalized(symbols) && LookupsDefined(grammar, firstSets, symbols)
      modifies this
      ensures followSets == AdjacencyApplied(grammar, firstSets, symbols, |symbols|, old(followSets))
      ensures grew <==> SomeSetGrew(old(followSets), followSets)
    {
      grew := false;
      var i := 0;
      while i < |symbols|
        invariant 0 <= i <= |symbols|
        invariant followSets == AdjacencyApplied(grammar, firstSets, symbols, i, old(followSets))
        invariant Below(old(followSets), followSets)
        invariant grew <==> SomeSetGrew(old(followSets), followSets)
      {
        var a := Trim(symbols[i]);
        TrimOfTrimmed(symbols[i]);
        if a != "" && a in grammar.nonTerminals && i + 1 < |symbols| {
          var next := Trim(symbols[i + 1]);
          TrimOfTrimmed(symbols[i + 1]);
          assert LookupDefinedAt(grammar, firstSets, symbols, i);
          var firstNext := FirstOfNext(grammar, firstSets, next);
          var kept := RemoveEps(firstNext);
          InsertGrowth(old(followSets), followSets, a, kept);
          var added := Insert(a, kept);
          grew := grew || added;
        }
        i := i + 1;
      }
    }

    /**
     * The trailer once the scan passes the nonterminal x (follow.cpp:110-124):
     * FIRST(x) minus epsilon, kept on top of the old trailer when x is nullable.
     */
    method TrailerPast(x: string, trailer: set<string>) returns (t: set<string>)
      requires x in grammar.nonTerminals
      ensures t == Step(grammar, firstSets, trailer, x)
    {
      var fx := if x in firstSets then firstSets[x] else {};
      var nullable := "''" in fx || "ε" in fx || "EPS" in fx || "epsilon" in fx;
      NullableIffSomeEps(fx);
      var fxNoEps := RemoveEps(fx);
      if nullable {
        t := trailer + fxNoEps;
      } else {
        t := fxNoEps;
      }
    }

    /**
     * Rule 2 over one alternative (follow.cpp:98-139): the trailer starts as
     * FOLLOW(left) and is carried right to left; each nonterminal receives
     * the trailer that reaches it.
     */
    method ApplyTrailer(left: string, symbols: seq<string>) returns (grew: bool)
      requires Normalized(symbols)
      modifies this
      ensures followSets
           == TrailerApplied(grammar, firstSets, Get(old(followSets), left), symbols, 0, Touch(old(followSets), left))
      ensures grew <==> SomeSetGrew(old(followSets), followSets)
    {
      grew := false;
      if left !in followSets {
        followSets := followSets[left := {}];
      }
      var trailer := followSets[left];
      ghost var start := followSets;
      ghost var t0 := trailer;
      assert start == Touch(old(followSets), left) && t0 == Get(old(followSets), left);
      var i := |symbols|;
      while i > 0
        invariant 0 <= i <= |symbols|
        invariant trailer == TrailerAfter(grammar, firstSets, t0, symbols, i)
        invariant followSets == TrailerApplied(grammar, firstSets, t0, symbols, i, start)
        invariant Below(old(followSets), followSets)
        invariant grew <==> SomeSetGrew(old(followSets), followSets)
      {
        i := i - 1;
        var x := Trim(symbols[i]);
        TrimOfTrimmed(symbols[i]);
        ghost var prev := followSets;
        var added;
        trailer, added := VisitSymbol(x, trailer);
        assert Below(old(followSets), followSets)
            && (SomeSetGrew(old(followSets), followSets) <==> SomeSetGrew(old(followSets), prev) || added) by {
          if x in grammar.nonTerminals {
            InsertGrowth(old(followSets), prev, x, TrailerAfter(grammar, firstSets, t0, symbols, i + 1));
          }
        }
        grew := grew || added;
      }
    }

    /**
     * Rule 2 at one non-empty symbol x (follow.cpp:104-137): a nonterminal
     * receives the trailer, which then becomes what can come before x.
     */
    method VisitSymbol(x: string, trailer: set<string>) returns (t: set<string>, grew: bool)
      requires x != ""
      modifies this
      ensures followSets
           == if x in grammar.nonTerminals then old(followSets)[x := Get(old(followSets), x) + trailer] else old(followSets)
      ensures t == Step(grammar, firstSets, trailer, x)
      ensures grew <==> x in grammar.nonTerminals && |Get(old(followSets), x)| < |Get(old(followSets), x) + trailer|
    {
      grew := false;
      if x in grammar.nonTerminals {
        grew := Insert(x, trailer);
        t := TrailerPast(x, trailer);
      } else if IsEps(x) {
        // an epsilon symbol leaves the trailer as it is
        t := trailer;
      } else {
        var term := x;
        if IsQuotedTerminal(x) {
          term := Unquote(x);
        }
        t := {term};
      }
    }

    /**
     * One alternative (follow.cpp:66-139): Rule 1 over its symbols, then
     * Rule 2 with the trailer starting from FOLLOW(left) as Rule 1 left it.
     */
    method ApplyAlternative(left: string, symbols: seq<string>) returns (grew: bool)
      requires Normalized(symbols) && LookupsDefined(grammar, firstSets, symbols)
      modifies this
      ensures followSets == AltApplied(grammar, firstSets, old(followSets), left, symbols)
      ensures grew <==> SomeSetGrew(old(followSets), followSets)
    {
      ghost var m0 := followSets;
      var adjacencyGrew := ApplyAdjacency(symbols);
      ghost var m1 := followSets;
      var trailerGrew := ApplyTrailer(left, symbols);
      grew := adjacencyGrew || trailerGrew;
      AdjacencyAppliedMeaning(grammar, firstSets, symbols, |symbols|, m0);
      TrailerAppliedMeaning(grammar, firstSets, Get(m1, left), symbols, 0, Touch(m1, left));
      GrewThrough(m0, m1, followSets);
    }

    /**
     * The alternatives of one rule, in order (follow.cpp:57-139): each is
     * normalised and then Rule 1 and Rule 2 are applied to it.
     */
    method ApplyAlternatives(left: string, texts: seq<string>) returns (grew: bool)
      requires AltsLookupsDefined(grammar, firstSets, AllAlternativeSymbols(texts))
      modifies this
      ensures followSets == AltsApplied(grammar, firstSets, old(followSets), left, AllAlternativeSymbols(texts), |texts|)
      ensures grew <==> SomeSetGrew(old(followSets), followSets)
    {
      grew := false;
      ghost var alts := AllAlternativeSymbols(texts);
      var j := 0;
      while j < |texts|
        invariant 0 <= j <= |texts|
        invariant followSets == AltsApplied(grammar, firstSets, old(followSets), left, alts, j)
        invariant Below(old(followSets), followSets)
        invariant grew <==> SomeSetGrew(old(followSets), followSets)
      {
        var symbols := NormalizeAlternative(texts[j]);
        assert symbols == alts[j] && LookupsDefined(grammar, firstSets, symbols) by {
          AllAlternativeSymbolsAt(texts, j);
        }
        ghost var prev := followSets;
        var added := ApplyAlternative(left, symbols);
        assert Below(old(followSets), followSets)
            && (SomeSetGrew(old(followSets), followSets) <==> SomeSetGrew(old(followSets), prev) || added) by {
          AltGrowth(grammar, firstSets, prev, left, symbols);
          GrewThrough(old(followSets), prev, followSets);
        }
        grew := grew || added;
        j := j + 1;
      }
    }

    /**
     * One rule text (follow.cpp:45-141): a blank or arrow-less text is
     * skipped; otherwise its alternatives are applied in order.
     */
    method ApplyRule(r: string) returns (grew: bool)
      requires RuleLookupsDefined(grammar, firstSets, NormalizeRule(r))
      modifies this
      ensures followSets == RuleApplied(grammar, firstSets, old(followSets), NormalizeRule(r))
      ensures grew <==> SomeSetGrew(old(followSets), followSets)
    {
      grew := false;
      match Decompose(r)
      case None =>
      case Some(p) =>
        grew := ApplyAlternatives(p.left, p.alternatives);
    }

    /** One pass of the `while (changed)` loop (follow.cpp:42-141): every rule in order. */
    method Pass() returns (changed: bool)
      requires GrammarLookupsDefined(grammar, firstSets)
      modifies this
      ensures followSets == PassApplied(grammar, firstSets, old(followSets), NormalRules(grammar.rules), |grammar.rules|)
      ensures changed <==> SomeSetGrew(old(followSets), followSets)
    {
      changed := false;
      ghost var rules := NormalRules(grammar.rules);
      var i := 0;
      while i < |grammar.rules|
        invariant 0 <= i <= |grammar.rules|
        invariant followSets == PassApplied(grammar, firstSets, old(followSets), rules, i)
        invariant Below(old(followSets), followSets)
        invariant changed <==> SomeSetGrew(old(followSets), followSets)
      {
        NormalRulesAt(grammar.rules, i);
        ghost var prev := followSets;
        var grew := ApplyRule(grammar.rules[i]);
        RuleGrowth(grammar, firstSets, prev, rules[i]);
        GrewThrough(old(followSets), prev, followSets);
        changed := changed || grew;
        i := i + 1;
      }
    }

    /**
     * The initialisation of follow.cpp:28-37: every nonterminal's entry is
     * reset to the empty set, then `$` joins the start symbol's entry.
     */
    method Initialize()
      modifies this
      ensures followSets == Seed(grammar, old(followSets))
    {
      var pending := grammar.nonTerminals;
      while pending != {}
        invariant pending <= grammar.nonTerminals
        invariant followSets == old(followSets) + map nt | nt in grammar.nonTerminals - pending :: {}
        decreases pending
      {
        var nt :| nt in pending;
        followSets := followSets[nt := {}];
        pending := pending - {nt};
      }
      assert grammar.nonTerminals - pending == grammar.nonTerminals;
      if grammar.initialState != "" {
        followSets := followSets[grammar.initialState := Get(followSets, grammar.initialState) + {"$"}];
      }
    }

    /**
     * `Follow::compute()` (follow.cpp:26-143): reset every nonterminal's
     * entry, put `$` into the start symbol's entry, then repeat passes until
     * one changes nothing. The result is closed under both rules and is the
     * least such map above the initial one.
     */
    method Compute() returns (ghost passes: nat)
      requires GrammarLookupsDefined(grammar, firstSets)
      modifies this
      ensures grammar.nonTerminals <= followSets.Keys
      ensures Seed(grammar, old(followSets)).Keys <= followSets.Keys
      ensures followSets.Keys <= Seed(grammar, old(followSets)).Keys + LeftNames(NormalRules(grammar.rules), |grammar.rules|)
      ensures Below(Seed(grammar, old(followSets)), followSets)
      ensures grammar.initialState != "" ==> "$" in followSets[grammar.initialState]
      ensures Closed(grammar, firstSets, followSets)
      ensures forall t :: Below(Seed(grammar, old(followSets)), t) && Closed(grammar, firstSets, t) ==> Below(followSets, t)
      ensures GrammarLeakFree(grammar) && EpsFree(Seed(grammar, old(followSets))) ==> EpsFree(followSets)
      ensures 1 <= passes
      ensures passes <= |Missing(Seed(grammar, old(followSets)), KeyBound(grammar, old(followSets)),
                                 MemberBound(grammar, firstSets, old(followSets)))| + 1
    {
      Initialize();
      ghost var seed := followSets;
      ghost var rules := NormalRules(grammar.rules);
      ghost var keys := KeyBound(grammar, old(followSets));
      ghost var universe := MemberBound(grammar, firstSets, old(followSets));
      ValuesHold(seed);
      passes := 0;
      var changed := true;
      while changed
        invariant Bounded(followSets, keys, universe)
        invariant seed.Keys <= followSets.Keys && Below(seed, followSets)
        invariant !changed ==> Closed(grammar, firstSets, followSets)
        invariant forall t :: Below(seed, t) && Closed(grammar, firstSets, t) ==> Below(followSets, t)
        invariant GrammarLeakFree(grammar) && EpsFree(seed) ==> EpsFree(followSets)
        invariant !changed ==> 1 <= passes
        invariant passes + |Missing(followSets, keys, universe)| <= |Missing(seed, keys, universe)| + (if changed then 0 else 1)
        decreases Missing(followSets, keys, universe), changed
      {
        ghost var prev := followSets;
        changed := Pass();
        passes := passes + 1;
        if GrammarLeakFree(grammar) && EpsFree(seed) {
          PassKeepsEpsFree(grammar, firstSets, prev, rules, |rules|);
        }
        PassGrowth(grammar, firstSets, prev, rules, |rules|);
        PassBounded(grammar, firstSets, prev, rules, |rules|, keys, universe);
        BelowTransitive(seed, prev, followSets);
        forall t | Below(seed, t) && Closed(grammar, firstSets, t) ensures Below(followSets, t) {
          PassLeast(grammar, firstSets, prev, rules, |rules|, t);
        }
        GrewIffNotBelow(prev, followSets);
        if changed {
          MissingShrinks(prev, followSets, keys, universe);
          StrictSubsetSmaller(Missing(followSets, keys, universe), Missing(prev, keys, universe));
        } else {
          MutualBelow(prev, followSets);
          ClosedSameSets(grammar, firstSets, prev, followSets);
          MissingSameSets(prev, followSets, keys, universe);
        }
      }
      if grammar.initialState != "" {
        assert Get(seed, grammar.initialState) <= Get(followSets, grammar.initialState);
      }
    }
  }
}
