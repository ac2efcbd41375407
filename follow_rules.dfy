/**
 * What one FOLLOW pass does to the FOLLOW map, stated as functions: the
 * symbol helpers of follow.cpp, Rule 1 (adjacency, follow.cpp:68-95), Rule 2
 * (the right-to-left trailer, follow.cpp:98-139), the closure the loop reaches
 * and the finite universe that makes it stop.
 */
module FollowRules {
  import opened Text
  import opened Rules

  type FollowMap = map<string, set<string>>
  type FirstMap = map<string, set<string>>

  /** `followSets[k]` read without creating an entry: absent means empty. */
  function Get(m: FollowMap, k: string): set<string> {
    if k in m then m[k] else {}
  }

  /** `m[k]` used as an lvalue: the entry is created empty if missing, and no set changes. */
  function Touch(m: FollowMap, k: string): (r: FollowMap)
    ensures r.Keys == m.Keys + {k}
    ensures forall j :: Get(r, j) == Get(m, j)
  {
    if k in m then m else m[k := {}]
  }

  // ---------------------------------------------------------------------
  // Symbol helpers (follow.cpp:17-24)
  // ---------------------------------------------------------------------

  /** `is_eps`: the four spellings of the empty word, case-sensitive. */
  predicate IsEps(s: string) {
    s == "''" || s == "ε" || s == "EPS" || s == "epsilon"
  }

  /** `is_quoted_terminal`: at least two characters, a quote at both ends. */
  predicate IsQuotedTerminal(x: string) {
    |x| >= 2 && x[0] == '\'' && x[|x| - 1] == '\''
  }

  /** `x.substr(1, x.size() - 2)`: the text between the quotes. */
  function Unquote(x: string): (r: string)
    requires IsQuotedTerminal(x)
    ensures [x[0]] + r + [x[|x| - 1]] == x
  {
    x[1..|x| - 1]
  }

  /** The literal a terminal token stands for (follow.cpp:134-135). */
  function TerminalText(x: string): string {
    if IsQuotedTerminal(x) then Unquote(x) else x
  }

  /** A set with every epsilon alias removed (follow.cpp:90-91, 119-120). */
  function NoEps(f: set<string>): set<string> {
    set s | s in f && !IsEps(s)
  }

  /** The nullable test of follow.cpp:115-116. */
  predicate Nullable(f: set<string>) {
    "''" in f || "ε" in f || "EPS" in f || "epsilon" in f
  }

  /** Nullable means exactly: some member of the set is an epsilon alias. */
  lemma NullableIffSomeEps(f: set<string>)
    ensures Nullable(f) <==> exists s :: s in f && IsEps(s)
  {
  }

  /** The only token that is both an epsilon alias and quoted is `''`. */
  lemma QuotedEpsIsEmptyQuote(s: string)
    ensures IsQuotedTerminal(s) && IsEps(s) <==> s == "''"
  {
    if s == "ε" { assert |s| == 1; }
    if s == "EPS" { assert s[0] == 'E'; }
    if s == "epsilon" { assert s[0] == 'e'; }
  }

  // ---------------------------------------------------------------------
  // Rule 1: adjacency (follow.cpp:68-95)
  // ---------------------------------------------------------------------

  /** `first.firstSets.at(next)` is only reached for a bare nonterminal, and must not throw. */
  predicate AdjacencyLookupDefined(g: Grammar, first: FirstMap, next: string) {
    IsQuotedTerminal(next) || next !in g.nonTerminals || next in first
  }

  /** Every Rule-1 lookup in the alternative `syms` finds its FIRST entry. */
  predicate LookupsDefined(g: Grammar, first: FirstMap, syms: seq<string>) {
    forall i :: 0 <= i < |syms| - 1 ==> LookupDefinedAt(g, first, syms, i)
  }

  /** The Rule-1 lookup at position i, if there is one, finds its entry. */
  predicate LookupDefinedAt(g: Grammar, first: FirstMap, syms: seq<string>, i: nat)
    requires i + 1 < |syms|
  {
    syms[i] in g.nonTerminals ==> AdjacencyLookupDefined(g, first, syms[i + 1])
  }

  /**
   * `firstNext` of follow.cpp:74-86: quoted first, then nonterminal, then
   * implicit terminal (an epsilon alias yields nothing).
   */
  function FirstOfNext(g: Grammar, first: FirstMap, next: string): set<string>
    requires AdjacencyLookupDefined(g, first, next)
  {
    if IsQuotedTerminal(next) then {Unquote(next)}
    else if next in g.nonTerminals then first[next]
    else if !IsEps(next) then {next}
    else {}
  }

  /** What Rule 1 adds to FOLLOW(syms[i]) (meaningful when syms[i] is a nonterminal). */
  function AdjacencyFor(g: Grammar, first: FirstMap, syms: seq<string>, i: nat): set<string>
    requires i + 1 < |syms| && LookupsDefined(g, first, syms) && syms[i] in g.nonTerminals
  {
    assert LookupDefinedAt(g, first, syms, i);
    NoEps(FirstOfNext(g, first, syms[i + 1]))
  }

  /** Rule 1 at position i applies: a nonterminal with a symbol after it. */
  predicate AdjacencyAt(g: Grammar, syms: seq<string>, i: nat) {
    i + 1 < |syms| && syms[i] in g.nonTerminals
  }

  /** What Rule 1 at positions 0..i-1 adds to FOLLOW(k). */
  function AdjacencyAdds(g: Grammar, first: FirstMap, syms: seq<string>, i: nat, k: string): set<string>
    requires i <= |syms| && LookupsDefined(g, first, syms)
  {
    if i == 0 then {}
    else
      AdjacencyAdds(g, first, syms, i - 1, k)
      + (if AdjacencyAt(g, syms, i - 1) && syms[i - 1] == k then AdjacencyFor(g, first, syms, i - 1) else {})
  }

  /** The entries Rule 1 at positions 0..i-1 touches (`followSets[A]` creates them). */
  function AdjacencyKeys(g: Grammar, syms: seq<string>, i: nat): (r: set<string>)
    requires i <= |syms|
    ensures r <= g.nonTerminals
  {
    if i == 0 then {}
    else AdjacencyKeys(g, syms, i - 1) + (if AdjacencyAt(g, syms, i - 1) then {syms[i - 1]} else {})
  }

  /** Rule 1 holds at S for positions 0..i-1. */
  predicate AdjacencyClosedUpTo(g: Grammar, first: FirstMap, s: FollowMap, syms: seq<string>, i: nat)
    requires i <= |syms| && LookupsDefined(g, first, syms)
  {
    forall j :: 0 <= j < i && AdjacencyAt(g, syms, j) ==> AdjacencyFor(g, first, syms, j) <= Get(s, syms[j])
  }

  /** Rule-1 closure: FIRST(X[i+1]) minus epsilon is in FOLLOW(X[i]) for each nonterminal X[i]. */
  predicate AdjacencyClosed(g: Grammar, first: FirstMap, s: FollowMap, syms: seq<string>)
    requires LookupsDefined(g, first, syms)
  {
    AdjacencyClosedUpTo(g, first, s, syms, |syms|)
  }

  /** Rule 1 is closed at S exactly when what it would add is already there. */
  lemma {:induction false} AdjacencyClosedIffNothingToAdd(g: Grammar, first: FirstMap, s: FollowMap, syms: seq<string>, i: nat)
    requires i <= |syms| && LookupsDefined(g, first, syms)
    ensures AdjacencyClosedUpTo(g, first, s, syms, i) <==> forall k :: AdjacencyAdds(g, first, syms, i, k) <= Get(s, k)
  {
    if i > 0 {
      AdjacencyClosedIffNothingToAdd(g, first, s, syms, i - 1);
      AdjacencyClosedStep(g, first, s, syms, i);
      AdjacencyNothingStep(g, first, s, syms, i);
    }
  }

  lemma AdjacencyClosedStep(g: Grammar, first: FirstMap, s: FollowMap, syms: seq<string>, i: nat)
    requires 0 < i <= |syms| && LookupsDefined(g, first, syms)
    ensures AdjacencyClosedUpTo(g, first, s, syms, i)
        <==> AdjacencyClosedUpTo(g, first, s, syms, i - 1)
             && (AdjacencyAt(g, syms, i - 1) ==> AdjacencyFor(g, first, syms, i - 1) <= Get(s, syms[i - 1]))
  {
  }

  lemma AdjacencyNothingStep(g: Grammar, first: FirstMap, s: FollowMap, syms: seq<string>, i: nat)
    requires 0 < i <= |syms| && LookupsDefined(g, first, syms)
    ensures (forall k :: AdjacencyAdds(g, first, syms, i, k) <= Get(s, k))
        <==> (forall k :: AdjacencyAdds(g, first, syms, i - 1, k) <= Get(s, k))
             && (AdjacencyAt(g, syms, i - 1) ==> AdjacencyFor(g, first, syms, i - 1) <= Get(s, syms[i - 1]))
  {
    if forall k :: AdjacencyAdds(g, first, syms, i, k) <= Get(s, k) {
      forall k ensures AdjacencyAdds(g, first, syms, i - 1, k) <= Get(s, k) {
        assert AdjacencyAdds(g, first, syms, i - 1, k) <= AdjacencyAdds(g, first, syms, i, k);
      }
      if AdjacencyAt(g, syms, i - 1) {
        assert AdjacencyFor(g, first, syms, i - 1) <= AdjacencyAdds(g, first, syms, i, syms[i - 1]);
      }
    }
  }

  /**
   * The map Rule 1 leaves behind after positions 0..i-1, starting from m0:
   * each nonterminal with a successor gains FIRST of the successor minus epsilon.
   */
  function AdjacencyApplied(g: Grammar, first: FirstMap, syms: seq<string>, i: nat, m0: FollowMap): FollowMap
    requires i <= |syms| && LookupsDefined(g, first, syms)
  {
    if i == 0 then m0
    else
      var m := AdjacencyApplied(g, first, syms, i - 1, m0);
      if AdjacencyAt(g, syms, i - 1) then m[syms[i - 1] := Get(m, syms[i - 1]) + AdjacencyFor(g, first, syms, i - 1)]
      else m
  }

  /** What Rule 1 leaves behind: the touched entries exist, and each set gained exactly its share. */
  lemma {:induction false} AdjacencyAppliedMeaning(g: Grammar, first: FirstMap, syms: seq<string>, i: nat, m0: FollowMap)
    requires i <= |syms| && LookupsDefined(g, first, syms)
    ensures AdjacencyApplied(g, first, syms, i, m0).Keys == m0.Keys + AdjacencyKeys(g, syms, i)
    ensures forall k :: Get(AdjacencyApplied(g, first, syms, i, m0), k) == Get(m0, k) + AdjacencyAdds(g, first, syms, i, k)
  {
    if i > 0 {
      AdjacencyAppliedMeaning(g, first, syms, i - 1, m0);
    }
  }

  /** Rule 1 never puts an epsilon alias into a FOLLOW set. */
  lemma {:induction false} AdjacencyAddsNoEps(g: Grammar, first: FirstMap, syms: seq<string>, i: nat, k: string)
    requires i <= |syms| && LookupsDefined(g, first, syms)
    ensures forall s :: s in AdjacencyAdds(g, first, syms, i, k) ==> !IsEps(s)
  {
    if i > 0 {
      AdjacencyAddsNoEps(g, first, syms, i - 1, k);
    }
  }

  // ---------------------------------------------------------------------
  // Rule 2: the trailer (follow.cpp:98-139)
  // ---------------------------------------------------------------------

  /** `first.firstSets.find(x)`: a missing entry reads as the empty set (follow.cpp:110-114). */
  function FirstOrEmpty(first: FirstMap, x: string): set<string> {
    if x in first then first[x] else {}
  }

  /**
   * The trailer after the scan passes symbol x (follow.cpp:103-138):
   * nonterminal first, then epsilon, then terminal.
   */
  function Step(g: Grammar, first: FirstMap, t: set<string>, x: string): set<string> {
    if x in g.nonTerminals then
      var fx := FirstOrEmpty(first, x);
      if Nullable(fx) then t + NoEps(fx) else NoEps(fx)
    else if IsEps(x) then t
    else {TerminalText(x)}
  }

  /** The trailer once the scan has passed syms[i..], starting from t0. */
  function TrailerAfter(g: Grammar, first: FirstMap, t0: set<string>, syms: seq<string>, i: nat): set<string>
    requires i <= |syms|
    decreases |syms| - i
  {
    if i == |syms| then t0 else Step(g, first, TrailerAfter(g, first, t0, syms, i + 1), syms[i])
  }

  /** What Rule 2 at positions i..|syms|-1 adds to FOLLOW(k), with trailer start t0. */
  function TrailerAdds(g: Grammar, first: FirstMap, t0: set<string>, syms: seq<string>, i: nat, k: string): set<string>
    requires i <= |syms|
    decreases |syms| - i
  {
    if i == |syms| then {}
    else
      TrailerAdds(g, first, t0, syms, i + 1, k)
      + (if syms[i] in g.nonTerminals && syms[i] == k then TrailerAfter(g, first, t0, syms, i + 1) else {})
  }

  /** The nonterminals among syms[i..] (their entries Rule 2 touches). */
  function NonTerminalsFrom(g: Grammar, syms: seq<string>, i: nat): (r: set<string>)
    requires i <= |syms|
    ensures r <= g.nonTerminals
    decreases |syms| - i
  {
    if i == |syms| then {}
    else NonTerminalsFrom(g, syms, i + 1) + (if syms[i] in g.nonTerminals then {syms[i]} else {})
  }

  /** Rule 2 holds at S for positions i..|syms|-1 with trailer start t0. */
  predicate TrailerClosedFrom(g: Grammar, first: FirstMap, s: FollowMap, t0: set<string>, syms: seq<string>, i: nat)
    requires i <= |syms|
  {
    forall j :: i <= j < |syms| && syms[j] in g.nonTerminals ==> TrailerAfter(g, first, t0, syms, j + 1) <= Get(s, syms[j])
  }

  /** Rule-2 closure: each nonterminal holds the trailer that reaches it, starting from FOLLOW(left). */
  predicate TrailerClosed(g: Grammar, first: FirstMap, s: FollowMap, left: string, syms: seq<string>) {
    TrailerClosedFrom(g, first, s, Get(s, left), syms, 0)
  }

  /** Rule 2 is closed at S exactly when what it would add is already there. */
  lemma {:induction false} TrailerClosedIffNothingToAdd(g: Grammar, first: FirstMap, s: FollowMap, t0: set<string>, syms: seq<string>, i: nat)
    requires i <= |syms|
    ensures TrailerClosedFrom(g, first, s, t0, syms, i) <==> forall k :: TrailerAdds(g, first, t0, syms, i, k) <= Get(s, k)
    decreases |syms| - i
  {
    if i < |syms| {
      var x := syms[i];
      var here := x in g.nonTerminals ==> TrailerAfter(g, first, t0, syms, i + 1) <= Get(s, x);
      assert TrailerClosedFrom(g, first, s, t0, syms, i) <==> TrailerClosedFrom(g, first, s, t0, syms, i + 1) && here;
      TrailerClosedIffNothingToAdd(g, first, s, t0, syms, i + 1);
      var nothing := forall k :: TrailerAdds(g, first, t0, syms, i, k) <= Get(s, k);
      var nothingNext := forall k :: TrailerAdds(g, first, t0, syms, i + 1, k) <= Get(s, k);
      if nothing {
        forall k ensures TrailerAdds(g, first, t0, syms, i + 1, k) <= Get(s, k) {
          assert TrailerAdds(g, first, t0, syms, i + 1, k) <= TrailerAdds(g, first, t0, syms, i, k);
        }
        if x in g.nonTerminals {
          assert TrailerAfter(g, first, t0, syms, i + 1) <= TrailerAdds(g, first, t0, syms, i, x);
        }
      }
      if nothingNext && here {
        forall k ensures TrailerAdds(g, first, t0, syms, i, k) <= Get(s, k) {
          assert TrailerAdds(g, first, t0, syms, i, k)
              == TrailerAdds(g, first, t0, syms, i + 1, k)
               + (if x in g.nonTerminals && x == k then TrailerAfter(g, first, t0, syms, i + 1) else {});
        }
      }
      assert nothing <==> nothingNext && here;
    }
  }

  /**
   * The map Rule 2 leaves behind once the scan has passed syms[i..], starting
   * from m0: each nonterminal gains the trailer that reaches it.
   */
  function TrailerApplied(g: Grammar, first: FirstMap, t0: set<string>, syms: seq<string>, i: nat, m0: FollowMap): FollowMap
    requires i <= |syms|
    decreases |syms| - i
  {
    if i == |syms| then m0
    else
      var m := TrailerApplied(g, first, t0, syms, i + 1, m0);
      if syms[i] in g.nonTerminals then m[syms[i] := Get(m, syms[i]) + TrailerAfter(g, first, t0, syms, i + 1)]
      else m
  }

  /** What Rule 2 leaves behind: the touched entries exist, and each set gained exactly its share. */
  lemma {:induction false} TrailerAppliedMeaning(g: Grammar, first: FirstMap, t0: set<string>, syms: seq<string>, i: nat, m0: FollowMap)
    requires i <= |syms|
    ensures TrailerApplied(g, first, t0, syms, i, m0).Keys == m0.Keys + NonTerminalsFrom(g, syms, i)
    ensures forall k :: Get(TrailerApplied(g, first, t0, syms, i, m0), k) == Get(m0, k) + TrailerAdds(g, first, t0, syms, i, k)
    decreases |syms| - i
  {
    if i < |syms| {
      TrailerAppliedMeaning(g, first, t0, syms, i + 1, m0);
    }
  }

  /** A larger trailer start gives a larger trailer everywhere in the scan. */
  lemma {:induction false} TrailerAfterMonotone(g: Grammar, first: FirstMap, t0: set<string>, t1: set<string>, syms: seq<string>, i: nat)
    requires i <= |syms| && t0 <= t1
    ensures TrailerAfter(g, first, t0, syms, i) <= TrailerAfter(g, first, t1, syms, i)
    decreases |syms| - i
  {
    if i < |syms| {
      TrailerAfterMonotone(g, first, t0, t1, syms, i + 1);
    }
  }

  /** A larger trailer start adds more. */
  lemma {:induction false} TrailerAddsMonotone(g: Grammar, first: FirstMap, t0: set<string>, t1: set<string>, syms: seq<string>, i: nat, k: string)
    requires i <= |syms| && t0 <= t1
    ensures TrailerAdds(g, first, t0, syms, i, k) <= TrailerAdds(g, first, t1, syms, i, k)
    decreases |syms| - i
  {
    if i < |syms| {
      TrailerAddsMonotone(g, first, t0, t1, syms, i + 1, k);
      TrailerAfterMonotone(g, first, t0, t1, syms, i + 1);
    }
  }

  /** The trailer passes unchanged-or-grown over symbols that can vanish. */
  predicate Vanishing(g: Grammar, first: FirstMap, x: string) {
    if x in g.nonTerminals then Nullable(FirstOrEmpty(first, x)) else IsEps(x)
  }

  /**
   * The textbook third FOLLOW rule: when everything in syms[i..] can vanish,
   * the trailer that reaches position i still holds the starting trailer.
   */
  lemma {:induction false} VanishingSuffixKeepsTrailer(g: Grammar, first: FirstMap, t0: set<string>, syms: seq<string>, i: nat)
    requires i <= |syms|
    requires forall j :: i <= j < |syms| ==> Vanishing(g, first, syms[j])
    ensures t0 <= TrailerAfter(g, first, t0, syms, i)
    decreases |syms| - i
  {
    if i < |syms| {
      VanishingSuffixKeepsTrailer(g, first, t0, syms, i + 1);
    }
  }

  /**
   * The two rules classify `''` differently: after a nonterminal, Rule 1
   * reads it as a quoted terminal and adds its empty text "" (follow.cpp:76-78),
   * while Rule 2 reads it as epsilon and keeps the trailer (follow.cpp:129-131).
   */
  lemma EmptyQuoteClassifiedTwice(g: Grammar, first: FirstMap, t: set<string>)
    requires "A" in g.nonTerminals && "''" !in g.nonTerminals
    ensures LookupsDefined(g, first, ["A", "''"])
    ensures "" in AdjacencyAdds(g, first, ["A", "''"], 2, "A")
    ensures Step(g, first, t, "''") == t
  {
    var syms := ["A", "''"];
    assert LookupDefinedAt(g, first, syms, 0);
    assert AdjacencyAt(g, syms, 0);
    assert AdjacencyFor(g, first, syms, 0) == {""};
  }

  /**
   * Rule 2 does not filter epsilon: in `A 'ε'` the trailer reaching A is the
   * unquoted text "ε", an epsilon alias, and it goes into FOLLOW(A)
   * (follow.cpp:104-106, 132-137), whereas Rule 1 drops it (follow.cpp:90-91).
   */
  lemma QuotedEpsilonReachesFollow(g: Grammar, first: FirstMap, t0: set<string>)
    requires "A" in g.nonTerminals && "'ε'" !in g.nonTerminals
    ensures IsEps("ε")
    ensures "ε" in TrailerAdds(g, first, t0, ["A", "'ε'"], 0, "A")
    ensures LookupsDefined(g, first, ["A", "'ε'"]) && "ε" !in AdjacencyAdds(g, first, ["A", "'ε'"], 2, "A")
  {
    var syms := ["A", "'ε'"];
    assert IsQuotedTerminal(syms[1]) && Unquote(syms[1]) == "ε";
    assert TrailerAfter(g, first, t0, syms, 1) == {"ε"};
    assert LookupDefinedAt(g, first, syms, 0);
    assert FirstOfNext(g, first, syms[1]) == {"ε"};
    assert "ε" !in AdjacencyFor(g, first, syms, 0);
    assert AdjacencyAdds(g, first, syms, 1, "A") == AdjacencyFor(g, first, syms, 0);
    assert AdjacencyAdds(g, first, syms, 2, "A") == AdjacencyAdds(g, first, syms, 1, "A");
  }

  // ---------------------------------------------------------------------
  // The whole grammar
  // ---------------------------------------------------------------------

  /** Rule 1 and Rule 2 both hold at S for one alternative of `left`. */
  predicate AltClosed(g: Grammar, first: FirstMap, s: FollowMap, left: string, syms: seq<string>)
    requires LookupsDefined(g, first, syms)
  {
    AdjacencyClosed(g, first, s, syms) && TrailerClosed(g, first, s, left, syms)
  }

  /** Pointwise inclusion of FOLLOW maps (absent reads as empty). */
  ghost predicate Below(m: FollowMap, n: FollowMap) {
    forall k :: Get(m, k) <= Get(n, k)
  }

  /** Some FOLLOW set is larger in n than in m. */
  ghost predicate SomeSetGrew(m: FollowMap, n: FollowMap) {
    exists k :: |Get(m, k)| < |Get(n, k)|
  }

  /** Every FOLLOW set of m equals the one of n (absent reads as empty). */
  ghost predicate SameSets(m: FollowMap, n: FollowMap) {
    forall k :: Get(m, k) == Get(n, k)
  }

  lemma SubsetSize(a: set<string>, b: set<string>)
    requires a <= b
    ensures |a| <= |b|
    ensures |a| == |b| ==> a == b
  {
    assert b == a + (b - a);
    if |a| == |b| {
      assert |b - a| == 0;
    }
  }

  /** When no set grew in size, none changed at all. */
  lemma NoGrowthMeansSameSets(m: FollowMap, n: FollowMap)
    requires Below(m, n) && !SomeSetGrew(m, n)
    ensures SameSets(m, n)
  {
    forall k ensures Get(m, k) == Get(n, k) {
      SubsetSize(Get(m, k), Get(n, k));
    }
  }

  lemma BelowTransitive(a: FollowMap, b: FollowMap, c: FollowMap)
    requires Below(a, b) && Below(b, c)
    ensures Below(a, c)
  {
    forall k ensures Get(a, k) <= Get(c, k) {
      assert Get(a, k) <= Get(b, k);
    }
  }

  /** When n only adds to m, some set grew exactly when n holds something m lacks. */
  lemma GrewIffNotBelow(m: FollowMap, n: FollowMap)
    requires Below(m, n)
    ensures SomeSetGrew(m, n) <==> !Below(n, m)
  {
    if SomeSetGrew(m, n) {
      var k :| |Get(m, k)| < |Get(n, k)|;
      var a, b := Get(m, k), Get(n, k);
      assert b == (b - a) + (b * a);
      SubsetSize(b * a, a);
      var s :| s in b - a;
      assert s in Get(n, k) && s !in Get(m, k);
    }
    if !Below(n, m) {
      var k :| !(Get(n, k) <= Get(m, k));
      SubsetSize(Get(m, k), Get(n, k));
    }
  }

  /** Growth over two steps that each only add. */
  lemma GrewThrough(m0: FollowMap, m1: FollowMap, m2: FollowMap)
    requires Below(m0, m1) && Below(m1, m2)
    ensures Below(m0, m2)
    ensures SomeSetGrew(m0, m2) <==> SomeSetGrew(m0, m1) || SomeSetGrew(m1, m2)
  {
    BelowTransitive(m0, m1, m2);
    GrewIffNotBelow(m0, m1);
    GrewIffNotBelow(m1, m2);
    GrewIffNotBelow(m0, m2);
    if Below(m2, m0) {
      BelowTransitive(m1, m2, m0);
      BelowTransitive(m2, m0, m1);
    }
    if Below(m1, m0) && Below(m2, m1) {
      BelowTransitive(m2, m1, m0);
    }
  }

  /** An insert only adds, and it grows some set exactly when it grows `followSets[a]`. */
  lemma InsertAbove(before: FollowMap, a: string, add: set<string>)
    ensures Below(before, before[a := Get(before, a) + add])
    ensures SomeSetGrew(before, before[a := Get(before, a) + add]) <==> |Get(before, a) + add| > |Get(before, a)|
  {
    var n := before[a := Get(before, a) + add];
    assert Get(n, a) == Get(before, a) + add;
    assert forall k :: k != a ==> Get(n, k) == Get(before, k);
    if SomeSetGrew(before, n) {
      var k :| |Get(before, k)| < |Get(n, k)|;
      assert k == a;
    }
  }

  /**
   * One `followSets[a].insert(...)` with its size test: the map stays above m,
   * and some set has grown past m exactly when one had before or this insert
   * enlarged `followSets[a]`.
   */
  lemma InsertGrowth(m: FollowMap, before: FollowMap, a: string, add: set<string>)
    requires Below(m, before)
    ensures Below(m, before[a := Get(before, a) + add])
    ensures SomeSetGrew(m, before[a := Get(before, a) + add])
            <==> SomeSetGrew(m, before) || |Get(before, a) + add| > |Get(before, a)|
  {
    InsertAbove(before, a, add);
    GrewThrough(m, before, before[a := Get(before, a) + add]);
  }

  /**
   * The map after the initialisation of follow.cpp:28-37: every nonterminal's
   * entry reset to empty, then `$` added to the start symbol's entry.
   */
  function Seed(g: Grammar, m: FollowMap): (r: FollowMap)
    ensures r.Keys == m.Keys + g.nonTerminals + (if g.initialState != "" then {g.initialState} else {})
    ensures g.initialState != "" ==> "$" in r[g.initialState]
    ensures g.initialState != "" ==>
              r[g.initialState] == (if g.initialState in g.nonTerminals then {} else Get(m, g.initialState)) + {"$"}
    ensures forall k :: k in g.nonTerminals && k != g.initialState ==> r[k] == {}
    ensures forall k :: k in m && k !in g.nonTerminals && k != g.initialState ==> r[k] == m[k]
  {
    var reset := m + map nt | nt in g.nonTerminals :: {};
    if g.initialState != "" then reset[g.initialState := Get(reset, g.initialState) + {"$"}] else reset
  }

  // ---------------------------------------------------------------------
  // The finite universe behind termination (follow.cpp:39-42)
  // ---------------------------------------------------------------------

  /** The texts a symbol sequence can contribute: the symbols and their unquoted forms. */
  function Forms(syms: seq<string>): set<string> {
    (set x | x in syms) + (set x | x in syms && IsQuotedTerminal(x) :: Unquote(x))
  }

  /** Every member of every FIRST set. */
  function FirstValues(first: FirstMap): set<string> {
    set k, s | k in first && s in first[k] :: s
  }

  /** Every member of every FOLLOW set. */
  function Values(m: FollowMap): set<string> {
    set k, s | k in m && s in m[k] :: s
  }

  function AlternativesForms(alts: seq<seq<string>>): set<string>
    decreases |alts|
  {
    if alts == [] then {} else Forms(alts[0]) + AlternativesForms(alts[1..])
  }

  /** All keys lie in K and all members in U. */
  ghost predicate Bounded(m: FollowMap, keys: set<string>, universe: set<string>) {
    m.Keys <= keys && forall k :: k in m ==> m[k] <= universe
  }

  /** The (key, member) pairs of K x U not yet present: the loop's variant. */
  ghost function Missing(m: FollowMap, keys: set<string>, universe: set<string>): set<(string, string)> {
    set k, s | k in keys && s in universe && s !in Get(m, k) :: (k, s)
  }

  /** Maps with the same sets miss the same pairs. */
  lemma MissingSameSets(m: FollowMap, n: FollowMap, keys: set<string>, universe: set<string>)
    requires SameSets(m, n)
    ensures Missing(m, keys, universe) == Missing(n, keys, universe)
  {
  }

  /** A pass that let a set grow, inside the bounds, leaves fewer pairs missing. */
  lemma MissingShrinks(m: FollowMap, n: FollowMap, keys: set<string>, universe: set<string>)
    requires Below(m, n) && Bounded(n, keys, universe) && SomeSetGrew(m, n)
    ensures Missing(n, keys, universe) < Missing(m, keys, universe)
  {
    var k :| |Get(m, k)| < |Get(n, k)|;
    assert Get(m, k) <= Get(n, k);
    assert Get(n, k) - Get(m, k) != {} by {
      var a, b := Get(m, k), Get(n, k);
      assert b == a + (b - a);
      assert |b| <= |a| + |b - a|;
    }
    var s :| s in Get(n, k) - Get(m, k);
    assert k in keys && s in universe;
    var mm, mn := Missing(m, keys, universe), Missing(n, keys, universe);
    assert (k, s) in mm && (k, s) !in mn;
    forall pair | pair in mn
      ensures pair in mm
    {
      assert Get(m, pair.0) <= Get(n, pair.0);
    }
  }

  /** A proper subset of pairs is smaller: each changing pass takes at least one pair off. */
  lemma StrictSubsetSmaller(a: set<(string, string)>, b: set<(string, string)>)
    requires a < b
    ensures |a| < |b|
  {
    assert b == a + (b - a);
    assert b - a != {};
  }

  /** Rule 1 contributes only texts of the alternative and FIRST members. */
  lemma {:induction false} AdjacencyAddsBounded(g: Grammar, first: FirstMap, syms: seq<string>, i: nat, k: string)
    requires i <= |syms| && LookupsDefined(g, first, syms)
    ensures AdjacencyAdds(g, first, syms, i, k) <= Forms(syms) + FirstValues(first)
  {
    if i > 0 {
      AdjacencyAddsBounded(g, first, syms, i - 1, k);
      if AdjacencyAt(g, syms, i - 1) {
        var next := syms[i];
        assert LookupDefinedAt(g, first, syms, i - 1);
        if !IsQuotedTerminal(next) && next in g.nonTerminals {
          assert first[next] <= FirstValues(first);
        }
      }
    }
  }

  /** The trailer holds only its start, texts of the alternative and FIRST members. */
  lemma {:induction false} TrailerAfterBounded(g: Grammar, first: FirstMap, t0: set<string>, syms: seq<string>, i: nat)
    requires i <= |syms|
    ensures TrailerAfter(g, first, t0, syms, i) <= t0 + Forms(syms) + FirstValues(first)
    decreases |syms| - i
  {
    if i < |syms| {
      TrailerAfterBounded(g, first, t0, syms, i + 1);
      var x := syms[i];
      assert FirstOrEmpty(first, x) <= FirstValues(first);
    }
  }

  /** Rule 2 contributes only its start, texts of the alternative and FIRST members. */
  lemma {:induction false} TrailerAddsBounded(g: Grammar, first: FirstMap, t0: set<string>, syms: seq<string>, i: nat, k: string)
    requires i <= |syms|
    ensures TrailerAdds(g, first, t0, syms, i, k) <= t0 + Forms(syms) + FirstValues(first)
    decreases |syms| - i
  {
    if i < |syms| {
      TrailerAddsBounded(g, first, t0, syms, i + 1, k);
      TrailerAfterBounded(g, first, t0, syms, i + 1);
    }
  }

  // ---------------------------------------------------------------------
  // Epsilon aliases in FOLLOW sets (follow.cpp:86-91, 118-135)
  // ---------------------------------------------------------------------

  /** A set holding no epsilon alias. */
  predicate NoEpsIn(f: set<string>) {
    forall s :: s in f ==> !IsEps(s)
  }

  /** No FOLLOW set of the map holds an epsilon alias. */
  ghost predicate EpsFree(m: FollowMap) {
    forall k :: k in m ==> NoEpsIn(m[k])
  }

  /**
   * A token whose terminal text is an epsilon alias although the token is
   * neither a nonterminal nor an alias itself (`'ε'`, `''''`, `'EPS'`, ...):
   * Rule 2 puts that text into the trailer.
   */
  predicate LeaksEpsilon(g: Grammar, x: string) {
    x !in g.nonTerminals && !IsEps(x) && IsEps(TerminalText(x))
  }

  /** No token of the alternative leaks an epsilon alias. */
  predicate LeakFree(g: Grammar, syms: seq<string>) {
    forall i :: 0 <= i < |syms| ==> !LeaksEpsilon(g, syms[i])
  }

  /** Passing x keeps an alias-free trailer alias-free exactly when x does not leak. */
  lemma StepKeepsNoEps(g: Grammar, first: FirstMap, t: set<string>, x: string)
    requires NoEpsIn(t)
    ensures NoEpsIn(Step(g, first, t, x)) <==> !LeaksEpsilon(g, x)
  {
    if x in g.nonTerminals {
      assert NoEpsIn(NoEps(FirstOrEmpty(first, x)));
    } else if !IsEps(x) {
      assert TerminalText(x) in Step(g, first, t, x);
    }
  }

  /** Over a leak-free alternative the trailer never picks up an alias. */
  lemma {:induction false} TrailerAfterNoEps(g: Grammar, first: FirstMap, t0: set<string>, syms: seq<string>, i: nat)
    requires i <= |syms| && NoEpsIn(t0) && LeakFree(g, syms)
    ensures NoEpsIn(TrailerAfter(g, first, t0, syms, i))
    decreases |syms| - i
  {
    if i < |syms| {
      TrailerAfterNoEps(g, first, t0, syms, i + 1);
      StepKeepsNoEps(g, first, TrailerAfter(g, first, t0, syms, i + 1), syms[i]);
    }
  }

  /** Over a leak-free alternative Rule 2 adds no alias. */
  lemma {:induction false} TrailerAddsNoEps(g: Grammar, first: FirstMap, t0: set<string>, syms: seq<string>, i: nat, k: string)
    requires i <= |syms| && NoEpsIn(t0) && LeakFree(g, syms)
    ensures NoEpsIn(TrailerAdds(g, first, t0, syms, i, k))
    decreases |syms| - i
  {
    if i < |syms| {
      TrailerAddsNoEps(g, first, t0, syms, i + 1, k);
      TrailerAfterNoEps(g, first, t0, syms, i + 1);
    }
  }

  /** The initialisation adds only `$` and empty sets, so it keeps a map alias-free. */
  lemma SeedKeepsEpsFree(g: Grammar, m: FollowMap)
    requires EpsFree(m)
    ensures EpsFree(Seed(g, m))
  {
    var r := Seed(g, m);
    forall k | k in r ensures NoEpsIn(r[k]) {
      assert Get(m, k) == {} || NoEpsIn(Get(m, k));
    }
  }
}
