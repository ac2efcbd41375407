/**
 * The grammar as the FOLLOW computation receives it, and the decomposition of
 * one raw rule text into its left-hand name and the symbols of each
 * alternative (follow.cpp:45-64).
 */
module Rules {
  import opened Wrappers
  import opened Text

  /**
   * The grammar: the declared nonterminal names, the start symbol (the empty
   * string when there is none) and the raw rule texts `LHS -> alt1 | alt2`.
   */
  datatype Grammar = Grammar(nonTerminals: set<string>, initialState: string, rules: seq<string>)

  /** A rule text cut at its first arrow: the left name and the raw alternatives. */
  datatype Production = Production(left: string, alternatives: seq<string>)

  const Arrow: string := "->"

  /**
   * One rule text: trimmed, cut at the first "->" (a line without one, or
   * empty after trimming, yields None), both sides trimmed, and the right
   * side split on '|'.
   */
  function Decompose(r: string): (p: Option<Production>)
    ensures p.Some? <==> exists q: nat :: OccursAt(Trim(r), Arrow, q)
    ensures p.Some? ==>
      var line := Trim(r);
      exists q: nat :: OccursAt(line, Arrow, q) && (forall q': nat :: q' < q ==> !OccursAt(line, Arrow, q'))
               && p.value.left == Trim(line[..q]) && p.value.alternatives == Split(Trim(line[q + 2..]), '|')
  {
    var line := Trim(r);
    if line == "" then None
    else
      match Find(line, Arrow)
      case None => None
      case Some(pos) =>
        var left := Trim(line[..pos]);
        var right := Trim(line[pos + 2..]);
        Some(Production(left, Split(right, '|')))
  }

  /** The pieces kept as symbols: each piece trimmed, empty ones dropped, order kept. */
  function Tokens(raw: seq<string>): (syms: seq<string>)
    ensures |syms| <= |raw|
  {
    if raw == [] then []
    else
      var t := Trim(raw[|raw| - 1]);
      Tokens(raw[..|raw| - 1]) + (if t != "" then [t] else [])
  }

  /** The symbols of one alternative: split on ' ' and kept as Tokens says. */
  function AlternativeSymbols(alt: string): seq<string> {
    Tokens(Split(Trim(alt), ' '))
  }

  /** The normalised symbols of each alternative, in order. */
  function AllAlternativeSymbols(alts: seq<string>): (r: seq<seq<string>>)
    ensures |r| == |alts|
  {
    if alts == [] then [] else [AlternativeSymbols(alts[0])] + AllAlternativeSymbols(alts[1..])
  }

  lemma {:induction false} AllAlternativeSymbolsAt(alts: seq<string>, j: nat)
    requires j < |alts|
    ensures AllAlternativeSymbols(alts)[j] == AlternativeSymbols(alts[j])
  {
    if j > 0 {
      AllAlternativeSymbolsAt(alts[1..], j - 1);
    }
  }

  /** A symbol sequence as decomposition leaves it: no symbol is empty or padded. */
  predicate Normalized(syms: seq<string>) {
    forall i :: 0 <= i < |syms| ==> syms[i] != "" && Trimmed(syms[i])
  }

  /**
   * Tokens keeps exactly the non-empty trimmed pieces, each already trimmed.
   */
  lemma {:induction false} TokensExactly(raw: seq<string>)
    ensures Normalized(Tokens(raw))
    ensures forall t :: t in Tokens(raw) <==> t != "" && exists j :: 0 <= j < |raw| && t == Trim(raw[j])
  {
    if raw != [] {
      var init := raw[..|raw| - 1];
      TokensExactly(init);
      TrimSplits(raw[|raw| - 1]);
      forall t ensures t in Tokens(raw) <==> t != "" && exists j :: 0 <= j < |raw| && t == Trim(raw[j]) {
        if t != "" && exists j :: 0 <= j < |raw| && t == Trim(raw[j]) {
          var j :| 0 <= j < |raw| && t == Trim(raw[j]);
          if j < |raw| - 1 { assert t == Trim(init[j]); }
        }
        if t in Tokens(init) {
          var j :| 0 <= j < |init| && t == Trim(init[j]);
          assert t == Trim(raw[j]);
        }
      }
    }
  }

  /** A symbol never holds a space: the alternative was split on ' '. */
  lemma AlternativeSymbolsHaveNoSpace(alt: string)
    ensures Normalized(AlternativeSymbols(alt))
    ensures forall t :: t in AlternativeSymbols(alt) ==> ' ' !in t
  {
    var raw := Split(Trim(alt), ' ');
    TokensExactly(raw);
    forall t | t in AlternativeSymbols(alt) ensures ' ' !in t {
      var j :| 0 <= j < |raw| && t == Trim(raw[j]);
      TrimKeepsOut(raw[j], ' ');
    }
  }

  /**
   * Builds `symbols` from the pieces of an alternative, pushing each
   * non-empty trimmed piece in turn (follow.cpp:58-64).
   */
  method NormalizeAlternative(alt: string) returns (symbols: seq<string>)
    ensures symbols == AlternativeSymbols(alt)
    ensures Normalized(symbols)
  {
    var raw := Split(Trim(alt), ' ');
    symbols := [];
    var k := 0;
    while k < |raw|
      invariant 0 <= k <= |raw|
      invariant symbols == Tokens(raw[..k])
    {
      var t := Trim(raw[k]);
      if t != "" {
        symbols := symbols + [t];
      }
      assert raw[..k + 1][..k] == raw[..k];
      k := k + 1;
    }
    assert raw[..k] == raw;
    TokensExactly(raw);
  }
}
