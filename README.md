# FOLLOW sets of a context-free grammar

This project models `Follow::compute()` of follow.cpp and proves properties of
that model. `Follow::compute()` is the step of an LL(1) parser generator that
computes the FOLLOW set of every nonterminal. Its inputs are:

- the set of declared nonterminal names;
- an optional start symbol, where the empty string means there is none;
- the raw rule texts, each of the form `LHS -> alt1 | alt2`;
- the finished FIRST sets.

The computation runs in three stages:

1. It resets every nonterminal's entry to the empty set and puts `$` into
   the start symbol's entry.
2. It repeats passes over the rules until a pass makes no set grow.
3. A pass visits each rule text in turn: it trims the text, cuts it at the
   first `->` and splits the right side on `|`. It then splits each
   alternative on spaces and drops the empty tokens. On each alternative it
   applies two rules:
   - **Rule 1 (adjacency)**: a nonterminal followed by a symbol receives
     FIRST of that symbol, minus the epsilon aliases.
   - **Rule 2 (the trailer)**: the alternative is scanned right to left,
     carrying a `trailer` set that starts as FOLLOW(left). Each nonterminal
     receives the trailer. The trailer is then extended, or replaced, by
     what that symbol can start with.

Modules, in dependency order:

- `Wrappers`: `Option`.
- `Text`: `trim`, `split` and `std::string::find` as explicit definitions,
  with what follow.cpp needs of them proved.
- `Rules`: the grammar and the decomposition of one rule text
  (follow.cpp:45-64).
- `FollowRules`: the symbol helpers `is_eps` and `is_quoted_terminal`.
  Rule 1 and Rule 2 as functions of the map before them: what each adds,
  the map each leaves behind, its closure predicate, and the universe of
  keys and members that bounds every map.
- `FollowPass`: one alternative, one rule and one pass as map-to-map
  functions. Each level has four lemmas:
  - the map only grows;
  - it grows exactly when the closure predicate fails;
  - it never goes past a closed map above its start;
  - it stays inside the universe.
- `FollowSets`: `class Follow`. Its `followSets` field is updated in place by
  `Compute` and by the methods it calls. Each method is proved equal to the
  matching function of `FollowPass`/`FollowRules` applied to its old state.

`Compute` ends with these guarantees:

- every nonterminal has an entry;
- `$` is in FOLLOW of the start symbol;
- the map is above its seed;
- Rule 1 and Rule 2 are closed for every alternative of every rule;
- the result is the least map with these properties;
- the loop terminates. Its variant is the set of (key, member) pairs of a
  finite universe that are not yet present. A ghost counter bounds the
  passes by the size of that set at the seed, plus one;
- in a grammar where no token leaks an epsilon alias, and with an
  alias-free seed, no FOLLOW set holds an epsilon alias.

## Model

| member | source | states |
|---|---|---|
| Text.Find | follow.cpp:49 | `line.find("->")`: a found position is an occurrence with none before it; None means no occurrence at all |
| Text.Split | follow.cpp:54 | at least one piece, and no piece contains the delimiter |
| Text.JoinSplit | follow.cpp:54 | splitting loses nothing: joining the pieces with the delimiter gives the input back |
| Text.Trim | follow.cpp:46 | `trim` as defined here: leading and trailing white space removed, the middle kept |
| Text.TrimSplits | follow.cpp:46 | `trim` removes only white space at both ends; the result neither starts nor ends with white space |
| Text.TrimIdempotent | follow.cpp:69 | trimming an already trimmed symbol again changes nothing |
| Text.TrimKeepsOut | follow.cpp:58 | trimming never introduces a character that was absent |
| Rules.Decompose | follow.cpp:46-54 | a rule text yields a production exactly when its trimmed form contains `->`; then the left side is the trimmed text before the first `->` and the alternatives are the `|`-pieces of the trimmed text after it |
| Rules.Tokens | follow.cpp:61-64 | the kept symbols: every piece trimmed, empty results dropped, order kept; never more symbols than pieces |
| Rules.AlternativeSymbols | follow.cpp:58-64 | the symbols of one alternative: its trimmed text split on ' ', then kept as `Tokens` says |
| Rules.TokensExactly | follow.cpp:58-64 | the kept tokens are non-empty and trimmed, and a string is kept exactly when it is the non-empty trimmed form of some piece |
| Rules.AlternativeSymbolsHaveNoSpace | follow.cpp:58-64 | no symbol of an alternative contains a space |
| Rules.NormalizeAlternative | follow.cpp:58-64 | the `push_back` loop builds exactly the normalised symbol list of the alternative |
| FollowRules.IsEps | follow.cpp:17-19 | `is_eps`: exactly the four spellings `''`, `ε`, `EPS` and `epsilon`, compared case-sensitively |
| FollowRules.IsQuotedTerminal | follow.cpp:22-24 | `is_quoted_terminal`: at least two characters, with a single quote first and last |
| FollowRules.Touch | follow.cpp:98 | `followSets[left]` as an lvalue adds the key and changes no set |
| FollowRules.Unquote | follow.cpp:78 | the text between the quotes: put back between the two quotes it gives the token again |
| FollowRules.TerminalText | follow.cpp:134-135 | the text a terminal stands for: a quoted token its text between the quotes, any other token itself |
| FollowRules.Nullable | follow.cpp:115-116 | FIRST holds one of the four epsilon aliases |
| FollowRules.NullableIffSomeEps | follow.cpp:115-116 | the four-way nullable test holds exactly when some member of FIRST is an epsilon alias |
| FollowRules.QuotedEpsIsEmptyQuote | follow.cpp:17-24 | the only token that is both quoted and an epsilon alias is `''` |
| FollowRules.FirstOfNext | follow.cpp:74-86 | `firstNext`: the unquoted text of a quoted successor, the FIRST entry of a nonterminal one, the token itself for an implicit terminal, nothing for an epsilon alias |
| FollowRules.AdjacencyApplied | follow.cpp:68-95 | Rule 1 over positions 0..i-1: each nonterminal with a successor gains `firstNext` of that successor minus the epsilon aliases |
| FollowRules.AdjacencyClosedIffNothingToAdd | follow.cpp:68-95 | Rule 1 holds at a map, position by position, exactly when it would add nothing to any set |
| FollowRules.AdjacencyAppliedMeaning | follow.cpp:68-95 | after Rule 1 the touched nonterminal entries exist, and each set is its old value plus FIRST(next) minus epsilon for each occurrence |
| FollowRules.AdjacencyAddsNoEps | follow.cpp:88-92 | Rule 1 never puts an epsilon alias into a FOLLOW set |
| FollowRules.Step | follow.cpp:109-138 | the trailer after passing x: for a nonterminal, FIRST minus the aliases, joined to the trailer when FIRST is nullable and replacing it otherwise (a missing entry reads as empty); an alias keeps the trailer; a terminal replaces it by its terminal text |
| FollowRules.TrailerApplied | follow.cpp:98-139 | Rule 2 from the right end down to position i: each nonterminal gains the trailer built over the symbols to its right, starting from t0 |
| FollowRules.TrailerClosedIffNothingToAdd | follow.cpp:98-139 | Rule 2 holds at a map exactly when it would add nothing to any set |
| FollowRules.TrailerAppliedMeaning | follow.cpp:98-139 | after Rule 2 the entries of the scanned nonterminals exist, and each set is its old value plus the trailers that reached its occurrences |
| FollowRules.TrailerAfterMonotone | follow.cpp:98-128 | a larger starting trailer gives a larger trailer at every position |
| FollowRules.TrailerAddsMonotone | follow.cpp:98-128 | a larger starting trailer makes Rule 2 add more to every set |
| FollowRules.VanishingSuffixKeepsTrailer | follow.cpp:115-131 | when every symbol after position i is nullable or an epsilon alias, the trailer reaching i still holds FOLLOW(left) |
| FollowRules.EmptyQuoteClassifiedTwice | follow.cpp:76-78 | `''` after a nonterminal adds the empty text "" under Rule 1, yet counts as epsilon under Rule 2 (follow.cpp:129-131) |
| FollowRules.QuotedEpsilonReachesFollow | follow.cpp:132-137 | in `A 'ε'` Rule 2 puts the epsilon alias "ε" into FOLLOW(A), while Rule 1 drops it |
| FollowRules.NoGrowthMeansSameSets | follow.cpp:89-93 | when only inserts happened and no size grew, no set changed |
| FollowRules.GrewIffNotBelow | follow.cpp:93 | when a map only adds to another, some size grew exactly when the new map holds a member the old one lacks |
| FollowRules.GrewThrough | follow.cpp:105-107 | over two steps that only insert, a size grew exactly when it grew in one of the steps |
| FollowRules.InsertAbove | follow.cpp:105-107 | one insert only adds, and it grows some set exactly when it grows its own entry |
| FollowRules.InsertGrowth | follow.cpp:89-93 | after one insert with its size test, `changed` is right: some set grew exactly when one had grown before or this insert grew its entry |
| FollowRules.Seed | follow.cpp:28-37 | the seed keeps the old keys and adds the nonterminals and the start symbol; nonterminal entries other than the start symbol's are empty; the start symbol's entry is exactly `{$}` when it is a nonterminal and its old set plus `$` otherwise; other entries are unchanged |
| FollowRules.MissingSameSets | follow.cpp:39-42 | maps with the same sets have the same variant |
| FollowRules.MissingShrinks | follow.cpp:39-42 | a pass that grew a set within the universe strictly shrinks the loop's variant |
| FollowRules.AdjacencyAddsBounded | follow.cpp:68-95 | Rule 1 adds only tokens, unquoted tokens and FIRST members |
| FollowRules.TrailerAfterBounded | follow.cpp:98-139 | the trailer holds only FOLLOW(left), tokens, unquoted tokens and FIRST members |
| FollowRules.TrailerAddsBounded | follow.cpp:98-139 | Rule 2 adds only FOLLOW(left), tokens, unquoted tokens and FIRST members |
| FollowRules.StepKeepsNoEps | follow.cpp:109-138 | from an alias-free trailer, passing x keeps the trailer alias-free exactly when x does not leak, i.e. unless x is neither a nonterminal nor an alias but its terminal text is an alias |
| FollowRules.TrailerAfterNoEps | follow.cpp:98-139 | over an alternative without a leaking token, an alias-free trailer stays alias-free at every position |
| FollowRules.TrailerAddsNoEps | follow.cpp:98-139 | over an alternative without a leaking token, with an alias-free start, Rule 2 adds no alias to any set |
| FollowRules.SeedKeepsEpsFree | follow.cpp:28-37 | the initialisation adds only empty sets and `$`, so an alias-free map stays alias-free |
| FollowPass.AltApplied | follow.cpp:66-139 | one alternative: Rule 1, then Rule 2 with the trailer starting from FOLLOW(left) as Rule 1 left it, the entry of left being created (follow.cpp:98) |
| FollowPass.AltAppliedMeaning | follow.cpp:66-139 | one alternative adds its Rule-1 share, then its Rule-2 share with the trailer starting from FOLLOW(left) as Rule 1 left it |
| FollowPass.AltGrowth | follow.cpp:66-139 | one alternative keeps every key and only adds; it adds nothing exactly when both rules already hold for it |
| FollowPass.AltLeast | follow.cpp:66-139 | one alternative never goes past a map above its start where both rules hold |
| FollowPass.AltBounded | follow.cpp:66-139 | one alternative keeps the map inside the bounding keys and universe |
| FollowPass.AltClosedSameSets | follow.cpp:66-139 | closure of an alternative depends only on the sets, not on which empty entries exist |
| FollowPass.AltsApplied | follow.cpp:56-139 | the alternatives alts[..n] of one rule applied in order |
| FollowPass.AltsGrowth | follow.cpp:56-139 | the alternatives in order keep every key and only add; they add nothing exactly when each alternative is closed |
| FollowPass.AltsLeast | follow.cpp:56-139 | the alternatives never go past a map above their start where all of them are closed |
| FollowPass.AltsBounded | follow.cpp:56-139 | the alternatives keep the map inside the bounds |
| FollowPass.AltsClosedAt | follow.cpp:56-139 | when a prefix of the alternatives is closed, each alternative in it is closed |
| FollowPass.NormalizeRule | follow.cpp:46-64 | a rule text becomes its left name with the symbols of each alternative, or None when it is blank or has no `->` |
| FollowPass.RuleApplied | follow.cpp:45-140 | one rule: its alternatives in order; a skipped rule text leaves the map as it is |
| FollowPass.RuleGrowth | follow.cpp:45-140 | one rule keeps every key and only adds; a skipped rule text changes nothing; it adds nothing exactly when the rule is closed |
| FollowPass.RuleLeast | follow.cpp:45-140 | one rule never goes past a closed map above its start |
| FollowPass.RuleBounded | follow.cpp:45-140 | one rule keeps the map inside the bounds |
| FollowPass.PassApplied | follow.cpp:45-141 | one pass: the rules rules[..n] applied in order |
| FollowPass.PassGrowth | follow.cpp:42-141 | a pass keeps every key and only adds; it adds nothing exactly when every rule is closed |
| FollowPass.PassLeast | follow.cpp:42-141 | a pass never goes past a closed map above its start |
| FollowPass.PassBounded | follow.cpp:42-141 | a pass keeps the map inside the nonterminals and left names, and inside the tokens, unquoted tokens and FIRST members |
| FollowPass.ClosedSameSets | follow.cpp:39-42 | closure depends only on the sets, so a pass that changed nothing leaves a closed map |
| FollowPass.ClosedAt | follow.cpp:45-139 | at a closed map, Rule 1 and Rule 2 hold for every alternative of every rule text that is not skipped |
| FollowPass.LastInheritsLeft | follow.cpp:98-107 | at a closed map, an alternative ending in a nonterminal X has FOLLOW(left) within FOLLOW(X) |
| FollowPass.AltKeepsEpsFree | follow.cpp:66-139 | one alternative without a leaking token keeps every FOLLOW set alias-free |
| FollowPass.AltsKeepEpsFree | follow.cpp:56-139 | alternatives without a leaking token keep every FOLLOW set alias-free |
| FollowPass.RuleKeepsEpsFree | follow.cpp:45-140 | a rule without a leaking token keeps every FOLLOW set alias-free |
| FollowPass.PassKeepsEpsFree | follow.cpp:42-141 | a pass over rules without a leaking token keeps every FOLLOW set alias-free |
| FollowSets.RemoveEps | follow.cpp:90-91 | `FX_noeps` (also follow.cpp:119-120): the members that are not epsilon aliases, all of them and nothing else |
| FollowSets.Follow.constructor | follow.cpp:26 | the object holds the given grammar and FIRST sets and an empty FOLLOW map before `compute()` runs |
| FollowSets.Follow.Insert | follow.cpp:89-93 | `followSets[a]` becomes its old value plus the inserted set, entry created if missing; the flag says whether its size grew |
| FollowSets.Follow.ApplyAdjacency | follow.cpp:68-95 | the map becomes Rule 1 applied to the old map, and the flag says exactly whether some set grew |
| FollowSets.Follow.TrailerPast | follow.cpp:109-128 | the trailer update at a nonterminal: extended by FIRST minus epsilon when it is nullable, otherwise replaced by it; a missing FIRST entry reads as empty |
| FollowSets.Follow.VisitSymbol | follow.cpp:100-138 | one symbol of the scan: a nonterminal receives the trailer; the trailer then follows the update law for nonterminals, epsilon aliases and terminals |
| FollowSets.Follow.ApplyTrailer | follow.cpp:98-139 | the map becomes Rule 2 applied to the old map with the trailer starting from FOLLOW(left), and the flag says exactly whether some set grew |
| FollowSets.Follow.ApplyAlternative | follow.cpp:66-139 | the map becomes one alternative applied to the old map, and the flag says exactly whether some set grew |
| FollowSets.Follow.ApplyAlternatives | follow.cpp:56-139 | the map becomes the alternatives applied in order, and the flag says exactly whether some set grew |
| FollowSets.Follow.ApplyRule | follow.cpp:45-140 | a blank or arrow-less rule text changes nothing; otherwise the map becomes its alternatives applied in order; the flag says exactly whether some set grew |
| FollowSets.Follow.Pass | follow.cpp:42-141 | the map becomes one pass over all rule texts, and `changed` says exactly whether some set grew |
| FollowSets.Follow.Initialize | follow.cpp:28-37 | the map becomes the seed of the old map |
| FollowSets.Follow.Compute | follow.cpp:26-143 | every nonterminal has an entry; keys are the seed's plus left names only; `$` is in FOLLOW(start); the map is above the seed; both rules are closed; it is below every closed map above the seed; when no alternative holds a leaking token and the seed is alias-free, no set holds an epsilon alias; the loop makes at least one pass and at most one more than the number of (key, member) pairs of `KeyBound` x `MemberBound` that the seed lacks |

## Left out

- `Follow::print()` (follow.cpp:149-160) is left out: it only writes to the console.
- `trim` and `split` come from utils.h, which is not part of this model. `Text` defines them explicitly, and these definitions are assumptions. `trim` removes leading and trailing ' ', '\t', '\n', '\r', '\v' and '\f'. `split(s, d)` cuts at every `d` and keeps empty pieces, so an empty string gives one empty piece.
- The `Grammar` and `First` classes of follow.h are not part of this model. The grammar is a value of three fields, and the FIRST sets are a map given to the constructor. The constructor, also in follow.h, is modelled as starting from an empty `followSets`. `Compute` is proved for any starting map.
- Computing the FIRST sets is left out. They are an input and are assumed final.
- `first.firstSets.at(nextSym)` throws when the entry is missing (follow.cpp:82). The model makes this a precondition: `GrammarLookupsDefined` requires every such lookup that Rule 1 reaches to find its entry. `find` in Rule 2 (follow.cpp:111-114) is modelled as written: a missing entry reads as the empty, non-nullable set.
- The element-by-element inserts (follow.cpp:90-92, 106, 124) are modelled as one set union each. `std::set` ordering and the UTF-8 encoding of "ε" are not modelled: symbols are opaque strings, and ordering only matters to printing.
- By the textbook definition, a FOLLOW set never holds epsilon. The code does not ensure this, and the model follows the code. A token leaks an alias when it is neither a nonterminal nor an alias itself but its terminal text is one: `'ε'`, `'EPS'`, `'epsilon'`, and `''''`, whose text is `''`. Rule 2 puts that text into the FOLLOW set of the nonterminal before it. `FollowRules.QuotedEpsilonReachesFollow` exhibits this. `FollowRules.StepKeepsNoEps` shows that these are the only tokens that do it, and `Compute` proves the FOLLOW sets alias-free for a grammar without them.
- The two rules classify symbols in different orders. Rule 1: quoted, then nonterminal, then implicit terminal. Rule 2: nonterminal, then epsilon, then terminal. So `''` after a nonterminal adds "" under Rule 1 but is epsilon under Rule 2. This is kept as written; `FollowRules.EmptyQuoteClassifiedTwice` exhibits it.
