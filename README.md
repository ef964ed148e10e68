# Grammar normalisation, automaton equivalence and graph distances

This project models three small C++ programs and proves properties of the models.

- **ChomskyNormalForm.cpp.** The class `ContextFreeGrammar` holds three pieces of state:
  - `data`, a list of rules;
  - `current_nonterminals_count`, a counter for fresh nonterminals, starting at 26;
  - `nullables`, a set.

  `ConvertToChomskyNormalForm` runs four passes, and each pass rebuilds `data`:
  - split long rules into binary ones (`DeleteLongRules`);
  - compute the nullable nonterminals and drop ε-rules (`DeleteEPSRules`);
  - compute chain-rule ancestors by breadth-first search and drop the chain rules (`DeleteChainRules`);
  - replace terminals inside two-symbol rules by fresh nonterminals (`DeleteSemiTerminals`).

  `LexicographicallyMinimalWord` then fills a table `dp[length][nonterminal]` with lexicographically least words. It returns the least word of length 1 to `length` derivable from `S`. It returns the empty word when `S` is nullable, and nothing when no such word exists.
- **AutomatonEquality.cpp.** `Automaton::IsEquivalent` decides whether two complete DFAs accept the same language. It marks pairs of states as distinguishable in two steps:
  - it seeds the pairs in which exactly one state is accepting;
  - it then walks the product transitions backwards.
- **GraphDistance.cpp.** `Graph` stores every undirected edge in both directions. `ShortestDistance` is a deque-driven label-correcting search: a zero-length edge sends its end to the front of the deque, any other edge to the back.

## How each class is modelled

- **Rule-list passes.** The rule list is a `seq<Rule>`. Each pass is a method of the class `ContextFreeGrammar` with a `push_back` loop. The method is proved to produce a back-recursive specification function: `LongRulesDeleted`, `EpsRulesDeleted`, `ChainRulesDeleted` or `SemiTerminalsDeleted`. The properties the passes promise are lemmas about these functions.
- **`LexicographicallyMinimalWord`.** It fills an `array2<Option<string>>`, in which `None` plays the role of the string `"|"`. The DP is proved equal to the recursive function `Word`. Cells are proved to hold the least derivable word of each length, where words are derived through a derivation tree datatype.
- **Automaton.** The class keeps its fields as sequences. `IsEquivalent` is proved against the language of the pair of start states. The argument has two parts:
  - `Marking` is the structural invariant of the worklist;
  - `Sound` is the semantic invariant: every separated pair is marked, and every marked pair is distinguished by a word.
- **Graph distances.** The distances are an `array<Distance>`, where `Distance` is either a finite length or `NoWay`. The deque is a `seq<int>`. `ShortestDistance` is proved to return the length of a shortest walk, or `NoWay` exactly when `finish` is unreachable. The loop terminates because a finite distance is at most `(reached - 1) · maxLength`: the sum of the distances, with a large constant standing in for each `NoWay`, strictly drops whenever something is queued.

## Model

| member | source | states |
|---|---|---|
| Grammar.FromChar | ChomskyNormalForm.cpp:27-36 | a lowercase letter becomes terminal number `letter - 'a'`; any other character becomes nonterminal `letter - 'A'`; letters land in `[0, 26)` |
| Grammar.ToChar | ChomskyNormalForm.cpp:41-43 | a terminal spells as a lowercase letter, a nonterminal as an uppercase one |
| Grammar.CharRoundTrip | ChomskyNormalForm.cpp:27-43 | `ToChar(Symbol(c)) == c` for every letter `c` |
| Grammar.SymbolRoundTrip | ChomskyNormalForm.cpp:27-43 | `Symbol(ToChar(s)) == s` for every symbol with id in `[0, 26)` |
| Grammar.OneSymbolRule | ChomskyNormalForm.cpp:73-75 | the rule has the given left side and exactly the one given right symbol |
| Grammar.IsItNullable | ChomskyNormalForm.cpp:112-114 | definition: a symbol is nullable when it is a nonterminal whose id is in the set; a terminal never is |
| Grammar.IsItEpsRule | ChomskyNormalForm.cpp:116-118 | definition: a rule is an ε-rule when its right side is empty |
| Grammar.IsItChainRule | ChomskyNormalForm.cpp:164-167 | definition: a rule is a chain rule when its right side is one nonterminal; it requires a non-empty right side because line 165 reads `right[0]` before line 166 tests the size |
| Grammar.IsItSemiTerminal | ChomskyNormalForm.cpp:216-226 | definition: a rule whose right side is not of size one and holds some terminal |
| LongRules.LongRulesDeleted | ChomskyNormalForm.cpp:77-108 | definition: the output of `DeleteLongRules` from counter `c`, each rule replaced by its split with the counter advanced past the earlier rules' fresh ids |
| LongRules.BinarizedShape | ChomskyNormalForm.cpp:85-104 | a rule of length ≤ 2 is kept alone; a rule of length n > 2 becomes n−1 binary rules: the first keeps the left side, rule i starts with `right[i]`, the last ends with `right[n−1]`, and consecutive rules are chained through fresh ids `c + i` |
| LongRules.BinarizedSpellsRule | ChomskyNormalForm.cpp:85-104 | the first symbols of the binary rules followed by the last second symbol spell the original right side |
| LongRules.LongRulesDeletedShort | ChomskyNormalForm.cpp:77-108 | after the pass no rule has more than two right symbols |
| LongRules.LongRulesDeletedKeepsShort | ChomskyNormalForm.cpp:81-83 | every rule of length ≤ 2 survives unchanged |
| LongRules.BinarizedWellFormed | ChomskyNormalForm.cpp:89-105 | the split rules use only valid symbols; their left ids are the original left id or fresh ids in `[c, c + n − 2)` |
| LongRules.LongRulesDeletedWellFormed | ChomskyNormalForm.cpp:77-108 | a well-formed grammar stays well-formed with the counter raised by the fresh ids |
| LongRules.LongRulesDeletedLeftIds | ChomskyNormalForm.cpp:89-105 | every left id after the pass is an old left id or a fresh id at or above the old counter |
| LongRules.LongRulesDeletedIdentity | ChomskyNormalForm.cpp:81-83 | on a grammar without long rules the pass returns the same list and allocates nothing |
| LongRules.LongRulesDeletedIdempotent | ChomskyNormalForm.cpp:77-108 | running the pass twice gives the result of running it once, and the second run allocates nothing |
| Nullable.TerminalNeverNullable | ChomskyNormalForm.cpp:112-114 | a terminal is never nullable, whatever the set |
| Nullable.TerminalBlocksNullable | ChomskyNormalForm.cpp:124-131 | a right side containing a terminal is never all-nullable |
| Nullable.LeastClosedUnique | ChomskyNormalForm.cpp:120-139 | the least closed superset of a set is unique, so the fixed point `FindNullable` reaches is determined by the rules |
| Nullable.LeastClosedWithinLeftIds | ChomskyNormalForm.cpp:132-133 | the least closed set adds only left ids of rules |
| Nullable.EpsImageMembers | ChomskyNormalForm.cpp:144-159 | one rule yields exactly: itself when non-empty, `A→Y` when X is nullable, `A→X` when Y is nullable |
| Nullable.EpsRulesDeleted | ChomskyNormalForm.cpp:141-162 | definition: the output of `DeleteEPSRules` for a given nullable set, the images of the rules in input order |
| Nullable.EpsRulesDeletedMembers | ChomskyNormalForm.cpp:141-162 | a rule is in the output iff some input rule produces it as above |
| Nullable.EpsRulesDeletedShape | ChomskyNormalForm.cpp:141-162 | no ε-rule remains; every non-empty rule is kept; both unit copies of a binary rule are added under their nullability conditions |
| Nullable.EpsRulesDeletedShort | ChomskyNormalForm.cpp:141-162 | after binarisation the output rules have one or two right symbols |
| Nullable.EpsRulesDeletedWellFormed | ChomskyNormalForm.cpp:141-162 | the output stays well-formed and introduces no new left id |
| ChainRules.ChainGraphEdges | ChomskyNormalForm.cpp:170-176 | `graph[u]` contains `to` iff some chain rule `u → to` exists |
| ChainRules.ChainGraphInRange | ChomskyNormalForm.cpp:170-176 | every edge of the chain graph ends at a vertex of the graph |
| ChainRules.AncestorsBelowSpec | ChomskyNormalForm.cpp:177-194 | after the searches from vertices `1..k−1`, `v`'s list holds exactly the u in `[1, k)`, `u ≠ v`, that reach `v` by ≥ 1 chain edges, in ascending order |
| ChainRules.ChainAncestors | ChomskyNormalForm.cpp:169-196 | definition: what `FindChainRules` returns, one ancestor list per nonterminal after the searches from 1 .. count−1 |
| ChainRules.ChainAncestorsSpec | ChomskyNormalForm.cpp:169-196 | `ancestors[v]` holds exactly the u in `[1, count)`, `u ≠ v`, that reach `v`; it is strictly ascending, so has no duplicates, and never holds 0 |
| ChainRules.ChainAncestorsInRange | ChomskyNormalForm.cpp:177 | every recorded ancestor is in `[1, count)` |
| ChainRules.VisitSuccessors | ChomskyNormalForm.cpp:185-192 | one round of the search marks every unseen successor of `root`, queues it and records `vertex` as its ancestor, keeping the search invariant |
| ChainRules.Visit | ChomskyNormalForm.cpp:186-191 | one successor `to`: if unused it is marked, queued and given `vertex` as ancestor; either way it leaves the unseen set, the queue grows only when it was unseen, and the search invariant is kept |
| ChainRules.SearchFrom | ChomskyNormalForm.cpp:178-193 | the search from `vertex` appends `vertex` to the list of exactly the vertices other than `vertex` that it reaches |
| ChainRules.ChainImageMembers | ChomskyNormalForm.cpp:202-211 | a chain rule yields nothing; any other rule yields itself and one copy per ancestor of its left side |
| ChainRules.ChainRulesDeleted | ChomskyNormalForm.cpp:198-214 | definition: the output of `DeleteChainRules` for given ancestor lists, the images of the rules in input order |
| ChainRules.ChainRulesDeletedMembers | ChomskyNormalForm.cpp:198-214 | a rule is in the output iff some input rule carries it as above |
| ChainRules.ChainRulesDeletedShape | ChomskyNormalForm.cpp:198-214 | no chain rule remains; each non-chain rule and each ancestor copy of it is present |
| ChainRules.ChainRulesDeletedShort | ChomskyNormalForm.cpp:198-214 | rules keep one or two right symbols |
| ChainRules.ChainRulesDeletedWellFormed | ChomskyNormalForm.cpp:206-210 | copies use in-range ancestor ids, so the output stays well-formed |
| ChainRules.ChainRulesDeletedLeftIds | ChomskyNormalForm.cpp:198-214 | with the ancestors `FindChainRules` computes, the output is well-formed and every left id is an old left id |
| SemiTerminals.RenamedSpec | ChomskyNormalForm.cpp:233-244 | the new right side has no terminal; nonterminals stay in place; the i-th terminal becomes fresh nonterminal `c + (terminals before i)` |
| SemiTerminals.UnitsSpec | ChomskyNormalForm.cpp:233-240 | one unit rule `fresh → terminal` per terminal occurrence, with fresh ids in `[c, c + terminals)` |
| SemiTerminals.IsolatedImageSpec | ChomskyNormalForm.cpp:230-251 | a rule that is not semi-terminal is re-emitted as it is; a semi-terminal one becomes its unit rules followed by the renamed rule |
| SemiTerminals.IsolatedImageCnf | ChomskyNormalForm.cpp:216-253 | a one- or two-symbol non-chain rule becomes rules in Chomsky normal form |
| SemiTerminals.SemiTerminalsDeleted | ChomskyNormalForm.cpp:228-253 | definition: the output of `DeleteSemiTerminals` from counter `c`, the images of the rules in input order with the counter advanced past the earlier rules' fresh ids |
| SemiTerminals.SemiTerminalsDeletedCnf | ChomskyNormalForm.cpp:228-253 | on short non-chain rules the pass produces a grammar in Chomsky normal form |
| SemiTerminals.SemiTerminalsDeletedKeeps | ChomskyNormalForm.cpp:246-250 | every rule without a terminal to isolate survives unchanged |
| SemiTerminals.IsolatedImageWellFormed | ChomskyNormalForm.cpp:236-237 | the fresh ids are in `[c, c + minted)` and the output is well-formed |
| SemiTerminals.SemiTerminalsDeletedWellFormed | ChomskyNormalForm.cpp:228-253 | the output is well-formed with the counter raised by one per isolated terminal |
| SemiTerminals.SemiTerminalsDeletedLeftIds | ChomskyNormalForm.cpp:236-249 | every left id is an old one or a fresh id at or above the old counter |
| MinimalWord.LexLessIrreflexive | ChomskyNormalForm.cpp:299 | string `<` is irreflexive |
| MinimalWord.LexLessTransitive | ChomskyNormalForm.cpp:299 | string `<` is transitive |
| MinimalWord.LexLessTotal | ChomskyNormalForm.cpp:299 | two different strings are ordered one way or the other |
| MinimalWord.LexLeTransitive | ChomskyNormalForm.cpp:299 | `<=` on strings is transitive |
| MinimalWord.LexLessCommonPrefix | ChomskyNormalForm.cpp:312 | a common prefix does not change the order |
| MinimalWord.LexLessSameLength | ChomskyNormalForm.cpp:312 | of two words with equal-length first halves, the one whose first half is less is less whatever follows |
| MinimalWord.LexLeConcat | ChomskyNormalForm.cpp:312 | concatenation of equal-length halves is monotone in both halves |
| MinimalWord.MinCellSpec | ChomskyNormalForm.cpp:299-319 | `std::min` of two cells returns one of them, is `INF` only when both are, and is at most each |
| MinimalWord.InfIsTop | ChomskyNormalForm.cpp:290 | every lowercase word is less than the `INF` sentinel, a vertical bar, which sorts after `z` |
| MinimalWord.StdMinAgrees | ChomskyNormalForm.cpp:290-299 | on cells spelled with the vertical-bar sentinel for `INF`, `MinCell` is exactly `std::min` |
| MinimalWord.MultiSymbolRules | ChomskyNormalForm.cpp:276-284 | a rule is kept iff it has more than one right symbol |
| MinimalWord.UnitWordFrom | ChomskyNormalForm.cpp:292-301 | the length-1 cell comes from some unit rule |
| MinimalWord.UnitWordBelow | ChomskyNormalForm.cpp:292-301 | the length-1 cell is at most every letter a unit rule of that nonterminal gives |
| MinimalWord.PieceFoldFrom | ChomskyNormalForm.cpp:308-314 | folding the splits leaves the old cell or the candidate of one split |
| MinimalWord.PieceFoldBelow | ChomskyNormalForm.cpp:308-314 | the folded cell is at most the old cell and every split candidate |
| MinimalWord.BinaryWordFrom | ChomskyNormalForm.cpp:304-315 | a filled cell of length ≥ 2 is the candidate of some binary rule and split |
| MinimalWord.BinaryWordBelow | ChomskyNormalForm.cpp:304-315 | the cell is at most every candidate of every binary rule of that nonterminal |
| MinimalWord.CandidateSound | ChomskyNormalForm.cpp:309-313 | joining two derived halves derives the joined word from the rule's left side |
| MinimalWord.CandidateMinimal | ChomskyNormalForm.cpp:309-313 | the candidate of a split is at most every word whose halves the two cells bound |
| MinimalWord.Word | ChomskyNormalForm.cpp:291-316 | definition: `dp[s][v]` once the table is filled: INF for length 0, the unit-rule fold for length 1, the fold over binary rules and splits for length ≥ 2 |
| MinimalWord.WordBinary | ChomskyNormalForm.cpp:303-316 | a cell of length ≥ 2 is the fold over all binary rules |
| MinimalWord.WordSound | ChomskyNormalForm.cpp:291-316 | a filled cell `dp[s][v]` is a lowercase word of length s that `v` derives |
| MinimalWord.WordSoundBinary | ChomskyNormalForm.cpp:303-316 | the same for cells of length ≥ 2 |
| MinimalWord.WordMinimal | ChomskyNormalForm.cpp:291-316 | the cell `dp[s][v]` is at most every word of length s that `v` derives |
| MinimalWord.WordMinimalBinary | ChomskyNormalForm.cpp:303-316 | the same for words derived by a binary rule |
| MinimalWord.WordNoneIff | ChomskyNormalForm.cpp:291-316 | the cell is `INF` iff `v` derives no word of that length |
| MinimalWord.MinimalUpToCorrect | ChomskyNormalForm.cpp:317-321 | the answer is a word of length 1..L derived from `S` and at most every such word, and it is absent iff there is none |
| ChomskyNormalForm.RightPart | ChomskyNormalForm.cpp:260-263 | the right side has one symbol per character from position 3 on |
| ChomskyNormalForm.ParsedRules | ChomskyNormalForm.cpp:257-265 | one rule per input line, in order |
| ChomskyNormalForm.ParsedRuleRoundTrip | ChomskyNormalForm.cpp:258-264 | a line of letters parses into symbols that spell the line back |
| ChomskyNormalForm.ParsedRulesWellFormed | ChomskyNormalForm.cpp:257-266 | lines of letters give a well-formed grammar with 26 nonterminals |
| ChomskyNormalForm.LongStage | ChomskyNormalForm.cpp:270 | the first pass leaves well-formed rules of length ≤ 2 |
| ChomskyNormalForm.EpsStage | ChomskyNormalForm.cpp:271 | the second pass leaves well-formed rules of length 1 or 2 |
| ChomskyNormalForm.ChainStage | ChomskyNormalForm.cpp:272 | the third pass leaves no chain rule |
| ChomskyNormalForm.SemiStage | ChomskyNormalForm.cpp:273 | the fourth pass leaves a grammar in Chomsky normal form |
| ChomskyNormalForm.NormalizedCnf | ChomskyNormalForm.cpp:269-274 | the four passes give a well-formed grammar in Chomsky normal form and a counter that did not decrease |
| ChomskyNormalForm.NormalizedLeftIds | ChomskyNormalForm.cpp:269-274 | every left id after the passes is an old one or a fresh id at or above the old counter |
| ChomskyNormalForm.NormalizedValid | ChomskyNormalForm.cpp:269-274 | the class invariant, Chomsky normal form and terminal unit rules hold after the passes |
| ChomskyNormalForm.CnfUnitsTerminal | ChomskyNormalForm.cpp:294 | in Chomsky normal form every one-symbol rule has a terminal, as the assertion at line 294 expects |
| ChomskyNormalForm.PushSplit | ChomskyNormalForm.cpp:85-104 | the split loop appends exactly the binary rules of the long rule |
| ChomskyNormalForm.PushCopies | ChomskyNormalForm.cpp:208-211 | one copy of the rule is appended per ancestor, in order |
| ChomskyNormalForm.FillUnits | ChomskyNormalForm.cpp:292-301 | row 1 of the table holds the least letter of each nonterminal's unit rules; other rows stay `INF` |
| ChomskyNormalForm.FoldPieces | ChomskyNormalForm.cpp:308-314 | the split loop folds every split candidate into the one cell and changes nothing else |
| ChomskyNormalForm.FillRow | ChomskyNormalForm.cpp:303-316 | row `size` ends equal to `Word(size, ·)`; other rows are unchanged |
| ChomskyNormalForm.PushEpsImage | ChomskyNormalForm.cpp:145-159 | one rule appends exactly its ε-pass image to the new rules |
| ChomskyNormalForm.PushImage | ChomskyNormalForm.cpp:201-212 | one rule appends exactly its chain-pass image to the new rules |
| ChomskyNormalForm.ContextFreeGrammar.constructor | ChomskyNormalForm.cpp:257-267 | the rules are the parsed lines, the counter is 26, and the invariant holds for lines of letters |
| ChomskyNormalForm.ContextFreeGrammar.DeleteLongRules | ChomskyNormalForm.cpp:77-108 | `data` becomes `LongRulesDeleted(old data, old counter)`; the counter grows by n−2 per long rule; the invariant is kept |
| ChomskyNormalForm.ContextFreeGrammar.FindNullable | ChomskyNormalForm.cpp:120-139 | `nullables` grows to the least set containing the old one that is closed under the rules |
| ChomskyNormalForm.ContextFreeGrammar.DeleteEpsRules | ChomskyNormalForm.cpp:141-162 | the nullable fixed point is computed, and `data` becomes `EpsRulesDeleted` of it with no ε-rule left |
| ChomskyNormalForm.ContextFreeGrammar.FindChainRules | ChomskyNormalForm.cpp:169-196 | returns `ChainAncestors`: the proper ancestors in `[1, count)`, ascending |
| ChomskyNormalForm.ContextFreeGrammar.DeleteChainRules | ChomskyNormalForm.cpp:198-214 | `data` becomes `ChainRulesDeleted` with those ancestors |
| ChomskyNormalForm.ContextFreeGrammar.IsolateTerminals | ChomskyNormalForm.cpp:233-244 | appends the unit rules, returns the renamed right side, and raises the counter by the number of terminals |
| ChomskyNormalForm.ContextFreeGrammar.DeleteSemiTerminals | ChomskyNormalForm.cpp:228-253 | `data` becomes `SemiTerminalsDeleted(old data, old counter)`; the counter grows by one per isolated terminal |
| ChomskyNormalForm.ContextFreeGrammar.ConvertToChomskyNormalForm | ChomskyNormalForm.cpp:269-274 | the four passes in order; the result is in Chomsky normal form, left ids are old or fresh, and `nullables` is the least closed set |
| ChomskyNormalForm.ContextFreeGrammar.GrammarWithoutOneSymbolRules | ChomskyNormalForm.cpp:276-284 | returns the rules with more than one right symbol, in order |
| ChomskyNormalForm.ContextFreeGrammar.LexicographicallyMinimalWord | ChomskyNormalForm.cpp:286-322 | `""` when `S` is nullable; otherwise the least word of length 1..`length` derived from `S`, absent iff none exists |
| AutomatonEquality.PositionBounds | AutomatonEquality.cpp:29-31 | `Position(row, column, width)` lies in `[0, rows·width)` |
| AutomatonEquality.PositionDecode | AutomatonEquality.cpp:29-31 | division and remainder by the width recover the row and the column |
| AutomatonEquality.PositionInjective | AutomatonEquality.cpp:29-31 | distinct pairs with column below the width get distinct positions |
| AutomatonEquality.PositionSplit | AutomatonEquality.cpp:29-31 | every index below `rows·width` is the position of its quotient and remainder |
| AutomatonEquality.Position | AutomatonEquality.cpp:29-31 | definition: the pair `(row, column)` is numbered `row·width + column` |
| AutomatonEquality.Flags | AutomatonEquality.cpp:73-76 | definition: `is_terminal` after the constructor marked the exits in order |
| AutomatonEquality.FlagsSpec | AutomatonEquality.cpp:73-76 | `is_terminal[s]` is true exactly for the states listed in `exits` |
| AutomatonEquality.LastLinkSpec | AutomatonEquality.cpp:77-83 | an entry no link sets is −1; otherwise it is the target of the last link that sets it |
| AutomatonEquality.Table | AutomatonEquality.cpp:77-83 | definition: `transitions` after the constructor applied the links in order to a table of −1 |
| AutomatonEquality.TableSpec | AutomatonEquality.cpp:77-83 | the transition table holds, per state and letter, the last link's target or −1 |
| AutomatonEquality.SeedsBelow | AutomatonEquality.cpp:50-60 | definition: the queue `Distinguishable` has built after the first k pairs |
| AutomatonEquality.SeedsBelowSpec | AutomatonEquality.cpp:50-60 | the seeds are exactly the pairs whose states differ in acceptance, each once, in increasing (row-major) order |
| AutomatonEquality.SeedsPairs | AutomatonEquality.cpp:52-56 | the pair `(p, q)` is a seed iff exactly one of `p`, `q` accepts |
| AutomatonEquality.Step | AutomatonEquality.cpp:38-42 | the product transition stays among the pairs |
| AutomatonEquality.StepPair | AutomatonEquality.cpp:38-42 | on pair `(p, q)` the product transition goes to `(δ1(p, e), δ2(q, e))` |
| AutomatonEquality.GraphBelow | AutomatonEquality.cpp:33-48 | definition: the lists `Create_graph` has built after its first k pair-and-letter iterations |
| AutomatonEquality.GraphBelowSpec | AutomatonEquality.cpp:33-48 | after the first k edges, `graph[t]` holds x iff some letter e with index below k steps x to t |
| AutomatonEquality.GraphPredecessors | AutomatonEquality.cpp:33-48 | in the finished graph `graph[t]` holds x iff some letter steps x to t, and nothing else |
| AutomatonEquality.GraphBelowTotal | AutomatonEquality.cpp:33-48 | the graph holds exactly n1·n2·alphabet entries in all |
| AutomatonEquality.GraphRange | AutomatonEquality.cpp:33-48 | every entry of the graph is a pair index |
| AutomatonEquality.GraphReversed | AutomatonEquality.cpp:33-48 | the finished graph is the reversed product automaton |
| AutomatonEquality.ProductRunPairs | AutomatonEquality.cpp:38-42 | running a word on the product is running it on both automata |
| AutomatonEquality.SeparatedPair | AutomatonEquality.cpp:54 | a pair is separated iff its two states differ in acceptance |
| AutomatonEquality.DistinguishedIff | AutomatonEquality.cpp:86-107 | a pair is distinguished by some word iff its two states do not accept the same language |
| AutomatonEquality.PushesSpec | AutomatonEquality.cpp:99-105 | the round pushes exactly the predecessors that were still unmarked |
| AutomatonEquality.PushesDistinct | AutomatonEquality.cpp:99-105 | one round pushes no pair twice |
| AutomatonEquality.MarkedSize | AutomatonEquality.cpp:88 | every pair index is either marked or still marked equal |
| AutomatonEquality.DistinctSize | AutomatonEquality.cpp:93-106 | a list without repeats has as many distinct elements as entries |
| AutomatonEquality.EnqueuedStart | AutomatonEquality.cpp:87-91 | after seeding, the history of queued pairs is the seed list, and a pair is marked exactly when it was seeded |
| AutomatonEquality.DistinctConcat | AutomatonEquality.cpp:99-105 | appending pushes that share no pair with the history keeps the history free of repeats |
| AutomatonEquality.DropAppend | AutomatonEquality.cpp:94-104 | popping the front and pushing at the back leaves the queue as the history minus the pairs popped |
| AutomatonEquality.EnqueuedStep | AutomatonEquality.cpp:94-105 | one round pops one pair and appends its pushes to the history; the history still has no repeats and a pair is marked exactly when it is in the history |
| AutomatonEquality.EnqueuedCount | AutomatonEquality.cpp:88-106 | the queue has no repeats, and pops + queue length + pairs still marked equal = n1·n2, so no pair is queued twice and there are at most n1·n2 pops |
| AutomatonEquality.UnseenShrinks | AutomatonEquality.cpp:99-105 | a round never unmarks a pair, and it strictly shrinks the set of pairs still marked equal whenever it pushes |
| AutomatonEquality.MarkingStart | AutomatonEquality.cpp:87-91 | after seeding, the worklist invariant holds |
| AutomatonEquality.SoundStart | AutomatonEquality.cpp:87-91 | after seeding, every separated pair is marked and every marked pair is distinguished |
| AutomatonEquality.DistinguishedPredecessor | AutomatonEquality.cpp:99-104 | a predecessor of a distinguished pair is distinguished |
| AutomatonEquality.MarkingStep | AutomatonEquality.cpp:93-105 | one round keeps the worklist invariant |
| AutomatonEquality.SoundStep | AutomatonEquality.cpp:99-105 | one round marks only distinguished pairs |
| AutomatonEquality.MarkedRuns | AutomatonEquality.cpp:93-107 | with an empty worklist, every word keeps an unmarked pair unmarked |
| AutomatonEquality.MarkingDone | AutomatonEquality.cpp:106-107 | with an empty worklist, every unmarked pair is indistinguishable |
| AutomatonEquality.StartPair | AutomatonEquality.cpp:122 | pair index 0 is the pair of start states 0 and 0 |
| AutomatonEquality.VisitPredecessors | AutomatonEquality.cpp:99-105 | every listed predecessor is marked, and the unmarked ones are queued at the back in order |
| AutomatonEquality.AddPairEdges | AutomatonEquality.cpp:39-44 | the letter loop for one pair adds that pair's edges to the graph |
| AutomatonEquality.MarkSeeds | AutomatonEquality.cpp:89-91 | exactly the seeds become marked |
| AutomatonEquality.SearchRound | AutomatonEquality.cpp:94-105 | one round keeps both invariants and shrinks the unmarked set, or keeps it and shortens the worklist; it appends exactly its pushes to the history of queued pairs, which stays free of repeats, and a pair is marked exactly when it is in that history |
| AutomatonEquality.SearchFromSeeds | AutomatonEquality.cpp:93-107 | the search reports the start index iff it is a pair that some word distinguishes; at the end the pairs ever queued are listed without repeats, are exactly the pairs with `equal_states` false, and number at most n1·n2, which bounds the pops |
| AutomatonEquality.Automaton.Empty | AutomatonEquality.cpp:64-66 | the default automaton has −1 counts and start |
| AutomatonEquality.Automaton.constructor | AutomatonEquality.cpp:68-84 | fields as given; `is_terminal` is `Flags(exits)`, `transitions` is `Table(links)` |
| AutomatonEquality.Automaton.Distinguishable | AutomatonEquality.cpp:50-60 | returns `SeedsBelow` over all pairs |
| AutomatonEquality.Automaton.CreateGraph | AutomatonEquality.cpp:33-48 | returns the graph after all n1·n2·alphabet edges |
| AutomatonEquality.Automaton.IsEquivalent | AutomatonEquality.cpp:86-108 | true iff `start_index` is not a pair index or that pair's two states accept the same language |
| GraphDistance.Reversed | GraphDistance.cpp:21-23 | definition: the edge with its ends swapped and the same length |
| GraphDistance.ReversedInvolution | GraphDistance.cpp:21-23 | reversing swaps the ends, keeps the length, and twice gives the edge back |
| GraphDistance.Adjacency | GraphDistance.cpp:35-44 | definition: `data` after the constructor stored the input edges in order, each at its begin and its reverse at its end |
| GraphDistance.AdjacencyMember | GraphDistance.cpp:35-44 | `data[v]` holds f iff f begins at v and f is an input edge or the reverse of one |
| GraphDistance.AdjacencySpec | GraphDistance.cpp:35-44 | the same for every vertex and edge |
| GraphDistance.AdjacencyWf | GraphDistance.cpp:35-44 | every entry of `data[v]` begins at v and ends at a vertex |
| GraphDistance.SearchingStart | GraphDistance.cpp:47-50 | the search starts with `distance[start] == 0`, everything else `NO_WAY`, and the deque `[start]` |
| GraphDistance.SearchingPop | GraphDistance.cpp:52-54 | the popped vertex has a finite distance |
| GraphDistance.LowerWitnessed | GraphDistance.cpp:57-65 | a lowered distance is again the length of a walk from `start` |
| GraphDistance.LowerBounded | GraphDistance.cpp:57-65 | every finite distance stays below `Bound(reached) − maxLength` |
| GraphDistance.LowerSettled | GraphDistance.cpp:57-65 | after lowering and queueing, the relaxed edges stay relaxed |
| GraphDistance.SearchingLower | GraphDistance.cpp:57-65 | a relaxation keeps the search invariant whether the end goes to the front or to the back |
| GraphDistance.SearchingKeep | GraphDistance.cpp:57 | an edge that does not lower its end is relaxed |
| GraphDistance.SearchingDone | GraphDistance.cpp:55-66 | after all edges of the popped vertex, all its edges are relaxed |
| GraphDistance.PotentialStep | GraphDistance.cpp:57-65 | every push comes with a strict drop of the termination measure |
| GraphDistance.SearchingMinimal | GraphDistance.cpp:51-68 | with an empty deque, `distance[v]` is finite and at most the length of every walk to v |
| GraphDistance.RelaxEdge | GraphDistance.cpp:55-65 | when `distance[vertex] + length < distance[to]`, `distance` becomes the old one with `to` lowered to that sum and `to` is pushed at the front for length 0, at the back otherwise; when not, neither `distance` nor the deque changes |
| GraphDistance.RelaxKept | GraphDistance.cpp:55-65 | either outcome of one relaxation keeps the search invariant past the edge and the popped vertex's distance, no distance grows, and the measure drops exactly when the deque grew |
| GraphDistance.RelaxStep | GraphDistance.cpp:55-65 | one relaxation inside the search keeps the invariant, grows no distance and drops the measure whenever it pushes |
| GraphDistance.RelaxEdges | GraphDistance.cpp:55-66 | all edges of the popped vertex are relaxed; no distance grows; the measure drops unless nothing was pushed |
| GraphDistance.Graph.constructor | GraphDistance.cpp:35-44 | `data` is `Adjacency(input)`: each edge in its begin's list and its reverse in its end's list |
| GraphDistance.Graph.ShortestDistance | GraphDistance.cpp:46-69 | `NO_WAY` iff no walk leads from `start` to `finish`; otherwise the length of a shortest walk |

## Left out

- Input and output are not modelled. This covers `ReadData` and `main` (ChomskyNormalForm.cpp:325-353), `ReadAutomaton` and `main` (AutomatonEquality.cpp:111-132), and `SolveTask` and `main` (GraphDistance.cpp:72-90). The index shift and the printing of −1 for `NO_WAY` in `SolveTask` belong there too.
- `unique_ptr` ownership is not modelled: the result of `LexicographicallyMinimalWord` is an `Option<string>`.
- The normalisation passes are not proved to preserve the language. They do not preserve it for nonterminal `A`, because the ancestor search skips vertex 0 (ChomskyNormalForm.cpp:177). The model keeps that skip, and `ChainAncestorsSpec` states it.
- Grammar.ToChar: requires an id below 26. The source adds any id to `'a'` or `'A'`, but it only spells terminals, and terminal ids are below 26.
- ChomskyNormalForm.ContextFreeGrammar.LexicographicallyMinimalWord: requires `length >= 1` unless `S` is nullable, because the source writes row 1 even when `length == 0`. It also requires that one-symbol rules are terminal, which the assertion at line 294 checks.
- ChomskyNormalForm.ContextFreeGrammar.FindChainRules and DeleteChainRules: require no ε-rules, because `IsItChainRule` reads `right[0]` before it checks the size.
- AutomatonEquality.Automaton.IsEquivalent and CreateGraph: require both automata to be complete over this automaton's alphabet size, as line 39 uses it for both. `IsEquivalent` compares a pair index with this automaton's `start_index` and ignores the other's. `StartPair` covers the only use, where both starts are 0.
- GraphDistance.Graph.ShortestDistance: requires non-negative lengths; with a negative cycle the loop need not end. `distance[vertex] + length` cannot overflow `INT_MAX` in the model, so the overflow of the source is not modelled: `NO_WAY` is a separate value above every length.
- Out-of-range indices, which are undefined behaviour in C++, are excluded by requires clauses rather than modelled. AutomatonEquality.Automaton.constructor requires a size and an alphabet of at least 0, every exit below the size, and every link with its source state and letter in range (AutomatonEquality.cpp:68-84). GraphDistance.Graph.constructor requires every edge end below the vertex count (GraphDistance.cpp:35-44). GraphDistance.Graph.ShortestDistance requires start and finish below the vertex count (GraphDistance.cpp:46-69).
- The containers `std::set`, `std::queue` and `std::deque` are modelled as Dafny `set` and `seq`, `std::vector` buffers as arrays or sequences. `Edge`'s default constructor is the constant `Unset`.
