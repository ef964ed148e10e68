/** The class `ContextFreeGrammar` of ChomskyNormalForm.cpp: the rule list
    `data`, the fresh-nonterminal counter `count` (`current_nonterminals_count`)
    and the set `nullables`, the four normalisation passes that rebuild `data`
    with `push_back` loops, and the dynamic programme of
    `LexicographicallyMinimalWord`. Every method is proved against the pass
    functions of the modules it imports. */
module ChomskyNormalForm {
  import opened Grammar
  import opened LongRules
  import opened Nullable
  import opened ChainRules
  import opened SemiTerminals
  import opened MinimalWord

  // ---- Reading the rules ----

  /** `rule[0]` of a `std::string`: the terminating `'\0'` when it is empty. */
  function HeadChar(line: string): char {
    if |line| == 0 then '\0' else line[0]
  }

  /** The symbols read from position 3 on, past the `"X->"` prefix. */
  function RightPart(line: string): (right: seq<Symbol>)
    ensures |right| == if |line| <= 3 then 0 else |line| - 3
  {
    if |line| <= 3 then [] else seq(|line| - 3, i requires 0 <= i < |line| - 3 => FromChar(line[i + 3]))
  }

  /** The rule the constructor builds from one input line. */
  function ParsedRule(line: string): Rule {
    Rule(FromChar(HeadChar(line)), RightPart(line))
  }

  function ParsedRules(input: seq<string>): (rules: seq<Rule>)
    ensures |rules| == |input| && forall k :: 0 <= k < |input| ==> rules[k] == ParsedRule(input[k])
  {
    seq(|input|, k requires 0 <= k < |input| => ParsedRule(input[k]))
  }

  /** A line `X->w` whose head and body are letters. */
  predicate LetterLine(line: string) {
    |line| >= 1 && (IsUpper(line[0]) || IsLower(line[0]))
    && forall i :: 3 <= i < |line| ==> IsUpper(line[i]) || IsLower(line[i])
  }

  /** The letters a rule is written with: its left side, then its right side. */
  function Spell(right: seq<Symbol>): string
    requires forall i :: 0 <= i < |right| ==> 0 <= right[i].id < AlphabetSize
  {
    seq(|right|, i requires 0 <= i < |right| => ToChar(right[i]))
  }

  /** Reading a line of letters and writing the rule back gives the line
      without its two-character arrow. */
  lemma ParsedRuleRoundTrip(line: string)
    requires LetterLine(line)
    ensures var r := ParsedRule(line);
      && 0 <= r.left.id < AlphabetSize && ToChar(r.left) == line[0]
      && (forall i :: 0 <= i < |r.right| ==> 0 <= r.right[i].id < AlphabetSize)
      && Spell(r.right) == (if |line| <= 3 then [] else line[3..])
  {
    var r := ParsedRule(line);
    CharRoundTrip(line[0]);
    forall i | 0 <= i < |r.right| ensures 0 <= r.right[i].id < AlphabetSize && ToChar(r.right[i]) == line[i + 3] {
      CharRoundTrip(line[i + 3]);
    }
  }

  /** Lines of letters give rules whose ids are all letters. */
  lemma ParsedRulesWellFormed(input: seq<string>)
    requires forall k :: 0 <= k < |input| ==> LetterLine(input[k])
    ensures WellFormed(ParsedRules(input), AlphabetSize)
  {
    var rules := ParsedRules(input);
    forall r | r in rules ensures ValidRule(r, AlphabetSize) {
      var k :| 0 <= k < |input| && rules[k] == r;
      ParsedRuleRoundTrip(input[k]);
      forall s | s in r.right ensures ValidSymbol(s, AlphabetSize) {
        var i :| 0 <= i < |r.right| && r.right[i] == s;
      }
    }
  }

  // ---- The whole conversion ----

  /** After the first two passes every rule is ready for the chain pass. */
  lemma ReadyForChains(rules: seq<Rule>, c: int, nullables: set<int>)
    requires c >= 0 && WellFormed(rules, c)
    ensures ChainReady(EpsRulesDeleted(LongRulesDeleted(rules, c), nullables), c + FreshCount(rules))
  {
    var long := LongRulesDeleted(rules, c);
    LongRulesDeletedWellFormed(rules, c);
    EpsRulesDeletedWellFormed(long, nullables, c + FreshCount(rules));
    EpsRulesDeletedShape(long, nullables);
  }

  /** `ConvertToChomskyNormalForm` (ChomskyNormalForm.cpp:269-274) on the rule
      list `rules` with the counter at `c`, `nullables` being the set the
      epsilon pass computes: the rule list and the counter after the four
      passes. */
  ghost function Normalized(rules: seq<Rule>, c: int, nullables: set<int>): (seq<Rule>, int)
    requires c >= 0 && WellFormed(rules, c)
  {
    ReadyForChains(rules, c, nullables);
    Finished(EpsRulesDeleted(LongRulesDeleted(rules, c), nullables), c + FreshCount(rules))
  }

  /** The last two passes, on the rule list `eps` left by the epsilon pass
      with the counter at `c1`. */
  ghost function Finished(eps: seq<Rule>, c1: nat): (seq<Rule>, int)
    requires ChainReady(eps, c1)
  {
    var chain := ChainRulesDeleted(eps, ChainAncestors(eps, c1));
    (SemiTerminalsDeleted(chain, c1), c1 + MintedCount(chain))
  }

  lemma LongStage(rules: seq<Rule>, c: int)
    requires c >= 0 && WellFormed(rules, c)
    ensures var long := LongRulesDeleted(rules, c);
      && WellFormed(long, c + FreshCount(rules))
      && (forall r :: r in long ==> |r.right| <= 2)
      && (forall x :: x in LeftIds(long) ==> x in LeftIds(rules) || c <= x < c + FreshCount(rules))
  {
    var long := LongRulesDeleted(rules, c);
    LongRulesDeletedWellFormed(rules, c);
    LongRulesDeletedShort(rules, c);
    LongRulesDeletedLeftIds(rules, c);
    LeftIdsBound(long, LeftIds(rules), c, c + FreshCount(rules));
  }

  lemma EpsStage(long: seq<Rule>, nullables: set<int>, c1: int)
    requires WellFormed(long, c1) && forall r :: r in long ==> |r.right| <= 2
    ensures var eps := EpsRulesDeleted(long, nullables);
      WellFormed(eps, c1) && ShortNonEmpty(eps) && LeftIds(eps) <= LeftIds(long)
  {
    var eps := EpsRulesDeleted(long, nullables);
    EpsRulesDeletedWellFormed(long, nullables, c1);
    EpsRulesDeletedShort(long, nullables);
    LeftIdsWithin(eps, LeftIds(long));
  }

  lemma ChainStage(eps: seq<Rule>, c1: nat)
    requires WellFormed(eps, c1) && ShortNonEmpty(eps)
    ensures ChainReady(eps, c1)
    ensures var chain := ChainRulesDeleted(eps, ChainAncestors(eps, c1));
      && WellFormed(chain, c1) && ShortNonEmpty(chain) && (forall r :: r in chain ==> !IsItChainRule(r))
      && LeftIds(chain) <= LeftIds(eps)
  {
    assert ChainReady(eps, c1);
    var chain := ChainRulesDeleted(eps, ChainAncestors(eps, c1));
    ChainRulesDeletedLeftIds(eps, c1);
    ChainRulesDeletedShort(eps, ChainAncestors(eps, c1));
    ChainRulesDeletedShape(eps, ChainAncestors(eps, c1));
    LeftIdsWithin(chain, LeftIds(eps));
  }

  lemma SemiStage(chain: seq<Rule>, c1: int)
    requires c1 >= 0 && WellFormed(chain, c1) && ShortNonEmpty(chain)
    requires forall r :: r in chain ==> !IsItChainRule(r)
    ensures var out := SemiTerminalsDeleted(chain, c1);
      && IsCnf(out) && WellFormed(out, c1 + MintedCount(chain))
      && LeftIdsIn(out, LeftIds(chain), c1, c1 + MintedCount(chain))
  {
    SemiTerminalsDeletedCnf(chain, c1);
    SemiTerminalsDeletedWellFormed(chain, c1);
    SemiTerminalsDeletedLeftIds(chain, c1);
  }

  /** The last two passes end in Chomsky Normal Form, count up from `c1`
      and add left ids only from `[c1, count)`. */
  lemma FinishedStage(eps: seq<Rule>, c1: nat)
    requires ChainReady(eps, c1) && WellFormed(eps, c1) && ShortNonEmpty(eps)
    ensures var (out, c') := Finished(eps, c1);
      && IsCnf(out) && WellFormed(out, c') && c1 <= c'
      && LeftIdsIn(out, LeftIds(eps), c1, c')
  {
    var chain := ChainRulesDeleted(eps, ChainAncestors(eps, c1));
    ChainStage(eps, c1);
    SemiStage(chain, c1);
  }

  /** The conversion ends in Chomsky Normal Form, whatever the nullable set:
      every rule is one terminal or two nonterminals, the counter only grows
      and every id stays below it. */
  lemma NormalizedCnf(rules: seq<Rule>, c: int, nullables: set<int>)
    requires c >= 0 && WellFormed(rules, c)
    ensures IsCnf(Normalized(rules, c, nullables).0)
    ensures WellFormed(Normalized(rules, c, nullables).0, Normalized(rules, c, nullables).1)
    ensures c <= Normalized(rules, c, nullables).1
  {
    var c1 := c + FreshCount(rules);
    var eps := EpsRulesDeleted(LongRulesDeleted(rules, c), nullables);
    assert ChainReady(eps, c1) && WellFormed(eps, c1) && ShortNonEmpty(eps) by {
      LongStage(rules, c);
      EpsStage(LongRulesDeleted(rules, c), nullables, c1);
      ReadyForChains(rules, c, nullables);
    }
    FinishedStage(eps, c1);
  }

  /** Every left id after the conversion is an original left id or a fresh
      id at or above the counter the conversion started from, so no fresh id
      collides with a letter such as `S`. */
  lemma NormalizedLeftIds(rules: seq<Rule>, c: int, nullables: set<int>)
    requires c >= 0 && WellFormed(rules, c)
    ensures LeftIdsIn(Normalized(rules, c, nullables).0, LeftIds(rules), c, Normalized(rules, c, nullables).1)
  {
    NormalizedIsFinished(rules, c, nullables);
    PassesLeftIds(rules, c, nullables, EpsRulesDeleted(LongRulesDeleted(rules, c), nullables), c + FreshCount(rules));
  }

  /** `NormalizedLeftIds` on the four passes, `eps` being the rules after the
      first two and `c1` the counter then. */
  lemma PassesLeftIds(rules: seq<Rule>, c: int, nullables: set<int>, eps: seq<Rule>, c1: nat)
    requires c >= 0 && WellFormed(rules, c)
    requires eps == EpsRulesDeleted(LongRulesDeleted(rules, c), nullables) && c1 == c + FreshCount(rules)
    requires ChainReady(eps, c1)
    ensures LeftIdsIn(Finished(eps, c1).0, LeftIds(rules), c, Finished(eps, c1).1)
  {
    EarlyLeftIds(rules, c, nullables);
    FinishedLeftIds(eps, c1, LeftIds(rules), c);
  }

  lemma NormalizedIsFinished(rules: seq<Rule>, c: int, nullables: set<int>)
    requires c >= 0 && WellFormed(rules, c)
    ensures ChainReady(EpsRulesDeleted(LongRulesDeleted(rules, c), nullables), c + FreshCount(rules))
    ensures Normalized(rules, c, nullables) == Finished(EpsRulesDeleted(LongRulesDeleted(rules, c), nullables), c + FreshCount(rules))
  {
    ReadyForChains(rules, c, nullables);
  }

  /** The first two passes keep the rules well formed below `c1`, short and
      non-empty, and add left ids only from `[c, c1)`. */
  lemma EarlyLeftIds(rules: seq<Rule>, c: int, nullables: set<int>)
    requires c >= 0 && WellFormed(rules, c)
    ensures var eps := EpsRulesDeleted(LongRulesDeleted(rules, c), nullables);
      && WellFormed(eps, c + FreshCount(rules)) && ShortNonEmpty(eps)
      && forall x :: x in LeftIds(eps) ==> x in LeftIds(rules) || c <= x < c + FreshCount(rules)
  {
    var long := LongRulesDeleted(rules, c);
    LongStage(rules, c);
    EpsStage(long, nullables, c + FreshCount(rules));
  }

  /** `Finished` on the rule lists after each of the last two passes. */
  lemma FinishedOf(eps: seq<Rule>, c1: nat, chain: seq<Rule>, out: seq<Rule>, count: int)
    requires ChainReady(eps, c1) && chain == ChainRulesDeleted(eps, ChainAncestors(eps, c1))
    requires out == SemiTerminalsDeleted(chain, c1) && count == c1 + MintedCount(chain)
    ensures Finished(eps, c1) == (out, count)
  {
  }

  /** The last two passes add left ids only from `[c1, count)`: left ids
      of `eps` in `base` or `[lo, c1)` stay in `base` or `[lo, count)`. */
  lemma FinishedLeftIds(eps: seq<Rule>, c1: nat, base: set<int>, lo: int)
    requires ChainReady(eps, c1) && WellFormed(eps, c1) && ShortNonEmpty(eps)
    requires lo <= c1 && forall x :: x in LeftIds(eps) ==> x in base || lo <= x < c1
    ensures LeftIdsIn(Finished(eps, c1).0, base, lo, Finished(eps, c1).1)
  {
    FinishedStage(eps, c1);
  }

  /** What the conversion promises about its result `(out, count)`. */
  lemma NormalizedValid(rules: seq<Rule>, c: int, nullables: set<int>, out: seq<Rule>, count: int)
    requires c >= AlphabetSize && WellFormed(rules, c)
    requires (out, count) == Normalized(rules, c, nullables)
    ensures count >= AlphabetSize && WellFormed(out, count) && IsCnf(out) && UnitsTerminal(out)
    ensures c <= count && LeftIdsIn(out, LeftIds(rules), c, count)
  {
    NormalizedCnf(rules, c, nullables);
    NormalizedLeftIds(rules, c, nullables);
    CnfUnitsTerminal(out, count);
  }

  /** In Chomsky Normal Form with letters as terminals, the assertion at
      ChomskyNormalForm.cpp:294 holds for every rule of size one. */
  lemma CnfUnitsTerminal(rules: seq<Rule>, count: int)
    requires IsCnf(rules) && WellFormed(rules, count)
    ensures UnitsTerminal(rules)
  {
    forall r | r in rules && |r.right| == 1 ensures r.right[0].isTerminal && 0 <= r.right[0].id < AlphabetSize {
      assert IsCnfRule(r) && ValidRule(r, count) && r.right[0] in r.right;
    }
  }

  /** The inner loop of `DeleteLongRules` (ChomskyNormalForm.cpp:85-104):
      pushes the `length - 1` binary rules of a long rule onto `newData`, the
      counter standing at `c`. */
  method PushSplit(newData: seq<Rule>, rule: Rule, c: int) returns (out: seq<Rule>)
    requires |rule.right| > 2
    ensures out == newData + Binarized(rule, c)
  {
    var length := |rule.right|;
    out := newData;
    for position := 0 to length - 1
      invariant out == newData + Binarized(rule, c)[..position]
    {
      var left, first, second;
      first := rule.right[position];
      if position != 0 {
        left := Symbol(c + position - 1, false);
      } else {
        left := Symbol(rule.left.id, false);
      }
      if position < length - 2 {
        second := Symbol(c + position, false);
      } else {
        second := rule.right[length - 1];
      }
      assert Binarized(rule, c)[..position + 1] == Binarized(rule, c)[..position] + [LinkRule(rule, c, position)];
      out := out + [Rule(left, [first, second])];
    }
    assert Binarized(rule, c)[..length - 1] == Binarized(rule, c);
  }

  /** The inner loop of `DeleteChainRules` (ChomskyNormalForm.cpp:206-211):
      pushes one copy of `rule` per ancestor in `froms`, in their order. */
  method PushCopies(newData: seq<Rule>, rule: Rule, froms: seq<int>) returns (out: seq<Rule>)
    ensures out == newData + seq(|froms|, i requires 0 <= i < |froms| => Copy(rule, froms[i]))
  {
    out := newData;
    for position := 0 to |froms|
      invariant out == newData + seq(position, i requires 0 <= i < position => Copy(rule, froms[i]))
    {
      var from := froms[position];
      out := out + [Rule(Symbol(from, false), rule.right)];
    }
  }

  /** One round of the loop of `DeleteEPSRules` (ChomskyNormalForm.cpp:145-159):
      an epsilon rule is skipped; any other rule is pushed, and a binary rule
      is followed by its unit copies for a nullable first or second symbol. */
  method PushEpsImage(newData: seq<Rule>, rule: Rule, nullables: set<int>) returns (out: seq<Rule>)
    ensures out == newData + EpsImage(rule, nullables)
  {
    if IsItEpsRule(rule) {
      return newData;
    }
    out := newData + [rule];
    if |rule.right| == 2 {
      var first := rule.right[0];
      var second := rule.right[1];
      var id := rule.left.id;
      if IsItNullable(first, nullables) {
        out := out + [OneSymbolRule(Symbol(id, false), second)];
      }
      if IsItNullable(second, nullables) {
        out := out + [OneSymbolRule(Symbol(id, false), first)];
      }
    }
  }

  /** One round of the outer loop of `DeleteChainRules`
      (ChomskyNormalForm.cpp:201-212): a chain rule is skipped; any other rule
      is pushed, followed by its copies. */
  method PushImage(newData: seq<Rule>, rule: Rule, ancestors: seq<seq<int>>) returns (out: seq<Rule>)
    requires |rule.right| >= 1 && 0 <= rule.left.id < |ancestors|
    ensures out == newData + ChainImage(rule, ancestors)
  {
    if IsItChainRule(rule) {
      return newData;
    }
    out := newData + [rule];
    var currentAncestors := ancestors[rule.left.id];
    out := PushCopies(out, rule, currentAncestors);
  }

  /** The rows of `dp` below `size` hold the finished table. */
  ghost predicate RowsFilled(g: seq<Rule>, dp: array2<Option<string>>, size: int)
    requires UnitsTerminal(g)
    reads dp
  {
    forall s, v :: 0 <= s < size && s < dp.Length0 && 0 <= v < dp.Length1 ==> dp[s, v] == Word(g, s, v)
  }

  /** The first loop of `LexicographicallyMinimalWord`
      (ChomskyNormalForm.cpp:291-300): every unit rule `v -> a` offers `"a"`
      to `dp[1][v]`. */
  method FillUnits(g: seq<Rule>, dp: array2<Option<string>>)
    requires UnitsTerminal(g) && dp.Length0 >= 2
    requires forall r :: r in g ==> 0 <= r.left.id < dp.Length1
    requires forall s, v :: 0 <= s < dp.Length0 && 0 <= v < dp.Length1 ==> dp[s, v].None?
    modifies dp
    ensures forall v :: 0 <= v < dp.Length1 ==> dp[1, v] == UnitWord(g, v, |g|)
    ensures forall s, v :: 0 <= s < dp.Length0 && s != 1 && 0 <= v < dp.Length1 ==> dp[s, v].None?
  {
    for k := 0 to |g|
      invariant forall v :: 0 <= v < dp.Length1 ==> dp[1, v] == UnitWord(g, v, k)
      invariant forall s, v :: 0 <= s < dp.Length0 && s != 1 && 0 <= v < dp.Length1 ==> dp[s, v].None?
    {
      var rule := g[k];
      assert rule in g;
      if |rule.right| == 1 {
        var letter := [ToChar(rule.right[0])];
        var id := rule.left.id;
        dp[1, id] := MinCell(dp[1, id], Some(letter));
      }
    }
  }

  /** The innermost loop (ChomskyNormalForm.cpp:308-314): every split
      `piece` of a word of length `size` offers `dp[piece][first] +
      dp[size - piece][second]` to `dp[size][id]`. */
  method FoldPieces(g: seq<Rule>, dp: array2<Option<string>>, size: int, rule: Rule)
    requires UnitsTerminal(g) && 2 <= size < dp.Length0 && |rule.right| >= 2
    requires 0 <= rule.left.id < dp.Length1 && 0 <= rule.right[0].id < dp.Length1 && 0 <= rule.right[1].id < dp.Length1
    requires RowsFilled(g, dp, size)
    modifies dp
    ensures dp[size, rule.left.id] == PieceFold(g, size, rule, old(dp[size, rule.left.id]), size - 1)
    ensures forall s, v :: 0 <= s < dp.Length0 && 0 <= v < dp.Length1 && (s, v) != (size, rule.left.id) ==>
      dp[s, v] == old(dp[s, v])
  {
    var first, second, id := rule.right[0].id, rule.right[1].id, rule.left.id;
    for piece := 1 to size
      invariant dp[size, id] == PieceFold(g, size, rule, old(dp[size, id]), piece - 1)
      invariant forall s, v :: 0 <= s < dp.Length0 && 0 <= v < dp.Length1 && (s, v) != (size, id) ==>
        dp[s, v] == old(dp[s, v])
    {
      var left := dp[piece, first];
      var right := dp[size - piece, second];
      assert left == Word(g, piece, first) && right == Word(g, size - piece, second);
      if left.Some? && right.Some? {
        dp[size, id] := MinCell(dp[size, id], Some(left.value + right.value));
      }
    }
  }

  /** One pass of the middle loop (ChomskyNormalForm.cpp:304-315): row
      `size` from the rules with two or more symbols. */
  method FillRow(g: seq<Rule>, dp: array2<Option<string>>, size: int, bins: seq<Rule>)
    requires UnitsTerminal(g) && 2 <= size < dp.Length0 && bins == MultiSymbolRules(g)
    requires WellFormed(g, dp.Length1) && dp.Length1 >= AlphabetSize
    requires RowsFilled(g, dp, size)
    requires forall v :: 0 <= v < dp.Length1 ==> dp[size, v].None?
    modifies dp
    ensures forall v :: 0 <= v < dp.Length1 ==> dp[size, v] == Word(g, size, v)
    ensures forall s, v :: 0 <= s < dp.Length0 && s != size && 0 <= v < dp.Length1 ==> dp[s, v] == old(dp[s, v])
  {
    for n := 0 to |bins|
      invariant forall v :: 0 <= v < dp.Length1 ==> dp[size, v] == BinaryWord(g, size, v, n)
      invariant forall s, v :: 0 <= s < dp.Length0 && s != size && 0 <= v < dp.Length1 ==> dp[s, v] == old(dp[s, v])
    {
      var rule := bins[n];
      assert rule in g && |rule.right| >= 2 by {
        assert rule in bins;
      }
      assert ValidRule(rule, dp.Length1) && rule.right[0] in rule.right && rule.right[1] in rule.right;
      FoldPieces(g, dp, size, rule);
    }
  }

  class ContextFreeGrammar {
    var data: seq<Rule>
    var count: int
    var nullables: set<int>

    /** The counter never drops below the 26 letters and every id is below it. */
    predicate Valid()
      reads this
    {
      count >= AlphabetSize && WellFormed(data, count)
    }

    /** The constructor (ChomskyNormalForm.cpp:257-267): one rule per line,
        its left side from `rule[0]` and its right side from positions 3 on. */
    constructor(input: seq<string>)
      ensures data == ParsedRules(input) && count == AlphabetSize && nullables == {}
      ensures (forall k :: 0 <= k < |input| ==> LetterLine(input[k])) ==> Valid()
    {
      var rules: seq<Rule> := [];
      for k := 0 to |input|
        invariant rules == ParsedRules(input[..k])
      {
        var line := input[k];
        var left := FromChar(HeadChar(line));
        var right: seq<Symbol> := [];
        var position := 3;
        while position < |line|
          invariant 3 <= position && (position <= |line| || position == 3)
          invariant |right| == position - 3
          invariant forall i :: 0 <= i < |right| ==> right[i] == FromChar(line[i + 3])
        {
          right := right + [FromChar(line[position])];
          position := position + 1;
        }
        assert right == RightPart(line);
        rules := rules + [Rule(left, right)];
      }
      assert input[..|input|] == input;
      data := rules;
      count := AlphabetSize;
      nullables := {};
      if forall k :: 0 <= k < |input| ==> LetterLine(input[k]) {
        ParsedRulesWellFormed(input);
      }
    }

    /** `DeleteLongRules` (ChomskyNormalForm.cpp:77-108): every rule longer
        than two is split into a chain of binary rules through fresh ids, and
        the counter moves past them. */
    method DeleteLongRules()
      modifies this
      ensures data == LongRulesDeleted(old(data), old(count))
      ensures count == old(count) + FreshCount(old(data))
      ensures nullables == old(nullables)
      ensures old(Valid()) ==> Valid()
    {
      var rules := data;
      ghost var c0 := count;
      var newData: seq<Rule> := [];
      for k := 0 to |rules|
        invariant count == c0 + FreshCount(rules[..k])
        invariant newData == LongRulesDeleted(rules[..k], c0)
        invariant data == rules && nullables == old(nullables)
      {
        var rule := rules[k];
        var length := |rule.right|;
        ghost var before, c := newData, count;
        if length <= 2 {
          newData := newData + [rule];
          assert Binarized(rule, c) == [rule];
        } else {
          newData := PushSplit(newData, rule, count);
          count := count + (length - 2);
        }
        LongRulesDeletedStep(rules, c0, k, before, newData);
      }
      assert rules[..|rules|] == rules;
      data := newData;
      if old(Valid()) {
        LongRulesDeletedWellFormed(rules, c0);
      }
    }

    /** `FindNullable` (ChomskyNormalForm.cpp:120-139): sweeps the rules until
        a sweep adds nothing, adding the left id of every rule whose right
        side is all nullable. It ends with the least closed superset of the
        set it started from: closed under the rules, contained in every
        closed superset, and made only of left ids besides the old ones. */
    method FindNullable()
      modifies this`nullables
      ensures old(nullables) <= nullables
      ensures Closed(data, nullables)
      ensures forall m :: Closed(data, m) && old(nullables) <= m ==> nullables <= m
      ensures nullables <= old(nullables) + LeftIds(data)
    {
      ghost var top := old(nullables) + LeftIds(data);
      var stop := false;
      while !stop
        invariant old(nullables) <= nullables <= top
        invariant forall m :: Closed(data, m) && old(nullables) <= m ==> nullables <= m
        invariant stop ==> Closed(data, nullables)
        decreases top - nullables, if stop then 0 else 1
      {
        stop := true;
        ghost var start := nullables;
        for k := 0 to |data|
          invariant start <= nullables <= top
          invariant forall m :: Closed(data, m) && old(nullables) <= m ==> nullables <= m
          invariant stop <==> nullables == start
          invariant stop ==> forall j :: 0 <= j < k && AllNullable(data[j].right, nullables) ==> data[j].left.id in nullables
        {
          var rule := data[k];
          var position := 0;
          while position < |rule.right|
            invariant 0 <= position <= |rule.right|
            invariant forall i :: 0 <= i < position ==> IsItNullable(rule.right[i], nullables)
          {
            if !IsItNullable(rule.right[position], nullables) {
              break;
            }
            position := position + 1;
          }
          if position == |rule.right| {
            if rule.left.id !in nullables {
              nullables := nullables + {rule.left.id};
              stop := false;
            }
          }
        }
        if stop {
          forall r | r in data && AllNullable(r.right, nullables) ensures r.left.id in nullables {
            var j :| 0 <= j < |data| && data[j] == r;
          }
        }
      }
    }

    /** `DeleteEPSRules` (ChomskyNormalForm.cpp:141-162): computes the nullable
        set, then drops every epsilon rule and adds `A -> Y` / `A -> X` for a
        binary `A -> XY` whose `X` / `Y` is nullable. */
    method DeleteEpsRules()
      modifies this
      ensures count == old(count)
      ensures old(nullables) <= nullables && Closed(old(data), nullables)
      ensures forall m :: Closed(old(data), m) && old(nullables) <= m ==> nullables <= m
      ensures data == EpsRulesDeleted(old(data), nullables)
      ensures NoEpsRules(data)
      ensures old(Valid()) ==> Valid()
    {
      FindNullable();
      ghost var found := nullables;
      var rules := data;
      var newData: seq<Rule> := [];
      for k := 0 to |rules|
        invariant newData == EpsRulesDeleted(rules[..k], nullables)
        invariant data == rules && nullables == found && count == old(count)
      {
        ghost var before := newData;
        newData := PushEpsImage(newData, rules[k], nullables);
        EpsRulesDeletedStep(rules, nullables, k, before, newData);
      }
      assert rules[..|rules|] == rules;
      data := newData;
      EpsRulesDeletedShape(rules, nullables);
      if old(Valid()) {
        EpsRulesDeletedWellFormed(rules, nullables, count);
      }
    }

    /** `FindChainRules` (ChomskyNormalForm.cpp:169-196): builds the chain
        graph, then runs one search from each vertex `1 .. count - 1`; the
        lists it returns are `ChainAncestors`, whose meaning
        `ChainAncestorsSpec` states. */
    method FindChainRules() returns (ancestors: seq<seq<int>>)
      requires Valid() && NoEpsRules(data)
      ensures ChainReady(data, count) && ancestors == ChainAncestors(data, count)
    {
      assert ChainReady(data, count);
      var graph: seq<seq<int>> := seq(count, _ => []);
      ancestors := graph;
      for k := 0 to |data|
        invariant ChainReady(data[..k], count) && graph == ChainGraph(data[..k], count)
      {
        var rule := data[k];
        ghost var before := graph;
        if IsItChainRule(rule) {
          graph := graph[rule.left.id := graph[rule.left.id] + [rule.right[0].id]];
        }
        ChainGraphStep(data, count, k, before, graph);
      }
      assert data[..|data|] == data;
      ChainGraphInRange(data, count);
      for vertex := 1 to count
        invariant |ancestors| == count
        invariant forall w :: 0 <= w < count ==> ancestors[w] == AncestorsBelow(graph, w, vertex)
      {
        ancestors := SearchFrom(graph, vertex, ancestors);
      }
    }

    /** `DeleteChainRules` (ChomskyNormalForm.cpp:198-214): drops every chain
        rule and follows each other rule by one copy per ancestor of its left
        side. */
    method DeleteChainRules()
      requires Valid() && NoEpsRules(data)
      modifies this
      ensures count == old(count) && nullables == old(nullables)
      ensures ChainReady(old(data), old(count))
      ensures data == ChainRulesDeleted(old(data), ChainAncestors(old(data), old(count)))
      ensures Valid()
    {
      var ancestors := FindChainRules();
      var rules := data;
      var newData: seq<Rule> := [];
      for k := 0 to |rules|
        invariant ChainReady(rules[..k], |ancestors|) && newData == ChainRulesDeleted(rules[..k], ancestors)
        invariant data == rules && count == old(count) && nullables == old(nullables)
      {
        var rule := rules[k];
        ghost var before := newData;
        assert rule in rules;
        newData := PushImage(newData, rule, ancestors);
        ChainRulesDeletedStep(rules, ancestors, k, before, newData);
      }
      assert rules[..|rules|] == rules;
      data := newData;
      ChainAncestorsInRange(rules, count);
      ChainRulesDeletedWellFormed(rules, ancestors, count);
    }

    /** The inner loop of `DeleteSemiTerminals` (ChomskyNormalForm.cpp:233-244):
        each terminal of `right` takes the next id of the counter, its unit
        rule is pushed onto `newData` and the id takes its place in the new
        right side. */
    method IsolateTerminals(newData: seq<Rule>, right: seq<Symbol>) returns (out: seq<Rule>, newRight: seq<Symbol>)
      modifies this`count
      ensures count == old(count) + TerminalCount(right)
      ensures out == newData + Units(right, old(count))
      ensures newRight == Renamed(right, old(count))
    {
      ghost var c := count;
      out, newRight := newData, [];
      for position := 0 to |right|
        invariant count == c + TerminalCount(right[..position])
        invariant newRight == Renamed(right[..position], c)
        invariant out == newData + Units(right[..position], c)
      {
        var symbol := right[position];
        ScanStep(right, c, position);
        if symbol.isTerminal {
          var add := Symbol(count, false);
          count := count + 1;
          out := out + [OneSymbolRule(add, symbol)];
          newRight := newRight + [add];
        } else {
          newRight := newRight + [symbol];
        }
      }
      assert right[..|right|] == right;
    }

    /** `DeleteSemiTerminals` (ChomskyNormalForm.cpp:228-253): in every rule
        not of size one that holds a terminal, each terminal is replaced by a
        fresh nonterminal, minted from the counter, whose unit rule is pushed
        first; every other rule is kept with its left side marked
        nonterminal. */
    method DeleteSemiTerminals()
      modifies this
      ensures data == SemiTerminalsDeleted(old(data), old(count))
      ensures count == old(count) + MintedCount(old(data))
      ensures nullables == old(nullables)
      ensures old(Valid()) ==> Valid()
    {
      var rules := data;
      ghost var c0 := count;
      var newData: seq<Rule> := [];
      for k := 0 to |rules|
        invariant count == c0 + MintedCount(rules[..k])
        invariant newData == SemiTerminalsDeleted(rules[..k], c0)
        invariant data == rules && nullables == old(nullables)
      {
        var rule := rules[k];
        ghost var before, c := newData, count;
        var newRight: seq<Symbol>;
        if IsItSemiTerminal(rule) {
          newData, newRight := IsolateTerminals(newData, rule.right);
        } else {
          newRight := rule.right;
        }
        var newRule := Rule(Symbol(rule.left.id, false), newRight);
        newData := newData + [newRule];
        assert newData == before + IsolatedImage(rule, c);
        SemiTerminalsDeletedStep(rules, c0, k, before, newData);
      }
      assert rules[..|rules|] == rules;
      data := newData;
      if old(Valid()) {
        SemiTerminalsDeletedWellFormed(rules, c0);
      }
    }

    /** `ConvertToChomskyNormalForm` (ChomskyNormalForm.cpp:269-274): the four
        passes in order. The result is in Chomsky Normal Form and keeps the
        class invariant; `nullables` is the least closed superset, over the
        binarised rules, of the set it held before. */
    method ConvertToChomskyNormalForm()
      requires Valid()
      modifies this
      ensures (data, count) == Normalized(old(data), old(count), nullables)
      ensures Valid() && IsCnf(data) && UnitsTerminal(data)
      ensures old(count) <= count && LeftIdsIn(data, LeftIds(old(data)), old(count), count)
      ensures old(nullables) <= nullables && Closed(LongRulesDeleted(old(data), old(count)), nullables)
      ensures forall m :: Closed(LongRulesDeleted(old(data), old(count)), m) && old(nullables) <= m ==> nullables <= m
    {
      DeleteLongRules();
      DeleteEpsRules();
      ghost var eps, c1 := data, count;
      DeleteChainRules();
      ghost var chain := data;
      DeleteSemiTerminals();
      NormalizedIsFinished(old(data), old(count), nullables);
      FinishedOf(eps, c1, chain, data, count);
      NormalizedValid(old(data), old(count), nullables, data, count);
    }

    /** `GrammarWithoutOneSymbolRules` (ChomskyNormalForm.cpp:276-284). */
    method GrammarWithoutOneSymbolRules() returns (answer: seq<Rule>)
      ensures answer == MultiSymbolRules(data)
    {
      answer := [];
      for k := 0 to |data|
        invariant answer == MultiSymbolRules(data[..k])
      {
        assert data[..k + 1][..k] == data[..k];
        if |data[k].right| > 1 {
          answer := answer + [data[k]];
        }
      }
      assert data[..|data|] == data;
    }

    /** `LexicographicallyMinimalWord` (ChomskyNormalForm.cpp:286-322): the
        empty word when `S` is nullable, otherwise the least of `dp[1 ..
        length][S]`, INF being `None`. On a grammar in Chomsky Normal Form
        that is the least word of length `1 .. length` that `S` derives. */
    method LexicographicallyMinimalWord(length: int) returns (result: Option<string>)
      requires Valid() && UnitsTerminal(data) && (StartId in nullables || length >= 1)
      ensures result == if StartId in nullables then Some("") else MinimalUpTo(data, length)
      ensures StartId !in nullables && IsCnf(data) ==>
        && (result.Some? ==> 1 <= |result.value| <= length && IsLowercase(result.value) && Derives(data, StartId, result.value))
        && (forall w :: 1 <= |w| <= length && Derives(data, StartId, w) ==> Below(result, w))
        && (result.None? <==> forall w :: 1 <= |w| <= length ==> !Derives(data, StartId, w))
    {
      if StartId in nullables {
        return Some("");
      }
      var dp := new Option<string>[length + 1, count]((_, _) => None);
      FillUnits(data, dp);
      var bins := GrammarWithoutOneSymbolRules();
      for size := 2 to length + 1
        invariant RowsFilled(data, dp, size)
        invariant forall s, v :: size <= s <= length && 0 <= v < count ==> dp[s, v].None?
      {
        FillRow(data, dp, size, bins);
      }
      result := None;
      for index := 1 to length + 1
        invariant result == MinimalUpTo(data, index - 1)
      {
        assert dp[index, StartId] == Word(data, index, StartId);
        result := MinCell(result, dp[index, StartId]);
      }
      if IsCnf(data) {
        MinimalUpToCorrect(data, length);
      }
    }
  }
}
