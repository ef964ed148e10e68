/** Symbols and rules of the context-free grammar normaliser (ChomskyNormalForm.cpp).

    Terminals and nonterminals have separate dense id spaces: a lowercase letter
    is terminal `letter - 'a'`, any other character is nonterminal `letter - 'A'`.
    Nonterminal ids from 26 upward are synthetic ones minted by the passes. */
module Grammar {

  /** ALPHABET_SIZE: the fresh-nonterminal counter starts here. */
  const AlphabetSize: int := 26
  /** INITIAL_START_SYMBOL 'S' as a nonterminal id. */
  const StartId: int := 18

  datatype Option<T> = None | Some(value: T)

  datatype Symbol = Symbol(id: int, isTerminal: bool)

  /** A production `left -> right`; an empty `right` is an epsilon rule. */
  datatype Rule = Rule(left: Symbol, right: seq<Symbol>)

  predicate IsLower(c: char) { 'a' <= c <= 'z' }
  predicate IsUpper(c: char) { 'A' <= c <= 'Z' }

  /** The `Symbol(char)` constructor. */
  function FromChar(letter: char): (s: Symbol)
    ensures s.isTerminal <==> IsLower(letter)
    ensures IsLower(letter) ==> 0 <= s.id < AlphabetSize && s.id == letter as int - 'a' as int
    ensures !IsLower(letter) ==> s.id == letter as int - 'A' as int
    ensures IsUpper(letter) ==> 0 <= s.id < AlphabetSize
  {
    if 'a' <= letter <= 'z' then Symbol(letter as int - 'a' as int, true)
    else Symbol(letter as int - 'A' as int, false)
  }

  /** `Symbol::ToChar`; only ever applied to ids of the 26 letters. */
  function ToChar(s: Symbol): (c: char)
    requires 0 <= s.id < AlphabetSize
    ensures s.isTerminal ==> IsLower(c)
    ensures !s.isTerminal ==> IsUpper(c)
  {
    if s.isTerminal then ('a' as int + s.id) as char else ('A' as int + s.id) as char
  }

  lemma CharRoundTrip(c: char)
    requires IsLower(c) || IsUpper(c)
    ensures 0 <= FromChar(c).id < AlphabetSize && ToChar(FromChar(c)) == c
  {
  }

  lemma SymbolRoundTrip(s: Symbol)
    requires 0 <= s.id < AlphabetSize
    ensures FromChar(ToChar(s)) == s
  {
  }

  /** `OneSymbolRule(left, right)`. */
  function OneSymbolRule(left: Symbol, right: Symbol): (r: Rule)
    ensures r.left == left && |r.right| == 1 && r.right[0] == right
  {
    Rule(left, [right])
  }

  /** `IsItNullable`: a terminal is never nullable. */
  predicate IsItNullable(s: Symbol, nullables: set<int>) {
    !s.isTerminal && s.id in nullables
  }

  predicate IsItEpsRule(r: Rule) { |r.right| == 0 }

  /** `IsItChainRule` reads `right[0]` before it looks at the size, so it
      needs a rule with a non-empty right side. */
  predicate IsItChainRule(r: Rule)
    requires |r.right| >= 1
  {
    var first := r.right[0];
    |r.right| == 1 && !first.isTerminal
  }

  /** `IsItSemiTerminal`: a rule whose right side is not of size one and
      holds a terminal. */
  predicate IsItSemiTerminal(r: Rule) {
    if |r.right| == 1 then false
    else exists i :: 0 <= i < |r.right| && r.right[i].isTerminal
  }

  /** Every id is in range: terminals are letters, nonterminals are below the
      fresh-nonterminal counter `count`. */
  predicate ValidSymbol(s: Symbol, count: int) {
    0 <= s.id && (if s.isTerminal then s.id < AlphabetSize else s.id < count)
  }

  predicate ValidRule(r: Rule, count: int) {
    0 <= r.left.id < count && forall s :: s in r.right ==> ValidSymbol(s, count)
  }

  predicate WellFormed(rules: seq<Rule>, count: int) {
    forall r :: r in rules ==> ValidRule(r, count)
  }

  lemma ValidRuleMonotone(r: Rule, count: int, count': int)
    requires ValidRule(r, count) && count <= count'
    ensures ValidRule(r, count')
  {
  }

  lemma WellFormedMonotone(rules: seq<Rule>, count: int, count': int)
    requires WellFormed(rules, count) && count <= count'
    ensures WellFormed(rules, count')
  {
  }

  lemma WellFormedEqual(a: seq<Rule>, b: seq<Rule>, count: int)
    requires a == b && WellFormed(b, count)
    ensures WellFormed(a, count)
  {
  }

  lemma WellFormedAppend(a: seq<Rule>, b: seq<Rule>, count: int)
    requires WellFormed(a, count) && WellFormed(b, count)
    ensures WellFormed(a + b, count)
  {
  }

  /** A non-empty rule list is its prefix followed by its last rule. */
  lemma SplitLast(rules: seq<Rule>)
    requires rules != []
    ensures rules == rules[..|rules| - 1] + [rules[|rules| - 1]]
  {
  }

  /** Equal parts make equal concatenations. */
  lemma AppendEqual(x: seq<Rule>, a: seq<Rule>, b: seq<Rule>, y: seq<Rule>, a': seq<Rule>, b': seq<Rule>)
    requires x == a + b && y == a' + b' && a == a' && b == b'
    ensures x == y
  {
  }

  /** The left ids of a rule list. */
  function LeftIds(rules: seq<Rule>): (ids: set<int>)
    ensures forall r :: r in rules ==> r.left.id in ids
    decreases |rules|
  {
    if rules == [] then {} else LeftIds(rules[..|rules| - 1]) + {rules[|rules| - 1].left.id}
  }

  /** Every left id lies in `base` or in `[lo, hi)`. */
  predicate LeftIdsIn(rules: seq<Rule>, base: set<int>, lo: int, hi: int) {
    forall r :: r in rules ==> r.left.id in base || lo <= r.left.id < hi
  }

  /** A bound on the left ids of the rules is a bound on `LeftIds`. */
  lemma {:induction false} LeftIdsBound(rules: seq<Rule>, base: set<int>, lo: int, hi: int)
    requires LeftIdsIn(rules, base, lo, hi)
    ensures forall x :: x in LeftIds(rules) ==> x in base || lo <= x < hi
    decreases |rules|
  {
    if rules != [] {
      var init := rules[..|rules| - 1];
      assert forall r :: r in init ==> r in rules;
      assert rules[|rules| - 1] in rules;
      LeftIdsBound(init, base, lo, hi);
    }
  }

  /** The left ids of rules whose left ids all lie in `base` form a subset of `base`. */
  lemma LeftIdsWithin(rules: seq<Rule>, base: set<int>)
    requires forall r :: r in rules ==> r.left.id in base
    ensures LeftIds(rules) <= base
  {
    LeftIdsBound(rules, base, 0, 0);
    forall x | x in LeftIds(rules) ensures x in base {
    }
  }

  /** A rule of Chomsky Normal Form: one terminal, or two nonterminals. */
  predicate IsCnfRule(r: Rule) {
    || (|r.right| == 1 && r.right[0].isTerminal)
    || (|r.right| == 2 && !r.right[0].isTerminal && !r.right[1].isTerminal)
  }

  predicate IsCnf(rules: seq<Rule>) {
    forall r :: r in rules ==> IsCnfRule(r)
  }

  lemma CnfAppend(out: seq<Rule>, a: seq<Rule>, b: seq<Rule>)
    requires out == a + b && IsCnf(a) && IsCnf(b)
    ensures IsCnf(out)
  {
  }

  /** No rule has an empty right side. */
  predicate NoEpsRules(rules: seq<Rule>) {
    forall r :: r in rules ==> |r.right| >= 1
  }

  /** Every right side has one or two symbols. */
  predicate ShortNonEmpty(rules: seq<Rule>) {
    forall r :: r in rules ==> 1 <= |r.right| <= 2
  }
}
