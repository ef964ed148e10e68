/** Nullable nonterminals and the epsilon pass `DeleteEPSRules`
    (ChomskyNormalForm.cpp:112-162) as functions of the rule list and the
    nullable set. The fixed-point loop `FindNullable` itself is a method of
    the grammar class; here are the predicates that specify it. */
module Nullable {
  import opened Grammar

  /** Every symbol of `right` is a nullable nonterminal (vacuously true for an
      epsilon rule). */
  predicate AllNullable(right: seq<Symbol>, nullables: set<int>) {
    forall i :: 0 <= i < |right| ==> IsItNullable(right[i], nullables)
  }

  /** `nullables` is closed under the rules: a rule whose right side is all
      nullable has a nullable left side. */
  predicate Closed(rules: seq<Rule>, nullables: set<int>) {
    forall r :: r in rules && AllNullable(r.right, nullables) ==> r.left.id in nullables
  }

  /** A terminal never counts as nullable, whatever the set holds. */
  lemma TerminalNeverNullable(s: Symbol, nullables: set<int>)
    requires s.isTerminal
    ensures !IsItNullable(s, nullables)
  {
  }

  lemma AllNullableMonotone(right: seq<Symbol>, small: set<int>, large: set<int>)
    requires AllNullable(right, small) && small <= large
    ensures AllNullable(right, large)
  {
  }

  /** A right side holding a terminal is never all nullable. */
  lemma TerminalBlocksNullable(right: seq<Symbol>, nullables: set<int>, i: int)
    requires 0 <= i < |right| && right[i].isTerminal
    ensures !AllNullable(right, nullables)
  {
  }

  /** There is at most one least closed superset of a set: the fixed point
      `FindNullable` reaches does not depend on the order of the rules. */
  lemma LeastClosedUnique(rules: seq<Rule>, base: set<int>, n1: set<int>, n2: set<int>)
    requires base <= n1 && Closed(rules, n1)
    requires forall m :: Closed(rules, m) && base <= m ==> n1 <= m
    requires base <= n2 && Closed(rules, n2)
    requires forall m :: Closed(rules, m) && base <= m ==> n2 <= m
    ensures n1 == n2
  {
  }

  /** Every id of the least closed superset of `base` is in `base` or is the
      left id of a rule. */
  lemma LeastClosedWithinLeftIds(rules: seq<Rule>, base: set<int>, n: set<int>)
    requires forall m :: Closed(rules, m) && base <= m ==> n <= m
    ensures n <= base + LeftIds(rules)
  {
    var m := base + LeftIds(rules);
    assert Closed(rules, m);
  }

  /** The unit rule `A -> X` that `DeleteEPSRules` adds for a binary rule. */
  function UnitCopy(r: Rule, keep: Symbol): (u: Rule)
    ensures u.left == Symbol(r.left.id, false) && u.right == [keep]
  {
    OneSymbolRule(Symbol(r.left.id, false), keep)
  }

  /** What the pass emits for one rule: nothing for an epsilon rule;
      otherwise the rule itself followed, for a binary `A -> XY`, by `A -> Y`
      when `X` is nullable and then `A -> X` when `Y` is nullable. */
  function EpsImage(r: Rule, nullables: set<int>): seq<Rule> {
    if IsItEpsRule(r) then []
    else if |r.right| == 2 then
      [r]
      + (if IsItNullable(r.right[0], nullables) then [UnitCopy(r, r.right[1])] else [])
      + (if IsItNullable(r.right[1], nullables) then [UnitCopy(r, r.right[0])] else [])
    else [r]
  }

  /** `r'` is one of the rules the pass emits for the input rule `r`. */
  predicate Produces(r: Rule, r': Rule, nullables: set<int>) {
    || (r' == r && |r.right| >= 1)
    || (|r.right| == 2 && IsItNullable(r.right[0], nullables) && r' == UnitCopy(r, r.right[1]))
    || (|r.right| == 2 && IsItNullable(r.right[1], nullables) && r' == UnitCopy(r, r.right[0]))
  }

  lemma EpsImageMembers(r: Rule, nullables: set<int>)
    ensures forall r' :: r' in EpsImage(r, nullables) <==> Produces(r, r', nullables)
  {
  }

  /** `DeleteEPSRules` on `rules` once `nullables` holds the fixed point. */
  function EpsRulesDeleted(rules: seq<Rule>, nullables: set<int>): seq<Rule>
    decreases |rules|
  {
    if rules == [] then []
    else EpsRulesDeleted(rules[..|rules| - 1], nullables) + EpsImage(rules[|rules| - 1], nullables)
  }

  lemma EpsRulesDeletedStep(rules: seq<Rule>, nullables: set<int>, k: int, prev: seq<Rule>, out: seq<Rule>)
    requires 0 <= k < |rules| && prev == EpsRulesDeleted(rules[..k], nullables)
    requires out == prev + EpsImage(rules[k], nullables)
    ensures out == EpsRulesDeleted(rules[..k + 1], nullables)
  {
    assert rules[..k + 1][..k] == rules[..k];
  }

  /** The output holds exactly the rules produced by some input rule: every
      non-empty rule, the unit rules `A -> Y` / `A -> X` for nullable `X` /
      `Y`, and nothing else. */
  lemma {:induction false} EpsRulesDeletedMembers(rules: seq<Rule>, nullables: set<int>)
    ensures forall r' :: r' in EpsRulesDeleted(rules, nullables) <==>
      exists r :: r in rules && Produces(r, r', nullables)
    decreases |rules|
  {
    if rules != [] {
      var init := rules[..|rules| - 1];
      var last := rules[|rules| - 1];
      EpsRulesDeletedMembers(init, nullables);
      EpsImageMembers(last, nullables);
      assert rules == init + [last];
      forall r' ensures r' in EpsRulesDeleted(rules, nullables) <==>
        exists r :: r in rules && Produces(r, r', nullables)
      {
        if r' in EpsRulesDeleted(rules, nullables) {
          if r' in EpsRulesDeleted(init, nullables) {
            var r :| r in init && Produces(r, r', nullables);
            assert r in rules;
          } else {
            assert last in rules && Produces(last, r', nullables);
          }
        }
        if exists r :: r in rules && Produces(r, r', nullables) {
          var r :| r in rules && Produces(r, r', nullables);
          if r in init {
            assert r' in EpsRulesDeleted(init, nullables);
          } else {
            assert r == last;
            assert r' in EpsImage(last, nullables);
          }
        }
      }
    }
  }

  /** No epsilon rule survives, every non-empty input rule does, and for a
      binary `A -> XY` the unit rule `A -> Y` is there when `X` is nullable
      and `A -> X` when `Y` is nullable. */
  lemma EpsRulesDeletedShape(rules: seq<Rule>, nullables: set<int>)
    ensures NoEpsRules(EpsRulesDeleted(rules, nullables))
    ensures forall r :: r in rules && |r.right| >= 1 ==> r in EpsRulesDeleted(rules, nullables)
    ensures forall r :: r in rules && |r.right| == 2 && IsItNullable(r.right[0], nullables) ==>
      UnitCopy(r, r.right[1]) in EpsRulesDeleted(rules, nullables)
    ensures forall r :: r in rules && |r.right| == 2 && IsItNullable(r.right[1], nullables) ==>
      UnitCopy(r, r.right[0]) in EpsRulesDeleted(rules, nullables)
  {
    EpsRulesDeletedMembers(rules, nullables);
    forall r' | r' in EpsRulesDeleted(rules, nullables) ensures |r'.right| >= 1 {
      var r :| r in rules && Produces(r, r', nullables);
    }
    forall r | r in rules && |r.right| >= 1 ensures r in EpsRulesDeleted(rules, nullables) {
      assert Produces(r, r, nullables);
    }
    forall r | r in rules && |r.right| == 2 && IsItNullable(r.right[0], nullables)
      ensures UnitCopy(r, r.right[1]) in EpsRulesDeleted(rules, nullables)
    {
      assert Produces(r, UnitCopy(r, r.right[1]), nullables);
    }
    forall r | r in rules && |r.right| == 2 && IsItNullable(r.right[1], nullables)
      ensures UnitCopy(r, r.right[0]) in EpsRulesDeleted(rules, nullables)
    {
      assert Produces(r, UnitCopy(r, r.right[0]), nullables);
    }
  }

  /** On a grammar whose right sides have at most two symbols, every right
      side of the output has one or two. */
  lemma EpsRulesDeletedShort(rules: seq<Rule>, nullables: set<int>)
    requires forall r :: r in rules ==> |r.right| <= 2
    ensures ShortNonEmpty(EpsRulesDeleted(rules, nullables))
  {
    EpsRulesDeletedMembers(rules, nullables);
    forall r' | r' in EpsRulesDeleted(rules, nullables) ensures 1 <= |r'.right| <= 2 {
      var r :| r in rules && Produces(r, r', nullables);
    }
  }

  /** The pass mints no id: ids stay in range and every left id of the output
      is a left id of the input. */
  lemma EpsRulesDeletedWellFormed(rules: seq<Rule>, nullables: set<int>, count: int)
    requires WellFormed(rules, count)
    ensures WellFormed(EpsRulesDeleted(rules, nullables), count)
    ensures forall r' :: r' in EpsRulesDeleted(rules, nullables) ==> r'.left.id in LeftIds(rules)
  {
    EpsRulesDeletedMembers(rules, nullables);
    forall r' | r' in EpsRulesDeleted(rules, nullables)
      ensures ValidRule(r', count) && r'.left.id in LeftIds(rules)
    {
      var r :| r in rules && Produces(r, r', nullables);
      assert ValidRule(r, count);
      if r' != r {
        assert r.right[0] in r.right && r.right[1] in r.right;
      }
    }
  }
}
