/** The binarisation pass `DeleteLongRules` (ChomskyNormalForm.cpp:77-108) as a
    function of the rule list and the fresh-nonterminal counter. */
module LongRules {
  import opened Grammar

  /** Fresh ids a rule consumes: `length - 2` for a long rule, none otherwise. */
  function ExtraIds(r: Rule): nat {
    if |r.right| <= 2 then 0 else |r.right| - 2
  }

  /** Fresh ids the whole pass consumes. */
  function FreshCount(rules: seq<Rule>): nat
    decreases |rules|
  {
    if rules == [] then 0
    else FreshCount(rules[..|rules| - 1]) + ExtraIds(rules[|rules| - 1])
  }

  /** The binary rule emitted at `position` of a long rule, when the counter
      stood at `c` before the rule was split. */
  function LinkRule(r: Rule, c: int, position: int): Rule
    requires 2 < |r.right| && 0 <= position < |r.right| - 1
  {
    var length := |r.right|;
    var left := if position != 0 then Symbol(c + position - 1, false) else Symbol(r.left.id, false);
    var second := if position < length - 2 then Symbol(c + position, false) else r.right[length - 1];
    Rule(left, [r.right[position], second])
  }

  /** What the pass emits for one rule. */
  function Binarized(r: Rule, c: int): seq<Rule> {
    if |r.right| <= 2 then [r]
    else seq(|r.right| - 1, position requires 0 <= position < |r.right| - 1 => LinkRule(r, c, position))
  }

  /** A short rule is copied unchanged; a rule of length n > 2 becomes n - 1
      binary rules: the first keeps the left id, rule i starts with `right[i]`,
      the last ends with `right[n - 1]`, and rule i is linked to rule i + 1 by
      the fresh id `c + i`. */
  lemma BinarizedShape(r: Rule, c: int)
    ensures |r.right| <= 2 ==> Binarized(r, c) == [r]
    ensures |r.right| > 2 ==>
      var out := Binarized(r, c);
      && |out| == |r.right| - 1
      && out[0].left == Symbol(r.left.id, false)
      && (forall i :: 0 <= i < |out| ==> |out[i].right| == 2 && out[i].right[0] == r.right[i])
      && out[|out| - 1].right[1] == r.right[|r.right| - 1]
      && (forall i :: 0 <= i < |out| - 1 ==> out[i].right[1] == Symbol(c + i, false))
      && (forall i :: 1 <= i < |out| ==> out[i].left == Symbol(c + i - 1, false))
  {
  }

  /** A rule of length at most two is emitted alone. */
  lemma BinarizedKeepsShort(r: Rule, c: int)
    requires |r.right| <= 2
    ensures Binarized(r, c) == [r] && ExtraIds(r) == 0
  {
  }

  /** Reading the chain back (first symbols, then the last second symbol)
      spells the original right side. */
  lemma BinarizedSpellsRule(r: Rule, c: int)
    requires |r.right| > 2
    ensures var out := Binarized(r, c);
      seq(|out|, i requires 0 <= i < |out| => out[i].right[0]) + [out[|out| - 1].right[1]] == r.right
  {
    BinarizedShape(r, c);
    var out := Binarized(r, c);
    var spelled := seq(|out|, i requires 0 <= i < |out| => out[i].right[0]) + [out[|out| - 1].right[1]];
    assert |spelled| == |r.right|;
    forall i | 0 <= i < |r.right|
      ensures spelled[i] == r.right[i]
    {
    }
  }

  /** `DeleteLongRules` on the rule list `rules` with the counter at `c`. */
  function LongRulesDeleted(rules: seq<Rule>, c: int): seq<Rule>
    decreases |rules|
  {
    if rules == [] then []
    else
      var init := rules[..|rules| - 1];
      LongRulesDeleted(init, c) + Binarized(rules[|rules| - 1], c + FreshCount(init))
  }

  /** The output for a non-empty list: the output for all but its last rule,
      then the split of the last rule. */
  lemma LongRulesDeletedUnfold(rules: seq<Rule>, c: int)
    requires rules != []
    ensures var init := rules[..|rules| - 1];
      && LongRulesDeleted(rules, c) == LongRulesDeleted(init, c) + Binarized(rules[|rules| - 1], c + FreshCount(init))
      && FreshCount(rules) == FreshCount(init) + ExtraIds(rules[|rules| - 1])
  {
  }

  /** One more input rule: its split, at the counter moved past the ids of
      all earlier long rules, is appended to the output. */
  lemma LongRulesDeletedStep(rules: seq<Rule>, c: int, k: int, prev: seq<Rule>, out: seq<Rule>)
    requires 0 <= k < |rules| && prev == LongRulesDeleted(rules[..k], c)
    requires out == prev + Binarized(rules[k], c + FreshCount(rules[..k]))
    ensures out == LongRulesDeleted(rules[..k + 1], c)
    ensures FreshCount(rules[..k + 1]) == FreshCount(rules[..k]) + ExtraIds(rules[k])
  {
    LongRulesDeletedPrefix(rules, c, k);
    var b := Binarized(rules[k], c + FreshCount(rules[..k]));
    AppendEqual(out, prev, b, LongRulesDeleted(rules[..k + 1], c), LongRulesDeleted(rules[..k], c), b);
  }

  /** The output for a prefix one rule longer. */
  lemma LongRulesDeletedPrefix(rules: seq<Rule>, c: int, k: int)
    requires 0 <= k < |rules|
    ensures LongRulesDeleted(rules[..k + 1], c) ==
      LongRulesDeleted(rules[..k], c) + Binarized(rules[k], c + FreshCount(rules[..k]))
    ensures FreshCount(rules[..k + 1]) == FreshCount(rules[..k]) + ExtraIds(rules[k])
  {
    var rules' := rules[..k + 1];
    assert rules'[..|rules'| - 1] == rules[..k];
    assert rules'[|rules'| - 1] == rules[k];
  }

  /** Where a rule of the output comes from: the output for all but the last
      input rule, or the split of the last one. */
  lemma LongRulesDeletedMember(rules: seq<Rule>, c: int, r': Rule)
    requires rules != [] && r' in LongRulesDeleted(rules, c)
    ensures var init := rules[..|rules| - 1];
      r' in LongRulesDeleted(init, c) || r' in Binarized(rules[|rules| - 1], c + FreshCount(init))
  {
  }

  /** The converse of `LongRulesDeletedMember`. */
  lemma LongRulesDeletedKeeps(rules: seq<Rule>, c: int, r': Rule)
    requires rules != []
    requires var init := rules[..|rules| - 1];
      r' in LongRulesDeleted(init, c) || r' in Binarized(rules[|rules| - 1], c + FreshCount(init))
    ensures r' in LongRulesDeleted(rules, c)
  {
  }

  /** No rule the split of one rule emits is longer than two. */
  lemma BinarizedShort(r: Rule, c: int)
    ensures forall r' :: r' in Binarized(r, c) ==> |r'.right| <= 2
  {
    var out := Binarized(r, c);
    if |r.right| > 2 {
      forall r' | r' in out ensures |r'.right| <= 2 {
        var i :| 0 <= i < |out| && out[i] == r';
      }
    }
  }

  /** After the pass no right side is longer than two. */
  lemma {:induction false} LongRulesDeletedShort(rules: seq<Rule>, c: int)
    ensures forall r :: r in LongRulesDeleted(rules, c) ==> |r.right| <= 2
    decreases |rules|
  {
    if rules != [] {
      var init, last := rules[..|rules| - 1], rules[|rules| - 1];
      LongRulesDeletedShort(init, c);
      BinarizedShort(last, c + FreshCount(init));
      forall r | r in LongRulesDeleted(rules, c) ensures |r.right| <= 2 {
        LongRulesDeletedMember(rules, c, r);
      }
    }
  }

  /** Every rule that was already short survives the pass. */
  lemma {:induction false} LongRulesDeletedKeepsShort(rules: seq<Rule>, c: int)
    ensures forall r :: r in rules && |r.right| <= 2 ==> r in LongRulesDeleted(rules, c)
    decreases |rules|
  {
    if rules != [] {
      var init, last := rules[..|rules| - 1], rules[|rules| - 1];
      LongRulesDeletedKeepsShort(init, c);
      forall r | r in rules && |r.right| <= 2 ensures r in LongRulesDeleted(rules, c) {
        if r != last {
          assert r in init by {
            assert rules == init + [last];
          }
        }
        LongRulesDeletedKeeps(rules, c, r);
      }
    }
  }

  /** One split rule: its symbols stay valid and its left ids are the
      original one or fresh ones in `[c, c + ExtraIds(r))`. */
  lemma BinarizedWellFormed(r: Rule, c0: int, c: int, count: int)
    requires 0 <= c0 <= c && ValidRule(r, c0) && c + ExtraIds(r) <= count
    ensures WellFormed(Binarized(r, c), count)
    ensures forall r' :: r' in Binarized(r, c) ==>
      r'.left.id == r.left.id || c <= r'.left.id < c + ExtraIds(r)
  {
    BinarizedShape(r, c);
    var out := Binarized(r, c);
    if |r.right| > 2 {
      forall r' | r' in out
        ensures ValidRule(r', count)
        ensures r'.left.id == r.left.id || c <= r'.left.id < c + ExtraIds(r)
      {
        var i :| 0 <= i < |out| && out[i] == r';
        assert r.right[i] in r.right && r.right[|r.right| - 1] in r.right;
      }
    }
  }

  lemma BinarizedRuleValid(r: Rule, c0: int, c: int, count: int, r': Rule)
    requires 0 <= c0 <= c && ValidRule(r, c0) && c + ExtraIds(r) <= count
    requires r' in Binarized(r, c)
    ensures ValidRule(r', count)
  {
    BinarizedWellFormed(r, c0, c, count);
  }

  /** The pass keeps ids in range: every fresh id is below the new counter
      `c + FreshCount(rules)`. */
  lemma {:induction false} LongRulesDeletedWellFormed(rules: seq<Rule>, c: int)
    requires c >= 0 && WellFormed(rules, c)
    ensures WellFormed(LongRulesDeleted(rules, c), c + FreshCount(rules))
    decreases |rules|
  {
    if rules != [] {
      WellFormedInitLast(rules, c);
      LongRulesDeletedWellFormed(rules[..|rules| - 1], c);
      var init := rules[..|rules| - 1];
      LongRulesDeletedUnfold(rules, c);
      var c' := c + FreshCount(init);
      WellFormedStep(LongRulesDeleted(init, c), rules[|rules| - 1], c, c', c + FreshCount(rules));
      WellFormedEqual(LongRulesDeleted(rules, c), LongRulesDeleted(init, c) + Binarized(rules[|rules| - 1], c'),
                      c + FreshCount(rules));
    }
  }

  /** The prefix and the last rule of a well-formed list are well formed. */
  lemma WellFormedInitLast(rules: seq<Rule>, c: int)
    requires rules != [] && WellFormed(rules, c)
    ensures WellFormed(rules[..|rules| - 1], c) && ValidRule(rules[|rules| - 1], c)
  {
    var init := rules[..|rules| - 1];
    forall r | r in init ensures ValidRule(r, c) {
      assert r in rules;
    }
    assert rules[|rules| - 1] in rules;
  }

  /** The induction step of `LongRulesDeletedWellFormed`: the split of the
      last rule only uses ids below the moved counter. */
  lemma WellFormedStep(prev: seq<Rule>, last: Rule, c: int, c': int, hi: int)
    requires 0 <= c <= c' && c' + ExtraIds(last) <= hi && ValidRule(last, c) && WellFormed(prev, c')
    ensures WellFormed(prev + Binarized(last, c'), hi)
  {
    WellFormedMonotone(prev, c', hi);
    BinarizedWellFormed(last, c, c', hi);
    WellFormedAppend(prev, Binarized(last, c'), hi);
  }

  /** Every left id of the output is a left id of the input or a fresh id in
      `[c, c + FreshCount(rules))`; for a well-formed input (ids below `c`) the
      two kinds never collide, so no original nonterminal, in particular `S`,
      is ever reused. */
  lemma {:induction false} LongRulesDeletedLeftIds(rules: seq<Rule>, c: int)
    ensures forall r' :: r' in LongRulesDeleted(rules, c) ==>
      r'.left.id in LeftIds(rules) || c <= r'.left.id < c + FreshCount(rules)
    decreases |rules|
  {
    if rules != [] {
      var init := rules[..|rules| - 1];
      var last := rules[|rules| - 1];
      LongRulesDeletedLeftIds(init, c);
      BinarizedShape(last, c + FreshCount(init));
      forall r' | r' in LongRulesDeleted(rules, c)
        ensures r'.left.id in LeftIds(rules) || c <= r'.left.id < c + FreshCount(rules)
      {
        LongRulesDeletedMember(rules, c, r');
        var tail := Binarized(last, c + FreshCount(init));
        if r' in tail && |last.right| > 2 {
          var i :| 0 <= i < |tail| && tail[i] == r';
        }
      }
    }
  }

  /** On a grammar with no long rule the pass is the identity and mints no
      id, so running it a second time changes nothing. */
  lemma {:induction false} LongRulesDeletedIdentity(rules: seq<Rule>, c: int)
    requires forall r :: r in rules ==> |r.right| <= 2
    ensures LongRulesDeleted(rules, c) == rules && FreshCount(rules) == 0
    decreases |rules|
  {
    if rules != [] {
      var init, last := rules[..|rules| - 1], rules[|rules| - 1];
      SplitLast(rules);
      assert last in rules;
      assert |last.right| <= 2;
      LongRulesDeletedIdentity(init, c);
      LongRulesDeletedUnfold(rules, c);
      BinarizedKeepsShort(last, c + FreshCount(init));
      AppendEqual(LongRulesDeleted(rules, c), LongRulesDeleted(init, c), Binarized(last, c + FreshCount(init)),
                  rules, init, [last]);
    }
  }

  lemma LongRulesDeletedIdempotent(rules: seq<Rule>, c: int, c': int)
    ensures LongRulesDeleted(LongRulesDeleted(rules, c), c') == LongRulesDeleted(rules, c)
    ensures FreshCount(LongRulesDeleted(rules, c)) == 0
  {
    LongRulesDeletedShort(rules, c);
    LongRulesDeletedIdentity(LongRulesDeleted(rules, c), c');
  }
}
