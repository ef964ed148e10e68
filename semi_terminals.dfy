/** The pass `DeleteSemiTerminals` (ChomskyNormalForm.cpp:216-253): in every
    rule that is not of size one and holds a terminal, each terminal
    occurrence `a` is replaced by a fresh nonterminal `N` and the rule
    `N -> a` is emitted before the rewritten rule. */
module SemiTerminals {
  import opened Grammar

  /** Terminal occurrences in a right side. */
  function TerminalCount(right: seq<Symbol>): (n: nat)
    ensures n <= |right|
    decreases |right|
  {
    if right == [] then 0
    else TerminalCount(right[..|right| - 1]) + (if right[|right| - 1].isTerminal then 1 else 0)
  }

  /** `new_right` for a semi-terminal rule: the terminal at position `i` is
      replaced by the fresh id `c + TerminalCount(right[..i])`. */
  function Renamed(right: seq<Symbol>, c: int): seq<Symbol>
    decreases |right|
  {
    if right == [] then []
    else
      var init := right[..|right| - 1];
      var last := right[|right| - 1];
      Renamed(init, c) + [if last.isTerminal then Symbol(c + TerminalCount(init), false) else last]
  }

  /** The unit rules `fresh -> terminal` emitted while scanning `right`. */
  function Units(right: seq<Symbol>, c: int): seq<Rule>
    decreases |right|
  {
    if right == [] then []
    else
      var init := right[..|right| - 1];
      var last := right[|right| - 1];
      Units(init, c) + (if last.isTerminal then [OneSymbolRule(Symbol(c + TerminalCount(init), false), last)] else [])
  }

  /** Position by position: nonterminals are kept, the terminal at `i`
      becomes the fresh nonterminal `c + TerminalCount(right[..i])`, and no
      terminal is left. */
  lemma {:induction false} RenamedSpec(right: seq<Symbol>, c: int)
    ensures |Renamed(right, c)| == |right|
    ensures forall i :: 0 <= i < |right| ==> !Renamed(right, c)[i].isTerminal
    ensures forall i :: 0 <= i < |right| && !right[i].isTerminal ==> Renamed(right, c)[i] == right[i]
    ensures forall i :: 0 <= i < |right| && right[i].isTerminal ==>
      Renamed(right, c)[i] == Symbol(c + TerminalCount(right[..i]), false)
    decreases |right|
  {
    if right != [] {
      var init := right[..|right| - 1];
      RenamedSpec(init, c);
      forall i | 0 <= i < |init| ensures right[..i] == init[..i] { }
    }
  }

  lemma {:induction false} UnitsLength(right: seq<Symbol>, c: int)
    ensures |Units(right, c)| == TerminalCount(right)
    decreases |right|
  {
    if right != [] {
      UnitsLength(right[..|right| - 1], c);
    }
  }

  lemma {:induction false} UnitsPresent(right: seq<Symbol>, c: int)
    ensures forall i :: 0 <= i < |right| && right[i].isTerminal ==>
      OneSymbolRule(Symbol(c + TerminalCount(right[..i]), false), right[i]) in Units(right, c)
    decreases |right|
  {
    if right != [] {
      var init := right[..|right| - 1];
      UnitsPresent(init, c);
      forall i | 0 <= i < |init| ensures right[..i] == init[..i] { }
      assert right[..|right| - 1] == init;
    }
  }

  lemma {:induction false} UnitsShape(right: seq<Symbol>, c: int)
    ensures forall u :: u in Units(right, c) ==>
      && |u.right| == 1 && u.right[0].isTerminal && u.right[0] in right
      && !u.left.isTerminal && c <= u.left.id < c + TerminalCount(right)
    decreases |right|
  {
    if right != [] {
      var init := right[..|right| - 1];
      UnitsShape(init, c);
      forall u | u in Units(right, c)
        ensures |u.right| == 1 && u.right[0].isTerminal && u.right[0] in right
        ensures !u.left.isTerminal && c <= u.left.id < c + TerminalCount(right)
      {
        if u in Units(init, c) {
          assert u.right[0] in init;
        }
      }
    }
  }

  /** One unit rule per terminal occurrence; the one for position `i` is
      `Renamed(right, c)[i] -> right[i]`; every unit rule maps a fresh id in
      `[c, c + TerminalCount(right))` to a terminal of `right`. */
  lemma {:induction false} UnitsSpec(right: seq<Symbol>, c: int)
    ensures |Units(right, c)| == TerminalCount(right)
    ensures forall i :: 0 <= i < |right| && right[i].isTerminal ==>
      OneSymbolRule(Symbol(c + TerminalCount(right[..i]), false), right[i]) in Units(right, c)
    ensures forall u :: u in Units(right, c) ==>
      && |u.right| == 1 && u.right[0].isTerminal && u.right[0] in right
      && !u.left.isTerminal && c <= u.left.id < c + TerminalCount(right)
  {
    UnitsLength(right, c);
    UnitsPresent(right, c);
    UnitsShape(right, c);
  }

  /** One more scanned symbol of a right side: a terminal mints the next
      fresh id, appends its unit rule and is replaced by that id; a
      nonterminal is copied. */
  lemma ScanStep(right: seq<Symbol>, c: int, p: int)
    requires 0 <= p < |right|
    ensures var minted := Symbol(c + TerminalCount(right[..p]), false);
      && TerminalCount(right[..p + 1]) == TerminalCount(right[..p]) + (if right[p].isTerminal then 1 else 0)
      && Renamed(right[..p + 1], c) == Renamed(right[..p], c) + [if right[p].isTerminal then minted else right[p]]
      && Units(right[..p + 1], c) == Units(right[..p], c) + (if right[p].isTerminal then [OneSymbolRule(minted, right[p])] else [])
  {
    assert right[..p + 1][..p] == right[..p];
  }

  /** Fresh ids a rule consumes: one per terminal of a semi-terminal rule. */
  function Minted(r: Rule): nat {
    if IsItSemiTerminal(r) then TerminalCount(r.right) else 0
  }

  /** Fresh ids the whole pass consumes. */
  function MintedCount(rules: seq<Rule>): nat
    decreases |rules|
  {
    if rules == [] then 0 else MintedCount(rules[..|rules| - 1]) + Minted(rules[|rules| - 1])
  }

  /** What the pass emits for one rule, the counter standing at `c`: the unit
      rules then the rewritten rule for a semi-terminal rule, the rule itself
      (its left side marked nonterminal) otherwise. */
  function IsolatedImage(r: Rule, c: int): seq<Rule> {
    if IsItSemiTerminal(r) then Units(r.right, c) + [Rule(Symbol(r.left.id, false), Renamed(r.right, c))]
    else [Rule(Symbol(r.left.id, false), r.right)]
  }

  /** `DeleteSemiTerminals` on `rules` with the counter at `c`. */
  function SemiTerminalsDeleted(rules: seq<Rule>, c: int): seq<Rule>
    decreases |rules|
  {
    if rules == [] then []
    else
      var init := rules[..|rules| - 1];
      SemiTerminalsDeleted(init, c) + IsolatedImage(rules[|rules| - 1], c + MintedCount(init))
  }

  /** The output for a non-empty list: the output for all but its last
      rule, then the image of the last rule. */
  lemma SemiTerminalsDeletedUnfold(rules: seq<Rule>, c: int)
    requires rules != []
    ensures var init := rules[..|rules| - 1];
      && SemiTerminalsDeleted(rules, c) == SemiTerminalsDeleted(init, c) + IsolatedImage(rules[|rules| - 1], c + MintedCount(init))
      && MintedCount(rules) == MintedCount(init) + Minted(rules[|rules| - 1])
  {
  }

  /** Where a rule of the output comes from. */
  lemma SemiTerminalsDeletedMember(rules: seq<Rule>, c: int, r': Rule)
    requires rules != [] && r' in SemiTerminalsDeleted(rules, c)
    ensures var init := rules[..|rules| - 1];
      r' in SemiTerminalsDeleted(init, c) || r' in IsolatedImage(rules[|rules| - 1], c + MintedCount(init))
  {
    SemiTerminalsDeletedUnfold(rules, c);
  }

  /** One more input rule: its image, at the counter moved past the ids
      minted for all earlier rules, is appended to the output. */
  lemma SemiTerminalsDeletedStep(rules: seq<Rule>, c: int, k: int, prev: seq<Rule>, out: seq<Rule>)
    requires 0 <= k < |rules| && prev == SemiTerminalsDeleted(rules[..k], c)
    requires out == prev + IsolatedImage(rules[k], c + MintedCount(rules[..k]))
    ensures out == SemiTerminalsDeleted(rules[..k + 1], c)
    ensures MintedCount(rules[..k + 1]) == MintedCount(rules[..k]) + Minted(rules[k])
  {
    assert rules[..k + 1][..k] == rules[..k];
  }

  /** One rule of a grammar with sizes 1..2 and no chain rule comes out in
      Chomsky Normal Form. */
  lemma IsolatedImageCnf(r: Rule, c: int)
    requires 1 <= |r.right| <= 2 && !IsItChainRule(r)
    ensures IsCnf(IsolatedImage(r, c))
  {
    if IsItSemiTerminal(r) {
      RenamedSpec(r.right, c);
      UnitsSpec(r.right, c);
    } else if |r.right| == 2 {
      assert !r.right[0].isTerminal && !r.right[1].isTerminal;
    }
  }

  /** After the earlier passes (sizes 1..2, no chain rule) the pass yields
      a grammar in Chomsky Normal Form: every rule is one terminal or two
      nonterminals. */
  lemma {:induction false} SemiTerminalsDeletedCnf(rules: seq<Rule>, c: int)
    requires ShortNonEmpty(rules)
    requires forall r :: r in rules ==> !IsItChainRule(r)
    ensures IsCnf(SemiTerminalsDeleted(rules, c))
    decreases |rules|
  {
    if rules != [] {
      var init := rules[..|rules| - 1];
      var last := rules[|rules| - 1];
      var c' := c + MintedCount(init);
      assert ShortNonEmpty(init) && forall r :: r in init ==> !IsItChainRule(r) by {
        forall r | r in init ensures 1 <= |r.right| <= 2 && !IsItChainRule(r) { assert r in rules; }
      }
      SemiTerminalsDeletedCnf(init, c);
      assert 1 <= |last.right| <= 2 && !IsItChainRule(last) by { assert last in rules; }
      IsolatedImageCnf(last, c');
      CnfAppend(SemiTerminalsDeleted(rules, c), SemiTerminalsDeleted(init, c), IsolatedImage(last, c'));
    }
  }

  /** Every rule that is not semi-terminal is kept, its left side marked
      nonterminal. */
  lemma {:induction false} SemiTerminalsDeletedKeeps(rules: seq<Rule>, c: int)
    ensures forall r :: r in rules && !IsItSemiTerminal(r) ==>
      Rule(Symbol(r.left.id, false), r.right) in SemiTerminalsDeleted(rules, c)
    decreases |rules|
  {
    if rules != [] {
      var init := rules[..|rules| - 1];
      var last := rules[|rules| - 1];
      SemiTerminalsDeletedKeeps(init, c);
      assert rules == init + [last];
    }
  }

  /** A rule that is not semi-terminal is kept (its left side marked
      nonterminal), a semi-terminal one keeps its left id, and every unit
      rule it spawns maps a fresh id in `[c, c + Minted(r))` to one of its
      terminals. */
  lemma IsolatedImageSpec(r: Rule, c: int)
    ensures !IsItSemiTerminal(r) ==> IsolatedImage(r, c) == [Rule(Symbol(r.left.id, false), r.right)]
    ensures IsItSemiTerminal(r) ==>
      && |IsolatedImage(r, c)| == TerminalCount(r.right) + 1
      && IsolatedImage(r, c)[|IsolatedImage(r, c)| - 1] == Rule(Symbol(r.left.id, false), Renamed(r.right, c))
    ensures forall r' :: r' in IsolatedImage(r, c) ==>
      r' == Rule(Symbol(r.left.id, false), if IsItSemiTerminal(r) then Renamed(r.right, c) else r.right)
      || (|r'.right| == 1 && r'.right[0].isTerminal && r'.right[0] in r.right && c <= r'.left.id < c + Minted(r))
  {
    UnitsSpec(r.right, c);
  }

  /** A rule of the image of `r` has the left id of `r` or a fresh one. */
  lemma IsolatedImageLeftId(r: Rule, c: int, r': Rule)
    requires r' in IsolatedImage(r, c)
    ensures r'.left.id == r.left.id || c <= r'.left.id < c + Minted(r)
  {
    IsolatedImageSpec(r, c);
  }

  /** One rule: ids stay in range once the counter covers the ids it
      mints, and its left ids are the original one or fresh ones. */
  lemma IsolatedImageWellFormed(r: Rule, c0: int, c: int, count: int)
    requires 0 <= c0 <= c && ValidRule(r, c0) && c + Minted(r) <= count
    ensures WellFormed(IsolatedImage(r, c), count)
    ensures forall r' :: r' in IsolatedImage(r, c) ==> r'.left.id == r.left.id || c <= r'.left.id < c + Minted(r)
  {
    IsolatedImageSpec(r, c);
    var out := IsolatedImage(r, c);
    forall r' | r' in out ensures ValidRule(r', count) {
      if IsItSemiTerminal(r) && r' == out[|out| - 1] {
        RenamedSpec(r.right, c);
        forall s | s in r'.right ensures ValidSymbol(s, count) {
          var i :| 0 <= i < |r.right| && Renamed(r.right, c)[i] == s;
          assert r.right[i] in r.right;
          if r.right[i].isTerminal {
            assert TerminalCount(r.right[..i]) < TerminalCount(r.right) by {
              TerminalCountPrefix(r.right, i);
            }
          }
        }
      }
    }
  }

  /** A prefix that stops before a terminal holds fewer terminals than the
      whole right side. */
  lemma {:induction false} TerminalCountPrefix(right: seq<Symbol>, i: int)
    requires 0 <= i < |right| && right[i].isTerminal
    ensures TerminalCount(right[..i]) < TerminalCount(right)
    decreases |right|
  {
    var n := |right| - 1;
    if i < n {
      TerminalCountPrefix(right[..n], i);
      assert right[..n][..i] == right[..i];
    } else {
      assert right[..n] == right[..i];
    }
  }

  lemma WellFormedPrefix(rules: seq<Rule>, count: int, k: int)
    requires WellFormed(rules, count) && 0 <= k <= |rules|
    ensures WellFormed(rules[..k], count)
  {
    forall r | r in rules[..k] ensures ValidRule(r, count) { assert r in rules; }
  }

  /** The pass keeps ids in range once the counter is advanced by
      `MintedCount(rules)`. */
  lemma {:induction false} SemiTerminalsDeletedWellFormed(rules: seq<Rule>, c: int)
    requires c >= 0 && WellFormed(rules, c)
    ensures WellFormed(SemiTerminalsDeleted(rules, c), c + MintedCount(rules))
    decreases |rules|
  {
    if rules != [] {
      var init := rules[..|rules| - 1];
      var last := rules[|rules| - 1];
      var c' := c + MintedCount(init);
      var hi := c + MintedCount(rules);
      WellFormedPrefix(rules, c, |rules| - 1);
      SemiTerminalsDeletedWellFormed(init, c);
      WellFormedMonotone(SemiTerminalsDeleted(init, c), c', hi);
      assert last in rules;
      IsolatedImageWellFormed(last, c, c', hi);
      WellFormedAppend(SemiTerminalsDeleted(init, c), IsolatedImage(last, c'), hi);
      SemiTerminalsDeletedUnfold(rules, c);
      WellFormedEqual(SemiTerminalsDeleted(rules, c), SemiTerminalsDeleted(init, c) + IsolatedImage(last, c'), hi);
    }
  }

  /** Every left id of the output is an input left id or a fresh id in
      `[c, c + MintedCount(rules))`. */
  lemma {:induction false} SemiTerminalsDeletedLeftIds(rules: seq<Rule>, c: int)
    ensures forall r' :: r' in SemiTerminalsDeleted(rules, c) ==>
      r'.left.id in LeftIds(rules) || c <= r'.left.id < c + MintedCount(rules)
    decreases |rules|
  {
    if rules != [] {
      var init := rules[..|rules| - 1];
      var last := rules[|rules| - 1];
      var c' := c + MintedCount(init);
      SemiTerminalsDeletedLeftIds(init, c);
      SemiTerminalsDeletedUnfold(rules, c);
      assert LeftIds(rules) == LeftIds(init) + {last.left.id};
      forall r' | r' in SemiTerminalsDeleted(rules, c)
        ensures r'.left.id in LeftIds(rules) || c <= r'.left.id < c + MintedCount(rules)
      {
        SemiTerminalsDeletedMember(rules, c, r');
        if r' !in SemiTerminalsDeleted(init, c) {
          IsolatedImageLeftId(last, c', r');
        }
      }
    }
  }
}
