/** The table of `LexicographicallyMinimalWord` (ChomskyNormalForm.cpp:276-322)
    as functions, and what the table means for a grammar in Chomsky Normal
    Form: each entry is the least word of its length that its nonterminal
    derives.

    The sentinel string `"|"` (INF) is `None`: `'|'` sorts after every
    lowercase letter, so `std::min` against INF always picks the word, and a
    comparison with INF is a test for `None` (see `StdMinAgrees`). */
module MinimalWord {
  import opened Grammar

  /** `std::string::operator<`: lexicographic, a proper prefix first. */
  predicate LexLess(a: string, b: string)
    decreases |a|
  {
    if |a| == 0 then |b| > 0
    else if |b| == 0 then false
    else a[0] < b[0] || (a[0] == b[0] && LexLess(a[1..], b[1..]))
  }

  predicate LexLe(a: string, b: string) {
    a == b || LexLess(a, b)
  }

  lemma {:induction false} LexLessIrreflexive(a: string)
    ensures !LexLess(a, a)
    decreases |a|
  {
    if |a| > 0 {
      LexLessIrreflexive(a[1..]);
    }
  }

  lemma {:induction false} LexLessTransitive(a: string, b: string, c: string)
    requires LexLess(a, b) && LexLess(b, c)
    ensures LexLess(a, c)
    decreases |a|
  {
    if |a| > 0 && a[0] == b[0] && b[0] == c[0] {
      LexLessTransitive(a[1..], b[1..], c[1..]);
    }
  }

  lemma {:induction false} LexLessTotal(a: string, b: string)
    requires a != b
    ensures LexLess(a, b) || LexLess(b, a)
    decreases |a|
  {
    if |a| > 0 && |b| > 0 && a[0] == b[0] {
      assert a == [a[0]] + a[1..] && b == [b[0]] + b[1..];
      LexLessTotal(a[1..], b[1..]);
    }
  }

  lemma LexLeTransitive(a: string, b: string, c: string)
    requires LexLe(a, b) && LexLe(b, c)
    ensures LexLe(a, c)
  {
    if a != b && b != c {
      LexLessTransitive(a, b, c);
    }
  }

  /** A common prefix does not change the comparison. */
  lemma {:induction false} LexLessCommonPrefix(p: string, b: string, b': string)
    ensures LexLess(p + b, p + b') <==> LexLess(b, b')
    decreases |p|
  {
    if |p| > 0 {
      assert (p + b)[0] == p[0] == (p + b')[0];
      assert (p + b)[1..] == p[1..] + b && (p + b')[1..] == p[1..] + b';
      LexLessCommonPrefix(p[1..], b, b');
    } else {
      assert p + b == b && p + b' == b';
    }
  }

  /** Two words of the same length that differ decide the comparison of
      anything appended to them. */
  lemma {:induction false} LexLessSameLength(a: string, a': string, b: string, b': string)
    requires |a| == |a'| && LexLess(a, a')
    ensures LexLess(a + b, a' + b')
    decreases |a|
  {
    if a[0] == a'[0] {
      assert (a + b)[1..] == a[1..] + b && (a' + b')[1..] == a'[1..] + b';
      LexLessSameLength(a[1..], a'[1..], b, b');
    }
  }

  /** Concatenation is monotone when the first parts have equal lengths: the
      best split candidate is built from the best halves. */
  lemma LexLeConcat(a: string, a': string, b: string, b': string)
    requires |a| == |a'| && LexLe(a, a') && LexLe(b, b')
    ensures LexLe(a + b, a' + b')
  {
    if a != a' {
      LexLessSameLength(a, a', b, b');
    } else if b != b' {
      LexLessCommonPrefix(a, b, b');
    }
  }

  /** `std::min(cell, candidate)` with INF as `None`: the candidate replaces
      the cell only when it is strictly smaller. */
  function MinCell(cell: Option<string>, candidate: Option<string>): Option<string> {
    if candidate.None? then cell
    else if cell.None? || LexLess(candidate.value, cell.value) then candidate
    else cell
  }

  /** `o` holds a word no greater than `w`. */
  predicate Below(o: Option<string>, w: string) {
    o.Some? && LexLe(o.value, w)
  }

  /** The minimum is one of its two arguments and below both. */
  lemma MinCellSpec(cell: Option<string>, candidate: Option<string>)
    ensures MinCell(cell, candidate) == cell || MinCell(cell, candidate) == candidate
    ensures MinCell(cell, candidate).None? <==> cell.None? && candidate.None?
    ensures candidate.Some? ==> Below(MinCell(cell, candidate), candidate.value)
    ensures cell.Some? ==> Below(MinCell(cell, candidate), cell.value)
  {
    if cell.Some? && candidate.Some? && !LexLess(candidate.value, cell.value) && cell != candidate {
      LexLessTotal(candidate.value, cell.value);
    }
  }

  predicate IsLowercase(w: string) {
    forall i :: 0 <= i < |w| ==> IsLower(w[i])
  }

  /** The string a `dp` cell of ChomskyNormalForm.cpp holds, INF standing for `None`. */
  function Spelled(o: Option<string>): string {
    if o.None? then "|" else o.value
  }

  /** `"|"` is greater than every lowercase word. */
  lemma InfIsTop(w: string)
    requires IsLowercase(w)
    ensures LexLess(w, "|") && !LexLess("|", w)
  {
  }

  /** On cells holding lowercase words the model of `std::min` and of the
      INF test agree with the strings ChomskyNormalForm.cpp compares. */
  lemma StdMinAgrees(cell: Option<string>, candidate: Option<string>)
    requires cell.Some? ==> IsLowercase(cell.value)
    requires candidate.Some? ==> IsLowercase(candidate.value)
    ensures Spelled(MinCell(cell, candidate)) ==
      (if LexLess(Spelled(candidate), Spelled(cell)) then Spelled(candidate) else Spelled(cell))
    ensures Spelled(cell) != "|" <==> cell.Some?
  {
    if cell.Some? { InfIsTop(cell.value); }
    if candidate.Some? { InfIsTop(candidate.value); }
    if cell.None? && candidate.None? { LexLessIrreflexive("|"); }
  }

  /** What `GrammarWithoutOneSymbolRules` returns: the rules with more than
      one symbol on the right, in their original order. */
  function MultiSymbolRules(rules: seq<Rule>): (answer: seq<Rule>)
    ensures forall r :: r in answer <==> r in rules && |r.right| > 1
    ensures |answer| <= |rules|
    decreases |rules|
  {
    if rules == [] then []
    else
      var last := rules[|rules| - 1];
      assert rules == rules[..|rules| - 1] + [last];
      MultiSymbolRules(rules[..|rules| - 1]) + (if |last.right| > 1 then [last] else [])
  }

  /** The assertion at line 294: a right side of size one is a terminal
      letter. */
  predicate UnitsTerminal(g: seq<Rule>) {
    forall r :: r in g && |r.right| == 1 ==> r.right[0].isTerminal && 0 <= r.right[0].id < AlphabetSize
  }

  /** What rule `r` offers `dp[1][v]`: its letter when it is `v -> a`. */
  function UnitCandidate(r: Rule, v: int): Option<string>
    requires |r.right| == 1 ==> r.right[0].isTerminal && 0 <= r.right[0].id < AlphabetSize
  {
    if |r.right| == 1 && r.left.id == v then Some([ToChar(r.right[0])]) else None
  }

  /** `dp[1][v]` after the first `n` rules of the first loop. */
  function UnitWord(g: seq<Rule>, v: int, n: nat): Option<string>
    requires UnitsTerminal(g) && n <= |g|
  {
    if n == 0 then None
    else
      assert g[n - 1] in g;
      MinCell(UnitWord(g, v, n - 1), UnitCandidate(g[n - 1], v))
  }

  /** `dp[s][v]` once the table is filled: `dp[1]` from the unit rules,
      `dp[s]` for `s >= 2` from the splits of the binary rules, INF for
      `s == 0`. */
  function Word(g: seq<Rule>, s: nat, v: int): Option<string>
    requires UnitsTerminal(g)
    decreases s, 3, 0
  {
    if s == 0 then None
    else if s == 1 then UnitWord(g, v, |g|)
    else BinaryWord(g, s, v, |MultiSymbolRules(g)|)
  }

  /** The candidate `dp[p][first] + dp[s - p][second]` of rule `r` at split
      `p`, or nothing when either half is INF. */
  function Candidate(g: seq<Rule>, s: nat, r: Rule, p: nat): Option<string>
    requires UnitsTerminal(g) && |r.right| >= 2 && 1 <= p < s
    decreases s, 0, p
  {
    var left := Word(g, p, r.right[0].id);
    var right := Word(g, s - p, r.right[1].id);
    if left.Some? && right.Some? then Some(left.value + right.value) else None
  }

  /** `dp[s][id]` after splits `1 .. p` of rule `r`, starting from `cell`. */
  function PieceFold(g: seq<Rule>, s: nat, r: Rule, cell: Option<string>, p: nat): Option<string>
    requires UnitsTerminal(g) && |r.right| >= 2 && p < s
    decreases s, 1, p
  {
    if p == 0 then cell
    else MinCell(PieceFold(g, s, r, cell, p - 1), Candidate(g, s, r, p))
  }

  /** `dp[s][v]` after the first `n` rules of `MultiSymbolRules`. */
  function BinaryWord(g: seq<Rule>, s: nat, v: int, n: nat): Option<string>
    requires UnitsTerminal(g) && 2 <= s && n <= |MultiSymbolRules(g)|
    decreases s, 2, n
  {
    if n == 0 then None
    else
      var bins := MultiSymbolRules(g);
      var rule := bins[n - 1];
      assert rule in bins;
      var cell := BinaryWord(g, s, v, n - 1);
      if rule.left.id == v then PieceFold(g, s, rule, cell, s - 1) else cell
  }

  /** The answer loop: the least of `dp[1 .. L][S]`. */
  function MinimalUpTo(g: seq<Rule>, L: nat): Option<string>
    requires UnitsTerminal(g)
  {
    if L == 0 then None else MinCell(MinimalUpTo(g, L - 1), Word(g, L, StartId))
  }

  /** A derivation tree of a grammar in Chomsky Normal Form: a unit rule
      `v -> a` at a leaf, a binary rule `v -> XY` with the split point of the
      word at an inner node. */
  datatype Derivation =
    | ByUnit(rule: Rule)
    | ByBinary(rule: Rule, split: nat, first: Derivation, second: Derivation)

  /** `d` derives `w` from `v` in `g`. */
  predicate DerivationOf(g: seq<Rule>, d: Derivation, v: int, w: string)
    decreases d
  {
    match d
    case ByUnit(r) =>
      && r in g && r.left.id == v && |r.right| == 1 && r.right[0].isTerminal
      && 0 <= r.right[0].id < AlphabetSize && w == [ToChar(r.right[0])]
    case ByBinary(r, k, d1, d2) =>
      && r in g && r.left.id == v && |r.right| == 2 && 1 <= k < |w|
      && DerivationOf(g, d1, r.right[0].id, w[..k]) && DerivationOf(g, d2, r.right[1].id, w[k..])
  }

  /** `v` derives `w`. */
  ghost predicate Derives(g: seq<Rule>, v: int, w: string) {
    exists d :: DerivationOf(g, d, v, w)
  }

  // ---- Where a folded minimum comes from, and what it is below ----

  lemma {:induction false} UnitWordFrom(g: seq<Rule>, v: int, n: nat)
    requires UnitsTerminal(g) && n <= |g| && UnitWord(g, v, n).Some?
    ensures exists j :: 0 <= j < n && UnitCandidate(g[j], v) == UnitWord(g, v, n)
  {
    assert g[n - 1] in g;
    MinCellSpec(UnitWord(g, v, n - 1), UnitCandidate(g[n - 1], v));
    if UnitWord(g, v, n) != UnitCandidate(g[n - 1], v) {
      UnitWordFrom(g, v, n - 1);
      var j :| 0 <= j < n - 1 && UnitCandidate(g[j], v) == UnitWord(g, v, n - 1);
    }
  }

  lemma {:induction false} UnitWordBelow(g: seq<Rule>, v: int, n: nat, j: nat, w: string)
    requires UnitsTerminal(g) && j < n <= |g|
    requires UnitCandidate(g[j], v) == Some(w)
    ensures Below(UnitWord(g, v, n), w)
  {
    assert g[n - 1] in g;
    MinCellSpec(UnitWord(g, v, n - 1), UnitCandidate(g[n - 1], v));
    if j < n - 1 {
      UnitWordBelow(g, v, n - 1, j, w);
      LexLeTransitive(UnitWord(g, v, n).value, UnitWord(g, v, n - 1).value, w);
    }
  }

  lemma {:induction false} PieceFoldFrom(g: seq<Rule>, s: nat, r: Rule, cell: Option<string>, p: nat)
    requires UnitsTerminal(g) && |r.right| >= 2 && p < s
    ensures PieceFold(g, s, r, cell, p) == cell
      || exists k :: 1 <= k <= p && PieceFold(g, s, r, cell, p) == Candidate(g, s, r, k)
  {
    if p > 0 {
      PieceFoldFrom(g, s, r, cell, p - 1);
      MinCellSpec(PieceFold(g, s, r, cell, p - 1), Candidate(g, s, r, p));
      var here := PieceFold(g, s, r, cell, p);
      if here == Candidate(g, s, r, p) {
        var k := p;
        assert 1 <= k <= p && PieceFold(g, s, r, cell, p) == Candidate(g, s, r, k);
        assert exists k :: 1 <= k <= p && PieceFold(g, s, r, cell, p) == Candidate(g, s, r, k);
      } else if PieceFold(g, s, r, cell, p - 1) != cell {
        var k :| 1 <= k <= p - 1 && PieceFold(g, s, r, cell, p - 1) == Candidate(g, s, r, k);
        assert 1 <= k <= p && here == Candidate(g, s, r, k);
      }
    }
  }

  lemma {:induction false} PieceFoldBelow(g: seq<Rule>, s: nat, r: Rule, cell: Option<string>, p: nat, k: nat, w: string)
    requires UnitsTerminal(g) && |r.right| >= 2 && p < s
    requires (1 <= k <= p && Candidate(g, s, r, k) == Some(w)) || (k == 0 && cell == Some(w))
    ensures Below(PieceFold(g, s, r, cell, p), w)
  {
    if p == 0 {
      assert PieceFold(g, s, r, cell, p) == cell;
    } else {
      var prev := PieceFold(g, s, r, cell, p - 1);
      MinCellSpec(prev, Candidate(g, s, r, p));
      if k < p {
        PieceFoldBelow(g, s, r, cell, p - 1, k, w);
        LexLeTransitive(PieceFold(g, s, r, cell, p).value, prev.value, w);
      }
    }
  }

  /** One more binary rule folds its splits into the cell of its left side. */
  lemma BinaryWordUnfold(g: seq<Rule>, s: nat, v: int, n: nat)
    requires UnitsTerminal(g) && 2 <= s && 0 < n <= |MultiSymbolRules(g)|
    ensures var rule := MultiSymbolRules(g)[n - 1];
      rule in MultiSymbolRules(g) && |rule.right| >= 2
    ensures var rule, cell := MultiSymbolRules(g)[n - 1], BinaryWord(g, s, v, n - 1);
      BinaryWord(g, s, v, n) == if rule.left.id == v then PieceFold(g, s, rule, cell, s - 1) else cell
  {
    assert MultiSymbolRules(g)[n - 1] in MultiSymbolRules(g);
  }

  /** The cell after rule `n - 1` is the cell before it or one of that
      rule's split candidates. */
  lemma BinaryWordFromLast(g: seq<Rule>, s: nat, v: int, n: nat, rule: Rule, cell: Option<string>)
    requires UnitsTerminal(g) && 2 <= s && 0 < n <= |MultiSymbolRules(g)|
    requires rule == MultiSymbolRules(g)[n - 1] && cell == BinaryWord(g, s, v, n - 1)
    ensures BinaryWord(g, s, v, n) == cell
      || (rule.left.id == v && exists k :: 1 <= k < s && Candidate(g, s, rule, k) == BinaryWord(g, s, v, n))
  {
    BinaryWordUnfold(g, s, v, n);
    if rule.left.id == v {
      PieceFoldFrom(g, s, rule, cell, s - 1);
    }
  }

  lemma {:induction false} BinaryWordFrom(g: seq<Rule>, s: nat, v: int, n: nat)
    requires UnitsTerminal(g) && 2 <= s && n <= |MultiSymbolRules(g)|
    requires BinaryWord(g, s, v, n).Some?
    ensures var bins := MultiSymbolRules(g);
      exists j, k :: 0 <= j < n && 1 <= k < s && bins[j].left.id == v
        && Candidate(g, s, bins[j], k) == BinaryWord(g, s, v, n)
  {
    var bins := MultiSymbolRules(g);
    var cell := BinaryWord(g, s, v, n - 1);
    var here := BinaryWord(g, s, v, n);
    if here == cell {
      BinaryWordFrom(g, s, v, n - 1);
    } else {
      BinaryWordFromLast(g, s, v, n, bins[n - 1], cell);
    }
  }

  /** A split candidate of rule `n - 1` for `v` bounds the cell after it. */
  lemma BinaryWordBelowLast(g: seq<Rule>, s: nat, v: int, n: nat, rule: Rule, cell: Option<string>, k: nat, w: string)
    requires UnitsTerminal(g) && 2 <= s && 0 < n <= |MultiSymbolRules(g)|
    requires rule == MultiSymbolRules(g)[n - 1] && cell == BinaryWord(g, s, v, n - 1)
    requires rule.left.id == v && 1 <= k < s && Candidate(g, s, rule, k) == Some(w)
    ensures Below(BinaryWord(g, s, v, n), w)
  {
    BinaryWordUnfold(g, s, v, n);
    PieceFoldBelow(g, s, rule, cell, s - 1, k, w);
  }

  /** A bound on the cell before rule `n - 1` still holds after it. */
  lemma BinaryWordBelowKept(g: seq<Rule>, s: nat, v: int, n: nat, rule: Rule, cell: Option<string>, w: string)
    requires UnitsTerminal(g) && 2 <= s && 0 < n <= |MultiSymbolRules(g)|
    requires rule == MultiSymbolRules(g)[n - 1] && cell == BinaryWord(g, s, v, n - 1)
    requires Below(cell, w)
    ensures Below(BinaryWord(g, s, v, n), w)
  {
    BinaryWordUnfold(g, s, v, n);
    if rule.left.id == v {
      PieceFoldBelow(g, s, rule, cell, s - 1, 0, cell.value);
      LexLeTransitive(BinaryWord(g, s, v, n).value, cell.value, w);
    }
  }

  lemma {:induction false} BinaryWordBelow(g: seq<Rule>, s: nat, v: int, n: nat, j: nat, k: nat, w: string)
    requires UnitsTerminal(g) && 2 <= s && j < n <= |MultiSymbolRules(g)|
    requires var bins := MultiSymbolRules(g);
      bins[j].left.id == v && 1 <= k < s && Candidate(g, s, bins[j], k) == Some(w)
    ensures Below(BinaryWord(g, s, v, n), w)
  {
    var bins := MultiSymbolRules(g);
    var cell := BinaryWord(g, s, v, n - 1);
    if j == n - 1 {
      BinaryWordBelowLast(g, s, v, n, bins[j], cell, k, w);
    } else {
      BinaryWordBelow(g, s, v, n - 1, j, k, w);
      BinaryWordBelowKept(g, s, v, n, bins[n - 1], cell, w);
    }
  }

  // ---- The meaning of the table ----

  /** A split candidate built from two derivable halves is derivable. */
  lemma CandidateSound(g: seq<Rule>, s: nat, v: int, r: Rule, k: nat, a: string, b: string, d1: Derivation, d2: Derivation)
    returns (d: Derivation)
    requires UnitsTerminal(g) && r in g && r.left.id == v && |r.right| == 2 && 1 <= k < s
    requires Word(g, k, r.right[0].id) == Some(a) && |a| == k && IsLowercase(a) && DerivationOf(g, d1, r.right[0].id, a)
    requires Word(g, s - k, r.right[1].id) == Some(b) && |b| == s - k && IsLowercase(b) && DerivationOf(g, d2, r.right[1].id, b)
    ensures Candidate(g, s, r, k) == Some(a + b)
    ensures |a + b| == s && IsLowercase(a + b) && DerivationOf(g, d, v, a + b)
  {
    var w := a + b;
    assert w[..k] == a && w[k..] == b;
    d := ByBinary(r, k, d1, d2);
  }

  /** A split candidate is below every word of the same split whose halves
      are above the table's halves. */
  lemma CandidateMinimal(g: seq<Rule>, s: nat, r: Rule, k: nat, w: string, a: string, b: string)
    requires UnitsTerminal(g) && |r.right| >= 2 && 1 <= k < s && |w| == s
    requires Word(g, k, r.right[0].id) == Some(a) && |a| == k && LexLe(a, w[..k])
    requires Word(g, s - k, r.right[1].id) == Some(b) && LexLe(b, w[k..])
    ensures Candidate(g, s, r, k) == Some(a + b) && LexLe(a + b, w)
  {
    LexLeConcat(a, w[..k], b, w[k..]);
    assert w[..k] + w[k..] == w;
  }

  /** For two or more letters the table entry is the fold over the binary
      rules. */
  lemma WordBinary(g: seq<Rule>, s: nat, v: int)
    requires UnitsTerminal(g) && s >= 2
    ensures Word(g, s, v) == BinaryWord(g, s, v, |MultiSymbolRules(g)|)
  {
  }

  /** Every word in the table is a lowercase word of its length, and the
      lemma builds a derivation of it from its nonterminal. */
  lemma {:induction false} WordSound(g: seq<Rule>, s: nat, v: int) returns (d: Derivation)
    requires UnitsTerminal(g) && IsCnf(g) && Word(g, s, v).Some?
    ensures |Word(g, s, v).value| == s && IsLowercase(Word(g, s, v).value)
    ensures DerivationOf(g, d, v, Word(g, s, v).value)
    decreases s, 1
  {
    if s == 1 {
      UnitWordFrom(g, v, |g|);
      var j :| 0 <= j < |g| && UnitCandidate(g[j], v) == Word(g, s, v);
      assert g[j] in g;
      d := ByUnit(g[j]);
    } else {
      d := WordSoundBinary(g, s, v);
    }
  }

  lemma {:induction false} WordSoundBinary(g: seq<Rule>, s: nat, v: int) returns (d: Derivation)
    requires UnitsTerminal(g) && IsCnf(g) && s >= 2 && Word(g, s, v).Some?
    ensures |Word(g, s, v).value| == s && IsLowercase(Word(g, s, v).value)
    ensures DerivationOf(g, d, v, Word(g, s, v).value)
    decreases s, 0
  {
    var bins := MultiSymbolRules(g);
    WordBinary(g, s, v);
    BinaryWordFrom(g, s, v, |bins|);
    var j, k :| 0 <= j < |bins| && 1 <= k < s && bins[j].left.id == v
      && Candidate(g, s, bins[j], k) == BinaryWord(g, s, v, |bins|);
    var r := bins[j];
    assert r in bins;
    assert r in g && IsCnfRule(r);
    var a := Word(g, k, r.right[0].id);
    var b := Word(g, s - k, r.right[1].id);
    assert a.Some? && b.Some?;
    var d1 := WordSound(g, k, r.right[0].id);
    var d2 := WordSound(g, s - k, r.right[1].id);
    d := CandidateSound(g, s, v, r, k, a.value, b.value, d1, d2);
  }

  /** Every word of length `s` that `v` derives is no less than the table's
      entry, which therefore is not INF. */
  lemma {:induction false} WordMinimal(g: seq<Rule>, s: nat, v: int, w: string, d: Derivation)
    requires UnitsTerminal(g) && IsCnf(g) && |w| == s && DerivationOf(g, d, v, w)
    ensures Below(Word(g, s, v), w)
    decreases d, 1
  {
    match d
    case ByUnit(r) =>
      var j :| 0 <= j < |g| && g[j] == r;
      UnitWordBelow(g, v, |g|, j, w);
    case ByBinary(r, k, d1, d2) =>
      WordMinimalBinary(g, s, v, w, d);
  }

  lemma {:induction false} WordMinimalBinary(g: seq<Rule>, s: nat, v: int, w: string, d: Derivation)
    requires UnitsTerminal(g) && IsCnf(g) && d.ByBinary? && |w| == s && DerivationOf(g, d, v, w)
    ensures Below(Word(g, s, v), w)
    decreases d, 0
  {
    var r, k := d.rule, d.split;
    var bins := MultiSymbolRules(g);
    assert r in bins;
    var j :| 0 <= j < |bins| && bins[j] == r;
    WordMinimal(g, k, r.right[0].id, w[..k], d.first);
    WordMinimal(g, s - k, r.right[1].id, w[k..], d.second);
    var a := Word(g, k, r.right[0].id).value;
    var b := Word(g, s - k, r.right[1].id).value;
    var _ := WordSound(g, k, r.right[0].id);
    CandidateMinimal(g, s, r, k, w, a, b);
    BinaryWordBelow(g, s, v, |bins|, j, k, a + b);
    WordBinary(g, s, v);
    LexLeTransitive(Word(g, s, v).value, a + b, w);
  }

  /** The table entry is INF exactly when `v` derives no word of length `s`. */
  lemma WordNoneIff(g: seq<Rule>, s: nat, v: int)
    requires UnitsTerminal(g) && IsCnf(g) && s >= 1
    ensures Word(g, s, v).None? <==> forall w :: |w| == s ==> !Derives(g, v, w)
  {
    if Word(g, s, v).Some? {
      var d := WordSound(g, s, v);
    } else {
      forall w | |w| == s ensures !Derives(g, v, w) {
        if Derives(g, v, w) {
          var d :| DerivationOf(g, d, v, w);
          WordMinimal(g, s, v, w, d);
        }
      }
    }
  }

  /** The answer for lengths up to `L`: when it is a word, `S` derives it, its
      length is in `1 .. L` and it is no greater than any word of such a
      length `S` derives; it is INF exactly when `S` derives none. */
  lemma {:induction false} MinimalUpToCorrect(g: seq<Rule>, L: nat)
    requires UnitsTerminal(g) && IsCnf(g)
    ensures MinimalUpTo(g, L).Some? ==>
      var w := MinimalUpTo(g, L).value;
      1 <= |w| <= L && IsLowercase(w) && Derives(g, StartId, w)
    ensures forall w :: 1 <= |w| <= L && Derives(g, StartId, w) ==> Below(MinimalUpTo(g, L), w)
    ensures MinimalUpTo(g, L).None? <==> forall w :: 1 <= |w| <= L ==> !Derives(g, StartId, w)
  {
    if L > 0 {
      MinimalUpToCorrect(g, L - 1);
      var prev := MinimalUpTo(g, L - 1);
      var cur := Word(g, L, StartId);
      MinCellSpec(prev, cur);
      if cur.Some? {
        var d := WordSound(g, L, StartId);
      }
      forall w | 1 <= |w| <= L && Derives(g, StartId, w) ensures Below(MinimalUpTo(g, L), w) {
        if |w| == L {
          var d :| DerivationOf(g, d, StartId, w);
          WordMinimal(g, L, StartId, w, d);
          LexLeTransitive(MinimalUpTo(g, L).value, cur.value, w);
        } else {
          LexLeTransitive(MinimalUpTo(g, L).value, prev.value, w);
        }
      }
    }
  }
}
