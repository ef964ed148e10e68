/** Equivalence of two complete deterministic automata (AutomatonEquality.cpp):
    pairs of states are numbered row by row, the pairs whose states differ in
    acceptance are seeded into a queue, and a breadth-first search over the
    reversed product transitions marks every pair from which such a pair can
    be reached. The automata are equivalent when the start pair is never
    marked. */
module AutomatonEquality {

  /** A link `from --symbol--> to` as read from the input. */
  datatype Transition = Transition(from: int, symbol: char, to: int)

  /** The column of a letter in the transition table. */
  function Letter(c: char): int {
    c as int - 'a' as int
  }

  /** `Position` (AutomatonEquality.cpp:29-31): the number of the pair
      `(row, column)` when the rows have `width` columns. */
  function Position(row: int, column: int, width: int): int {
    row * width + column
  }

  /** Pair numbers of `rows` rows of `width` columns fill `[0, rows * width)`. */
  lemma PositionBounds(row: int, column: int, width: int, rows: int)
    requires 0 <= row < rows && 0 <= column < width
    ensures 0 <= Position(row, column, width) < rows * width
  {
    assert row * width <= (rows - 1) * width by {
      assert (rows - 1) * width - row * width == (rows - 1 - row) * width;
    }
    assert (rows - 1) * width + width == rows * width;
  }

  /** Multiplying by a non-negative factor keeps the order. */
  lemma MulMonotone(a: int, b: int, w: int)
    requires a <= b && 0 <= w
    ensures a * w <= b * w
  {
    var d := b - a;
    assert b * w == a * w + d * w;
  }

  /** The row and the column come back from a pair number by division. */
  lemma PositionDecode(row: int, column: int, width: int)
    requires 0 <= row && 0 <= column < width
    ensures Position(row, column, width) / width == row
    ensures Position(row, column, width) % width == column
  {
    var x := Position(row, column, width);
    var r, c := x / width, x % width;
    assert x == r * width + c && 0 <= c < width;
    if r > row {
      assert (row + 1) * width == row * width + width;
      MulMonotone(row + 1, r, width);
    } else if r < row {
      assert (r + 1) * width == r * width + width;
      MulMonotone(r + 1, row, width);
    }
  }

  /** Different pairs of a row of `width` columns have different numbers. */
  lemma PositionInjective(row: int, column: int, row': int, column': int, width: int)
    requires 0 <= row && 0 <= column < width && 0 <= row' && 0 <= column' < width
    requires Position(row, column, width) == Position(row', column', width)
    ensures row == row' && column == column'
  {
    PositionDecode(row, column, width);
    PositionDecode(row', column', width);
  }

  /** Every number in `[0, rows * width)` is the number of the pair of its
      quotient and remainder by `width`. */
  lemma PositionSplit(x: int, width: int, rows: int)
    requires 0 <= x < rows * width && width > 0
    ensures 0 <= x / width < rows && 0 <= x % width < width
    ensures Position(x / width, x % width, width) == x
  {
  }

  /** `is_terminal` after the constructor marked the first `|exits|` exits. */
  function Flags(size: nat, exits: seq<int>): (flags: seq<bool>)
    requires forall i :: 0 <= i < |exits| ==> 0 <= exits[i] < size
    ensures |flags| == size
    decreases |exits|
  {
    if exits == [] then seq(size, _ => false)
    else Flags(size, exits[..|exits| - 1])[exits[|exits| - 1] := true]
  }

  /** A state is accepting exactly when it is listed among the exits. */
  lemma {:induction false} FlagsSpec(size: nat, exits: seq<int>)
    requires forall i :: 0 <= i < |exits| ==> 0 <= exits[i] < size
    ensures forall s :: 0 <= s < size ==> (Flags(size, exits)[s] <==> s in exits)
    decreases |exits|
  {
    if exits != [] {
      var init := exits[..|exits| - 1];
      FlagsSpec(size, init);
      assert exits == init + [exits[|exits| - 1]];
    }
  }

  /** The link `l` sets the entry of state `s` and letter column `e`. */
  predicate Sets(l: Transition, s: int, e: int) {
    l.from == s && Letter(l.symbol) == e
  }

  /** The target of the last link that sets entry `(s, e)`, or -1 when none does. */
  function LastLink(links: seq<Transition>, s: int, e: int): int
    decreases |links|
  {
    if links == [] then -1
    else if Sets(links[|links| - 1], s, e) then links[|links| - 1].to
    else LastLink(links[..|links| - 1], s, e)
  }

  /** `LastLink` is -1 when no link sets the entry. */
  lemma {:induction false} LastLinkNone(links: seq<Transition>, s: int, e: int)
    requires forall i :: 0 <= i < |links| ==> !Sets(links[i], s, e)
    ensures LastLink(links, s, e) == -1
    decreases |links|
  {
    if links != [] {
      var init := links[..|links| - 1];
      forall i | 0 <= i < |init| ensures !Sets(init[i], s, e) {
        assert init[i] == links[i];
      }
      assert !Sets(links[|links| - 1], s, e);
      LastLinkNone(init, s, e);
    }
  }

  /** `LastLink` is the target of a link that sets the entry when no later
      link sets it again. */
  lemma {:induction false} LastLinkLatest(links: seq<Transition>, s: int, e: int, i: int)
    requires 0 <= i < |links| && Sets(links[i], s, e)
    requires forall j :: i < j < |links| ==> !Sets(links[j], s, e)
    ensures LastLink(links, s, e) == links[i].to
    decreases |links|
  {
    if i < |links| - 1 {
      var init := links[..|links| - 1];
      assert !Sets(links[|links| - 1], s, e);
      assert init[i] == links[i];
      forall j | i < j < |init| ensures !Sets(init[j], s, e) {
        assert init[j] == links[j];
      }
      LastLinkLatest(init, s, e, i);
    }
  }

  /** `LastLink` is -1 when no link sets the entry, and otherwise the target
      of a link that sets it with no later link setting it again. */
  lemma LastLinkSpec(links: seq<Transition>, s: int, e: int)
    ensures (forall i :: 0 <= i < |links| ==> !Sets(links[i], s, e)) ==> LastLink(links, s, e) == -1
    ensures forall i :: (0 <= i < |links| && Sets(links[i], s, e) && (forall j :: i < j < |links| ==> !Sets(links[j], s, e))) ==>
      LastLink(links, s, e) == links[i].to
  {
    if forall i :: 0 <= i < |links| ==> !Sets(links[i], s, e) {
      LastLinkNone(links, s, e);
    }
    forall i | 0 <= i < |links| && Sets(links[i], s, e) && (forall j :: i < j < |links| ==> !Sets(links[j], s, e))
      ensures LastLink(links, s, e) == links[i].to
    {
      LastLinkLatest(links, s, e, i);
    }
  }

  /** `transitions` after the constructor applied the first `|links|` links. */
  function Table(size: nat, alphabet: nat, links: seq<Transition>): (t: seq<seq<int>>)
    requires forall i :: 0 <= i < |links| ==> 0 <= links[i].from < size && 0 <= Letter(links[i].symbol) < alphabet
    ensures |t| == size && forall s :: 0 <= s < size ==> |t[s]| == alphabet
    decreases |links|
  {
    if links == [] then seq(size, _ => seq(alphabet, _ => -1))
    else
      var t := Table(size, alphabet, links[..|links| - 1]);
      var l := links[|links| - 1];
      t[l.from := t[l.from][Letter(l.symbol) := l.to]]
  }

  /** Every entry of the table is the target of the last link that sets it,
      and -1 when no link does. */
  lemma {:induction false} TableSpec(size: nat, alphabet: nat, links: seq<Transition>)
    requires forall i :: 0 <= i < |links| ==> 0 <= links[i].from < size && 0 <= Letter(links[i].symbol) < alphabet
    ensures forall s, e :: 0 <= s < size && 0 <= e < alphabet ==> Table(size, alphabet, links)[s][e] == LastLink(links, s, e)
    decreases |links|
  {
    if links != [] {
      TableSpec(size, alphabet, links[..|links| - 1]);
    }
  }

  /** Every entry `(s, e)` with `e < alphabet` is a state below `n`. */
  predicate Complete(t: seq<seq<int>>, n: int, alphabet: int) {
    && |t| == n
    && (forall s :: 0 <= s < n ==> |t[s]| >= alphabet)
    && (forall s, e :: 0 <= s < n && 0 <= e < alphabet && e < |t[s]| ==> 0 <= t[s][e] < n)
  }

  /** The pair numbers `0 .. k - 1` whose two states differ in acceptance,
      in increasing order: `Distinguishable` after `k` pairs. */
  function SeedsBelow(f1: seq<bool>, f2: seq<bool>, k: int): (seeds: seq<int>)
    requires 0 <= k <= |f1| * |f2|
    decreases k
  {
    if k == 0 then []
    else
      PositionSplit(k - 1, |f2|, |f1|);
      var x := k - 1;
      SeedsBelow(f1, f2, x) + (if f1[x / |f2|] != f2[x % |f2|] then [x] else [])
  }

  /** The pairs, by number, in which exactly one state accepts. */
  predicate Separated(f1: seq<bool>, f2: seq<bool>, x: int)
    requires 0 <= x < |f1| * |f2|
  {
    PositionSplit(x, |f2|, |f1|);
    f1[x / |f2|] != f2[x % |f2|]
  }

  /** The seeds are the separated pairs below `k`, each once, in increasing
      order. */
  lemma {:induction false} SeedsBelowSpec(f1: seq<bool>, f2: seq<bool>, k: int)
    requires 0 <= k <= |f1| * |f2|
    ensures forall x :: x in SeedsBelow(f1, f2, k) <==> 0 <= x < k && Separated(f1, f2, x)
    ensures forall i, j :: 0 <= i < j < |SeedsBelow(f1, f2, k)| ==> SeedsBelow(f1, f2, k)[i] < SeedsBelow(f1, f2, k)[j]
    decreases k
  {
    if k > 0 {
      SeedsBelowSpec(f1, f2, k - 1);
      var prev := SeedsBelow(f1, f2, k - 1);
      assert forall i :: 0 <= i < |prev| ==> prev[i] < k - 1 by {
        forall i | 0 <= i < |prev| ensures prev[i] < k - 1 {
          assert prev[i] in prev;
        }
      }
    }
  }

  /** The seeds, read as pairs: `(p, q)` is seeded exactly when one of `p`
      and `q` accepts and the other does not. */
  lemma SeedsPairs(f1: seq<bool>, f2: seq<bool>, p: int, q: int)
    requires 0 <= p < |f1| && 0 <= q < |f2|
    ensures Position(p, q, |f2|) in SeedsBelow(f1, f2, |f1| * |f2|) <==> f1[p] != f2[q]
  {
    PositionBounds(p, q, |f2|, |f1|);
    PositionDecode(p, q, |f2|);
    SeedsBelowSpec(f1, f2, |f1| * |f2|);
  }

  /** A positive number of pairs needs two positive factors. */
  lemma PairPositive(x: int, rows: int, width: int)
    requires 0 <= x < rows * width && rows >= 0
    ensures rows > 0 && width > 0
  {
    if width <= 0 {
      MulMonotone(width, 0, rows);
    }
  }

  /** Counts of pairs and edges are not negative. */
  lemma CountsNonNegative(n1: nat, n2: nat, alphabet: nat)
    ensures n1 * n2 >= 0 && n1 * n2 * alphabet >= 0
  {
    MulMonotone(0, n1, n2);
    MulMonotone(0, n1 * n2, alphabet);
  }

  /** A positive count of edges needs positive factors. */
  lemma ProductPositive(n1: int, n2: int, alphabet: int, k: int)
    requires n1 >= 0 && n2 >= 0 && alphabet >= 0 && 0 < k <= n1 * n2 * alphabet
    ensures n1 > 0 && n2 > 0 && alphabet > 0
  {
  }

  /** The pair reached from pair number `x` on letter column `e` when both
      automata read that letter. */
  function Step(t1: seq<seq<int>>, t2: seq<seq<int>>, n1: nat, n2: nat, alphabet: nat, x: int, e: int): (y: int)
    requires Complete(t1, n1, alphabet) && Complete(t2, n2, alphabet)
    requires 0 <= x < n1 * n2 && 0 <= e < alphabet
    ensures 0 <= y < n1 * n2
  {
    PairPositive(x, n1, n2);
    PositionSplit(x, n2, n1);
    PositionBounds(t1[x / n2][e], t2[x % n2][e], n2, n1);
    Position(t1[x / n2][e], t2[x % n2][e], n2)
  }

  /** On a pair given by its two states, `Step` moves both states. */
  lemma StepPair(t1: seq<seq<int>>, t2: seq<seq<int>>, n1: nat, n2: nat, alphabet: nat, p: int, q: int, e: int)
    requires Complete(t1, n1, alphabet) && Complete(t2, n2, alphabet)
    requires 0 <= p < n1 && 0 <= q < n2 && 0 <= e < alphabet
    ensures 0 <= Position(p, q, n2) < n1 * n2
    ensures Step(t1, t2, n1, n2, alphabet, Position(p, q, n2), e) == Position(t1[p][e], t2[q][e], n2)
  {
    PositionBounds(p, q, n2, n1);
    PositionDecode(p, q, n2);
  }

  /** The reversed product graph after the first `k` edges of `Create_graph`.
      Edge number `Position(x, e, alphabet)` is the iteration for pair `x`
      and letter column `e`; it appends `x` to the list of `Step(x, e)`. */
  function GraphBelow(t1: seq<seq<int>>, t2: seq<seq<int>>, n1: nat, n2: nat, alphabet: nat, k: int): (g: seq<seq<int>>)
    requires Complete(t1, n1, alphabet) && Complete(t2, n2, alphabet)
    requires 0 <= k <= n1 * n2 * alphabet
    ensures |g| == n1 * n2
    decreases k
  {
    if k == 0 then seq(n1 * n2, _ => [])
    else
      ProductPositive(n1, n2, alphabet, k);
      PositionSplit(k - 1, alphabet, n1 * n2);
      var g := GraphBelow(t1, t2, n1, n2, alphabet, k - 1);
      var x, e := (k - 1) / alphabet, (k - 1) % alphabet;
      var to := Step(t1, t2, n1, n2, alphabet, x, e);
      g[to := g[to] + [x]]
  }

  /** After `k` edges, `x` is listed under `t` exactly when some letter
      column `e` with edge number below `k` leads from `x` to `t`. */
  lemma {:induction false} GraphBelowSpec(t1: seq<seq<int>>, t2: seq<seq<int>>, n1: nat, n2: nat, alphabet: nat, k: int)
    requires Complete(t1, n1, alphabet) && Complete(t2, n2, alphabet)
    requires 0 <= k <= n1 * n2 * alphabet
    ensures forall x, t :: 0 <= t < n1 * n2 ==>
      (x in GraphBelow(t1, t2, n1, n2, alphabet, k)[t] <==>
        0 <= x < n1 * n2 && exists e :: 0 <= e < alphabet && Position(x, e, alphabet) < k && Step(t1, t2, n1, n2, alphabet, x, e) == t)
    decreases k
  {
    if k > 0 {
      GraphBelowSpec(t1, t2, n1, n2, alphabet, k - 1);
      ProductPositive(n1, n2, alphabet, k);
      PositionSplit(k - 1, alphabet, n1 * n2);
      var x0, e0 := (k - 1) / alphabet, (k - 1) % alphabet;
      forall x, t | 0 <= t < n1 * n2
        ensures x in GraphBelow(t1, t2, n1, n2, alphabet, k)[t] <==>
          0 <= x < n1 * n2 && exists e :: 0 <= e < alphabet && Position(x, e, alphabet) < k && Step(t1, t2, n1, n2, alphabet, x, e) == t
      {
        if 0 <= x < n1 * n2 {
          forall e | 0 <= e < alphabet && Position(x, e, alphabet) == k - 1
            ensures x == x0 && e == e0
          {
            PositionInjective(x, e, x0, e0, alphabet);
          }
        }
        if x == x0 && t == Step(t1, t2, n1, n2, alphabet, x0, e0) {
          assert Position(x0, e0, alphabet) < k;
        }
      }
    }
  }

  /** `Create_graph`: `x` is listed under `t` exactly when some letter leads
      the pair `x` to the pair `t`. */
  lemma GraphPredecessors(t1: seq<seq<int>>, t2: seq<seq<int>>, n1: nat, n2: nat, alphabet: nat, x: int, t: int)
    requires Complete(t1, n1, alphabet) && Complete(t2, n2, alphabet)
    requires 0 <= x < n1 * n2 && 0 <= t < n1 * n2
    ensures x in GraphBelow(t1, t2, n1, n2, alphabet, n1 * n2 * alphabet)[t] <==>
      exists e :: 0 <= e < alphabet && Step(t1, t2, n1, n2, alphabet, x, e) == t
  {
    GraphBelowSpec(t1, t2, n1, n2, alphabet, n1 * n2 * alphabet);
    forall e | 0 <= e < alphabet
      ensures Position(x, e, alphabet) < n1 * n2 * alphabet
    {
      PositionBounds(x, e, alphabet, n1 * n2);
    }
  }

  /** The number of entries of all lists of a graph. */
  function Total(g: seq<seq<int>>): nat
    decreases |g|
  {
    if g == [] then 0 else Total(g[..|g| - 1]) + |g[|g| - 1]|
  }

  lemma {:induction false} TotalEmpty(n: nat)
    ensures Total(seq(n, _ => [])) == 0
    decreases n
  {
    if n > 0 {
      var g: seq<seq<int>> := seq(n, _ => []);
      assert g[..n - 1] == seq(n - 1, _ => []);
      TotalEmpty(n - 1);
    }
  }

  lemma {:induction false} TotalPush(g: seq<seq<int>>, i: int, v: int)
    requires 0 <= i < |g|
    ensures Total(g[i := g[i] + [v]]) == Total(g) + 1
    decreases |g|
  {
    var g' := g[i := g[i] + [v]];
    if i == |g| - 1 {
      assert g'[..|g| - 1] == g[..|g| - 1];
    } else {
      TotalPush(g[..|g| - 1], i, v);
      assert g'[..|g| - 1] == g[..|g| - 1][i := g[i] + [v]];
    }
  }

  /** Every edge adds exactly one entry: the finished graph holds
      `n1 * n2 * alphabet` entries. */
  lemma {:induction false} GraphBelowTotal(t1: seq<seq<int>>, t2: seq<seq<int>>, n1: nat, n2: nat, alphabet: nat, k: int)
    requires Complete(t1, n1, alphabet) && Complete(t2, n2, alphabet)
    requires 0 <= k <= n1 * n2 * alphabet
    ensures Total(GraphBelow(t1, t2, n1, n2, alphabet, k)) == k
    decreases k
  {
    if k == 0 {
      TotalEmpty(n1 * n2);
    } else {
      GraphBelowTotal(t1, t2, n1, n2, alphabet, k - 1);
      ProductPositive(n1, n2, alphabet, k);
      PositionSplit(k - 1, alphabet, n1 * n2);
      var x, e := (k - 1) / alphabet, (k - 1) % alphabet;
      TotalPush(GraphBelow(t1, t2, n1, n2, alphabet, k - 1), Step(t1, t2, n1, n2, alphabet, x, e), x);
    }
  }

  /** The loop step of `Create_graph` at iteration `(f, s, e)`, which is edge
      number `k`: the graph after it is the one after `k + 1` edges. */
  lemma GraphBelowNext(t1: seq<seq<int>>, t2: seq<seq<int>>, n1: nat, n2: nat, alphabet: nat, k: int,
                       f: int, s: int, e: int, prev: seq<seq<int>>)
    requires Complete(t1, n1, alphabet) && Complete(t2, n2, alphabet)
    requires 0 <= f < n1 && 0 <= s < n2 && 0 <= e < alphabet
    requires k == Position(Position(f, s, n2), e, alphabet)
    requires 0 <= k < n1 * n2 * alphabet && prev == GraphBelow(t1, t2, n1, n2, alphabet, k)
    ensures 0 <= Position(t1[f][e], t2[s][e], n2) < n1 * n2
    ensures GraphBelow(t1, t2, n1, n2, alphabet, k + 1) ==
      prev[Position(t1[f][e], t2[s][e], n2) := prev[Position(t1[f][e], t2[s][e], n2)] + [Position(f, s, n2)]]
  {
    StepPair(t1, t2, n1, n2, alphabet, f, s, e);
    PositionDecode(Position(f, s, n2), e, alphabet);
  }

  /** Edge numbers of the iterations `(f, s, e)` stay below the edge count. */
  lemma EdgeBounds(n1: nat, n2: nat, alphabet: nat, f: int, s: int, e: int)
    requires 0 <= f < n1 && 0 <= s < n2 && 0 <= e < alphabet
    ensures 0 <= Position(Position(f, s, n2), e, alphabet) < n1 * n2 * alphabet
  {
    PositionBounds(f, s, n2, n1);
    PositionBounds(Position(f, s, n2), e, alphabet, n1 * n2);
  }

  /** The end of a row of `width` columns is the start of the next row. */
  lemma RowEnd(row: int, width: int)
    ensures Position(row, width, width) == Position(row + 1, 0, width)
  {
    assert (row + 1) * width == row * width + width;
  }

  /** The seed list grows by the pair `(p, q)` when its states differ in
      acceptance, and is unchanged otherwise. */
  lemma SeedsBelowNext(f1: seq<bool>, f2: seq<bool>, p: int, q: int)
    requires 0 <= p < |f1| && 0 <= q < |f2|
    ensures 0 <= Position(p, q, |f2|) < |f1| * |f2|
    ensures SeedsBelow(f1, f2, Position(p, q, |f2|) + 1) ==
      SeedsBelow(f1, f2, Position(p, q, |f2|)) + (if f1[p] != f2[q] then [Position(p, q, |f2|)] else [])
  {
    PositionBounds(p, q, |f2|, |f1|);
    PositionDecode(p, q, |f2|);
  }

  /** The letter columns of a word are all below `alphabet`. */
  predicate Letters(w: seq<int>, alphabet: int) {
    forall i :: 0 <= i < |w| ==> 0 <= w[i] < alphabet
  }

  /** The state a complete automaton reaches from `s` on the word `w`. */
  function Run(t: seq<seq<int>>, n: nat, alphabet: nat, s: int, w: seq<int>): (r: int)
    requires Complete(t, n, alphabet) && 0 <= s < n && Letters(w, alphabet)
    ensures 0 <= r < n
    decreases |w|
  {
    if w == [] then s else Run(t, n, alphabet, t[s][w[0]], w[1..])
  }

  /** The pair the product reaches from pair number `x` on the word `w`. */
  function ProductRun(t1: seq<seq<int>>, t2: seq<seq<int>>, n1: nat, n2: nat, alphabet: nat, x: int, w: seq<int>): (y: int)
    requires Complete(t1, n1, alphabet) && Complete(t2, n2, alphabet)
    requires 0 <= x < n1 * n2 && Letters(w, alphabet)
    ensures 0 <= y < n1 * n2
    decreases |w|
  {
    if w == [] then x else ProductRun(t1, t2, n1, n2, alphabet, Step(t1, t2, n1, n2, alphabet, x, w[0]), w[1..])
  }

  /** The product runs both automata side by side. */
  lemma {:induction false} ProductRunPairs(t1: seq<seq<int>>, t2: seq<seq<int>>, n1: nat, n2: nat, alphabet: nat,
                                           p: int, q: int, w: seq<int>)
    requires Complete(t1, n1, alphabet) && Complete(t2, n2, alphabet)
    requires 0 <= p < n1 && 0 <= q < n2 && Letters(w, alphabet)
    ensures 0 <= Position(p, q, n2) < n1 * n2
    ensures ProductRun(t1, t2, n1, n2, alphabet, Position(p, q, n2), w) ==
      Position(Run(t1, n1, alphabet, p, w), Run(t2, n2, alphabet, q, w), n2)
    decreases |w|
  {
    PositionBounds(p, q, n2, n1);
    if w != [] {
      StepPair(t1, t2, n1, n2, alphabet, p, q, w[0]);
      ProductRunPairs(t1, t2, n1, n2, alphabet, t1[p][w[0]], t2[q][w[0]], w[1..]);
    }
  }

  /** Some word leads the pair `x` to a pair in which exactly one state accepts. */
  ghost predicate Distinguished(f1: seq<bool>, f2: seq<bool>, t1: seq<seq<int>>, t2: seq<seq<int>>,
                                n1: nat, n2: nat, alphabet: nat, x: int)
    requires Complete(t1, n1, alphabet) && Complete(t2, n2, alphabet) && |f1| == n1 && |f2| == n2
    requires 0 <= x < n1 * n2
  {
    exists w :: Letters(w, alphabet) && Separated(f1, f2, ProductRun(t1, t2, n1, n2, alphabet, x, w))
  }

  /** From `p` in the first automaton and `q` in the second, every word is
      accepted by both or by neither. */
  ghost predicate SameLanguage(f1: seq<bool>, f2: seq<bool>, t1: seq<seq<int>>, t2: seq<seq<int>>,
                               n1: nat, n2: nat, alphabet: nat, p: int, q: int)
    requires Complete(t1, n1, alphabet) && Complete(t2, n2, alphabet) && |f1| == n1 && |f2| == n2
    requires 0 <= p < n1 && 0 <= q < n2
  {
    forall w :: Letters(w, alphabet) ==> f1[Run(t1, n1, alphabet, p, w)] == f2[Run(t2, n2, alphabet, q, w)]
  }

  /** `SameLanguage` for the two states of pair number `x`. */
  ghost predicate PairSameLanguage(f1: seq<bool>, f2: seq<bool>, t1: seq<seq<int>>, t2: seq<seq<int>>,
                                   n1: nat, n2: nat, alphabet: nat, x: int)
    requires Complete(t1, n1, alphabet) && Complete(t2, n2, alphabet) && |f1| == n1 && |f2| == n2
    requires 0 <= x < n1 * n2
  {
    PairPositive(x, n1, n2);
    PositionSplit(x, n2, n1);
    SameLanguage(f1, f2, t1, t2, n1, n2, alphabet, x / n2, x % n2)
  }

  /** Seeded pairs, read as two states. */
  lemma SeparatedPair(f1: seq<bool>, f2: seq<bool>, p: int, q: int)
    requires 0 <= p < |f1| && 0 <= q < |f2|
    ensures 0 <= Position(p, q, |f2|) < |f1| * |f2|
    ensures Separated(f1, f2, Position(p, q, |f2|)) <==> f1[p] != f2[q]
  {
    PositionBounds(p, q, |f2|, |f1|);
    PositionDecode(p, q, |f2|);
  }

  /** A pair is distinguished exactly when its two states accept different
      languages. */
  lemma DistinguishedIff(f1: seq<bool>, f2: seq<bool>, t1: seq<seq<int>>, t2: seq<seq<int>>,
                         n1: nat, n2: nat, alphabet: nat, x: int)
    requires Complete(t1, n1, alphabet) && Complete(t2, n2, alphabet) && |f1| == n1 && |f2| == n2
    requires 0 <= x < n1 * n2
    ensures Distinguished(f1, f2, t1, t2, n1, n2, alphabet, x) <==> !PairSameLanguage(f1, f2, t1, t2, n1, n2, alphabet, x)
  {
    PairPositive(x, n1, n2);
    PositionSplit(x, n2, n1);
    var p, q := x / n2, x % n2;
    forall w | Letters(w, alphabet)
      ensures Separated(f1, f2, ProductRun(t1, t2, n1, n2, alphabet, x, w)) <==>
        f1[Run(t1, n1, alphabet, p, w)] != f2[Run(t2, n2, alphabet, q, w)]
    {
      ProductRunPairs(t1, t2, n1, n2, alphabet, p, q, w);
      SeparatedPair(f1, f2, Run(t1, n1, alphabet, p, w), Run(t2, n2, alphabet, q, w));
    }
  }

  /** The flags of the pairs still marked equal. */
  ghost function Unseen(eq: seq<bool>): set<int> {
    set x | 0 <= x < |eq| && eq[x]
  }

  /** The entries `IsEquivalent` appends to its queue while it walks the list
      `preds` with flags `eq`: each entry still marked equal, at its first
      occurrence. */
  function Pushes(eq: seq<bool>, preds: seq<int>): (pushed: seq<int>)
    requires forall i :: 0 <= i < |preds| ==> 0 <= preds[i] < |eq|
    decreases |preds|
  {
    if preds == [] then []
    else
      var init, last := preds[..|preds| - 1], preds[|preds| - 1];
      Pushes(eq, init) + (if eq[last] && last !in init then [last] else [])
  }

  /** The pushed entries are the listed ones still marked equal. */
  lemma {:induction false} PushesSpec(eq: seq<bool>, preds: seq<int>)
    requires forall i :: 0 <= i < |preds| ==> 0 <= preds[i] < |eq|
    ensures forall x :: x in Pushes(eq, preds) <==> x in preds && eq[x]
    decreases |preds|
  {
    if preds != [] {
      var init := preds[..|preds| - 1];
      PushesSpec(eq, init);
      assert preds == init + [preds[|preds| - 1]];
    }
  }

  /** Clearing the listed flags shrinks the set of pairs marked equal, and
      strictly when something was pushed. */
  lemma UnseenShrinks(eq: seq<bool>, eq': seq<bool>, preds: seq<int>)
    requires forall i :: 0 <= i < |preds| ==> 0 <= preds[i] < |eq|
    requires |eq'| == |eq| && forall x :: 0 <= x < |eq| ==> eq'[x] == (eq[x] && x !in preds)
    ensures Unseen(eq') <= Unseen(eq)
    ensures Pushes(eq, preds) == [] ==> Unseen(eq') == Unseen(eq)
    ensures Pushes(eq, preds) != [] ==> Unseen(eq') < Unseen(eq)
  {
    PushesSpec(eq, preds);
    if Pushes(eq, preds) != [] {
      var x := Pushes(eq, preds)[0];
      assert x in Pushes(eq, preds);
      var i :| 0 <= i < |preds| && preds[i] == x;
      assert x in Unseen(eq) && x !in Unseen(eq');
    } else {
      forall x | x in Unseen(eq) ensures x in Unseen(eq') {
        assert x !in Pushes(eq, preds);
      }
    }
  }

  /** No entry occurs twice. */
  predicate Distinct(s: seq<int>) {
    forall i, j :: 0 <= i < j < |s| ==> s[i] != s[j]
  }

  /** The flags of the pairs already marked. */
  ghost function Marked(eq: seq<bool>): set<int> {
    set x | 0 <= x < |eq| && !eq[x]
  }

  /** Every pair is either marked or still marked equal. */
  lemma {:induction false} MarkedSize(eq: seq<bool>)
    ensures |Marked(eq)| + |Unseen(eq)| == |eq|
  {
    if eq != [] {
      var init := eq[..|eq| - 1];
      MarkedSize(init);
      var n := |eq| - 1;
      forall x | 0 <= x < n ensures init[x] == eq[x] { }
      if eq[n] {
        assert Marked(eq) == Marked(init);
        assert Unseen(eq) == Unseen(init) + {n};
      } else {
        assert Marked(eq) == Marked(init) + {n};
        assert Unseen(eq) == Unseen(init);
      }
    }
  }

  /** A list without repeats has as many elements as entries. */
  lemma {:induction false} DistinctSize(s: seq<int>)
    requires Distinct(s)
    ensures |set x | x in s| == |s|
  {
    if s != [] {
      var init, last := s[..|s| - 1], s[|s| - 1];
      assert Distinct(init) by {
        forall i, j | 0 <= i < j < |init| ensures init[i] != init[j] {
          assert init[i] == s[i] && init[j] == s[j];
        }
      }
      DistinctSize(init);
      assert last !in init by {
        forall i | 0 <= i < |init| ensures init[i] != last {
          assert init[i] == s[i];
        }
      }
      assert s == init + [last];
      assert (set x | x in s) == (set x | x in init) + {last};
    }
  }

  /** A round pushes each pair at most once. */
  lemma {:induction false} PushesDistinct(eq: seq<bool>, preds: seq<int>)
    requires forall i :: 0 <= i < |preds| ==> 0 <= preds[i] < |eq|
    ensures Distinct(Pushes(eq, preds))
    decreases |preds|
  {
    if preds != [] {
      var init, last := preds[..|preds| - 1], preds[|preds| - 1];
      PushesDistinct(eq, init);
      PushesSpec(eq, init);
      if eq[last] && last !in init {
        var p := Pushes(eq, init);
        assert last !in p;
        forall i, j | 0 <= i < j < |p + [last]| ensures (p + [last])[i] != (p + [last])[j] {
          if j == |p| {
            assert p[i] in p;
          }
        }
      }
    }
  }

  /** The queue's history in `IsEquivalent`: `history` lists every pair ever
      queued (the seeds, then each round's pushes) without repeats, a pair is
      marked exactly when it is in `history`, and the queue is what is left
      of `history` after `pops` pops. */
  ghost predicate Enqueued(eq: seq<bool>, history: seq<int>, queue: seq<int>, pops: nat) {
    && Distinct(history)
    && (forall i :: 0 <= i < |history| ==> 0 <= history[i] < |eq|)
    && (forall x :: 0 <= x < |eq| ==> (!eq[x] <==> x in history))
    && pops <= |history| && queue == history[pops..]
  }

  /** No pair is in the queue twice, and the pairs popped, the pairs queued
      and the pairs still marked equal are all the pairs: so the search pops
      at most `|eq|` times. */
  lemma EnqueuedCount(eq: seq<bool>, history: seq<int>, queue: seq<int>, pops: nat)
    requires Enqueued(eq, history, queue, pops)
    ensures Distinct(queue)
    ensures pops + |queue| + |Unseen(eq)| == |eq|
  {
    DistinctSize(history);
    MarkedSize(eq);
    forall x | x in history ensures 0 <= x < |eq| && !eq[x] {
      var i :| 0 <= i < |history| && history[i] == x;
    }
    assert (set x | x in history) == Marked(eq);
    forall i, j | 0 <= i < j < |queue| ensures queue[i] != queue[j] {
      assert queue[i] == history[pops + i] && queue[j] == history[pops + j];
    }
  }

  /** The seeds start the history. */
  lemma EnqueuedStart(eq: seq<bool>, seeds: seq<int>)
    requires Distinct(seeds) && forall i :: 0 <= i < |seeds| ==> 0 <= seeds[i] < |eq|
    requires forall x :: 0 <= x < |eq| ==> (eq[x] <==> x !in seeds)
    ensures Enqueued(eq, seeds, seeds, 0)
  {
    assert seeds[0..] == seeds;
  }

  /** Two lists without repeats and without a common entry concatenate to a
      list without repeats. */
  lemma DistinctConcat(a: seq<int>, b: seq<int>)
    requires Distinct(a) && Distinct(b)
    requires forall i :: 0 <= i < |b| ==> b[i] !in a
    ensures Distinct(a + b)
  {
    forall i, j | 0 <= i < j < |a + b| ensures (a + b)[i] != (a + b)[j] {
      if i < |a| <= j {
        assert (a + b)[j] == b[j - |a|] && (a + b)[i] in a;
      }
    }
  }

  /** Dropping a prefix of the history commutes with appending to it. */
  lemma DropAppend(history: seq<int>, queue: seq<int>, pops: nat, p: seq<int>)
    requires pops < |history| && queue == history[pops..]
    ensures (history + p)[pops + 1..] == queue[1..] + p
  {
    assert queue[1..] == history[pops + 1..];
  }

  /** A round pops one pair and appends its pushes to the history. */
  lemma EnqueuedStep(eq: seq<bool>, history: seq<int>, queue: seq<int>, pops: nat, preds: seq<int>,
                     eq': seq<bool>, queue': seq<int>)
    requires Enqueued(eq, history, queue, pops) && queue != []
    requires forall i :: 0 <= i < |preds| ==> 0 <= preds[i] < |eq|
    requires |eq'| == |eq| && forall x :: 0 <= x < |eq| ==> eq'[x] == (eq[x] && x !in preds)
    requires queue' == queue[1..] + Pushes(eq, preds)
    ensures Enqueued(eq', history + Pushes(eq, preds), queue', pops + 1)
  {
    var p := Pushes(eq, preds);
    var h := history + p;
    PushesSpec(eq, preds);
    PushesDistinct(eq, preds);
    forall i | 0 <= i < |p| ensures p[i] !in history && 0 <= p[i] < |eq| {
      assert p[i] in p;
    }
    DistinctConcat(history, p);
    forall x | 0 <= x < |eq'| ensures !eq'[x] <==> x in h {
      assert x in h <==> x in history || x in p;
    }
    DropAppend(history, queue, pops, p);
  }


  /** Every entry of the graph is a pair number. */
  lemma {:induction false} GraphRange(t1: seq<seq<int>>, t2: seq<seq<int>>, n1: nat, n2: nat, alphabet: nat, k: int)
    requires Complete(t1, n1, alphabet) && Complete(t2, n2, alphabet)
    requires 0 <= k <= n1 * n2 * alphabet
    ensures forall t, u :: 0 <= t < n1 * n2 && u in GraphBelow(t1, t2, n1, n2, alphabet, k)[t] ==> 0 <= u < n1 * n2
    decreases k
  {
    if k > 0 {
      GraphRange(t1, t2, n1, n2, alphabet, k - 1);
      ProductPositive(n1, n2, alphabet, k);
      PositionSplit(k - 1, alphabet, n1 * n2);
    }
  }

  /** What the search needs of the finished graph: its entries are pairs,
      every pair is listed under each pair a letter leads it to, and only
      such pairs are listed. */
  ghost predicate ReversedProduct(t1: seq<seq<int>>, t2: seq<seq<int>>, n1: nat, n2: nat, alphabet: nat, g: seq<seq<int>>)
    requires Complete(t1, n1, alphabet) && Complete(t2, n2, alphabet)
  {
    && |g| == n1 * n2
    && (forall t, u :: 0 <= t < |g| && u in g[t] ==> 0 <= u < |g|)
    && (forall x, e :: 0 <= x < |g| && 0 <= e < alphabet ==> x in g[Step(t1, t2, n1, n2, alphabet, x, e)])
    && (forall t, u :: 0 <= t < |g| && u in g[t] ==> exists e :: 0 <= e < alphabet && Step(t1, t2, n1, n2, alphabet, u, e) == t)
  }

  /** The graph of `Create_graph` is the reversed product. */
  lemma GraphReversed(t1: seq<seq<int>>, t2: seq<seq<int>>, n1: nat, n2: nat, alphabet: nat, g: seq<seq<int>>)
    requires Complete(t1, n1, alphabet) && Complete(t2, n2, alphabet)
    requires g == GraphBelow(t1, t2, n1, n2, alphabet, n1 * n2 * alphabet)
    ensures ReversedProduct(t1, t2, n1, n2, alphabet, g)
  {
    CountsNonNegative(n1, n2, alphabet);
    GraphRange(t1, t2, n1, n2, alphabet, n1 * n2 * alphabet);
    forall x, t | 0 <= x < n1 * n2 && 0 <= t < n1 * n2
      ensures x in g[t] <==> exists e :: 0 <= e < alphabet && Step(t1, t2, n1, n2, alphabet, x, e) == t
    {
      GraphPredecessors(t1, t2, n1, n2, alphabet, x, t);
    }
  }

  /** The bookkeeping of the search loop of `IsEquivalent`: `eq` are the
      flags of `equal_states`, `queue` is `bad_state`. Queued pairs are
      marked, a marked pair that has left the queue has all its
      predecessors marked, and the start pair, once marked, is queued. */
  ghost predicate Marking(g: seq<seq<int>>, eq: seq<bool>, queue: seq<int>, start: int) {
    && |g| == |eq|
    && (forall t, u :: 0 <= t < |eq| && u in g[t] ==> 0 <= u < |eq|)
    && (forall i :: 0 <= i < |queue| ==> 0 <= queue[i] < |eq| && !eq[queue[i]])
    && (forall v, u :: 0 <= v < |eq| && !eq[v] && v !in queue && u in g[v] ==> !eq[u])
    && (0 <= start < |eq| && !eq[start] ==> start in queue)
  }

  /** The list of one pair holds pair numbers only. */
  lemma ListedInRange(g: seq<seq<int>>, eq: seq<bool>, queue: seq<int>, start: int, t: int)
    requires Marking(g, eq, queue, start) && 0 <= t < |g|
    ensures forall i :: 0 <= i < |g[t]| ==> 0 <= g[t][i] < |eq|
  {
    forall i | 0 <= i < |g[t]| ensures 0 <= g[t][i] < |eq| {
      assert g[t][i] in g[t];
    }
  }

  /** What the marks mean: every seeded pair is marked, and every marked
      pair is distinguished. */
  ghost predicate Sound(f1: seq<bool>, f2: seq<bool>, t1: seq<seq<int>>, t2: seq<seq<int>>,
                        n1: nat, n2: nat, alphabet: nat, eq: seq<bool>)
    requires Complete(t1, n1, alphabet) && Complete(t2, n2, alphabet) && |f1| == n1 && |f2| == n2
    requires |eq| == n1 * n2
  {
    && (forall x :: 0 <= x < |eq| && Separated(f1, f2, x) ==> !eq[x])
    && (forall x :: 0 <= x < |eq| && !eq[x] ==> Distinguished(f1, f2, t1, t2, n1, n2, alphabet, x))
  }

  /** The seeded queue starts the search. */
  lemma MarkingStart(g: seq<seq<int>>, eq: seq<bool>, seeds: seq<int>, start: int)
    requires forall t, u :: 0 <= t < |g| && u in g[t] ==> 0 <= u < |g|
    requires |eq| == |g| && forall x :: 0 <= x < |eq| ==> (eq[x] <==> x !in seeds)
    requires forall x :: x in seeds ==> 0 <= x < |eq|
    ensures Marking(g, eq, seeds, start)
  {
    forall i | 0 <= i < |seeds| ensures 0 <= seeds[i] < |eq| && !eq[seeds[i]] {
      assert seeds[i] in seeds;
    }
  }

  /** The marks of the seeded pairs are sound. */
  lemma SoundStart(f1: seq<bool>, f2: seq<bool>, t1: seq<seq<int>>, t2: seq<seq<int>>,
                   n1: nat, n2: nat, alphabet: nat, eq: seq<bool>)
    requires Complete(t1, n1, alphabet) && Complete(t2, n2, alphabet) && |f1| == n1 && |f2| == n2
    requires |eq| == n1 * n2 && forall x :: 0 <= x < n1 * n2 ==> (eq[x] <==> x !in SeedsBelow(f1, f2, n1 * n2))
    ensures Sound(f1, f2, t1, t2, n1, n2, alphabet, eq)
  {
    SeedsBelowSpec(f1, f2, n1 * n2);
    forall x | 0 <= x < n1 * n2 && !eq[x]
      ensures Distinguished(f1, f2, t1, t2, n1, n2, alphabet, x)
    {
      var w: seq<int> := [];
      assert Letters(w, alphabet) && Separated(f1, f2, ProductRun(t1, t2, n1, n2, alphabet, x, w));
    }
  }

  /** A pair from which one letter leads to a distinguished pair is
      distinguished too. */
  lemma DistinguishedPredecessor(f1: seq<bool>, f2: seq<bool>, t1: seq<seq<int>>, t2: seq<seq<int>>,
                                 n1: nat, n2: nat, alphabet: nat, g: seq<seq<int>>, x: int, t: int)
    requires Complete(t1, n1, alphabet) && Complete(t2, n2, alphabet) && |f1| == n1 && |f2| == n2
    requires ReversedProduct(t1, t2, n1, n2, alphabet, g)
    requires 0 <= t < |g| && x in g[t]
    requires Distinguished(f1, f2, t1, t2, n1, n2, alphabet, t)
    ensures 0 <= x < |g| && Distinguished(f1, f2, t1, t2, n1, n2, alphabet, x)
  {
    var e :| 0 <= e < alphabet && Step(t1, t2, n1, n2, alphabet, x, e) == t;
    var w :| Letters(w, alphabet) && Separated(f1, f2, ProductRun(t1, t2, n1, n2, alphabet, t, w));
    var w' := [e] + w;
    assert w'[1..] == w;
    assert Letters(w', alphabet) && ProductRun(t1, t2, n1, n2, alphabet, x, w') == ProductRun(t1, t2, n1, n2, alphabet, t, w);
  }

  /** One round of the search loop keeps its bookkeeping: the front pair is
      popped and its unmarked predecessors are marked and queued. */
  lemma MarkingStep(g: seq<seq<int>>, eq: seq<bool>, queue: seq<int>, preds: seq<int>,
                    eq': seq<bool>, queue': seq<int>, start: int)
    requires Marking(g, eq, queue, start)
    requires queue != [] && queue[0] != start && preds == g[queue[0]]
    requires forall i :: 0 <= i < |preds| ==> 0 <= preds[i] < |eq|
    requires |eq'| == |eq| && forall x :: 0 <= x < |eq| ==> eq'[x] == (eq[x] && x !in preds)
    requires queue' == queue[1..] + Pushes(eq, preds)
    ensures Marking(g, eq', queue', start)
  {
    PushesSpec(eq, preds);
    forall i | 0 <= i < |queue'|
      ensures 0 <= queue'[i] < |eq'| && !eq'[queue'[i]]
    {
      if i < |queue| - 1 {
        assert queue'[i] == queue[i + 1];
      } else {
        assert queue'[i] in Pushes(eq, preds);
      }
    }
    forall v, u | 0 <= v < |eq'| && !eq'[v] && v !in queue' && u in g[v]
      ensures !eq'[u]
    {
      assert !eq[v];
      assert v != queue[0] ==> v !in queue;
    }
    assert 0 <= start < |eq| && eq[start] && !eq'[start] ==> start in Pushes(eq, preds);
  }

  /** Marking the predecessors of a marked pair keeps the marks sound. */
  lemma SoundStep(f1: seq<bool>, f2: seq<bool>, t1: seq<seq<int>>, t2: seq<seq<int>>,
                  n1: nat, n2: nat, alphabet: nat, g: seq<seq<int>>, eq: seq<bool>, v: int, eq': seq<bool>)
    requires Complete(t1, n1, alphabet) && Complete(t2, n2, alphabet) && |f1| == n1 && |f2| == n2
    requires ReversedProduct(t1, t2, n1, n2, alphabet, g)
    requires |eq| == n1 * n2 && Sound(f1, f2, t1, t2, n1, n2, alphabet, eq)
    requires 0 <= v < |eq| && !eq[v]
    requires |eq'| == |eq| && forall x :: 0 <= x < |eq| ==> eq'[x] == (eq[x] && x !in g[v])
    ensures Sound(f1, f2, t1, t2, n1, n2, alphabet, eq')
  {
    forall x | 0 <= x < |eq'| && !eq'[x]
      ensures Distinguished(f1, f2, t1, t2, n1, n2, alphabet, x)
    {
      if eq[x] {
        DistinguishedPredecessor(f1, f2, t1, t2, n1, n2, alphabet, g, x, v);
      }
    }
  }

  /** With the queue empty, every pair still marked equal runs into pairs
      marked equal on every word. */
  lemma {:induction false} MarkedRuns(t1: seq<seq<int>>, t2: seq<seq<int>>, n1: nat, n2: nat, alphabet: nat,
                                      g: seq<seq<int>>, eq: seq<bool>, start: int, x: int, w: seq<int>)
    requires Complete(t1, n1, alphabet) && Complete(t2, n2, alphabet)
    requires ReversedProduct(t1, t2, n1, n2, alphabet, g)
    requires Marking(g, eq, [], start)
    requires 0 <= x < |eq| && eq[x] && Letters(w, alphabet)
    ensures eq[ProductRun(t1, t2, n1, n2, alphabet, x, w)]
    decreases |w|
  {
    if w != [] {
      var y := Step(t1, t2, n1, n2, alphabet, x, w[0]);
      assert x in g[y];
      assert eq[y];
      MarkedRuns(t1, t2, n1, n2, alphabet, g, eq, start, y, w[1..]);
    }
  }

  /** When the search ends, no pair still marked equal is distinguished. */
  lemma MarkingDone(f1: seq<bool>, f2: seq<bool>, t1: seq<seq<int>>, t2: seq<seq<int>>,
                    n1: nat, n2: nat, alphabet: nat, g: seq<seq<int>>, eq: seq<bool>, start: int)
    requires Complete(t1, n1, alphabet) && Complete(t2, n2, alphabet) && |f1| == n1 && |f2| == n2
    requires ReversedProduct(t1, t2, n1, n2, alphabet, g)
    requires Marking(g, eq, [], start)
    requires |eq| == n1 * n2 && Sound(f1, f2, t1, t2, n1, n2, alphabet, eq)
    ensures forall x :: 0 <= x < |eq| && eq[x] ==> !Distinguished(f1, f2, t1, t2, n1, n2, alphabet, x)
  {
    forall x | 0 <= x < |eq| && eq[x]
      ensures !Distinguished(f1, f2, t1, t2, n1, n2, alphabet, x)
    {
      forall w | Letters(w, alphabet)
        ensures !Separated(f1, f2, ProductRun(t1, t2, n1, n2, alphabet, x, w))
      {
        MarkedRuns(t1, t2, n1, n2, alphabet, g, eq, start, x, w);
      }
    }
  }

  /** Pair number 0 is the pair of the two states 0, which both automata
      read by `ReadAutomaton` start in. */
  lemma StartPair(f1: seq<bool>, f2: seq<bool>, t1: seq<seq<int>>, t2: seq<seq<int>>,
                  n1: nat, n2: nat, alphabet: nat)
    requires Complete(t1, n1, alphabet) && Complete(t2, n2, alphabet) && |f1| == n1 && |f2| == n2
    requires n1 > 0 && n2 > 0
    ensures 0 < n1 * n2
    ensures PairSameLanguage(f1, f2, t1, t2, n1, n2, alphabet, 0) <==> SameLanguage(f1, f2, t1, t2, n1, n2, alphabet, 0, 0)
  {
    PositionBounds(0, 0, n2, n1);
    PositionDecode(0, 0, n2);
  }

  /** The inner loop of `IsEquivalent`: every listed pair still marked equal
      is marked and appended to the queue. */
  method VisitPredecessors(equalStates: array<bool>, preds: seq<int>, queue: seq<int>) returns (queue': seq<int>)
    requires forall i :: 0 <= i < |preds| ==> 0 <= preds[i] < equalStates.Length
    modifies equalStates
    ensures forall x :: 0 <= x < equalStates.Length ==> equalStates[x] == (old(equalStates[x]) && x !in preds)
    ensures queue' == queue + Pushes(old(equalStates[..]), preds)
  {
    ghost var eq := equalStates[..];
    queue' := queue;
    for index := 0 to |preds|
      invariant forall x :: 0 <= x < equalStates.Length ==> equalStates[x] == (eq[x] && x !in preds[..index])
      invariant queue' == queue + Pushes(eq, preds[..index])
    {
      var to := preds[index];
      assert preds[..index + 1] == preds[..index] + [to];
      if equalStates[to] {
        equalStates[to] := false;
        queue' := queue' + [to];
      }
    }
    assert preds[..|preds|] == preds;
  }

  /** The innermost loop of `Create_graph`: the pair `(first, second)` is
      appended, once per letter, to the list of the pair that letter leads it to. */
  method AddPairEdges(t1: seq<seq<int>>, t2: seq<seq<int>>, n1: nat, n2: nat, alphabet: nat,
                      first: int, second: int, graph: seq<seq<int>>) returns (graph': seq<seq<int>>)
    requires Complete(t1, n1, alphabet) && Complete(t2, n2, alphabet)
    requires 0 <= first < n1 && 0 <= second < n2
    requires 0 <= Position(Position(first, second, n2), 0, alphabet) <= n1 * n2 * alphabet
    requires graph == GraphBelow(t1, t2, n1, n2, alphabet, Position(Position(first, second, n2), 0, alphabet))
    ensures 0 <= Position(Position(first, second + 1, n2), 0, alphabet) <= n1 * n2 * alphabet
    ensures graph' == GraphBelow(t1, t2, n1, n2, alphabet, Position(Position(first, second + 1, n2), 0, alphabet))
  {
    var from := Position(first, second, n2);
    graph' := graph;
    ghost var k := Position(from, 0, alphabet);
    for edge := 0 to alphabet
      invariant k == Position(from, edge, alphabet) && 0 <= k <= n1 * n2 * alphabet
      invariant graph' == GraphBelow(t1, t2, n1, n2, alphabet, k)
    {
      var toInFirst := t1[first][edge];
      var toInSecond := t2[second][edge];
      var to := Position(toInFirst, toInSecond, n2);
      EdgeBounds(n1, n2, alphabet, first, second, edge);
      GraphBelowNext(t1, t2, n1, n2, alphabet, k, first, second, edge, graph');
      graph' := graph'[to := graph'[to] + [from]];
      k := k + 1;
    }
    RowEnd(from, alphabet);
  }

  /** The seeding loop of `IsEquivalent`: the listed pairs are marked. */
  method MarkSeeds(equalStates: array<bool>, seeds: seq<int>)
    requires forall i :: 0 <= i < |seeds| ==> 0 <= seeds[i] < equalStates.Length
    modifies equalStates
    ensures forall x :: 0 <= x < equalStates.Length ==> equalStates[x] == (old(equalStates[x]) && x !in seeds)
  {
    for index := 0 to |seeds|
      invariant forall x :: 0 <= x < equalStates.Length ==> equalStates[x] == (old(equalStates[x]) && x !in seeds[..index])
    {
      assert seeds[..index + 1] == seeds[..index] + [seeds[index]];
      equalStates[seeds[index]] := false;
    }
    assert seeds[..|seeds|] == seeds;
  }

  /** One round of the search loop of `IsEquivalent`: the front pair is
      popped, and each of its predecessors still marked equal is marked
      and queued. */
  method SearchRound(f1: seq<bool>, f2: seq<bool>, t1: seq<seq<int>>, t2: seq<seq<int>>,
                     n1: nat, n2: nat, alphabet: nat, graph: seq<seq<int>>,
                     equalStates: array<bool>, badState: seq<int>, start: int, ghost history: seq<int>, ghost pops: nat)
    returns (next: seq<int>, ghost history': seq<int>)
    requires Complete(t1, n1, alphabet) && Complete(t2, n2, alphabet) && |f1| == n1 && |f2| == n2
    requires ReversedProduct(t1, t2, n1, n2, alphabet, graph) && equalStates.Length == n1 * n2
    requires Marking(graph, equalStates[..], badState, start)
    requires Sound(f1, f2, t1, t2, n1, n2, alphabet, equalStates[..])
    requires badState != [] && badState[0] != start
    requires Enqueued(equalStates[..], history, badState, pops)
    modifies equalStates
    ensures Marking(graph, equalStates[..], next, start)
    ensures Sound(f1, f2, t1, t2, n1, n2, alphabet, equalStates[..])
    ensures Unseen(equalStates[..]) < old(Unseen(equalStates[..])) ||
      (Unseen(equalStates[..]) == old(Unseen(equalStates[..])) && |next| < |badState|)
    ensures Enqueued(equalStates[..], history', next, pops + 1)
  {
    var vertex := badState[0];
    ghost var eq := equalStates[..];
    var preds := graph[vertex];
    ListedInRange(graph, eq, badState, start, vertex);
    next := VisitPredecessors(equalStates, preds, badState[1..]);
    MarkingStep(graph, eq, badState, preds, equalStates[..], next, start);
    SoundStep(f1, f2, t1, t2, n1, n2, alphabet, graph, eq, vertex, equalStates[..]);
    UnseenShrinks(eq, equalStates[..], preds);
    EnqueuedStep(eq, history, badState, pops, preds, equalStates[..], next);
    history' := history + Pushes(eq, preds);
  }

  /** The search loop of `IsEquivalent`: pops the front pair, stops when it
      is the start pair, and otherwise marks and queues its unmarked
      predecessors. It finds the start pair exactly when that pair is
      distinguished. */
  method SearchFromSeeds(f1: seq<bool>, f2: seq<bool>, t1: seq<seq<int>>, t2: seq<seq<int>>,
                         n1: nat, n2: nat, alphabet: nat, graph: seq<seq<int>>,
                         equalStates: array<bool>, queue: seq<int>, start: int)
    returns (found: bool, ghost pops: nat, ghost history: seq<int>)
    requires Complete(t1, n1, alphabet) && Complete(t2, n2, alphabet) && |f1| == n1 && |f2| == n2
    requires ReversedProduct(t1, t2, n1, n2, alphabet, graph) && equalStates.Length == n1 * n2
    requires Marking(graph, equalStates[..], queue, start)
    requires Sound(f1, f2, t1, t2, n1, n2, alphabet, equalStates[..])
    requires Enqueued(equalStates[..], queue, queue, 0)
    modifies equalStates
    ensures found <==> 0 <= start < n1 * n2 && Distinguished(f1, f2, t1, t2, n1, n2, alphabet, start)
    ensures Distinct(history) && forall x :: 0 <= x < n1 * n2 ==> (!equalStates[x] <==> x in history)
    ensures pops <= |history| <= n1 * n2
  {
    var badState := queue;
    pops, history := 0, queue;
    EnqueuedCount(equalStates[..], history, badState, pops);
    while badState != []
      invariant Marking(graph, equalStates[..], badState, start)
      invariant Sound(f1, f2, t1, t2, n1, n2, alphabet, equalStates[..])
      invariant Enqueued(equalStates[..], history, badState, pops)
      invariant pops + |badState| + |Unseen(equalStates[..])| == n1 * n2
      decreases Unseen(equalStates[..]), |badState|
    {
      var vertex := badState[0];
      if vertex == start {
        return true, pops, history;
      }
      badState, history := SearchRound(f1, f2, t1, t2, n1, n2, alphabet, graph, equalStates, badState, start, history, pops);
      pops := pops + 1;
      EnqueuedCount(equalStates[..], history, badState, pops);
    }
    MarkingDone(f1, f2, t1, t2, n1, n2, alphabet, graph, equalStates[..], start);
    return false, pops, history;
  }

  /** A complete deterministic automaton over the letters `a`, `b`, ...:
      state `s` accepts when `isTerminal[s]`, and reads letter column `e`
      into `transitions[s][e]` (-1 for a missing link). */
  class Automaton {
    var statesCount: int
    var alphabetSize: int
    var startIndex: int
    var isTerminal: seq<bool>
    var transitions: seq<seq<int>>

    /** The table has one row of `alphabetSize` entries per state. */
    ghost predicate Valid()
      reads this
    {
      && statesCount >= 0 && alphabetSize >= 0
      && |isTerminal| == statesCount && |transitions| == statesCount
      && forall s :: 0 <= s < statesCount ==> |transitions[s]| == alphabetSize
    }

    /** The default automaton: every count is -1. */
    constructor Empty()
      ensures statesCount == -1 && alphabetSize == -1 && startIndex == -1
      ensures isTerminal == [] && transitions == []
    {
      statesCount, alphabetSize, startIndex := -1, -1, -1;
      isTerminal, transitions := [], [];
    }

    /** Marks the exits as accepting and enters the links into a table
        that starts out all -1. */
    constructor (size: int, alphabet: int, start: int, exits: seq<int>, links: seq<Transition>)
      requires size >= 0 && alphabet >= 0
      requires forall i :: 0 <= i < |exits| ==> 0 <= exits[i] < size
      requires forall i :: 0 <= i < |links| ==> 0 <= links[i].from < size && 0 <= Letter(links[i].symbol) < alphabet
      ensures statesCount == size && alphabetSize == alphabet && startIndex == start
      ensures isTerminal == Flags(size, exits)
      ensures transitions == Table(size, alphabet, links)
      ensures Valid()
    {
      statesCount := size;
      alphabetSize := alphabet;
      startIndex := start;
      var flags := seq(size, _ => false);
      for index := 0 to |exits|
        invariant flags == Flags(size, exits[..index])
      {
        assert exits[..index + 1][..index] == exits[..index];
        flags := flags[exits[index] := true];
      }
      assert exits[..|exits|] == exits;
      isTerminal := flags;
      var table := seq(size, _ => seq(alphabet, _ => -1));
      for index := 0 to |links|
        invariant table == Table(size, alphabet, links[..index])
      {
        assert links[..index + 1][..index] == links[..index];
        var from := links[index].from;
        var symbol := links[index].symbol;
        var to := links[index].to;
        table := table[from := table[from][Letter(symbol) := to]];
      }
      assert links[..|links|] == links;
      transitions := table;
    }

    /** The numbers of the pairs of a state of this automaton and a state
        of `other` in which exactly one accepts, in increasing order. */
    method Distinguishable(other: Automaton) returns (answer: seq<int>)
      requires Valid() && other.Valid()
      ensures answer == SeedsBelow(isTerminal, other.isTerminal, statesCount * other.statesCount)
    {
      var n1, n2 := statesCount, other.statesCount;
      answer := [];
      for first := 0 to n1
        invariant 0 <= Position(first, 0, n2) <= n1 * n2
        invariant answer == SeedsBelow(isTerminal, other.isTerminal, Position(first, 0, n2))
      {
        for second := 0 to n2
          invariant 0 <= Position(first, second, n2) <= n1 * n2
          invariant answer == SeedsBelow(isTerminal, other.isTerminal, Position(first, second, n2))
        {
          SeedsBelowNext(isTerminal, other.isTerminal, first, second);
          if isTerminal[first] != other.isTerminal[second] {
            answer := answer + [Position(first, second, n2)];
          }
        }
        RowEnd(first, n2);
      }
    }

    /** The reversed product graph: the list of pair `t` holds, once per
        letter, every pair that letter leads to `t`. */
    method CreateGraph(other: Automaton) returns (graph: seq<seq<int>>)
      requires Valid() && other.Valid()
      requires Complete(transitions, statesCount, alphabetSize) && Complete(other.transitions, other.statesCount, alphabetSize)
      ensures graph == GraphBelow(transitions, other.transitions, statesCount, other.statesCount, alphabetSize,
                                  statesCount * other.statesCount * alphabetSize)
    {
      var n1, n2, alpha := statesCount, other.statesCount, alphabetSize;
      CountsNonNegative(n1, n2, alpha);
      var bigSize := n1 * n2;
      graph := seq(bigSize, _ => []);
      ghost var k := 0;
      for first := 0 to n1
        invariant k == Position(Position(first, 0, n2), 0, alpha) && 0 <= k <= n1 * n2 * alpha
        invariant graph == GraphBelow(transitions, other.transitions, n1, n2, alpha, k)
      {
        for second := 0 to n2
          invariant k == Position(Position(first, second, n2), 0, alpha) && 0 <= k <= n1 * n2 * alpha
          invariant graph == GraphBelow(transitions, other.transitions, n1, n2, alpha, k)
        {
          graph := AddPairEdges(transitions, other.transitions, n1, n2, alpha, first, second, graph);
          k := Position(Position(first, second + 1, n2), 0, alpha);
        }
        RowEnd(first, n2);
      }
    }

    /** Whether the two automata accept the same words from the pair numbered
        `startIndex`: pairs in which exactly one state accepts are seeded,
        and the search over the reversed product marks every pair that
        reaches one. */
    method IsEquivalent(other: Automaton) returns (equivalent: bool)
      requires Valid() && other.Valid()
      requires Complete(transitions, statesCount, alphabetSize) && Complete(other.transitions, other.statesCount, alphabetSize)
      ensures equivalent <==> (!(0 <= startIndex < statesCount * other.statesCount) ||
        PairSameLanguage(isTerminal, other.isTerminal, transitions, other.transitions,
                         statesCount, other.statesCount, alphabetSize, startIndex))
    {
      var n1, n2, alphabet := statesCount, other.statesCount, alphabetSize;
      var f1, f2, t1, t2 := isTerminal, other.isTerminal, transitions, other.transitions;
      CountsNonNegative(n1, n2, alphabet);
      var badState := Distinguishable(other);
      SeedsBelowSpec(f1, f2, n1 * n2);
      var equalStates := new bool[n1 * n2](_ => true);
      forall i | 0 <= i < |badState| ensures 0 <= badState[i] < n1 * n2 {
        assert badState[i] in badState;
      }
      MarkSeeds(equalStates, badState);
      var graph := CreateGraph(other);
      GraphReversed(t1, t2, n1, n2, alphabet, graph);
      MarkingStart(graph, equalStates[..], badState, startIndex);
      SoundStart(f1, f2, t1, t2, n1, n2, alphabet, equalStates[..]);
      EnqueuedStart(equalStates[..], badState);
      var found, pops, history := SearchFromSeeds(f1, f2, t1, t2, n1, n2, alphabet, graph, equalStates, badState, startIndex);
      if 0 <= startIndex < n1 * n2 {
        DistinguishedIff(f1, f2, t1, t2, n1, n2, alphabet, startIndex);
      }
      return !found;
    }
  }
}
