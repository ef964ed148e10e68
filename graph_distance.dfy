/** Shortest distances in an undirected graph with non-negative edge lengths
    (GraphDistance.cpp): every input edge is stored in both directions, and
    a deque-driven search lowers tentative distances until no edge can lower
    any further. An edge of length 0 sends its target to the front of the
    deque, any other edge to the back. */
module GraphDistance {

  /** A directed edge `begin --length--> end`. */
  datatype Edge = Edge(begin: int, end: int, length: int)

  /** The edge the default constructor builds. */
  const Unset: Edge := Edge(-1, -1, -1)

  /** `Edge::Reversed`: the same edge walked the other way. */
  function Reversed(e: Edge): Edge {
    Edge(e.end, e.begin, e.length)
  }

  /** Reversing twice gives the edge back. */
  lemma ReversedInvolution(e: Edge)
    ensures Reversed(Reversed(e)) == e
    ensures Reversed(e).begin == e.end && Reversed(e).end == e.begin && Reversed(e).length == e.length
  {
  }

  /** A tentative distance: a length, or `NO_WAY` (no walk found yet). */
  datatype Distance = Finite(n: int) | NoWay

  /** `a < d` where `NoWay` is larger than every length. */
  predicate Less(a: int, d: Distance) {
    d.NoWay? || a < d.n
  }

  /** `a` is no larger than `b`. */
  predicate AtMost(a: Distance, b: Distance) {
    b.NoWay? || (a.Finite? && a.n <= b.n)
  }

  /** Both ends of every input edge are vertices of a graph of `n` vertices. */
  predicate InRange(es: seq<Edge>, n: int) {
    forall i :: 0 <= i < |es| ==> 0 <= es[i].begin < n && 0 <= es[i].end < n
  }

  /** `data` after the constructor stored the first `|es|` input edges: the
      edge goes to the list of its begin, its reverse to the list of its end. */
  function Adjacency(n: nat, es: seq<Edge>): (a: seq<seq<Edge>>)
    requires InRange(es, n)
    ensures |a| == n
    decreases |es|
  {
    if es == [] then seq(n, _ => [])
    else
      var a := Adjacency(n, es[..|es| - 1]);
      var e := es[|es| - 1];
      var a' := a[e.begin := a[e.begin] + [e]];
      a'[e.end := a'[e.end] + [Reversed(e)]]
  }

  /** Every list holds edges that leave its own vertex towards a vertex. */
  predicate Wf(data: seq<seq<Edge>>) {
    forall v, i :: 0 <= v < |data| && 0 <= i < |data[v]| ==> data[v][i].begin == v && 0 <= data[v][i].end < |data|
  }

  /** The input edge `f` comes from: it is one of `es`, or the reverse of one. */
  ghost predicate Stored(es: seq<Edge>, f: Edge) {
    exists i :: 0 <= i < |es| && (f == es[i] || f == Reversed(es[i]))
  }

  /** One more edge appends itself to the list of its begin and its reverse
      to the list of its end. */
  lemma AdjacencyLast(n: nat, es: seq<Edge>, v: int, f: Edge)
    requires InRange(es, n) && es != [] && 0 <= v < n
    ensures var init, e := es[..|es| - 1], es[|es| - 1];
      f in Adjacency(n, es)[v] <==>
        f in Adjacency(n, init)[v] || (v == e.begin && f == e) || (v == e.end && f == Reversed(e))
  {
  }

  /** An edge is stored by `es` iff it is stored by all but the last edge or
      comes from the last one. */
  lemma StoredLast(es: seq<Edge>, f: Edge)
    requires es != []
    ensures var init, e := es[..|es| - 1], es[|es| - 1];
      Stored(es, f) <==> Stored(init, f) || f == e || f == Reversed(e)
  {
    var init, e := es[..|es| - 1], es[|es| - 1];
    if Stored(init, f) {
      var i :| 0 <= i < |init| && (f == init[i] || f == Reversed(init[i]));
      assert init[i] == es[i];
    }
    if Stored(es, f) && !(f == e || f == Reversed(e)) {
      var i :| 0 <= i < |es| && (f == es[i] || f == Reversed(es[i]));
      assert i != |es| - 1;
      assert init[i] == es[i];
    }
    if f == e || f == Reversed(e) {
      assert es[|es| - 1] == e;
    }
  }

  /** The list of `v` holds exactly the input edges that begin at `v` and
      the reverses of those that end at `v`. */
  lemma {:induction false} AdjacencyMember(n: nat, es: seq<Edge>, v: int, f: Edge)
    requires InRange(es, n) && 0 <= v < n
    ensures f in Adjacency(n, es)[v] <==> f.begin == v && Stored(es, f)
    decreases |es|
  {
    if es != [] {
      var init := es[..|es| - 1];
      assert InRange(init, n) by {
        forall i | 0 <= i < |init| ensures init[i] == es[i] { }
      }
      AdjacencyMember(n, init, v, f);
      AdjacencyLast(n, es, v, f);
      StoredLast(es, f);
    }
  }

  lemma AdjacencySpec(n: nat, es: seq<Edge>)
    requires InRange(es, n)
    ensures forall v, f :: 0 <= v < n ==> (f in Adjacency(n, es)[v] <==> f.begin == v && Stored(es, f))
  {
    forall v, f | 0 <= v < n
      ensures f in Adjacency(n, es)[v] <==> f.begin == v && Stored(es, f)
    {
      AdjacencyMember(n, es, v, f);
    }
  }

  /** The constructed lists are well formed. */
  lemma AdjacencyWf(n: nat, es: seq<Edge>)
    requires InRange(es, n)
    ensures Wf(Adjacency(n, es))
  {
    AdjacencySpec(n, es);
    var a: seq<seq<Edge>> := Adjacency(n, es);
    forall v, i | 0 <= v < |a| && 0 <= i < |a[v]|
      ensures a[v][i].begin == v && 0 <= a[v][i].end < |a|
    {
      assert a[v][i] in a[v];
    }
  }

  /** No edge is negative. */
  predicate NonNegative(data: seq<seq<Edge>>) {
    forall v, i :: 0 <= v < |data| && 0 <= i < |data[v]| ==> data[v][i].length >= 0
  }

  /** The largest length in a list, or 0. */
  function MaxLen(es: seq<Edge>): (m: nat)
    ensures forall i :: 0 <= i < |es| ==> es[i].length <= m
    decreases |es|
  {
    if es == [] then 0
    else
      var m := MaxLen(es[..|es| - 1]);
      var l := es[|es| - 1].length;
      if l > m then l else m
  }

  /** The largest length in the graph, or 0. */
  function MaxLength(data: seq<seq<Edge>>): (m: nat)
    ensures forall v, i :: 0 <= v < |data| && 0 <= i < |data[v]| ==> data[v][i].length <= m
    decreases |data|
  {
    if data == [] then 0
    else
      var m := MaxLength(data[..|data| - 1]);
      var l := MaxLen(data[|data| - 1]);
      assert forall v :: 0 <= v < |data| - 1 ==> data[..|data| - 1][v] == data[v];
      if l > m then l else m
  }

  /** `w` is a walk along stored edges from `start` to `v`. */
  ghost predicate IsWalk(data: seq<seq<Edge>>, start: int, w: seq<Edge>, v: int)
    decreases |w|
  {
    if w == [] then v == start
    else
      var e := w[|w| - 1];
      && e.end == v && 0 <= e.begin < |data| && e in data[e.begin]
      && IsWalk(data, start, w[..|w| - 1], e.begin)
  }

  /** The sum of the lengths of a walk. */
  function Length(w: seq<Edge>): int
    decreases |w|
  {
    if w == [] then 0 else Length(w[..|w| - 1]) + w[|w| - 1].length
  }

  /** Some walk leads from `start` to `v`. */
  ghost predicate Reachable(data: seq<seq<Edge>>, start: int, v: int) {
    exists w :: IsWalk(data, start, w, v)
  }

  /** `k` is the length of a shortest walk from `start` to `v`. */
  ghost predicate IsShortest(data: seq<seq<Edge>>, start: int, v: int, k: int) {
    && (exists w :: IsWalk(data, start, w, v) && Length(w) == k)
    && (forall w :: IsWalk(data, start, w, v) ==> Length(w) >= k)
  }

  /** `k * m`, written as a sum. */
  function Bound(k: nat, m: nat): nat
    decreases k
  {
    if k == 0 then 0 else Bound(k - 1, m) + m
  }

  lemma {:induction false} BoundMonotone(k: nat, k': nat, m: nat)
    requires k <= k'
    ensures Bound(k, m) <= Bound(k', m)
    decreases k'
  {
    if k < k' {
      BoundMonotone(k, k' - 1, m);
    }
  }

  /** The number of vertices with a finite distance. */
  function Reached(d: seq<Distance>): (r: nat)
    ensures r <= |d|
    decreases |d|
  {
    if d == [] then 0 else Reached(d[..|d| - 1]) + (if d[|d| - 1].Finite? then 1 else 0)
  }

  /** Setting a distance counts one more vertex exactly when it was `NoWay`. */
  lemma {:induction false} ReachedUpdate(d: seq<Distance>, i: int, x: int)
    requires 0 <= i < |d|
    ensures Reached(d[i := Finite(x)]) == Reached(d) + (if d[i].NoWay? then 1 else 0)
    decreases |d|
  {
    var d' := d[i := Finite(x)];
    if i == |d| - 1 {
      assert d'[..|d| - 1] == d[..|d| - 1];
    } else {
      ReachedUpdate(d[..|d| - 1], i, x);
      assert d'[..|d| - 1] == d[..|d| - 1][i := Finite(x)];
    }
  }

  /** A vertex still at `NoWay` leaves the count below the number of vertices. */
  lemma {:induction false} ReachedBelow(d: seq<Distance>, i: int)
    requires 0 <= i < |d| && d[i].NoWay?
    ensures Reached(d) < |d|
    decreases |d|
  {
    if i < |d| - 1 {
      ReachedBelow(d[..|d| - 1], i);
    }
  }

  /** No vertex has a finite distance before the search starts. */
  lemma {:induction false} ReachedNone(n: nat)
    ensures Reached(seq(n, _ => NoWay)) == 0
    decreases n
  {
    if n > 0 {
      var d: seq<Distance> := seq(n, _ => NoWay);
      assert d[..n - 1] == seq(n - 1, _ => NoWay);
      ReachedNone(n - 1);
    }
  }

  /** The termination measure: the sum of the finite distances, with `big`
      counted for each `NoWay`. */
  function Potential(d: seq<Distance>, big: int): int
    decreases |d|
  {
    if d == [] then 0
    else Potential(d[..|d| - 1], big) + (if d[|d| - 1].Finite? then d[|d| - 1].n else big)
  }

  /** Lowering one distance below its value, or below `big` for `NoWay`,
      lowers the measure. */
  lemma {:induction false} PotentialLower(d: seq<Distance>, big: int, i: int, x: int)
    requires 0 <= i < |d|
    requires if d[i].Finite? then x < d[i].n else x < big
    ensures Potential(d[i := Finite(x)], big) < Potential(d, big)
    decreases |d|
  {
    var d' := d[i := Finite(x)];
    if i == |d| - 1 {
      assert d'[..|d| - 1] == d[..|d| - 1];
    } else {
      PotentialLower(d[..|d| - 1], big, i, x);
      assert d'[..|d| - 1] == d[..|d| - 1][i := Finite(x)];
    }
  }

  lemma {:induction false} PotentialNonNegative(d: seq<Distance>, big: int)
    requires big >= 0 && forall v :: 0 <= v < |d| && d[v].Finite? ==> d[v].n >= 0
    ensures Potential(d, big) >= 0
    decreases |d|
  {
    if d != [] {
      PotentialNonNegative(d[..|d| - 1], big);
    }
  }

  /** The stored edge `e` cannot lower the distance of its end below that of
      its begin plus its length. */
  predicate Relaxed(d: seq<Distance>, from: int, e: Edge)
    requires 0 <= e.end < |d|
  {
    d[e.end].Finite? && d[e.end].n <= from + e.length
  }

  /** Finite distances are non-negative and at most `m` times one less
      than the number of reached vertices. */
  ghost predicate Bounded(m: nat, d: seq<Distance>) {
    forall v :: 0 <= v < |d| && d[v].Finite? ==> 0 <= d[v].n && d[v].n + m <= Bound(Reached(d), m)
  }

  /** Every finite distance is the length of a walk from `start`. */
  ghost predicate Witnessed(data: seq<seq<Edge>>, start: int, d: seq<Distance>) {
    forall v :: 0 <= v < |d| && d[v].Finite? ==> exists w :: IsWalk(data, start, w, v) && Length(w) == d[v].n
  }

  /** Queued vertices have a distance. */
  predicate Queued(d: seq<Distance>, queue: seq<int>) {
    forall i :: 0 <= i < |queue| ==> 0 <= queue[i] < |d| && d[queue[i]].Finite?
  }

  /** Every edge out of a vertex with a distance that is not queued is
      relaxed, except the edges of `busy` from index `done` on. */
  predicate Settled(data: seq<seq<Edge>>, d: seq<Distance>, queue: seq<int>, busy: int, done: int)
    requires Wf(data) && |d| == |data|
  {
    forall u, j :: 0 <= u < |d| && d[u].Finite? && u !in queue && 0 <= j < |data[u]| && (u == busy ==> j < done) ==>
      Relaxed(d, d[u].n, data[u][j])
  }

  /** The state of the search of `ShortestDistance`. `d` are the entries of
      `distance`, `queue` the deque `updated_vertices`, and `busy` the vertex
      whose first `done` edges the inner loop has handled (-1 between rounds). */
  ghost predicate Searching(data: seq<seq<Edge>>, start: int, m: nat, d: seq<Distance>, queue: seq<int>, busy: int, done: int)
    requires Wf(data)
  {
    && |d| == |data| && 0 <= start < |d|
    && d[start] == Finite(0)
    && Bounded(m, d)
    && Witnessed(data, start, d)
    && Queued(d, queue)
    && Settled(data, d, queue, busy, done)
  }

  /** A lowered distance that does not exceed the bound keeps it. */
  lemma LowerBounded(m: nat, d: seq<Distance>, i: int, x: int, d': seq<Distance>)
    requires 0 <= i < |d| && Bounded(m, d) && d' == d[i := Finite(x)]
    requires 0 <= x <= Bound(Reached(d), m) && (d[i].Finite? ==> x < d[i].n)
    ensures Bounded(m, d')
  {
    ReachedUpdate(d, i, x);
    var k := Reached(d');
    assert k == Reached(d) + (if d[i].NoWay? then 1 else 0);
    BoundMonotone(Reached(d), k, m);
    forall v | 0 <= v < |d'| && d'[v].Finite? ensures 0 <= d'[v].n && d'[v].n + m <= Bound(k, m) {
      if v != i {
        assert d'[v] == d[v];
      } else if d[i].NoWay? {
        assert Bound(k, m) == Bound(Reached(d), m) + m;
      }
    }
  }

  /** Extending the walk to `busy` by one of its edges witnesses the new
      distance of the edge's end. */
  lemma LowerWitnessed(data: seq<seq<Edge>>, start: int, d: seq<Distance>, busy: int, e: Edge, d': seq<Distance>)
    requires Witnessed(data, start, d) && 0 <= busy < |d| == |data| && d[busy].Finite?
    requires e in data[busy] && e.begin == busy && 0 <= e.end < |d|
    requires d' == d[e.end := Finite(d[busy].n + e.length)]
    ensures Witnessed(data, start, d')
  {
    forall v | 0 <= v < |d'| && d'[v].Finite?
      ensures exists w :: IsWalk(data, start, w, v) && Length(w) == d'[v].n
    {
      if v == e.end {
        var w :| IsWalk(data, start, w, busy) && Length(w) == d[busy].n;
        var w' := w + [e];
        assert w'[..|w'| - 1] == w;
        assert IsWalk(data, start, w', v) && Length(w') == d'[v].n;
      } else {
        assert d'[v] == d[v];
      }
    }
  }

  /** Lowering the end of the busy vertex's next edge and queueing it
      settles that edge and unsettles no other. */
  lemma LowerSettled(data: seq<seq<Edge>>, d: seq<Distance>, queue: seq<int>, busy: int, done: int,
                     d': seq<Distance>, queue': seq<int>)
    requires Wf(data) && |d| == |data| && Settled(data, d, queue, busy, done)
    requires 0 <= busy < |d| && d[busy].Finite? && 0 <= done < |data[busy]|
    requires data[busy][done].end != busy
    requires Less(d[busy].n + data[busy][done].length, d[data[busy][done].end])
    requires d' == d[data[busy][done].end := Finite(d[busy].n + data[busy][done].length)]
    requires data[busy][done].end in queue' && forall u :: u in queue ==> u in queue'
    ensures Settled(data, d', queue', busy, done + 1)
  {
  }

  /** The search starts with `start` queued at distance 0. */
  lemma SearchingStart(data: seq<seq<Edge>>, start: int, m: nat, d: seq<Distance>)
    requires Wf(data) && 0 <= start < |data|
    requires d == seq(|data|, _ => NoWay)[start := Finite(0)]
    ensures Searching(data, start, m, d, [start], -1, 0)
  {
    ReachedNone(|data|);
    ReachedUpdate(seq(|data|, _ => NoWay), start, 0);
    var w: seq<Edge> := [];
    assert IsWalk(data, start, w, start) && Length(w) == 0;
  }

  /** Popping the front vertex makes it the busy one. */
  lemma SearchingPop(data: seq<seq<Edge>>, start: int, m: nat, d: seq<Distance>, queue: seq<int>)
    requires Wf(data) && Searching(data, start, m, d, queue, -1, 0) && queue != []
    ensures 0 <= queue[0] < |d| && d[queue[0]].Finite?
    ensures Searching(data, start, m, d, queue[1..], queue[0], 0)
  {
    forall u, j | 0 <= u < |d| && d[u].Finite? && u !in queue[1..] && 0 <= j < |data[u]| && (u == queue[0] ==> j < 0)
      ensures Relaxed(d, d[u].n, data[u][j])
    {
      assert u !in queue;
    }
  }

  /** Once all edges of the busy vertex are handled, it is like any other. */
  lemma SearchingDone(data: seq<seq<Edge>>, start: int, m: nat, d: seq<Distance>, queue: seq<int>, busy: int)
    requires Wf(data) && 0 <= busy < |data| && Searching(data, start, m, d, queue, busy, |data[busy]|)
    ensures Searching(data, start, m, d, queue, -1, 0)
  {
  }

  /** An edge that cannot lower its end's distance is relaxed. */
  lemma SearchingKeep(data: seq<seq<Edge>>, start: int, m: nat, d: seq<Distance>, queue: seq<int>, busy: int, done: int)
    requires Wf(data) && Searching(data, start, m, d, queue, busy, done)
    requires 0 <= busy < |d| && d[busy].Finite? && 0 <= done < |data[busy]|
    requires !Less(d[busy].n + data[busy][done].length, d[data[busy][done].end])
    ensures Searching(data, start, m, d, queue, busy, done + 1)
  {
  }

  /** An edge that lowers its end's distance: the end gets the new distance
      and is queued at either end. */
  lemma SearchingLower(data: seq<seq<Edge>>, start: int, m: nat, d: seq<Distance>, queue: seq<int>,
                       busy: int, done: int, d': seq<Distance>, queue': seq<int>)
    requires Wf(data) && NonNegative(data) && forall v, i :: 0 <= v < |data| && 0 <= i < |data[v]| ==> data[v][i].length <= m
    requires Searching(data, start, m, d, queue, busy, done)
    requires 0 <= busy < |d| && d[busy].Finite? && 0 <= done < |data[busy]|
    requires Less(d[busy].n + data[busy][done].length, d[data[busy][done].end])
    requires d' == d[data[busy][done].end := Finite(d[busy].n + data[busy][done].length)]
    requires queue' == [data[busy][done].end] + queue || queue' == queue + [data[busy][done].end]
    ensures Searching(data, start, m, d', queue', busy, done + 1)
  {
    var e := data[busy][done];
    assert e.end != busy && e.end != start;
    assert e in data[busy];
    LowerBounded(m, d, e.end, d[busy].n + e.length, d');
    LowerWitnessed(data, start, d, busy, e, d');
    LowerSettled(data, d, queue, busy, done, d', queue');
    LowerQueued(d, queue, e.end, d[busy].n + e.length, d', queue');
    assert d'[start] == d[start];
  }

  /** The lowered vertex is queued, at either end, beside the queued ones. */
  lemma LowerQueued(d: seq<Distance>, queue: seq<int>, i: int, x: int, d': seq<Distance>, queue': seq<int>)
    requires Queued(d, queue) && 0 <= i < |d| && d' == d[i := Finite(x)]
    requires queue' == [i] + queue || queue' == queue + [i]
    ensures Queued(d', queue')
    ensures i in queue' && forall u :: u in queue ==> u in queue'
  {
    forall k | 0 <= k < |queue'| ensures 0 <= queue'[k] < |d'| && d'[queue'[k]].Finite? {
      if queue'[k] != i {
        assert queue'[k] in queue;
      }
    }
  }

  /** Lowering a distance lowers the termination measure. */
  lemma PotentialStep(data: seq<seq<Edge>>, start: int, m: nat, d: seq<Distance>, queue: seq<int>,
                      busy: int, done: int, big: int)
    requires Wf(data) && forall v, i :: 0 <= v < |data| && 0 <= i < |data[v]| ==> data[v][i].length <= m
    requires Searching(data, start, m, d, queue, busy, done) && big == Bound(|d|, m) + 1
    requires 0 <= busy < |d| && d[busy].Finite? && 0 <= done < |data[busy]|
    requires Less(d[busy].n + data[busy][done].length, d[data[busy][done].end])
    ensures Potential(d[data[busy][done].end := Finite(d[busy].n + data[busy][done].length)], big) < Potential(d, big)
  {
    var e := data[busy][done];
    if d[e.end].NoWay? {
      ReachedBelow(d, e.end);
      BoundMonotone(Reached(d), |d|, m);
    }
    PotentialLower(d, big, e.end, d[busy].n + e.length);
  }

  /** When the deque is empty, each distance is at most the length of every
      walk to its vertex. */
  lemma {:induction false} SearchingMinimal(data: seq<seq<Edge>>, start: int, m: nat, d: seq<Distance>, w: seq<Edge>, v: int)
    requires Wf(data) && Searching(data, start, m, d, [], -1, 0)
    requires IsWalk(data, start, w, v)
    ensures 0 <= v < |d| && d[v].Finite? && d[v].n <= Length(w)
    decreases |w|
  {
    if w != [] {
      var e := w[|w| - 1];
      SearchingMinimal(data, start, m, d, w[..|w| - 1], e.begin);
      var j :| 0 <= j < |data[e.begin]| && data[e.begin][j] == e;
      assert Relaxed(d, d[e.begin].n, data[e.begin][j]);
    }
  }

  /** What one relaxation of `data[busy][done]` does to the search: relaxed
      or lowered, the search invariant moves past the edge, no distance
      grows, and the measure drops exactly when the deque grows. */
  lemma RelaxKept(data: seq<seq<Edge>>, start: int, m: nat, big: int, d: seq<Distance>, queue: seq<int>,
                  busy: int, done: int, d': seq<Distance>, queue': seq<int>)
    requires Wf(data) && NonNegative(data) && forall v, i :: 0 <= v < |data| && 0 <= i < |data[v]| ==> data[v][i].length <= m
    requires |d| == |data| && big == Bound(|data|, m) + 1
    requires 0 <= busy < |d| && d[busy].Finite? && 0 <= done < |data[busy]|
    requires Searching(data, start, m, d, queue, busy, done)
    requires var e := data[busy][done];
      Less(d[busy].n + e.length, d[e.end]) ==>
        && d' == d[e.end := Finite(d[busy].n + e.length)]
        && queue' == (if e.length == 0 then [e.end] + queue else queue + [e.end])
    requires var e := data[busy][done];
      !Less(d[busy].n + e.length, d[e.end]) ==> d' == d && queue' == queue
    ensures |d'| == |d| && d'[busy] == d[busy]
    ensures Searching(data, start, m, d', queue', busy, done + 1)
    ensures Potential(d', big) <= Potential(d, big)
    ensures Potential(d', big) == Potential(d, big) ==> queue' == queue
    ensures forall v :: 0 <= v < |d| ==> AtMost(d'[v], d[v])
  {
    var e := data[busy][done];
    if Less(d[busy].n + e.length, d[e.end]) {
      SearchingLower(data, start, m, d, queue, busy, done, d', queue');
      PotentialStep(data, start, m, d, queue, busy, done, big);
    } else {
      SearchingKeep(data, start, m, d, queue, busy, done);
    }
  }

  /** One pass of the inner loop of `ShortestDistance`: when the edge
      `data[vertex][j]` lowers the distance of its end, the end gets the
      lower distance and is queued, at the front for a length of 0 and at
      the back otherwise; otherwise nothing changes. */
  method RelaxEdge(data: seq<seq<Edge>>, distance: array<Distance>, vertex: int, j: int, queue: seq<int>)
    returns (queue': seq<int>)
    requires Wf(data) && distance.Length == |data|
    requires 0 <= vertex < |data| && distance[vertex].Finite? && 0 <= j < |data[vertex]|
    modifies distance
    ensures var d, e := old(distance[..]), data[vertex][j];
      Less(d[vertex].n + e.length, d[e.end]) ==>
        && distance[..] == d[e.end := Finite(d[vertex].n + e.length)]
        && queue' == (if e.length == 0 then [e.end] + queue else queue + [e.end])
    ensures var d, e := old(distance[..]), data[vertex][j];
      !Less(d[vertex].n + e.length, d[e.end]) ==> distance[..] == d && queue' == queue
  {
    queue' := queue;
    var to := data[vertex][j].end;
    var length := data[vertex][j].length;
    if Less(distance[vertex].n + length, distance[to]) {
      if length == 0 {
        queue' := [to] + queue';
      } else {
        queue' := queue' + [to];
      }
      distance[to] := Finite(distance[vertex].n + length);
    }
  }

  /** `RelaxEdge` inside the search: the invariant moves past the edge, no
      distance grows and the measure drops exactly when the deque grows. */
  method RelaxStep(data: seq<seq<Edge>>, start: int, ghost m: nat, ghost big: int, distance: array<Distance>,
                   vertex: int, j: int, queue: seq<int>) returns (queue': seq<int>)
    requires Wf(data) && NonNegative(data) && forall v, i :: 0 <= v < |data| && 0 <= i < |data[v]| ==> data[v][i].length <= m
    requires distance.Length == |data| && big == Bound(|data|, m) + 1
    requires 0 <= vertex < |data| && distance[vertex].Finite? && 0 <= j < |data[vertex]|
    requires Searching(data, start, m, distance[..], queue, vertex, j)
    modifies distance
    ensures distance[vertex] == old(distance[vertex])
    ensures Searching(data, start, m, distance[..], queue', vertex, j + 1)
    ensures Potential(distance[..], big) <= old(Potential(distance[..], big))
    ensures Potential(distance[..], big) == old(Potential(distance[..], big)) ==> queue' == queue
    ensures forall v :: 0 <= v < distance.Length ==> AtMost(distance[v], old(distance[v]))
  {
    ghost var d := distance[..];
    queue' := RelaxEdge(data, distance, vertex, j, queue);
    RelaxKept(data, start, m, big, d, queue, vertex, j, distance[..], queue');
  }

  /** The inner loop of `ShortestDistance` over the edges of `vertex`. */
  method RelaxEdges(data: seq<seq<Edge>>, start: int, ghost m: nat, ghost big: int, distance: array<Distance>,
                    vertex: int, queue: seq<int>) returns (queue': seq<int>)
    requires Wf(data) && NonNegative(data) && forall v, i :: 0 <= v < |data| && 0 <= i < |data[v]| ==> data[v][i].length <= m
    requires distance.Length == |data| && big == Bound(|data|, m) + 1
    requires 0 <= vertex < |data| && distance[vertex].Finite?
    requires Searching(data, start, m, distance[..], queue, vertex, 0)
    modifies distance
    ensures Searching(data, start, m, distance[..], queue', vertex, |data[vertex]|)
    ensures Potential(distance[..], big) <= old(Potential(distance[..], big))
    ensures Potential(distance[..], big) == old(Potential(distance[..], big)) ==> queue' == queue
    ensures forall v :: 0 <= v < distance.Length ==> AtMost(distance[v], old(distance[v]))
  {
    ghost var p0 := Potential(distance[..], big);
    queue' := queue;
    for j := 0 to |data[vertex]|
      invariant distance[vertex].Finite?
      invariant Searching(data, start, m, distance[..], queue', vertex, j)
      invariant Potential(distance[..], big) <= p0
      invariant Potential(distance[..], big) == p0 ==> queue' == queue
      invariant forall v :: 0 <= v < distance.Length ==> AtMost(distance[v], old(distance[v]))
    {
      ghost var before := distance[..];
      queue' := RelaxStep(data, start, m, big, distance, vertex, j, queue');
      assert forall v :: 0 <= v < distance.Length ==> AtMost(distance[v], before[v]);
    }
  }

  /** An undirected graph: the list of vertex `v` holds the edges leaving `v`. */
  class Graph {
    var size: int
    var data: seq<seq<Edge>>

    ghost predicate Valid()
      reads this
    {
      size == |data| && Wf(data)
    }

    /** Stores every input edge in the list of its begin and its reverse in
        the list of its end. */
    constructor (graphSize: int, inputData: seq<Edge>)
      requires graphSize >= 0 && InRange(inputData, graphSize)
      ensures size == graphSize && data == Adjacency(graphSize, inputData)
      ensures Valid()
    {
      size := graphSize;
      var lists: seq<seq<Edge>> := seq(graphSize, _ => []);
      for index := 0 to |inputData|
        invariant lists == Adjacency(graphSize, inputData[..index])
      {
        assert inputData[..index + 1][..index] == inputData[..index];
        var edge := inputData[index];
        var begin, end := edge.begin, edge.end;
        lists := lists[begin := lists[begin] + [edge]];
        lists := lists[end := lists[end] + [Reversed(edge)]];
      }
      assert inputData[..|inputData|] == inputData;
      data := lists;
      AdjacencyWf(graphSize, inputData);
    }

    /** The length of a shortest walk from `start` to `finish`, or `NoWay`
        when there is none. */
    method ShortestDistance(start: int, finish: int) returns (result: Distance)
      requires Valid() && NonNegative(data)
      requires 0 <= start < size && 0 <= finish < size
      ensures result.NoWay? <==> !Reachable(data, start, finish)
      ensures result.Finite? ==> IsShortest(data, start, finish, result.n)
    {
      ghost var m := MaxLength(data);
      ghost var big := Bound(size, m) + 1;
      var updatedVertices := [start];
      var distance := new Distance[size](_ => NoWay);
      distance[start] := Finite(0);
      SearchingStart(data, start, m, distance[..]);
      PotentialNonNegative(distance[..], big);
      while updatedVertices != []
        invariant Searching(data, start, m, distance[..], updatedVertices, -1, 0)
        invariant Potential(distance[..], big) >= 0
        decreases Potential(distance[..], big), |updatedVertices|
      {
        var vertex := updatedVertices[0];
        SearchingPop(data, start, m, distance[..], updatedVertices);
        updatedVertices := updatedVertices[1..];
        updatedVertices := RelaxEdges(data, start, m, big, distance, vertex, updatedVertices);
        SearchingDone(data, start, m, distance[..], updatedVertices, vertex);
        PotentialNonNegative(distance[..], big);
      }
      result := distance[finish];
      forall w | IsWalk(data, start, w, finish)
        ensures result.Finite? && result.n <= Length(w)
      {
        SearchingMinimal(data, start, m, distance[..], w, finish);
      }
    }
  }
}
