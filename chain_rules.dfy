/** Chain rules `A -> B`: the graph `FindChainRules` builds, the ancestor lists
    its breadth-first searches produce, and the pass `DeleteChainRules`
    (ChomskyNormalForm.cpp:164-214). */
module ChainRules {
  import opened Grammar

  /** Every rule has a non-empty right side (so `IsItChainRule` may read
      `right[0]`) and a left id below `count`. */
  predicate ChainReady(rules: seq<Rule>, count: int) {
    forall r :: r in rules ==> |r.right| >= 1 && 0 <= r.left.id < count
  }

  lemma ChainReadyPrefix(rules: seq<Rule>, count: int, k: int)
    requires ChainReady(rules, count) && 0 <= k <= |rules|
    ensures ChainReady(rules[..k], count)
  {
    forall r | r in rules[..k] ensures |r.right| >= 1 && 0 <= r.left.id < count {
      assert r in rules;
    }
  }

  /** The rule list holds the chain rule `u -> to`. */
  predicate ChainEdge(rules: seq<Rule>, u: int, to: int) {
    exists r :: r in rules && |r.right| >= 1 && IsItChainRule(r) && r.left.id == u && r.right[0].id == to
  }

  /** The adjacency lists `graph` after the first loop of `FindChainRules`:
      one entry `right[0].id` in `graph[left]` per chain rule, in rule order. */
  function ChainGraph(rules: seq<Rule>, count: nat): (g: seq<seq<int>>)
    requires ChainReady(rules, count)
    ensures |g| == count
    decreases |rules|
  {
    if rules == [] then seq(count, _ => [])
    else
      var init := rules[..|rules| - 1];
      var last := rules[|rules| - 1];
      ChainReadyPrefix(rules, count, |rules| - 1);
      var g := ChainGraph(init, count);
      if IsItChainRule(last) then AddEdge(g, last.left.id, last.right[0].id) else g
  }

  /** The adjacency lists with `to` appended to the list of `u`. */
  function AddEdge(g: seq<seq<int>>, u: int, to: int): (g': seq<seq<int>>)
    requires 0 <= u < |g|
    ensures |g'| == |g| && g'[u] == g[u] + [to]
    ensures forall w :: 0 <= w < |g| && w != u ==> g'[w] == g[w]
  {
    g[u := g[u] + [to]]
  }

  lemma ChainGraphStep(rules: seq<Rule>, count: nat, k: int, prev: seq<seq<int>>, out: seq<seq<int>>)
    requires ChainReady(rules, count) && 0 <= k < |rules|
    requires ChainReady(rules[..k], count) && prev == ChainGraph(rules[..k], count)
    requires |rules[k].right| >= 1 && 0 <= rules[k].left.id < count
    requires out == if IsItChainRule(rules[k]) then AddEdge(prev, rules[k].left.id, rules[k].right[0].id) else prev
    ensures ChainReady(rules[..k + 1], count) && out == ChainGraph(rules[..k + 1], count)
  {
    ChainReadyPrefix(rules, count, k + 1);
    assert rules[..k + 1][..k] == rules[..k];
  }

  /** `to` is listed under `u` exactly when `u -> to` is a chain rule. */
  lemma {:induction false} ChainGraphEdges(rules: seq<Rule>, count: nat)
    requires ChainReady(rules, count)
    ensures forall u, to :: 0 <= u < count ==> (to in ChainGraph(rules, count)[u] <==> ChainEdge(rules, u, to))
    decreases |rules|
  {
    if rules != [] {
      var init := rules[..|rules| - 1];
      var last := rules[|rules| - 1];
      ChainReadyPrefix(rules, count, |rules| - 1);
      ChainGraphEdges(init, count);
      assert rules == init + [last];
      forall u, to | 0 <= u < count
        ensures to in ChainGraph(rules, count)[u] <==> ChainEdge(rules, u, to)
      {
        if ChainEdge(rules, u, to) {
          var r :| r in rules && |r.right| >= 1 && IsItChainRule(r) && r.left.id == u && r.right[0].id == to;
          if r in init {
            assert ChainEdge(init, u, to);
          }
        }
        if ChainEdge(init, u, to) {
          var r :| r in init && |r.right| >= 1 && IsItChainRule(r) && r.left.id == u && r.right[0].id == to;
          assert r in rules;
        }
      }
    }
  }

  /** Every vertex `FindChainRules` visits is a valid index. */
  predicate EdgesInRange(g: seq<seq<int>>) {
    forall u, j :: 0 <= u < |g| && 0 <= j < |g[u]| ==> 0 <= g[u][j] < |g|
  }

  lemma ChainGraphInRange(rules: seq<Rule>, count: nat)
    requires ChainReady(rules, count) && WellFormed(rules, count)
    ensures EdgesInRange(ChainGraph(rules, count))
  {
    var g := ChainGraph(rules, count);
    ChainGraphEdges(rules, count);
    forall u, j | 0 <= u < |g| && 0 <= j < |g[u]| ensures 0 <= g[u][j] < |g| {
      assert g[u][j] in g[u];
      var r :| r in rules && |r.right| >= 1 && IsItChainRule(r) && r.left.id == u && r.right[0].id == g[u][j];
      assert ValidRule(r, count) && r.right[0] in r.right;
    }
  }

  /** A walk along the edges of `g`. */
  predicate IsWalk(g: seq<seq<int>>, p: seq<int>) {
    forall i :: 0 <= i < |p| - 1 ==> 0 <= p[i] < |g| && p[i + 1] in g[p[i]]
  }

  /** `v` is reachable from `u` by one or more edges. */
  ghost predicate Reaches(g: seq<seq<int>>, u: int, v: int) {
    exists p :: |p| >= 2 && p[0] == u && p[|p| - 1] == v && IsWalk(g, p)
  }

  /** One more edge extends a reach, or starts one. */
  lemma ReachesExtend(g: seq<seq<int>>, u: int, w: int, to: int)
    requires w == u || Reaches(g, u, w)
    requires 0 <= w < |g| && to in g[w]
    ensures Reaches(g, u, to)
  {
    if w == u {
      var p := [u, to];
      assert IsWalk(g, p);
    } else {
      var p :| |p| >= 2 && p[0] == u && p[|p| - 1] == w && IsWalk(g, p);
      var q := p + [to];
      assert IsWalk(g, q) by {
        forall i | 0 <= i < |q| - 1 ensures 0 <= q[i] < |g| && q[i + 1] in g[q[i]] {
          if i < |p| - 1 {
            assert q[i] == p[i] && q[i + 1] == p[i + 1];
          }
        }
      }
      assert q[0] == u && q[|q| - 1] == to;
    }
  }

  /** A vertex set that holds `u` and is closed under the edges holds
      everything `u` reaches. */
  lemma ClosedContainsReachable(g: seq<seq<int>>, seen: set<int>, u: int, v: int)
    requires u in seen && Reaches(g, u, v)
    requires forall w, to :: w in seen && 0 <= w < |g| && to in g[w] ==> to in seen
    ensures v in seen
  {
    var p :| |p| >= 2 && p[0] == u && p[|p| - 1] == v && IsWalk(g, p);
    var i := 0;
    while i < |p| - 1
      invariant 0 <= i <= |p| - 1 && p[i] in seen
    {
      assert 0 <= p[i] < |g| && p[i + 1] in g[p[i]];
      i := i + 1;
    }
  }

  /** A reach starts with an edge out of its source. */
  lemma ReachesHasFirstEdge(g: seq<seq<int>>, u: int, v: int)
    requires Reaches(g, u, v)
    ensures 0 <= u < |g| && |g[u]| > 0
  {
    var p :| |p| >= 2 && p[0] == u && p[|p| - 1] == v && IsWalk(g, p);
    assert 0 <= p[0] < |g| && p[1] in g[p[0]];
  }

  /** `ancestors[v]` once the searches from vertices `1 .. k - 1` are done:
      the sources `u` below `k` other than `v` itself that reach `v`, in the
      order of the searches. Vertex 0 is never a source. */
  ghost function AncestorsBelow(g: seq<seq<int>>, v: int, k: int): seq<int>
    decreases k
  {
    if k <= 1 then []
    else AncestorsBelow(g, v, k - 1) + (if k - 1 != v && Reaches(g, k - 1, v) then [k - 1] else [])
  }

  /** The ancestor list holds exactly the ids `u` with `1 <= u < k`, `u != v`
      and a chain-rule path from `u` to `v`, so never `0`. */
  lemma {:induction false} AncestorsBelowMembers(g: seq<seq<int>>, v: int, k: int)
    ensures forall u :: u in AncestorsBelow(g, v, k) <==> 1 <= u < k && u != v && Reaches(g, u, v)
    decreases k
  {
    if k > 1 {
      AncestorsBelowMembers(g, v, k - 1);
      var prev := AncestorsBelow(g, v, k - 1);
      var last := if k - 1 != v && Reaches(g, k - 1, v) then [k - 1] else [];
      assert AncestorsBelow(g, v, k) == prev + last;
      forall u ensures u in prev + last <==> 1 <= u < k && u != v && Reaches(g, u, v) {
        assert u in prev + last <==> u in prev || u in last;
      }
    }
  }

  /** The ancestor list is in ascending order, so without repetition. */
  lemma {:induction false} AncestorsBelowSorted(g: seq<seq<int>>, v: int, k: int)
    ensures forall i, j :: 0 <= i < j < |AncestorsBelow(g, v, k)| ==>
      AncestorsBelow(g, v, k)[i] < AncestorsBelow(g, v, k)[j]
    decreases k
  {
    if k > 1 {
      AncestorsBelowSorted(g, v, k - 1);
      AncestorsBelowMembers(g, v, k - 1);
      var prev := AncestorsBelow(g, v, k - 1);
      var cur := AncestorsBelow(g, v, k);
      forall i, j | 0 <= i < j < |cur| ensures cur[i] < cur[j] {
        if j >= |prev| {
          assert cur[j] == k - 1 && cur[i] == prev[i];
          assert prev[i] in prev;
        }
      }
    }
  }

  /** The ancestor list holds exactly the ids `u` with `1 <= u < k`, `u != v`
      and a chain-rule path from `u` to `v`, in ascending order, so without
      repetition and never `0`. */
  lemma AncestorsBelowSpec(g: seq<seq<int>>, v: int, k: int)
    ensures forall u :: u in AncestorsBelow(g, v, k) <==> 1 <= u < k && u != v && Reaches(g, u, v)
    ensures forall i, j :: 0 <= i < j < |AncestorsBelow(g, v, k)| ==>
      AncestorsBelow(g, v, k)[i] < AncestorsBelow(g, v, k)[j]
  {
    AncestorsBelowMembers(g, v, k);
    AncestorsBelowSorted(g, v, k);
  }

  /** What `FindChainRules` returns: the ancestor list of every vertex once
      the searches from `1 .. count - 1` are done. */
  ghost function ChainAncestors(rules: seq<Rule>, count: nat): (ancestors: seq<seq<int>>)
    requires ChainReady(rules, count)
    ensures |ancestors| == count
  {
    seq(count, v requires 0 <= v < count => AncestorsBelow(ChainGraph(rules, count), v, count))
  }

  /** The ancestor list of `v` holds, in ascending order and so without
      repetition, exactly the ids `u` with `1 <= u < count`, `u != v` and a
      path of one or more chain rules from `u` to `v`; the id 0 is never
      listed. */
  lemma ChainAncestorsSpec(rules: seq<Rule>, count: nat, v: int)
    requires ChainReady(rules, count) && 0 <= v < count
    ensures forall u :: u in ChainAncestors(rules, count)[v] <==>
      1 <= u < count && u != v && Reaches(ChainGraph(rules, count), u, v)
    ensures forall i, j :: 0 <= i < j < |ChainAncestors(rules, count)[v]| ==>
      ChainAncestors(rules, count)[v][i] < ChainAncestors(rules, count)[v][j]
    ensures 0 !in ChainAncestors(rules, count)[v]
  {
    AncestorsBelowSpec(ChainGraph(rules, count), v, count);
  }

  /** Every ancestor id is a valid vertex. */
  lemma ChainAncestorsInRange(rules: seq<Rule>, count: nat)
    requires ChainReady(rules, count)
    ensures forall v, a :: 0 <= v < count && a in ChainAncestors(rules, count)[v] ==> 1 <= a < count
  {
    forall v, a | 0 <= v < count && a in ChainAncestors(rules, count)[v] ensures 1 <= a < count {
      ChainAncestorsSpec(rules, count, v);
    }
  }

  /** Every ancestor is the left id of some chain rule. */
  lemma AncestorsAreLeftIds(rules: seq<Rule>, count: nat, v: int, k: int)
    requires ChainReady(rules, count)
    ensures forall u :: u in AncestorsBelow(ChainGraph(rules, count), v, k) ==> u in LeftIds(rules)
  {
    var g := ChainGraph(rules, count);
    AncestorsBelowSpec(g, v, k);
    ChainGraphEdges(rules, count);
    forall u | u in AncestorsBelow(g, v, k) ensures u in LeftIds(rules) {
      ReachesHasFirstEdge(g, u, v);
      var to := g[u][0];
      assert to in g[u];
      var r :| r in rules && |r.right| >= 1 && IsItChainRule(r) && r.left.id == u && r.right[0].id == to;
    }
  }

  /** The state of one search from `vertex` between steps: the ids not in
      `unseen` are the used ones, `vertex` and the queue among them; each used
      id other than `vertex` is reachable from it and carries `vertex` as its
      new last ancestor; the successors of every used id that has left the
      queue are used, except those of `busy`, the id whose successors are
      being visited (-1 when there is none). */
  ghost predicate Searching(graph: seq<seq<int>>, vertex: int, ancestors: seq<seq<int>>,
                            unseen: set<int>, queue: seq<int>, result: seq<seq<int>>, busy: int)
  {
    && vertex !in unseen
    && QueueUsed(graph, unseen, queue)
    && UsedReached(graph, vertex, unseen)
    && QueueClosed(graph, unseen, queue, busy)
    && Marked(graph, vertex, ancestors, unseen, result)
  }

  /** The queued ids are used vertices. */
  ghost predicate QueueUsed(graph: seq<seq<int>>, unseen: set<int>, queue: seq<int>) {
    forall i :: 0 <= i < |queue| ==> 0 <= queue[i] < |graph| && queue[i] !in unseen
  }

  /** Every used id other than `vertex` is reachable from it. */
  ghost predicate UsedReached(graph: seq<seq<int>>, vertex: int, unseen: set<int>) {
    forall w :: 0 <= w < |graph| && w !in unseen && w != vertex ==> Reaches(graph, vertex, w)
  }

  /** The successors of every used id that is neither busy nor queued are used. */
  ghost predicate QueueClosed(graph: seq<seq<int>>, unseen: set<int>, queue: seq<int>, busy: int) {
    forall w, to :: 0 <= w < |graph| && w !in unseen && w != busy && w !in queue && to in graph[w] ==> to !in unseen
  }

  /** Exactly the used ids other than `vertex` carry `vertex` as their new last ancestor. */
  ghost predicate Marked(graph: seq<seq<int>>, vertex: int, ancestors: seq<seq<int>>, unseen: set<int>, result: seq<seq<int>>) {
    && |result| == |graph| == |ancestors|
    && (forall w :: 0 <= w < |graph| ==>
          result[w] == ancestors[w] + (if w !in unseen && w != vertex then [vertex] else []))
  }

  /** An id that is neither the head nor in the tail is not in the queue. */
  lemma NotInTail(queue: seq<int>, w: int)
    requires queue != [] && w != queue[0] && w !in queue[1..]
    ensures w !in queue
  {
    assert queue == [queue[0]] + queue[1..];
  }

  /** Taking the head of the queue makes it the busy id. */
  lemma SearchingPop(graph: seq<seq<int>>, vertex: int, ancestors: seq<seq<int>>,
                     unseen: set<int>, queue: seq<int>, result: seq<seq<int>>)
    requires Searching(graph, vertex, ancestors, unseen, queue, result, -1) && queue != []
    ensures queue[0] !in unseen && 0 <= queue[0] < |graph|
    ensures Searching(graph, vertex, ancestors, unseen, queue[1..], result, queue[0])
  {
    var rest := queue[1..];
    assert QueueUsed(graph, unseen, rest) by {
      forall i | 0 <= i < |rest| ensures 0 <= rest[i] < |graph| && rest[i] !in unseen {
        assert rest[i] == queue[i + 1];
      }
    }
    assert QueueClosed(graph, unseen, rest, queue[0]) by {
      forall w, to | 0 <= w < |graph| && w !in unseen && w != queue[0] && w !in rest && to in graph[w]
        ensures to !in unseen
      {
        NotInTail(queue, w);
      }
    }
  }

  lemma VisitQueueUsed(graph: seq<seq<int>>, unseen: set<int>, queue: seq<int>, to: int)
    requires QueueUsed(graph, unseen, queue) && 0 <= to < |graph|
    ensures QueueUsed(graph, unseen - {to}, queue + [to])
  {
    var unseen', queue' := unseen - {to}, queue + [to];
    forall i | 0 <= i < |queue'| ensures 0 <= queue'[i] < |graph| && queue'[i] !in unseen' {
      if i < |queue| {
        assert queue'[i] == queue[i];
      }
    }
  }

  lemma VisitReached(graph: seq<seq<int>>, vertex: int, unseen: set<int>, busy: int, to: int)
    requires UsedReached(graph, vertex, unseen) && 0 <= busy < |graph| && busy !in unseen && to in graph[busy]
    ensures UsedReached(graph, vertex, unseen - {to})
  {
    ReachesExtend(graph, vertex, busy, to);
  }

  lemma VisitQueueClosed(graph: seq<seq<int>>, unseen: set<int>, queue: seq<int>, busy: int, to: int)
    requires QueueClosed(graph, unseen, queue, busy) && to in unseen
    ensures QueueClosed(graph, unseen - {to}, queue + [to], busy)
  {
    var unseen', queue' := unseen - {to}, queue + [to];
    forall w, to' | 0 <= w < |graph| && w !in unseen' && w != busy && w !in queue' && to' in graph[w]
      ensures to' !in unseen'
    {
      assert w != to && w !in unseen && w !in queue;
    }
  }

  lemma VisitMarked(graph: seq<seq<int>>, vertex: int, ancestors: seq<seq<int>>, unseen: set<int>,
                    result: seq<seq<int>>, to: int)
    requires Marked(graph, vertex, ancestors, unseen, result) && vertex !in unseen && 0 <= to < |graph| && to in unseen
    ensures Marked(graph, vertex, ancestors, unseen - {to}, result[to := result[to] + [vertex]])
  {
    var unseen', result' := unseen - {to}, result[to := result[to] + [vertex]];
    forall w | 0 <= w < |graph|
      ensures result'[w] == ancestors[w] + (if w !in unseen' && w != vertex then [vertex] else [])
    {
      if w == to {
        assert w in unseen && w != vertex;
      }
    }
  }

  /** Marking an unused successor `to` of the busy id used, queueing it and
      giving it `vertex` as an ancestor keeps the state. */
  lemma SearchingVisit(graph: seq<seq<int>>, vertex: int, ancestors: seq<seq<int>>,
                       unseen: set<int>, queue: seq<int>, result: seq<seq<int>>, busy: int, to: int)
    requires Searching(graph, vertex, ancestors, unseen, queue, result, busy)
    requires EdgesInRange(graph) && 0 <= busy < |graph| && busy !in unseen
    requires to in graph[busy] && to in unseen
    ensures Searching(graph, vertex, ancestors, unseen - {to}, queue + [to],
                      result[to := result[to] + [vertex]], busy)
  {
    assert 0 <= to < |graph|;
    VisitQueueUsed(graph, unseen, queue, to);
    VisitReached(graph, vertex, unseen, busy, to);
    VisitQueueClosed(graph, unseen, queue, busy, to);
    VisitMarked(graph, vertex, ancestors, unseen, result, to);
  }

  /** Once all successors of the busy id are used, no id is busy. */
  lemma SearchingDone(graph: seq<seq<int>>, vertex: int, ancestors: seq<seq<int>>,
                      unseen: set<int>, queue: seq<int>, result: seq<seq<int>>, busy: int)
    requires Searching(graph, vertex, ancestors, unseen, queue, result, busy)
    requires 0 <= busy < |graph| && forall j :: 0 <= j < |graph[busy]| ==> graph[busy][j] !in unseen
    ensures Searching(graph, vertex, ancestors, unseen, queue, result, -1)
  {
    forall to | to in graph[busy] ensures to !in unseen {
      var j :| 0 <= j < |graph[busy]| && graph[busy][j] == to;
    }
  }

  /** One round of the inner loop of a search (ChomskyNormalForm.cpp:186-191):
      the successor `to` of `root`, if unused, is marked used, queued and
      given `vertex` as its last ancestor; either way it leaves `unseen`. */
  method Visit(graph: seq<seq<int>>, vertex: int, ancestors: seq<seq<int>>, used: array<bool>,
               root: int, to: int, bfs: seq<int>, result: seq<seq<int>>, ghost unseen: set<int>)
    returns (bfs': seq<int>, result': seq<seq<int>>, ghost unseen': set<int>)
    requires EdgesInRange(graph) && used.Length == |graph| && 0 <= root < |graph| && root !in unseen
    requires to in graph[root]
    requires forall w :: 0 <= w < |graph| ==> (used[w] <==> w !in unseen)
    requires Searching(graph, vertex, ancestors, unseen, bfs, result, root)
    modifies used
    ensures forall w :: 0 <= w < |graph| ==> (used[w] <==> w !in unseen')
    ensures Searching(graph, vertex, ancestors, unseen', bfs', result', root)
    ensures unseen' == unseen - {to} && (unseen' == unseen ==> bfs' == bfs)
  {
    bfs', result', unseen' := bfs, result, unseen;
    assert 0 <= to < |graph|;
    if !used[to] {
      SearchingVisit(graph, vertex, ancestors, unseen, bfs, result, root, to);
      used[to] := true;
      bfs' := bfs + [to];
      result' := result[to := result[to] + [vertex]];
      unseen' := unseen - {to};
    }
  }

  /** The inner loop of one search (ChomskyNormalForm.cpp:184-190): every
      unused successor of `root` is marked used, queued and given `vertex` as
      its last ancestor. */
  method VisitSuccessors(graph: seq<seq<int>>, vertex: int, ancestors: seq<seq<int>>, used: array<bool>,
                         root: int, bfs: seq<int>, result: seq<seq<int>>, ghost unseen: set<int>)
    returns (bfs': seq<int>, result': seq<seq<int>>, ghost unseen': set<int>)
    requires EdgesInRange(graph) && used.Length == |graph| && 0 <= root < |graph| && root !in unseen
    requires forall w :: 0 <= w < |graph| ==> (used[w] <==> w !in unseen)
    requires Searching(graph, vertex, ancestors, unseen, bfs, result, root)
    modifies used
    ensures forall w :: 0 <= w < |graph| ==> (used[w] <==> w !in unseen')
    ensures Searching(graph, vertex, ancestors, unseen', bfs', result', -1)
    ensures unseen' <= unseen && (unseen' == unseen ==> bfs' == bfs)
  {
    bfs', result', unseen' := bfs, result, unseen;
    for index := 0 to |graph[root]|
      invariant forall w :: 0 <= w < |graph| ==> (used[w] <==> w !in unseen')
      invariant unseen' <= unseen && (unseen' == unseen ==> bfs' == bfs)
      invariant Searching(graph, vertex, ancestors, unseen', bfs', result', root)
      invariant unseen' == unseen - set x | x in graph[root][..index]
    {
      bfs', result', unseen' := Visit(graph, vertex, ancestors, used, root, graph[root][index], bfs', result', unseen');
      assert graph[root][..index + 1] == graph[root][..index] + [graph[root][index]];
    }
    assert graph[root][..|graph[root]|] == graph[root];
    SearchingDone(graph, vertex, ancestors, unseen', bfs', result', root);
  }

  /** The vertices `0 .. n - 1`. */
  ghost function Vertices(n: int): (s: set<int>)
    ensures forall w :: w in s <==> 0 <= w < n
    decreases n
  {
    if n <= 0 then {} else Vertices(n - 1) + {n - 1}
  }

  /** One breadth-first search of `FindChainRules` (ChomskyNormalForm.cpp:178-193):
      starting with `vertex` marked used, it walks the chain graph and
      appends `vertex` to the ancestor list of every vertex it reaches for
      the first time, so exactly the vertices other than `vertex` that
      `vertex` reaches gain it as their last ancestor. */
  method SearchFrom(graph: seq<seq<int>>, vertex: int, ancestors: seq<seq<int>>) returns (result: seq<seq<int>>)
    requires EdgesInRange(graph) && 0 <= vertex < |graph| && |ancestors| == |graph|
    ensures |result| == |graph|
    ensures forall w :: 0 <= w < |graph| ==>
      result[w] == ancestors[w] + (if w != vertex && Reaches(graph, vertex, w) then [vertex] else [])
  {
    var n := |graph|;
    var used := new bool[n](_ => false);
    var bfs := [vertex];
    used[vertex] := true;
    result := ancestors;
    ghost var unseen := Vertices(n) - {vertex};
    while bfs != []
      invariant forall w :: 0 <= w < n ==> (used[w] <==> w !in unseen)
      invariant Searching(graph, vertex, ancestors, unseen, bfs, result, -1)
      decreases unseen, |bfs|
    {
      var root := bfs[0];
      SearchingPop(graph, vertex, ancestors, unseen, bfs, result);
      bfs, result, unseen := VisitSuccessors(graph, vertex, ancestors, used, root, bfs[1..], result, unseen);
    }
    ghost var seen := set w | 0 <= w < n && w !in unseen;
    forall w, to | w in seen && 0 <= w < n && to in graph[w] ensures to in seen {
      var j :| 0 <= j < |graph[w]| && graph[w][j] == to;
    }
    forall w | 0 <= w < n && w != vertex && Reaches(graph, vertex, w) ensures w !in unseen {
      ClosedContainsReachable(graph, seen, vertex, w);
    }
  }

  /** A copy of the non-chain rule `r` under a new left side `from`. */
  function Copy(r: Rule, from: int): (r': Rule)
    ensures r'.left == Symbol(from, false) && r'.right == r.right
  {
    Rule(Symbol(from, false), r.right)
  }

  /** What the pass emits for one rule: nothing for a chain rule, otherwise
      the rule and then one copy per ancestor of its left side. */
  function ChainImage(r: Rule, ancestors: seq<seq<int>>): seq<Rule>
    requires |r.right| >= 1 && 0 <= r.left.id < |ancestors|
  {
    if IsItChainRule(r) then []
    else
      var froms := ancestors[r.left.id];
      [r] + seq(|froms|, i requires 0 <= i < |froms| => Copy(r, froms[i]))
  }

  /** `r'` is one of the rules the pass emits for `r`. */
  predicate Carries(r: Rule, r': Rule, ancestors: seq<seq<int>>)
    requires |r.right| >= 1 && 0 <= r.left.id < |ancestors|
  {
    && !IsItChainRule(r)
    && (r' == r || (r'.left == Symbol(r'.left.id, false) && r'.left.id in ancestors[r.left.id] && r'.right == r.right))
  }

  lemma ChainImageMembers(r: Rule, ancestors: seq<seq<int>>)
    requires |r.right| >= 1 && 0 <= r.left.id < |ancestors|
    ensures forall r' :: r' in ChainImage(r, ancestors) <==> Carries(r, r', ancestors)
  {
    if !IsItChainRule(r) {
      var froms := ancestors[r.left.id];
      var out := ChainImage(r, ancestors);
      forall r' | Carries(r, r', ancestors) ensures r' in out {
        if r' != r {
          var i :| 0 <= i < |froms| && froms[i] == r'.left.id;
          assert out[i + 1] == r';
        }
      }
    }
  }

  /** `DeleteChainRules` on `rules` with the ancestor lists `ancestors`. */
  function ChainRulesDeleted(rules: seq<Rule>, ancestors: seq<seq<int>>): seq<Rule>
    requires ChainReady(rules, |ancestors|)
    decreases |rules|
  {
    if rules == [] then []
    else
      ChainReadyPrefix(rules, |ancestors|, |rules| - 1);
      ChainRulesDeleted(rules[..|rules| - 1], ancestors) + ChainImage(rules[|rules| - 1], ancestors)
  }

  lemma ChainRulesDeletedStep(rules: seq<Rule>, ancestors: seq<seq<int>>, k: int, prev: seq<Rule>, out: seq<Rule>)
    requires ChainReady(rules, |ancestors|) && 0 <= k < |rules|
    requires ChainReady(rules[..k], |ancestors|) && prev == ChainRulesDeleted(rules[..k], ancestors)
    requires |rules[k].right| >= 1 && 0 <= rules[k].left.id < |ancestors|
    requires out == prev + ChainImage(rules[k], ancestors)
    ensures ChainReady(rules[..k + 1], |ancestors|) && out == ChainRulesDeleted(rules[..k + 1], ancestors)
  {
    ChainReadyPrefix(rules, |ancestors|, k + 1);
    assert rules[..k + 1][..k] == rules[..k];
  }

  /** The output holds exactly the non-chain input rules and their copies
      under the ancestors of their left sides. */
  lemma {:induction false} ChainRulesDeletedMembers(rules: seq<Rule>, ancestors: seq<seq<int>>)
    requires ChainReady(rules, |ancestors|)
    ensures forall r' :: r' in ChainRulesDeleted(rules, ancestors) <==>
      exists r :: r in rules && Carries(r, r', ancestors)
    decreases |rules|
  {
    if rules != [] {
      var init := rules[..|rules| - 1];
      var last := rules[|rules| - 1];
      ChainReadyPrefix(rules, |ancestors|, |rules| - 1);
      ChainRulesDeletedMembers(init, ancestors);
      ChainImageMembers(last, ancestors);
      assert rules == init + [last];
      forall r' ensures r' in ChainRulesDeleted(rules, ancestors) <==>
        exists r :: r in rules && Carries(r, r', ancestors)
      {
        if r' in ChainRulesDeleted(rules, ancestors) {
          if r' in ChainRulesDeleted(init, ancestors) {
            var r :| r in init && Carries(r, r', ancestors);
            assert r in rules;
          } else {
            assert last in rules && Carries(last, r', ancestors);
          }
        }
        if exists r :: r in rules && Carries(r, r', ancestors) {
          var r :| r in rules && Carries(r, r', ancestors);
          if r in init {
            assert r' in ChainRulesDeleted(init, ancestors);
          } else {
            assert r' in ChainImage(last, ancestors);
          }
        }
      }
    }
  }

  /** No chain rule is left; every non-chain rule is kept, and so is its copy
      under each ancestor of its left side. */
  lemma ChainRulesDeletedShape(rules: seq<Rule>, ancestors: seq<seq<int>>)
    requires ChainReady(rules, |ancestors|)
    ensures forall r' :: r' in ChainRulesDeleted(rules, ancestors) ==> |r'.right| >= 1 && !IsItChainRule(r')
    ensures forall r :: r in rules && !IsItChainRule(r) ==> r in ChainRulesDeleted(rules, ancestors)
    ensures forall r, a :: r in rules && !IsItChainRule(r) && a in ancestors[r.left.id] ==>
      Copy(r, a) in ChainRulesDeleted(rules, ancestors)
  {
    ChainRulesDeletedMembers(rules, ancestors);
    forall r' | r' in ChainRulesDeleted(rules, ancestors) ensures |r'.right| >= 1 && !IsItChainRule(r') {
      var r :| r in rules && Carries(r, r', ancestors);
    }
    forall r | r in rules && !IsItChainRule(r) ensures r in ChainRulesDeleted(rules, ancestors) {
      assert Carries(r, r, ancestors);
    }
    forall r, a | r in rules && !IsItChainRule(r) && a in ancestors[r.left.id]
      ensures Copy(r, a) in ChainRulesDeleted(rules, ancestors)
    {
      assert Carries(r, Copy(r, a), ancestors);
    }
  }

  /** Right sides are copied, so their sizes carry over. */
  lemma ChainRulesDeletedShort(rules: seq<Rule>, ancestors: seq<seq<int>>)
    requires ChainReady(rules, |ancestors|) && ShortNonEmpty(rules)
    ensures ShortNonEmpty(ChainRulesDeleted(rules, ancestors))
  {
    ChainRulesDeletedMembers(rules, ancestors);
    forall r' | r' in ChainRulesDeleted(rules, ancestors) ensures 1 <= |r'.right| <= 2 {
      var r :| r in rules && Carries(r, r', ancestors);
    }
  }

  /** With ancestor ids in range the pass keeps ids in range; every left id
      of the output is an input left id or an ancestor id. */
  lemma ChainRulesDeletedWellFormed(rules: seq<Rule>, ancestors: seq<seq<int>>, count: int)
    requires ChainReady(rules, |ancestors|) && WellFormed(rules, count)
    requires forall v, a :: 0 <= v < |ancestors| && a in ancestors[v] ==> 0 <= a < count
    ensures WellFormed(ChainRulesDeleted(rules, ancestors), count)
    ensures forall r' :: r' in ChainRulesDeleted(rules, ancestors) ==>
      r'.left.id in LeftIds(rules) || exists v :: 0 <= v < |ancestors| && r'.left.id in ancestors[v]
  {
    ChainRulesDeletedMembers(rules, ancestors);
    forall r' | r' in ChainRulesDeleted(rules, ancestors)
      ensures ValidRule(r', count)
      ensures r'.left.id in LeftIds(rules) || exists v :: 0 <= v < |ancestors| && r'.left.id in ancestors[v]
    {
      var r :| r in rules && Carries(r, r', ancestors);
      assert ValidRule(r, count);
    }
  }

  /** With the lists of `FindChainRules`, every left id of the output is a
      left id of the input: the copies go to ancestors, which are left sides
      of chain rules. */
  lemma ChainRulesDeletedLeftIds(rules: seq<Rule>, count: nat)
    requires ChainReady(rules, count) && WellFormed(rules, count)
    ensures WellFormed(ChainRulesDeleted(rules, ChainAncestors(rules, count)), count)
    ensures forall r' :: r' in ChainRulesDeleted(rules, ChainAncestors(rules, count)) ==> r'.left.id in LeftIds(rules)
  {
    var ancestors := ChainAncestors(rules, count);
    ChainAncestorsInRange(rules, count);
    ChainRulesDeletedWellFormed(rules, ancestors, count);
    forall r' | r' in ChainRulesDeleted(rules, ancestors) ensures r'.left.id in LeftIds(rules) {
      if r'.left.id !in LeftIds(rules) {
        var v :| 0 <= v < |ancestors| && r'.left.id in ancestors[v];
        AncestorsAreLeftIds(rules, count, v, count);
      }
    }
  }
}
