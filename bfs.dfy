/**
 * Breadth-first search over a name-keyed adjacency map, and the reachability
 * notions it is proved against.
 */
module Bfs {

  /** An adjacency map: each name to the names it has edges to, in order. */
  type Graph = map<string, seq<string>>

  /** `graph.get(node, [])`: the out-neighbours of a name, none when it is not a key. */
  function Succ(g: Graph, x: string): seq<string>
  {
    if x in g then g[x] else []
  }

  /** `k` can be reached from `start` along at most `n` edges of `g`. */
  ghost predicate WithinHops(g: Graph, start: string, k: string, n: nat)
    decreases n
  {
    k == start || (n > 0 && exists x :: WithinHops(g, start, x, n - 1) && k in Succ(g, x))
  }

  /** `k` can be reached from `start` along edges of `g`. */
  ghost predicate Reachable(g: Graph, start: string, k: string)
  {
    exists n: nat :: WithinHops(g, start, k, n)
  }

  /** The fewest edges on a path from `start` to `k` is exactly `n`. */
  ghost predicate ShortestHops(g: Graph, start: string, k: string, n: nat)
  {
    WithinHops(g, start, k, n) && (n > 0 ==> !WithinHops(g, start, k, n - 1))
  }

  /** `start` and every name that occurs as an out-neighbour: where the search can go. */
  ghost function Nodes(g: Graph, start: string): set<string>
  {
    {start} + set x, m | x in g && m in g[x] :: m
  }

  predicate NoDuplicates(s: seq<string>)
  {
    forall i, j :: 0 <= i < j < |s| ==> s[i] != s[j]
  }

  lemma {:induction false} WithinMonotone(g: Graph, start: string, k: string, i: nat, j: nat)
    requires i <= j && WithinHops(g, start, k, i)
    ensures WithinHops(g, start, k, j)
    decreases i
  {
    if k != start {
      var x :| WithinHops(g, start, x, i - 1) && k in Succ(g, x);
      WithinMonotone(g, start, x, i - 1, j - 1);
    }
  }

  lemma HopsAtMost(g: Graph, start: string, k: string, n: nat, m: nat)
    requires ShortestHops(g, start, k, n) && WithinHops(g, start, k, m)
    ensures n <= m
  {
    if n > m {
      WithinMonotone(g, start, k, m, n - 1);
    }
  }

  /** A name has at most one shortest hop count. */
  lemma ShortestUnique(g: Graph, start: string, k: string, a: nat, b: nat)
    requires ShortestHops(g, start, k, a) && ShortestHops(g, start, k, b)
    ensures a == b
  {
    HopsAtMost(g, start, k, a, b);
    HopsAtMost(g, start, k, b, a);
  }

  /** One edge or none: `start` itself and its own out-neighbours. */
  lemma WithinOne(g: Graph, start: string, k: string)
    ensures WithinHops(g, start, k, 1) <==> k == start || k in Succ(g, start)
  {
    if k in Succ(g, start) {
      assert WithinHops(g, start, start, 0);
    }
  }

  /**
   * If every name whose search is not yet finished lies at least `n` hops
   * from `start`, then every name within `n` hops has been discovered.
   */
  lemma {:induction false} DiscoveredWithin(g: Graph, start: string, dist: map<string, nat>,
                                            order: seq<string>, done: nat, n: nat, k: nat, y: string)
    requires start in dist
    requires forall x :: x in dist ==> ShortestHops(g, start, x, dist[x])
    requires forall x :: x in order <==> x in dist
    requires done <= |order|
    requires forall i, m :: 0 <= i < done && m in Succ(g, order[i]) ==> m in dist
    requires forall i :: done <= i < |order| ==> dist[order[i]] >= n
    requires k <= n && WithinHops(g, start, y, k)
    ensures y in dist
    decreases k
  {
    if y != start {
      var x :| WithinHops(g, start, x, k - 1) && y in Succ(g, x);
      DiscoveredWithin(g, start, dist, order, done, n, k - 1, x);
      HopsAtMost(g, start, x, dist[x], k - 1);
      var i :| 0 <= i < |order| && order[i] == x;
      assert i < done;
    }
  }

  /** Every discovered name is a node and carries its shortest hop count; `start` is at 0. */
  ghost predicate Settled(g: Graph, start: string, dist: map<string, nat>)
  {
    && start in dist && dist[start] == 0
    && dist.Keys <= Nodes(g, start)
    && (forall k :: k in dist ==> ShortestHops(g, start, k, dist[k]))
  }

  /**
   * The log `enqueued` of every name ever queued: no name twice, exactly the
   * discovered names, and from position `done` on it is the queue, whose
   * distances ascend and lie between `level` and `level + 1`.
   */
  ghost predicate Queued(dist: map<string, nat>, queue: seq<(string, nat)>, enqueued: seq<string>,
                         done: nat, level: nat)
  {
    && NoDuplicates(enqueued) && (forall k :: k in enqueued <==> k in dist)
    && |enqueued| == done + |queue|
    && (forall i :: 0 <= i < |queue| ==> queue[i].0 == enqueued[done + i] && dist[queue[i].0] == queue[i].1)
    && (forall i :: 0 <= i < |queue| ==> level <= queue[i].1 <= level + 1)
    && (forall i, j :: 0 <= i < j < |queue| ==> queue[i].1 <= queue[j].1)
  }

  /** Every out-neighbour of the first `n` logged names has been discovered. */
  ghost predicate Closed(g: Graph, dist: map<string, nat>, enqueued: seq<string>, n: nat)
  {
    n <= |enqueued| && forall i, m :: 0 <= i < n && m in Succ(g, enqueued[i]) ==> m in dist
  }

  /**
   * What holds each time the outer loop of the search tests its condition:
   * the first `done` logged names have been taken off the queue and expanded.
   */
  ghost predicate Searching(g: Graph, start: string, dist: map<string, nat>, queue: seq<(string, nat)>,
                            enqueued: seq<string>, done: nat, level: nat)
  {
    Settled(g, start, dist) && Queued(dist, queue, enqueued, done, level) && Closed(g, dist, enqueued, done)
  }

  /**
   * What holds in the inner loop while the out-neighbours `succ` of `node`,
   * found at distance `d`, are visited; the first `j` of them have been.
   */
  ghost predicate Expanding(g: Graph, start: string, dist: map<string, nat>, queue: seq<(string, nat)>,
                            enqueued: seq<string>, done: nat, node: string, d: nat, succ: seq<string>, j: nat)
  {
    && Settled(g, start, dist)
    && (forall y :: WithinHops(g, start, y, d) ==> y in dist)
    && 0 < done <= |enqueued| && node == enqueued[done - 1] && node in dist && dist[node] == d
    && Queued(dist, queue, enqueued, done, d)
    && Closed(g, dist, enqueued, done - 1)
    && succ == Succ(g, node) && j <= |succ|
    && (forall i :: 0 <= i < j ==> succ[i] in dist)
  }

  /**
   * How the inner loop has changed the search state so far: the names found
   * before stay at their distances, the names added are among `found` at
   * distance `d + 1`, and the queue has only grown at its back with them.
   */
  ghost predicate Grown(dist0: map<string, nat>, queue0: seq<(string, nat)>, dist: map<string, nat>,
                        queue: seq<(string, nat)>, d: nat, found: seq<string>)
  {
    && (forall k :: k in dist0 ==> k in dist && dist[k] == dist0[k])
    && (forall k :: k in dist && k !in dist0 ==> k in found && dist[k] == d + 1)
    && |queue0| <= |queue| && queue[..|queue0|] == queue0
    && (forall i :: |queue0| <= i < |queue| ==> queue[i].1 == d + 1 && queue[i].0 !in dist0)
  }

  /** Visiting `succ[j]` grows the state only by it, and only when it was new. */
  lemma Grow(dist0: map<string, nat>, queue0: seq<(string, nat)>, dist: map<string, nat>,
             queue: seq<(string, nat)>, d: nat, succ: seq<string>, j: nat, m: string)
    requires j < |succ| && m == succ[j]
    requires Grown(dist0, queue0, dist, queue, d, succ[..j])
    ensures m in dist ==> Grown(dist0, queue0, dist, queue, d, succ[..j + 1])
    ensures m !in dist ==> Grown(dist0, queue0, dist[m := d + 1], queue + [(m, d + 1)], d, succ[..j + 1])
  {
    assert succ[..j + 1] == succ[..j] + [m];
    if m !in dist {
      var q := queue + [(m, d + 1)];
      assert q[..|queue0|] == queue[..|queue0|];
    }
  }

  lemma SearchStarts(g: Graph, start: string)
    ensures Searching(g, start, map[start := 0], [(start, 0)], [start], 0, 0)
  {
    assert WithinHops(g, start, start, 0);
  }

  /** Taking the head `(node, d)` off the queue: everything within `d` hops is already discovered. */
  lemma Pop(g: Graph, start: string, dist: map<string, nat>, queue: seq<(string, nat)>,
            enqueued: seq<string>, done: nat, level: nat, node: string, d: nat, rest: seq<(string, nat)>)
    requires Searching(g, start, dist, queue, enqueued, done, level)
    requires |queue| > 0 && queue[0] == (node, d) && rest == queue[1..]
    ensures Expanding(g, start, dist, rest, enqueued, done + 1, node, d, Succ(g, node), 0)
  {
    forall i | done <= i < |enqueued| ensures dist[enqueued[i]] >= d {
      assert enqueued[i] == queue[i - done].0;
    }
    forall y | WithinHops(g, start, y, d) ensures y in dist {
      DiscoveredWithin(g, start, dist, enqueued, done, d, d, y);
    }
    forall i | 0 <= i < |rest| ensures rest[i].0 == enqueued[done + 1 + i] && dist[rest[i].0] == rest[i].1 {
      assert rest[i] == queue[i + 1];
    }
    assert Queued(dist, rest, enqueued, done + 1, d);
  }

  /** A name first seen as an out-neighbour of `node` lies one hop further than `node`. */
  lemma NewNameHops(g: Graph, start: string, dist: map<string, nat>, node: string, d: nat, m: string)
    requires ShortestHops(g, start, node, d) && m in Succ(g, node)
    requires (forall y :: WithinHops(g, start, y, d) ==> y in dist) && m !in dist
    ensures ShortestHops(g, start, m, d + 1)
  {
  }

  lemma SettledAfterInsert(g: Graph, start: string, dist: map<string, nat>, node: string, d: nat, m: string)
    requires Settled(g, start, dist) && node in dist && dist[node] == d
    requires (forall y :: WithinHops(g, start, y, d) ==> y in dist)
    requires m in Succ(g, node) && m !in dist
    ensures Settled(g, start, dist[m := d + 1])
  {
    NewNameHops(g, start, dist, node, d, m);
    var dist' := dist[m := d + 1];
    forall k | k in dist' ensures ShortestHops(g, start, k, dist'[k]) {
      if k != m {
        assert dist'[k] == dist[k];
      }
    }
    assert m in Nodes(g, start);
  }

  lemma QueuedAfterInsert(dist: map<string, nat>, queue: seq<(string, nat)>, enqueued: seq<string>,
                          done: nat, d: nat, m: string)
    requires Queued(dist, queue, enqueued, done, d) && m !in dist
    ensures Queued(dist[m := d + 1], queue + [(m, d + 1)], enqueued + [m], done, d)
  {
    var dist', queue', enqueued' := dist[m := d + 1], queue + [(m, d + 1)], enqueued + [m];
    forall i | 0 <= i < |queue'| ensures queue'[i].0 == enqueued'[done + i] && dist'[queue'[i].0] == queue'[i].1 {
      if i < |queue| {
        assert queue'[i] == queue[i] && enqueued'[done + i] == enqueued[done + i];
        assert queue[i].0 in enqueued;
      }
    }
    assert NoDuplicates(enqueued') by {
      forall i, j | 0 <= i < j < |enqueued'| ensures enqueued'[i] != enqueued'[j] {
        if j == |enqueued| {
          assert enqueued[i] in enqueued;
        }
      }
    }
  }

  lemma ClosedAfterInsert(g: Graph, dist: map<string, nat>, enqueued: seq<string>, n: nat, m: string, k: nat)
    requires Closed(g, dist, enqueued, n)
    ensures Closed(g, dist[m := k], enqueued + [m], n)
  {
    var enqueued' := enqueued + [m];
    forall i, m' | 0 <= i < n && m' in Succ(g, enqueued'[i]) ensures m' in dist[m := k] {
      assert enqueued'[i] == enqueued[i];
    }
  }

  /** Visiting a new out-neighbour `m`: it is exactly one hop further than `node`. */
  lemma VisitNew(g: Graph, start: string, dist: map<string, nat>, queue: seq<(string, nat)>,
                 enqueued: seq<string>, done: nat, node: string, d: nat, succ: seq<string>, j: nat, m: string)
    requires Expanding(g, start, dist, queue, enqueued, done, node, d, succ, j)
    requires j < |succ| && m == succ[j] && m !in dist
    ensures Expanding(g, start, dist[m := d + 1], queue + [(m, d + 1)], enqueued + [m], done, node, d, succ, j + 1)
  {
    SettledAfterInsert(g, start, dist, node, d, m);
    QueuedAfterInsert(dist, queue, enqueued, done, d, m);
    ClosedAfterInsert(g, dist, enqueued, done - 1, m, d + 1);
    assert (enqueued + [m])[done - 1] == node;
  }

  /**
   * Visiting out-neighbour `m`: one already in `dist` changes nothing;
   * a new one is exactly one hop further than `node`.
   */
  lemma Visit(g: Graph, start: string, dist: map<string, nat>, queue: seq<(string, nat)>,
              enqueued: seq<string>, done: nat, node: string, d: nat, succ: seq<string>, j: nat, m: string)
    requires Expanding(g, start, dist, queue, enqueued, done, node, d, succ, j)
    requires j < |succ| && m == succ[j]
    ensures m in dist ==> Expanding(g, start, dist, queue, enqueued, done, node, d, succ, j + 1)
    ensures m !in dist ==>
      Expanding(g, start, dist[m := d + 1], queue + [(m, d + 1)], enqueued + [m], done, node, d, succ, j + 1)
  {
    if m !in dist {
      VisitNew(g, start, dist, queue, enqueued, done, node, d, succ, j, m);
    }
  }

  /** Once every out-neighbour of `node` is visited, `node` counts as expanded. */
  lemma Finish(g: Graph, start: string, dist: map<string, nat>, queue: seq<(string, nat)>,
               enqueued: seq<string>, done: nat, node: string, d: nat, succ: seq<string>)
    requires Expanding(g, start, dist, queue, enqueued, done, node, d, succ, |succ|)
    ensures Searching(g, start, dist, queue, enqueued, done, d)
  {
    forall i, m | 0 <= i < done && m in Succ(g, enqueued[i]) ensures m in dist {
      if i == done - 1 {
        var k :| 0 <= k < |succ| && succ[k] == m;
      }
    }
  }

  /** With the queue empty the discovered names are exactly the reachable ones. */
  lemma Exhausted(g: Graph, start: string, dist: map<string, nat>, enqueued: seq<string>, done: nat, level: nat)
    requires Searching(g, start, dist, [], enqueued, done, level)
    ensures forall k :: k in dist <==> Reachable(g, start, k)
  {
    forall k | Reachable(g, start, k) ensures k in dist {
      var n: nat :| WithinHops(g, start, k, n);
      DiscoveredWithin(g, start, dist, enqueued, done, n, n, k);
    }
  }

  /** A discovered name other than `start` is one edge from a name one hop nearer. */
  lemma Predecessor(g: Graph, start: string, dist: map<string, nat>, enqueued: seq<string>,
                    done: nat, level: nat, k: string)
    requires Searching(g, start, dist, [], enqueued, done, level)
    requires k in dist && k != start
    ensures exists p :: p in dist && dist[p] + 1 == dist[k] && k in Succ(g, p)
  {
    var n := dist[k];
    var p :| WithinHops(g, start, p, n - 1) && k in Succ(g, p);
    DiscoveredWithin(g, start, dist, enqueued, done, n - 1, n - 1, p);
    HopsAtMost(g, start, p, dist[p], n - 1);
    assert WithinHops(g, start, k, dist[p] + 1);
    HopsAtMost(g, start, k, n, dist[p] + 1);
  }

  /** The search's postconditions, from the state the loop ends in. */
  lemma Completed(g: Graph, start: string, dist: map<string, nat>, queue: seq<(string, nat)>,
                  enqueued: seq<string>, done: nat, level: nat)
    requires Searching(g, start, dist, queue, enqueued, done, level) && queue == []
    ensures start in dist && dist[start] == 0
    ensures forall k :: k in dist <==> Reachable(g, start, k)
    ensures forall k :: k in dist ==> ShortestHops(g, start, k, dist[k])
    ensures forall k :: k in dist && k != start ==>
              exists p :: p in dist && dist[p] + 1 == dist[k] && k in Succ(g, p)
    ensures NoDuplicates(enqueued) && forall k :: k in enqueued <==> k in dist
  {
    forall k | k in dist && k != start
      ensures exists p :: p in dist && dist[p] + 1 == dist[k] && k in Succ(g, p)
    {
      Predecessor(g, start, dist, enqueued, done, level, k);
    }
    Exhausted(g, start, dist, enqueued, done, level);
  }

  lemma {:induction false} DistinctBound(s: seq<string>, all: set<string>)
    requires NoDuplicates(s) && forall i :: 0 <= i < |s| ==> s[i] in all
    ensures |s| <= |all|
    decreases |s|
  {
    if s != [] {
      var rest := all - {s[0]};
      forall i | 0 <= i < |s| - 1 ensures s[1..][i] in rest {
        assert s[1..][i] == s[i + 1];
      }
      DistinctBound(s[1..], rest);
    }
  }

  /** Every queued name is a distinct node, so at most `|Nodes|` names are ever queued. */
  lemma EnqueuedBound(g: Graph, start: string, dist: map<string, nat>, queue: seq<(string, nat)>,
                      enqueued: seq<string>, done: nat, level: nat)
    requires Searching(g, start, dist, queue, enqueued, done, level)
    ensures |enqueued| <= |Nodes(g, start)|
  {
    DistinctBound(enqueued, Nodes(g, start));
  }

  /**
   * The inner loop of the search: visit the out-neighbours `succ` of `node`,
   * found at distance `d`.
   */
  method Expand(ghost g: Graph, ghost start: string, node: string, d: nat, succ: seq<string>,
                dist0: map<string, nat>, queue0: seq<(string, nat)>, ghost enqueued0: seq<string>,
                ghost done: nat, ghost level: nat, ghost popped: seq<(string, nat)>)
    returns (dist: map<string, nat>, queue: seq<(string, nat)>, ghost enqueued: seq<string>,
             ghost done': nat, ghost level': nat)
    requires Searching(g, start, dist0, popped, enqueued0, done, level)
    requires |popped| > 0 && popped[0] == (node, d) && queue0 == popped[1..]
    requires succ == Succ(g, node)
    ensures done' == done + 1 && level' == d
    ensures Searching(g, start, dist, queue, enqueued, done', level')
    ensures |enqueued0| <= |enqueued| && |enqueued| - |enqueued0| == |queue| - |queue0|
    ensures forall m :: m in succ ==> m in dist
    ensures forall k :: k in dist0 ==> k in dist && dist[k] == dist0[k]
    ensures forall k :: k in dist && k !in dist0 ==> k in succ && dist[k] == d + 1
    ensures queue[..|queue0|] == queue0
    ensures forall i :: |queue0| <= i < |queue| ==> queue[i].1 == d + 1 && queue[i].0 !in dist0
  {
    done', level' := done + 1, d;
    Pop(g, start, dist0, popped, enqueued0, done, level, node, d, queue0);
    dist, queue, enqueued := dist0, queue0, enqueued0;
    for j := 0 to |succ|
      invariant Expanding(g, start, dist, queue, enqueued, done', node, d, succ, j)
      invariant |enqueued0| <= |enqueued| && |enqueued| - |enqueued0| == |queue| - |queue0|
      invariant Grown(dist0, queue0, dist, queue, d, succ[..j])
    {
      var m := succ[j];
      Visit(g, start, dist, queue, enqueued, done', node, d, succ, j, m);
      Grow(dist0, queue0, dist, queue, d, succ, j, m);
      if m !in dist {
        dist := dist[m := d + 1];
        queue := queue + [(m, d + 1)];
        enqueued := enqueued + [m];
      }
    }
    Finish(g, start, dist, queue, enqueued, done', node, d, succ);
    assert succ[..|succ|] == succ;
  }

  /**
   * `bfs(start, graph)`: the hop distance from `start` to every name it
   * reaches. `dist` doubles as the visited set; `enqueued` records, in order,
   * every name ever put on the queue.
   */
  method Search(start: string, graph: Graph) returns (dist: map<string, nat>, ghost enqueued: seq<string>)
    ensures start in dist && dist[start] == 0
    ensures forall k :: k in dist <==> Reachable(graph, start, k)
    ensures forall k :: k in dist ==> ShortestHops(graph, start, k, dist[k])
    ensures forall k :: k in dist && k != start ==>
              exists p :: p in dist && dist[p] + 1 == dist[k] && k in Succ(graph, p)
    ensures NoDuplicates(enqueued) && forall k :: k in enqueued <==> k in dist
  {
    dist := map[start := 0];
    var queue: seq<(string, nat)> := [(start, 0)];
    enqueued := [start];
    ghost var done: nat := 0;
    ghost var level: nat := 0;
    SearchStarts(graph, start);
    EnqueuedBound(graph, start, dist, queue, enqueued, done, level);
    while |queue| > 0
      invariant Searching(graph, start, dist, queue, enqueued, done, level)
      invariant |enqueued| <= |Nodes(graph, start)|
      decreases |Nodes(graph, start)| - |enqueued|, |queue|
    {
      var node, d := queue[0].0, queue[0].1;
      ghost var popped := queue;
      queue := queue[1..];
      var succ := Succ(graph, node);
      dist, queue, enqueued, done, level := Expand(graph, start, node, d, succ, dist, queue, enqueued, done, level, popped);
      EnqueuedBound(graph, start, dist, queue, enqueued, done, level);
    }
    Completed(graph, start, dist, queue, enqueued, done, level);
  }
}
