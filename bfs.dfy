/**
 * Breadth-first search over a `networkx.Graph` (bfs_search.py, lines 14-51).
 *
 * The queue holds `(node, path to node)` pairs. A node enters `visited` when it
 * is enqueued, and the goal is checked as each neighbour is met, before the
 * visited test, so the search stops as soon as the goal shows up.
 */
module BreadthFirst {
  import opened Wrappers
  import opened Graphs

  type Entry = (Node, seq<Node>)

  ghost predicate InQueue(queue: seq<Entry>, v: Node)
  {
    exists k :: 0 <= k < |queue| && queue[k].0 == v
  }

  /** Every walk from `start` to a node outside `visited` has more than `level` nodes. */
  ghost predicate Beyond(g: Graph, start: Node, visited: set<Node>, level: nat)
  {
    forall u, w :: u !in visited && WalkBetween(g, w, start, u) ==> level + 1 <= |w|
  }

  /** `p` is a walk from `start` to `n` with no repeated node and no more nodes than any other. */
  ghost predicate ShortestWalk(g: Graph, start: Node, n: Node, p: seq<Node>)
  {
    && WalkBetween(g, p, start, n)
    && NoDuplicates(p)
    && forall w :: WalkBetween(g, w, start, n) ==> |p| <= |w|
  }

  /** Each queued path is a shortest walk to its node through visited nodes only. */
  ghost predicate QueuedPaths(g: Graph, start: Node, visited: set<Node>, queue: seq<Entry>)
  {
    forall k :: 0 <= k < |queue| ==>
      && queue[k].0 in visited
      && ShortestWalk(g, start, queue[k].0, queue[k].1)
      && forall i :: 0 <= i < |queue[k].1| ==> queue[k].1[i] in visited
  }

  /** Path lengths along the queue never decrease and stay within `level` and `level + 1`. */
  ghost predicate Layered(queue: seq<Entry>, level: nat)
  {
    && (forall i, j :: 0 <= i <= j < |queue| ==> |queue[i].1| <= |queue[j].1|)
    && (forall k :: 0 <= k < |queue| ==> level <= |queue[k].1| <= level + 1)
  }

  /** Visited nodes that have left the queue (except those in `except`) have all neighbours visited. */
  ghost predicate Expanded(g: Graph, visited: set<Node>, queue: seq<Entry>, except: set<Node>)
  {
    forall v, u :: v in visited && v !in except && !InQueue(queue, v) && Edge(g, v, u) ==> u in visited
  }

  /** Each node is enqueued at most once, exactly the visited nodes are, and each is reachable from `start`. */
  ghost predicate EnqueuedOnce(g: Graph, start: Node, visited: set<Node>, enqueued: seq<Node>)
  {
    && NoDuplicates(enqueued)
    && (forall k :: 0 <= k < |enqueued| ==> enqueued[k] in visited)
    && (forall v :: v in visited ==> v in enqueued && Reachable(g, start, v))
  }

  /** The queue entries `(n, path + [n])` for the nodes `ns`, in order. */
  function Extensions(path: seq<Node>, ns: seq<Node>): (r: seq<Entry>)
  {
    if ns == [] then [] else Extensions(path, ns[..|ns| - 1]) + [(ns[|ns| - 1], path + [ns[|ns| - 1]])]
  }

  /** `Extensions` enqueues `ns[i]` with `path + [ns[i]]` at position `i`, and nothing more. */
  lemma {:induction false} ExtensionsAt(path: seq<Node>, ns: seq<Node>)
    ensures |Extensions(path, ns)| == |ns|
    ensures forall i :: 0 <= i < |ns| ==> Extensions(path, ns)[i] == (ns[i], path + [ns[i]])
  {
    if ns != [] {
      ExtensionsAt(path, ns[..|ns| - 1]);
    }
  }

  /**
   * The neighbour scan has enqueued exactly the nodes `added`, in order, each
   * with `path` extended by it, marked them visited and logged them; nothing
   * else changed.
   */
  ghost predicate EnqueuedSoFar(path: seq<Node>, added: seq<Node>,
                                visited0: set<Node>, queue0: seq<Entry>, enqueued0: seq<Node>,
                                visited: set<Node>, queue: seq<Entry>, enqueued: seq<Node>)
  {
    && queue == queue0 + Extensions(path, added)
    && enqueued == enqueued0 + added
    && visited == visited0 + Elements(added)
  }

  /**
   * Once every queued path has `level + 1` nodes, a node at the end of a walk
   * of `level + 1` nodes is visited: the node before it is `level` steps away,
   * hence visited, off the queue and so already expanded.
   */
  lemma ReachedAtLevel(g: Graph, start: Node, visited: set<Node>, queue: seq<Entry>, level: nat, w: seq<Node>, u: Node)
    requires level >= 1
    requires Beyond(g, start, visited, level)
    requires QueuedPaths(g, start, visited, queue)
    requires Expanded(g, visited, queue, {})
    requires forall k :: 0 <= k < |queue| ==> |queue[k].1| == level + 1
    requires WalkBetween(g, w, start, u) && |w| == level + 1
    ensures u in visited
  {
    var v := w[level - 1];
    PrefixWalk(g, w, start, u, level);
    assert |w[..level]| == level;
    assert v in visited;
    assert forall k :: 0 <= k < |queue| ==> queue[k].0 != v;
    assert Edge(g, v, w[level]);
  }

  /** Once every queued path has `level + 1` nodes, unvisited nodes are more than `level + 1` nodes away. */
  lemma LevelAdvance(g: Graph, start: Node, visited: set<Node>, queue: seq<Entry>, level: nat)
    requires level >= 1
    requires Beyond(g, start, visited, level)
    requires QueuedPaths(g, start, visited, queue)
    requires Expanded(g, visited, queue, {})
    requires forall k :: 0 <= k < |queue| ==> |queue[k].1| == level + 1
    ensures Beyond(g, start, visited, level + 1)
  {
    forall u, w | WalkBetween(g, w, start, u) && |w| == level + 1 ensures u in visited {
      ReachedAtLevel(g, start, visited, queue, level, w, u);
    }
  }

  /**
   * Reaching an unvisited `n` from `current` by one more edge gives a shortest,
   * repeat-free walk to `n` through visited nodes and `n`.
   */
  lemma ShortestExtends(g: Graph, start: Node, visited: set<Node>, current: Node, path: seq<Node>, n: Node)
    requires ShortestWalk(g, start, current, path)
    requires forall i :: 0 <= i < |path| ==> path[i] in visited
    requires Beyond(g, start, visited, |path|)
    requires n !in visited && Edge(g, current, n)
    ensures ShortestWalk(g, start, n, path + [n])
    ensures forall i :: 0 <= i < |path + [n]| ==> (path + [n])[i] in visited + {n}
  {
    ExtendWalk(g, path, start, current, n);
    AppendDistinct(path, n);
  }

  /** Enqueuing an unvisited neighbour with its path keeps every queued path a shortest walk. */
  lemma EnqueueKeepsPaths(g: Graph, start: Node, visited: set<Node>, queue: seq<Entry>,
                          current: Node, path: seq<Node>, neighbor: Node)
    requires QueuedPaths(g, start, visited, queue)
    requires ShortestWalk(g, start, current, path)
    requires forall i :: 0 <= i < |path| ==> path[i] in visited
    requires Beyond(g, start, visited, |path|)
    requires neighbor !in visited && Edge(g, current, neighbor)
    ensures QueuedPaths(g, start, visited + {neighbor}, queue + [(neighbor, path + [neighbor])])
  {
    ShortestExtends(g, start, visited, current, path, neighbor);
    var q := queue + [(neighbor, path + [neighbor])];
    forall k | 0 <= k < |q|
      ensures q[k].0 in visited + {neighbor}
      ensures ShortestWalk(g, start, q[k].0, q[k].1)
      ensures forall i :: 0 <= i < |q[k].1| ==> q[k].1[i] in visited + {neighbor}
    {
      if k < |queue| {
        assert q[k] == queue[k];
      }
    }
  }

  /** Enqueuing keeps the queue's nodes covered: what was queued stays queued. */
  lemma EnqueueKeepsExpanded(g: Graph, visited: set<Node>, queue: seq<Entry>, current: Node, e: Entry)
    requires Expanded(g, visited, queue, {current})
    ensures Expanded(g, visited + {e.0}, queue + [e], {current})
  {
    forall v | InQueue(queue, v) ensures InQueue(queue + [e], v) {
      var k :| 0 <= k < |queue| && queue[k].0 == v;
      assert (queue + [e])[k] == queue[k];
    }
    assert (queue + [e])[|queue|] == e;
  }

  /** Appending a path one node longer than the current level keeps the queue layered. */
  lemma EnqueueKeepsLayers(queue: seq<Entry>, level: nat, e: Entry)
    requires Layered(queue, level) && |e.1| == level + 1
    ensures Layered(queue + [e], level)
  {
  }

  /**
   * What holds between two dequeues: every queued path is a shortest walk,
   * visited nodes off the queue are expanded, path lengths along the queue
   * span one level, unvisited nodes lie beyond the front's level, `goal` is
   * never visited, and each visited node is reachable and enqueued once.
   */
  ghost predicate Frontier(g: Graph, start: Node, goal: Node, visited: set<Node>, queue: seq<Entry>,
                           U: set<Node>, unseen: set<Node>, enqueued: seq<Node>)
  {
    && start in visited && goal !in visited
    && QueuedPaths(g, start, visited, queue)
    && Expanded(g, visited, queue, {})
    && (|queue| > 0 ==> Layered(queue, |queue[0].1|) && Beyond(g, start, visited, |queue[0].1|))
    && Unseen(U, visited, unseen) && EnqueuedOnce(g, start, visited, enqueued)
  }

  /**
   * What holds while the neighbours of the dequeued `current`, reached by
   * `path`, are scanned: the frontier invariant, except that `current` is
   * not yet expanded, with the queue's paths at `path`'s level or one more.
   */
  ghost predicate Scanning(g: Graph, start: Node, goal: Node, current: Node, path: seq<Node>,
                           visited: set<Node>, queue: seq<Entry>, U: set<Node>, unseen: set<Node>, enqueued: seq<Node>)
  {
    && start in visited && goal !in visited && current in visited
    && ShortestWalk(g, start, current, path)
    && (forall i :: 0 <= i < |path| ==> path[i] in visited)
    && QueuedPaths(g, start, visited, queue)
    && Layered(queue, |path|)
    && Beyond(g, start, visited, |path|)
    && Expanded(g, visited, queue, {current})
    && Unseen(U, visited, unseen) && EnqueuedOnce(g, start, visited, enqueued)
  }

  /** Lines 47-49: enqueuing an unvisited neighbour other than the goal keeps the scan invariant. */
  lemma EnqueueKeeps(g: Graph, start: Node, goal: Node, current: Node, path: seq<Node>,
                     visited: set<Node>, queue: seq<Entry>, U: set<Node>, unseen: set<Node>, enqueued: seq<Node>, n: Node)
    requires Scanning(g, start, goal, current, path, visited, queue, U, unseen, enqueued)
    requires n !in visited && n != goal && n in U && Edge(g, current, n)
    ensures Scanning(g, start, goal, current, path, visited + {n}, queue + [(n, path + [n])], U, unseen - {n}, enqueued + [n])
    ensures |unseen - {n}| + 1 == |unseen|
  {
    EnqueueKeepsPaths(g, start, visited, queue, current, path, n);
    EnqueueKeepsExpanded(g, visited, queue, current, (n, path + [n]));
    EnqueueKeepsLayers(queue, |path|, (n, path + [n]));
    ReachableStep(g, start, current, n);
    UnseenShrinks(U, visited, unseen, n);
  }

  /** After every neighbour of `current` is visited, the frontier invariant is restored. */
  lemma ScanComplete(g: Graph, start: Node, goal: Node, current: Node, path: seq<Node>, visited0: set<Node>,
                     visited: set<Node>, queue: seq<Entry>, U: set<Node>, unseen: set<Node>, enqueued: seq<Node>)
    requires Scanning(g, start, goal, current, path, visited, queue, U, unseen, enqueued)
    requires visited == visited0 + Elements(Unvisited(NeighboursOf(g, current), visited0))
    ensures Frontier(g, start, goal, visited, queue, U, unseen, enqueued)
    ensures !Edge(g, current, goal)
  {
    var neighbors := NeighboursOf(g, current);
    UnvisitedCovers(neighbors, visited0, visited);
    forall u | Edge(g, current, u) ensures u in visited {
      var k :| 0 <= k < |neighbors| && neighbors[k].0 == u;
    }
    if |queue| > 0 && |queue[0].1| == |path| + 1 {
      LevelAdvance(g, start, visited, queue, |path|);
    }
  }

  /** Enqueuing the unvisited `es[j]` extends the scan's log by it. */
  lemma EnqueueOne(path: seq<Node>, es: Neighbours, j: nat,
                   visited0: set<Node>, queue0: seq<Entry>, enqueued0: seq<Node>,
                   visited: set<Node>, queue: seq<Entry>, enqueued: seq<Node>)
    requires j < |es| && es[j].0 !in visited
    requires EnqueuedSoFar(path, Unvisited(es[..j], visited0), visited0, queue0, enqueued0, visited, queue, enqueued)
    ensures EnqueuedSoFar(path, Unvisited(es[..j + 1], visited0), visited0, queue0, enqueued0,
                          visited + {es[j].0}, queue + [(es[j].0, path + [es[j].0])], enqueued + [es[j].0])
  {
    var added := Unvisited(es[..j], visited0);
    UnvisitedNext(es, j, visited0);
    assert (added + [es[j].0])[..|added|] == added;
  }

  /** Passing over the visited `es[j]` leaves the scan's log as it is. */
  lemma SkipOne(path: seq<Node>, es: Neighbours, j: nat,
                visited0: set<Node>, queue0: seq<Entry>, enqueued0: seq<Node>,
                visited: set<Node>, queue: seq<Entry>, enqueued: seq<Node>)
    requires j < |es| && es[j].0 in visited
    requires EnqueuedSoFar(path, Unvisited(es[..j], visited0), visited0, queue0, enqueued0, visited, queue, enqueued)
    ensures EnqueuedSoFar(path, Unvisited(es[..j + 1], visited0), visited0, queue0, enqueued0, visited, queue, enqueued)
  {
    UnvisitedNext(es, j, visited0);
  }

  /**
   * Lines 44-49: scan the neighbours of the dequeued `current`, reached by
   * `path`; stop with `path + [goal]` as soon as `goal` is a neighbour,
   * otherwise enqueue each unvisited neighbour.
   */
  method ScanNeighbours(g: Graph, ghost start: Node, goal: Node, current: Node, path: seq<Node>,
                        visited0: set<Node>, queue0: seq<Entry>,
                        ghost U: set<Node>, ghost unseen0: set<Node>, ghost enqueued0: seq<Node>)
    returns (found: Option<seq<Node>>, visited: set<Node>, queue: seq<Entry>, ghost unseen: set<Node>, ghost enqueued: seq<Node>)
    requires Scanning(g, start, goal, current, path, visited0, queue0, U, unseen0, enqueued0)
    requires forall k :: 0 <= k < |NeighboursOf(g, current)| ==> NeighboursOf(g, current)[k].0 in U
    ensures found.Some? <==> Edge(g, current, goal)
    ensures found.Some? ==> found.value == path + [goal] && ShortestWalk(g, start, goal, found.value)
    ensures EnqueuedOnce(g, start, visited, enqueued)
    ensures found.None? ==> Frontier(g, start, goal, visited, queue, U, unseen, enqueued)
    ensures found.None? ==> |unseen| + |queue| == |unseen0| + |queue0|
    ensures found.None? ==> EnqueuedSoFar(path, Unvisited(NeighboursOf(g, current), visited0),
                                          visited0, queue0, enqueued0, visited, queue, enqueued)
  {
    visited, queue, unseen, enqueued := visited0, queue0, unseen0, enqueued0;
    var neighbors := NeighboursOf(g, current);
    var j := 0;
    while j < |neighbors|
      invariant 0 <= j <= |neighbors|
      invariant Scanning(g, start, goal, current, path, visited, queue, U, unseen, enqueued)
      invariant |unseen| + |queue| == |unseen0| + |queue0|
      invariant EnqueuedSoFar(path, Unvisited(neighbors[..j], visited0), visited0, queue0, enqueued0, visited, queue, enqueued)
    {
      var neighbor := neighbors[j].0;
      ListedIsEdge(g, current, j);
      if neighbor == goal {
        ShortestExtends(g, start, visited, current, path, goal);
        return Some(path + [neighbor]), visited, queue, unseen, enqueued;
      }
      if neighbor !in visited {
        EnqueueKeeps(g, start, goal, current, path, visited, queue, U, unseen, enqueued, neighbor);
        EnqueueOne(path, neighbors, j, visited0, queue0, enqueued0, visited, queue, enqueued);
        unseen := unseen - {neighbor};
        visited := visited + {neighbor};
        queue := queue + [(neighbor, path + [neighbor])];
        enqueued := enqueued + [neighbor];
      } else {
        SkipOne(path, neighbors, j, visited0, queue0, enqueued0, visited, queue, enqueued);
      }
      assert EnqueuedSoFar(path, Unvisited(neighbors[..j + 1], visited0), visited0, queue0, enqueued0, visited, queue, enqueued);
      j := j + 1;
    }
    assert neighbors[..j] == neighbors;
    found := None;
    ScanComplete(g, start, goal, current, path, visited0, visited, queue, U, unseen, enqueued);
  }

  /** Lines 36-39: the queue holding only `(start, [start])` satisfies the frontier invariant. */
  lemma BfsStarts(g: Graph, start: Node, goal: Node, U: set<Node>)
    requires start != goal && start in U
    ensures Frontier(g, start, goal, {start}, [(start, [start])], U, U - {start}, [start])
  {
    assert WalkBetween(g, [start], start, start);
    assert Beyond(g, start, {start}, 1);
  }

  /** Line 42: taking the front entry off a queue that satisfies the frontier invariant starts its scan. */
  lemma Dequeue(g: Graph, start: Node, goal: Node, visited: set<Node>, queue: seq<Entry>,
                U: set<Node>, unseen: set<Node>, enqueued: seq<Node>)
    requires Frontier(g, start, goal, visited, queue, U, unseen, enqueued) && |queue| > 0
    ensures Scanning(g, start, goal, queue[0].0, queue[0].1, visited, queue[1..], U, unseen, enqueued)
  {
    forall v | InQueue(queue, v) && v != queue[0].0 ensures InQueue(queue[1..], v) {
      var k :| 0 <= k < |queue| && queue[k].0 == v;
      assert queue[1..][k - 1] == queue[k];
    }
  }

  /** Line 51: once the queue runs dry every reachable node has been enqueued, and the goal is not reachable. */
  lemma BfsExhausted(g: Graph, start: Node, goal: Node, visited: set<Node>, U: set<Node>, unseen: set<Node>, enqueued: seq<Node>)
    requires Frontier(g, start, goal, visited, [], U, unseen, enqueued)
    ensures forall n :: Reachable(g, start, n) ==> n in enqueued
    ensures !Reachable(g, start, goal)
  {
    forall n | Reachable(g, start, n) ensures n in visited {
      var p :| WalkBetween(g, p, start, n);
      ClosedHoldsReachable(g, visited, p, start, n);
    }
  }

  /**
   * `bfs_path(graph, start_node, end_node)`; `enqueued` records every enqueue,
   * in order: only reachable nodes are enqueued, and a search that fails
   * enqueues them all.
   */
  method BfsPath(g: Graph, start: Node, goal: Node) returns (r: Option<seq<Node>>, ghost enqueued: seq<Node>)
    ensures start !in g || goal !in g ==> r == None
    ensures start in g && start == goal ==> r == Some([start])
    ensures r.Some? ==> ShortestWalk(g, start, goal, r.value)
    ensures start in g && goal in g ==> (r.None? <==> !Reachable(g, start, goal))
    ensures NoDuplicates(enqueued)
    ensures forall n :: n in enqueued ==> Reachable(g, start, n)
    ensures start in g && goal in g && r.None? ==> forall n :: Reachable(g, start, n) ==> n in enqueued
  {
    if start !in g {
      return None, [];
    }
    if goal !in g {
      return None, [];
    }
    if start == goal {
      return Some([start]), [];
    }
    var visited: set<Node> := {start};
    var queue: seq<Entry> := [(start, [start])];
    ghost var U := MentionedNodes(g);
    ghost var unseen := U - {start};
    enqueued := [start];
    BfsStarts(g, start, goal, U);

    while |queue| > 0
      invariant Frontier(g, start, goal, visited, queue, U, unseen, enqueued)
      decreases |unseen| + |queue|
    {
      var (current, path) := queue[0];
      Dequeue(g, start, goal, visited, queue, U, unseen, enqueued);
      queue := queue[1..];
      var found;
      found, visited, queue, unseen, enqueued :=
        ScanNeighbours(g, start, goal, current, path, visited, queue, U, unseen, enqueued);
      if found.Some? {
        return found, enqueued;
      }
    }
    r := None;
    BfsExhausted(g, start, goal, visited, U, unseen, enqueued);
  }
}
