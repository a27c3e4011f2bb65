/**
 * Depth-first search with an explicit stack (dfs_search.py, lines 79-107).
 *
 * A node is marked visited and given its predecessor when it is pushed, not
 * when it is popped; the path is rebuilt by walking the predecessor chain back
 * to `start` and reversing it.
 */
module DepthFirst {
  import opened Wrappers
  import opened Graphs

  /** `s[::-1]`. */
  function Reversed(s: seq<Node>): (r: seq<Node>)
    ensures |r| == |s|
    ensures forall i :: 0 <= i < |s| ==> r[i] == s[|s| - 1 - i]
  {
    if s == [] then [] else Reversed(s[1..]) + [s[0]]
  }

  /**
   * The predecessor map is a tree rooted at `start` along edges of `g`:
   * `start` has no predecessor, every other key's predecessor is a key with an
   * edge to it, and `depth` (a proof device) grows by one along each such edge.
   */
  ghost predicate PredecessorTree(g: Graph, start: Node, predecessors: map<Node, Option<Node>>, depth: map<Node, nat>)
  {
    && predecessors.Keys == depth.Keys
    && start in predecessors && predecessors[start] == None && depth[start] == 0
    && forall n :: HasParent(g, start, predecessors, depth, n)
  }

  ghost predicate HasParent(g: Graph, start: Node, predecessors: map<Node, Option<Node>>, depth: map<Node, nat>, n: Node)
    requires predecessors.Keys == depth.Keys
  {
    n in predecessors && n != start ==>
      && predecessors[n].Some?
      && predecessors[n].value in predecessors
      && Edge(g, predecessors[n].value, n)
      && depth[n] == depth[predecessors[n].value] + 1
  }

  /** Recording `parent` as the predecessor of a fresh `child` keeps the tree a tree. */
  lemma TreeGrows(g: Graph, start: Node, predecessors: map<Node, Option<Node>>, depth: map<Node, nat>, parent: Node, child: Node)
    requires PredecessorTree(g, start, predecessors, depth)
    requires parent in predecessors && child !in predecessors && Edge(g, parent, child)
    ensures PredecessorTree(g, start, predecessors[child := Some(parent)], depth[child := depth[parent] + 1])
  {
    var p2, d2 := predecessors[child := Some(parent)], depth[child := depth[parent] + 1];
    forall n ensures HasParent(g, start, p2, d2, n) {
      if n != child {
        assert HasParent(g, start, predecessors, depth, n);
      }
    }
  }

  /**
   * `back` follows the predecessor map from `target` towards the root: each
   * node's predecessor is the next one, and depths fall by one at each step.
   */
  ghost predicate Chain(predecessors: map<Node, Option<Node>>, depth: map<Node, nat>, back: seq<Node>, target: Node)
    requires predecessors.Keys == depth.Keys
  {
    && target in depth
    && (back != [] ==> back[0] == target)
    && (forall k :: 0 <= k < |back| ==> back[k] in depth && depth[back[k]] + k == depth[target])
    && (forall k :: 0 <= k < |back| - 1 ==> predecessors[back[k]] == Some(back[k + 1]))
  }

  /** Reversed, a chain lists each node after its predecessor. */
  lemma ChainLinks(predecessors: map<Node, Option<Node>>, depth: map<Node, nat>, back: seq<Node>, target: Node)
    requires predecessors.Keys == depth.Keys
    requires Chain(predecessors, depth, back, target)
    ensures forall i :: 1 <= i < |back| ==> Reversed(back)[i] in predecessors && predecessors[Reversed(back)[i]] == Some(Reversed(back)[i - 1])
  {
    var path := Reversed(back);
    forall i | 1 <= i < |path| ensures path[i] in predecessors && predecessors[path[i]] == Some(path[i - 1]) {
      var k := |back| - 1 - i;
      assert path[i] == back[k] && path[i - 1] == back[k + 1];
    }
  }

  /** Depth falls by one along a chain, so a chain, reversed, repeats no node. */
  lemma ChainDistinct(predecessors: map<Node, Option<Node>>, depth: map<Node, nat>, back: seq<Node>, target: Node)
    requires predecessors.Keys == depth.Keys
    requires Chain(predecessors, depth, back, target)
    ensures NoDuplicates(Reversed(back))
  {
    var path := Reversed(back);
    forall i, j | 0 <= i < j < |path| ensures path[i] != path[j] {
      assert path[i] == back[|back| - 1 - i] && path[j] == back[|back| - 1 - j];
      assert depth[path[i]] != depth[path[j]];
    }
  }

  /** A chain that ends at a node without predecessor, reversed, is a repeat-free walk from the root. */
  lemma ChainIsWalk(g: Graph, start: Node, predecessors: map<Node, Option<Node>>, depth: map<Node, nat>,
                    back: seq<Node>, target: Node)
    requires PredecessorTree(g, start, predecessors, depth)
    requires Chain(predecessors, depth, back, target)
    requires back != [] && predecessors[back[|back| - 1]] == None
    ensures WalkBetween(g, Reversed(back), start, target)
    ensures NoDuplicates(Reversed(back))
    ensures forall i :: 1 <= i < |back| ==> Reversed(back)[i] in predecessors && predecessors[Reversed(back)[i]] == Some(Reversed(back)[i - 1])
  {
    var path := Reversed(back);
    assert HasParent(g, start, predecessors, depth, back[|back| - 1]);
    ChainLinks(predecessors, depth, back, target);
    ChainDistinct(predecessors, depth, back, target);
    forall i | 0 <= i < |path| - 1 ensures Edge(g, path[i], path[i + 1]) {
      assert HasParent(g, start, predecessors, depth, path[i + 1]);
    }
  }

  /** Lines 90-95: follow the predecessors back from `target`, then reverse. */
  method PathBack(ghost g: Graph, start: Node, predecessors: map<Node, Option<Node>>, ghost depth: map<Node, nat>, target: Node)
    returns (path: seq<Node>)
    requires PredecessorTree(g, start, predecessors, depth)
    requires target in predecessors
    ensures WalkBetween(g, path, start, target)
    ensures NoDuplicates(path)
    ensures forall i :: 1 <= i < |path| ==> path[i] in predecessors && predecessors[path[i]] == Some(path[i - 1])
  {
    var back: seq<Node> := [];
    var t: Option<Node> := Some(target);
    while t.Some?
      invariant t.Some? ==> t.value in predecessors
      invariant back == [] ==> t == Some(target)
      invariant Chain(predecessors, depth, back, target)
      invariant back != [] ==> predecessors[back[|back| - 1]] == t
      invariant t.Some? ==> depth[t.value] + |back| == depth[target]
      decreases if t.Some? then depth[t.value] + 1 else 0
    {
      assert HasParent(g, start, predecessors, depth, t.value);
      back := back + [t.value];
      t := predecessors[t.value];
    }
    path := Reversed(back);
    ChainIsWalk(g, start, predecessors, depth, back, target);
  }

  /** The nodes of `visited` that are off the stack have had all their neighbours visited. */
  ghost predicate Expanded(g: Graph, visited: set<Node>, stack: seq<Node>, except: set<Node>)
  {
    forall v, u {:trigger Edge(g, v, u)} :: v in visited && v !in stack && v !in except && Edge(g, v, u) ==> u in visited
  }

  /**
   * What holds between two pops: the predecessor map is a tree over exactly
   * the visited nodes, every stacked node is visited and stacked once, visited
   * nodes off the stack (other than those in `except`) are fully expanded,
   * `target` is never expanded, `unseen` holds the nodes of `U` not yet
   * visited, every visited node is reachable from `start`, and `pushed` lists
   * the visited nodes once each.
   */
  ghost predicate Searching(g: Graph, start: Node, target: Node, visited: set<Node>, stack: seq<Node>,
                            predecessors: map<Node, Option<Node>>, depth: map<Node, nat>,
                            U: set<Node>, unseen: set<Node>, pushed: seq<Node>, except: set<Node>)
  {
    && PredecessorTree(g, start, predecessors, depth) && visited == predecessors.Keys
    && (forall k :: 0 <= k < |stack| ==> stack[k] in visited)
    && NoDuplicates(stack)
    && Expanded(g, visited, stack, except)
    && (target in visited ==> target in stack)
    && Unseen(U, visited, unseen)
    && (forall v :: v in visited ==> Reachable(g, start, v))
    && NoDuplicates(pushed) && (forall k :: 0 <= k < |pushed| ==> pushed[k] in visited)
    && (forall v :: v in visited ==> v in pushed)
  }

  /** Pushing an unvisited neighbour of the popped node keeps the invariant and shrinks `unseen`. */
  lemma PushKeeps(g: Graph, start: Node, target: Node, current: Node, visited: set<Node>, stack: seq<Node>,
                  predecessors: map<Node, Option<Node>>, depth: map<Node, nat>,
                  U: set<Node>, unseen: set<Node>, pushed: seq<Node>, neighbor: Node)
    requires Searching(g, start, target, visited, stack, predecessors, depth, U, unseen, pushed, {current})
    requires current in visited && current !in stack
    requires neighbor !in visited && neighbor in U && Edge(g, current, neighbor)
    ensures Searching(g, start, target, visited + {neighbor}, stack + [neighbor],
                      predecessors[neighbor := Some(current)], depth[neighbor := depth[current] + 1],
                      U, unseen - {neighbor}, pushed + [neighbor], {current})
    ensures |unseen - {neighbor}| + 1 == |unseen|
  {
    TreeGrows(g, start, predecessors, depth, current, neighbor);
    ReachableStep(g, start, current, neighbor);
    UnseenShrinks(U, visited, unseen, neighbor);
    AppendDistinct(stack, neighbor);
    AppendDistinct(pushed, neighbor);
  }

  /** Once the neighbour loop has visited every neighbour of `current`, `current` counts as expanded. */
  lemma CurrentExpanded(g: Graph, start: Node, target: Node, current: Node, visited: set<Node>, stack: seq<Node>,
                        predecessors: map<Node, Option<Node>>, depth: map<Node, nat>,
                        U: set<Node>, unseen: set<Node>, pushed: seq<Node>, visited0: set<Node>)
    requires Searching(g, start, target, visited, stack, predecessors, depth, U, unseen, pushed, {current})
    requires current in g && visited == visited0 + Elements(Unvisited(g[current], visited0))
    ensures Searching(g, start, target, visited, stack, predecessors, depth, U, unseen, pushed, {})
  {
    UnvisitedCovers(g[current], visited0, visited);
    forall u | Edge(g, current, u) ensures u in visited {
      var k :| 0 <= k < |g[current]| && g[current][k].0 == u;
    }
  }

  /**
   * The neighbour loop has pushed exactly the nodes `added`, in order, onto
   * the stack and the push log, marked them visited and recorded `current` as
   * their predecessor; nothing else changed.
   */
  ghost predicate PushedSoFar(current: Node, added: seq<Node>,
                              visited0: set<Node>, stack0: seq<Node>, predecessors0: map<Node, Option<Node>>, pushed0: seq<Node>,
                              visited: set<Node>, stack: seq<Node>, predecessors: map<Node, Option<Node>>, pushed: seq<Node>)
  {
    && stack == stack0 + added
    && pushed == pushed0 + added
    && visited == visited0 + Elements(added)
    && (forall n :: n in predecessors0 ==> n in predecessors && predecessors[n] == predecessors0[n])
    && (forall n :: n in added ==> n in predecessors && predecessors[n] == Some(current))
  }

  /** Pushing the unvisited `es[j]` extends the loop's log by it. */
  lemma PushOne(current: Node, es: Neighbours, j: nat,
                visited0: set<Node>, stack0: seq<Node>, predecessors0: map<Node, Option<Node>>, pushed0: seq<Node>,
                visited: set<Node>, stack: seq<Node>, predecessors: map<Node, Option<Node>>, pushed: seq<Node>)
    requires j < |es| && es[j].0 !in visited && es[j].0 !in predecessors0
    requires PushedSoFar(current, Unvisited(es[..j], visited0), visited0, stack0, predecessors0, pushed0,
                         visited, stack, predecessors, pushed)
    ensures PushedSoFar(current, Unvisited(es[..j + 1], visited0), visited0, stack0, predecessors0, pushed0,
                        visited + {es[j].0}, stack + [es[j].0], predecessors[es[j].0 := Some(current)], pushed + [es[j].0])
  {
    UnvisitedNext(es, j, visited0);
  }

  /** Pushing the unvisited `neighbors[j]` keeps the search invariant and extends the loop's log by it. */
  lemma PushStep(g: Graph, start: Node, target: Node, current: Node, j: nat,
                 visited0: set<Node>, stack0: seq<Node>, predecessors0: map<Node, Option<Node>>, pushed0: seq<Node>,
                 visited: set<Node>, stack: seq<Node>, predecessors: map<Node, Option<Node>>, depth: map<Node, nat>,
                 U: set<Node>, unseen: set<Node>, pushed: seq<Node>)
    requires current in g && j < |g[current]| && g[current][j].0 !in visited && g[current][j].0 in U
    requires current in visited && current !in stack
    requires Searching(g, start, target, visited, stack, predecessors, depth, U, unseen, pushed, {current})
    requires PushedSoFar(current, Unvisited(g[current][..j], visited0), visited0, stack0, predecessors0, pushed0,
                         visited, stack, predecessors, pushed)
    ensures var n := g[current][j].0;
      && Searching(g, start, target, visited + {n}, stack + [n],
                   predecessors[n := Some(current)], depth[n := depth[current] + 1],
                   U, unseen - {n}, pushed + [n], {current})
      && |unseen - {n}| + 1 == |unseen|
      && PushedSoFar(current, Unvisited(g[current][..j + 1], visited0), visited0, stack0, predecessors0, pushed0,
                     visited + {n}, stack + [n], predecessors[n := Some(current)], pushed + [n])
  {
    ListedIsEdge(g, current, j);
    PushOne(current, g[current], j, visited0, stack0, predecessors0, pushed0, visited, stack, predecessors, pushed);
    PushKeeps(g, start, target, current, visited, stack, predecessors, depth, U, unseen, pushed, g[current][j].0);
  }

  /** Passing over the visited `es[j]` leaves the loop's log as it is. */
  lemma PassOne(current: Node, es: Neighbours, j: nat,
                visited0: set<Node>, stack0: seq<Node>, predecessors0: map<Node, Option<Node>>, pushed0: seq<Node>,
                visited: set<Node>, stack: seq<Node>, predecessors: map<Node, Option<Node>>, pushed: seq<Node>)
    requires j < |es| && es[j].0 in visited
    requires PushedSoFar(current, Unvisited(es[..j], visited0), visited0, stack0, predecessors0, pushed0,
                         visited, stack, predecessors, pushed)
    ensures PushedSoFar(current, Unvisited(es[..j + 1], visited0), visited0, stack0, predecessors0, pushed0,
                        visited, stack, predecessors, pushed)
  {
    UnvisitedNext(es, j, visited0);
  }

  /**
   * Lines 97-106: push every neighbour of `current` not yet visited, in listed
   * order, marking it visited with `current` as its predecessor.
   */
  method PushUnvisited(g: Graph, ghost start: Node, ghost target: Node, current: Node,
                       visited0: set<Node>, stack0: seq<Node>, predecessors0: map<Node, Option<Node>>,
                       ghost depth0: map<Node, nat>, ghost U: set<Node>, ghost unseen0: set<Node>, ghost pushed0: seq<Node>)
    returns (visited: set<Node>, stack: seq<Node>, predecessors: map<Node, Option<Node>>,
             ghost depth: map<Node, nat>, ghost unseen: set<Node>, ghost pushed: seq<Node>)
    requires current in g && current != target
    requires current in visited0 && current !in stack0
    requires forall k :: 0 <= k < |g[current]| ==> g[current][k].0 in U
    requires Searching(g, start, target, visited0, stack0, predecessors0, depth0, U, unseen0, pushed0, {current})
    ensures Searching(g, start, target, visited, stack, predecessors, depth, U, unseen, pushed, {})
    ensures |unseen| + |stack| == |unseen0| + |stack0|
    ensures PushedSoFar(current, Unvisited(g[current], visited0), visited0, stack0, predecessors0, pushed0,
                        visited, stack, predecessors, pushed)
  {
    visited, stack, predecessors, depth, unseen, pushed := visited0, stack0, predecessors0, depth0, unseen0, pushed0;
    var neighbors := g[current];
    var j := 0;
    while j < |neighbors|
      invariant 0 <= j <= |neighbors|
      invariant current in visited && current !in stack
      invariant Searching(g, start, target, visited, stack, predecessors, depth, U, unseen, pushed, {current})
      invariant |unseen| + |stack| == |unseen0| + |stack0|
      invariant PushedSoFar(current, Unvisited(neighbors[..j], visited0), visited0, stack0, predecessors0, pushed0,
                            visited, stack, predecessors, pushed)
    {
      var neighbor := neighbors[j].0;
      if neighbor !in visited {
        PushStep(g, start, target, current, j, visited0, stack0, predecessors0, pushed0,
                 visited, stack, predecessors, depth, U, unseen, pushed);
        unseen := unseen - {neighbor};
        stack := stack + [neighbor];
        visited := visited + {neighbor};
        predecessors := predecessors[neighbor := Some(current)];
        depth := depth[neighbor := depth[current] + 1];
        pushed := pushed + [neighbor];
      } else {
        PassOne(current, neighbors, j, visited0, stack0, predecessors0, pushed0, visited, stack, predecessors, pushed);
      }
      assert PushedSoFar(current, Unvisited(neighbors[..j + 1], visited0), visited0, stack0, predecessors0, pushed0,
                         visited, stack, predecessors, pushed);
      j := j + 1;
    }
    assert neighbors[..j] == neighbors;
    CurrentExpanded(g, start, target, current, visited, stack, predecessors, depth, U, unseen, pushed, visited0);
  }

  /** Lines 82-85: only `start` is visited, stacked and pushed, and it has no predecessor. */
  lemma DfsStarts(g: Graph, start: Node, target: Node, U: set<Node>)
    requires start != target
    ensures Searching(g, start, target, {start}, [start], map[start := None], map[start := 0], U, U - {start}, [start], {})
  {
    assert WalkBetween(g, [start], start, start);
    assert HasParent(g, start, map[start := None], map[start := 0], start);
  }

  /** Line 88: popping the top of the stack leaves that node visited, off the stack and not yet expanded. */
  lemma PopKeeps(g: Graph, start: Node, target: Node, visited: set<Node>, stack: seq<Node>, current: Node,
                 predecessors: map<Node, Option<Node>>, depth: map<Node, nat>,
                 U: set<Node>, unseen: set<Node>, pushed: seq<Node>)
    requires Searching(g, start, target, visited, stack, predecessors, depth, U, unseen, pushed, {})
    requires |stack| > 0 && current == stack[|stack| - 1] && current != target
    ensures current in visited && current !in stack[..|stack| - 1]
    ensures Searching(g, start, target, visited, stack[..|stack| - 1], predecessors, depth, U, unseen, pushed, {current})
    ensures current !in g ==> Searching(g, start, target, visited, stack[..|stack| - 1], predecessors, depth, U, unseen, pushed, {})
  {
    var rest := stack[..|stack| - 1];
    assert stack == rest + [current];
    assert forall x :: x in stack <==> x in rest || x == current;
    assert forall k :: 0 <= k < |rest| ==> rest[k] == stack[k];
    if current !in g {
      assert forall u :: !Edge(g, current, u);
    }
  }

  /** The push log lists each pushed node once, and only reachable ones. */
  lemma PushedReachable(g: Graph, start: Node, target: Node, visited: set<Node>, stack: seq<Node>,
                        predecessors: map<Node, Option<Node>>, depth: map<Node, nat>,
                        U: set<Node>, unseen: set<Node>, pushed: seq<Node>)
    requires Searching(g, start, target, visited, stack, predecessors, depth, U, unseen, pushed, {})
    ensures NoDuplicates(pushed)
    ensures forall n :: n in pushed ==> Reachable(g, start, n)
  {
    forall n | n in pushed ensures Reachable(g, start, n) {
      var k :| 0 <= k < |pushed| && pushed[k] == n;
    }
  }

  /** Line 107: once the stack runs dry every reachable node has been pushed, and the target is not reachable. */
  lemma DfsExhausted(g: Graph, start: Node, target: Node, visited: set<Node>,
                     predecessors: map<Node, Option<Node>>, depth: map<Node, nat>,
                     U: set<Node>, unseen: set<Node>, pushed: seq<Node>)
    requires Searching(g, start, target, visited, [], predecessors, depth, U, unseen, pushed, {})
    ensures forall n :: Reachable(g, start, n) ==> n in pushed
    ensures !Reachable(g, start, target)
  {
    assert start in visited;
    forall n | Reachable(g, start, n) ensures n in visited {
      var p :| WalkBetween(g, p, start, n);
      ClosedHoldsReachable(g, visited, p, start, n);
    }
  }

  /**
   * `dfs(current_graph, start, target)`; `pushed` records every push, in order:
   * only reachable nodes are pushed, and a search that fails pushes them all.
   */
  method Dfs(g: Graph, start: Node, target: Node) returns (r: Option<seq<Node>>, ghost pushed: seq<Node>)
    ensures start == target ==> r == Some([start])
    ensures r.Some? ==> WalkBetween(g, r.value, start, target) && NoDuplicates(r.value)
    ensures r.None? <==> !Reachable(g, start, target)
    ensures NoDuplicates(pushed)
    ensures forall n :: n in pushed ==> Reachable(g, start, n)
    ensures r.None? ==> forall n :: Reachable(g, start, n) ==> n in pushed
  {
    if start == target {
      assert WalkBetween(g, [start], start, start);
      return Some([start]), [start];
    }
    var visited: set<Node> := {start};
    var stack: seq<Node> := [start];
    var predecessors: map<Node, Option<Node>> := map[start := None];
    ghost var depth: map<Node, nat> := map[start := 0];
    ghost var U := MentionedNodes(g);
    ghost var unseen := U - {start};
    pushed := [start];
    DfsStarts(g, start, target, U);

    while |stack| > 0
      invariant Searching(g, start, target, visited, stack, predecessors, depth, U, unseen, pushed, {})
      decreases |unseen| + |stack|
    {
      var current := stack[|stack| - 1];
      if current == target {
        var path := PathBack(g, start, predecessors, depth, target);
        PushedReachable(g, start, target, visited, stack, predecessors, depth, U, unseen, pushed);
        return Some(path), pushed;
      }
      PopKeeps(g, start, target, visited, stack, current, predecessors, depth, U, unseen, pushed);
      stack := stack[..|stack| - 1];
      if current in g {
        visited, stack, predecessors, depth, unseen, pushed :=
          PushUnvisited(g, start, target, current, visited, stack, predecessors, depth, U, unseen, pushed);
      }
    }
    r := None;
    PushedReachable(g, start, target, visited, stack, predecessors, depth, U, unseen, pushed);
    DfsExhausted(g, start, target, visited, predecessors, depth, U, unseen, pushed);
  }
}
