/**
 * The adjacency structure shared by the three searches.
 *
 * A neighbour list is the Python dictionary `{neighbor: distance}`, kept as an
 * association list so that its iteration order (insertion order) is part of
 * the model. A graph maps every node to its neighbour list; the order of the
 * outer keys never influences a search, so a Dafny `map` holds it.
 */
module Graphs {
  import opened Wrappers

  type Node = string
  type Weight = nat

  /** `{neighbor: distance}` in insertion order. */
  type Neighbours = seq<(Node, Weight)>

  /** `{node: {neighbor: distance}}`. */
  type Graph = map<Node, Neighbours>

  /** The keys of a neighbour list, in iteration order. */
  function Keys(es: Neighbours): (ks: seq<Node>)
    ensures |ks| == |es|
    ensures forall k :: 0 <= k < |es| ==> ks[k] == es[k].0
  {
    if es == [] then [] else [es[0].0] + Keys(es[1..])
  }

  /** The elements of a sequence are pairwise distinct. */
  ghost predicate NoDuplicates<T>(s: seq<T>)
  {
    forall i, j :: 0 <= i < j < |s| ==> s[i] != s[j]
  }

  /** A neighbour list that is a real dictionary: no key twice. */
  ghost predicate DistinctKeys(es: Neighbours)
  {
    NoDuplicates(Keys(es))
  }

  /** Every neighbour list of the graph is a dictionary. */
  ghost predicate WellFormed(g: Graph)
  {
    forall n :: n in g ==> DistinctKeys(g[n])
  }

  /** `es.get(k)`: the distance stored under `k`, if any. */
  function Lookup(es: Neighbours, k: Node): (r: Option<Weight>)
    ensures r.Some? <==> exists i :: 0 <= i < |es| && es[i].0 == k
    ensures r.Some? ==> exists i :: 0 <= i < |es| && es[i] == (k, r.value)
  {
    if es == [] then None
    else if es[0].0 == k then Some(es[0].1)
    else
      var r := Lookup(es[1..], k);
      assert forall i :: 1 <= i < |es| ==> es[i] == es[1..][i - 1];
      assert r.Some? ==> exists i :: 0 <= i < |es[1..]| && es[1..][i] == (k, r.value);
      r
  }

  /** `es[k] = w`: overwrite in place when `k` is present, append otherwise. */
  function Put(es: Neighbours, k: Node, w: Weight): (r: Neighbours)
    ensures Lookup(r, k) == Some(w)
    ensures forall x :: x != k ==> Lookup(r, x) == Lookup(es, x)
  {
    if es == [] then [(k, w)]
    else if es[0].0 == k then [(k, w)] + es[1..]
    else
      var r := [es[0]] + Put(es[1..], k, w);
      assert r[1..] == Put(es[1..], k, w);
      r
  }

  /** Put keeps every existing key where it was and appends a new one at the end. */
  lemma {:induction false} PutKeys(es: Neighbours, k: Node, w: Weight)
    ensures Keys(Put(es, k, w)) == if Lookup(es, k).Some? then Keys(es) else Keys(es) + [k]
  {
    if es != [] && es[0].0 != k {
      PutKeys(es[1..], k, w);
      assert Put(es, k, w) == [es[0]] + Put(es[1..], k, w);
      assert Lookup(es, k) == Lookup(es[1..], k);
    }
  }

  /** Put turns a dictionary into a dictionary. */
  lemma PutDistinct(es: Neighbours, k: Node, w: Weight)
    requires DistinctKeys(es)
    ensures DistinctKeys(Put(es, k, w))
  {
    PutKeys(es, k, w);
    if Lookup(es, k).None? {
      var ks := Keys(es);
      forall i | 0 <= i < |ks| ensures ks[i] != k {
        assert ks[i] == es[i].0;
      }
      AppendDistinct(ks, k);
    }
  }

  lemma AppendDistinct(s: seq<Node>, x: Node)
    requires NoDuplicates(s) && forall i :: 0 <= i < |s| ==> s[i] != x
    ensures NoDuplicates(s + [x])
  {
    var r := s + [x];
    forall i, j | 0 <= i < j < |r| ensures r[i] != r[j] {
      assert r[i] == s[i];
      if j < |s| {
        assert r[j] == s[j];
      }
    }
  }

  /** `graph.get(n, {})`: a node that is not a key has no neighbours. */
  function NeighboursOf(g: Graph, n: Node): Neighbours
  {
    if n in g then g[n] else []
  }

  /** The distance of the edge `a -> b`, if the graph declares one. */
  function EdgeWeight(g: Graph, a: Node, b: Node): Option<Weight>
  {
    Lookup(NeighboursOf(g, a), b)
  }

  ghost predicate Edge(g: Graph, a: Node, b: Node)
  {
    EdgeWeight(g, a, b).Some?
  }

  /** The distance of an edge, 0 when there is none (only used along walks). */
  function Distance(g: Graph, a: Node, b: Node): Weight
  {
    match EdgeWeight(g, a, b)
    case Some(w) => w
    case None => 0
  }

  /**
   * A finite set holding every node the graph mentions, as a key or as a
   * neighbour: the searches visit only such nodes, which bounds their loops.
   */
  lemma MentionedNodes(g: Graph) returns (U: set<Node>)
    ensures g.Keys <= U
    ensures forall n, k :: n in g && 0 <= k < |g[n]| ==> g[n][k].0 in U
  {
    U := g.Keys + set n, k | n in g && 0 <= k < |g[n]| :: g[n][k].0;
  }

  /** The nodes `s` lists, as a set. */
  ghost function Elements(s: seq<Node>): set<Node>
  {
    set n | n in s
  }

  /** `unseen` holds the nodes of `U` not yet visited, and nothing visited. */
  ghost predicate Unseen(U: set<Node>, visited: set<Node>, unseen: set<Node>)
  {
    (forall x :: x in U ==> x in visited || x in unseen) && unseen !! visited
  }

  /** Visiting one more node of `U` takes it out of `unseen`, which shrinks. */
  lemma UnseenShrinks(U: set<Node>, visited: set<Node>, unseen: set<Node>, n: Node)
    requires Unseen(U, visited, unseen) && n in U && n !in visited
    ensures Unseen(U, visited + {n}, unseen - {n})
    ensures |unseen - {n}| + 1 == |unseen|
  {
    assert n in unseen;
  }

  /**
   * The neighbours a loop `for n in es: if n not in visited: visited.add(n)`
   * adds, in the order it adds them: the keys of `es` outside `visited`,
   * each at its first occurrence.
   */
  function Unvisited(es: Neighbours, visited: set<Node>): seq<Node>
  {
    if es == [] then []
    else
      var init := Unvisited(es[..|es| - 1], visited);
      var n := es[|es| - 1].0;
      if n in visited || n in init then init else init + [n]
  }

  /** One more turn of the loop `Unvisited` describes. */
  lemma UnvisitedNext(es: Neighbours, j: nat, visited: set<Node>)
    requires j < |es|
    ensures Unvisited(es[..j + 1], visited) ==
      var added := Unvisited(es[..j], visited);
      if es[j].0 in visited || es[j].0 in added then added else added + [es[j].0]
  {
    assert es[..j + 1][..j] == es[..j];
  }

  /** `Unvisited` lists each key of `es` outside `visited` exactly once, and nothing else. */
  lemma {:induction false} UnvisitedElements(es: Neighbours, visited: set<Node>)
    ensures NoDuplicates(Unvisited(es, visited))
    ensures forall n :: n in Unvisited(es, visited) <==> n !in visited && n in Keys(es)
  {
    if es != [] {
      var init, n := es[..|es| - 1], es[|es| - 1].0;
      var added := Unvisited(init, visited);
      UnvisitedElements(init, visited);
      assert Keys(es) == Keys(init) + [n];
      if n !in visited && n !in added {
        AppendDistinct(added, n);
      }
    }
  }

  /** After the loop `Unvisited` describes, every listed neighbour is visited. */
  lemma UnvisitedCovers(es: Neighbours, visited0: set<Node>, visited: set<Node>)
    requires visited == visited0 + Elements(Unvisited(es, visited0))
    ensures forall k :: 0 <= k < |es| ==> es[k].0 in visited
  {
    UnvisitedElements(es, visited0);
    assert forall k :: 0 <= k < |es| ==> es[k].0 in Keys(es);
  }

  /** `p` is a walk of at least one node from `s` to `t` along edges of `g`. */
  ghost predicate WalkBetween(g: Graph, p: seq<Node>, s: Node, t: Node)
  {
    && |p| >= 1
    && p[0] == s
    && p[|p| - 1] == t
    && forall i :: 0 <= i < |p| - 1 ==> Edge(g, p[i], p[i + 1])
  }

  ghost predicate Reachable(g: Graph, s: Node, t: Node)
  {
    exists p :: WalkBetween(g, p, s, t)
  }

  /** A node one edge beyond a reachable node is reachable. */
  lemma ReachableStep(g: Graph, s: Node, a: Node, b: Node)
    requires Reachable(g, s, a) && Edge(g, a, b)
    ensures Reachable(g, s, b)
  {
    var p :| WalkBetween(g, p, s, a);
    ExtendWalk(g, p, s, a, b);
  }

  /** Sum of the distances along a walk. */
  function PathWeight(g: Graph, p: seq<Node>): nat
  {
    if |p| <= 1 then 0
    else PathWeight(g, p[..|p| - 1]) + Distance(g, p[|p| - 2], p[|p| - 1])
  }

  /** A set closed under the edges of `g`. */
  ghost predicate Closed(g: Graph, S: set<Node>)
  {
    forall a, b :: a in S && Edge(g, a, b) ==> b in S
  }

  /** Every prefix of a walk is a walk to the prefix's last node. */
  lemma PrefixWalk(g: Graph, p: seq<Node>, s: Node, t: Node, m: nat)
    requires WalkBetween(g, p, s, t)
    requires 1 <= m <= |p|
    ensures WalkBetween(g, p[..m], s, p[m - 1])
  {
  }

  /** Extending a walk by one edge gives a walk, one distance heavier. */
  lemma ExtendWalk(g: Graph, p: seq<Node>, s: Node, t: Node, u: Node)
    requires WalkBetween(g, p, s, t)
    requires Edge(g, t, u)
    ensures WalkBetween(g, p + [u], s, u)
    ensures PathWeight(g, p + [u]) == PathWeight(g, p) + Distance(g, t, u)
  {
    assert (p + [u])[..|p|] == p;
  }

  /** Distances are never negative, so a prefix of a walk weighs no more than the walk. */
  lemma {:induction false} PrefixWeight(g: Graph, p: seq<Node>, m: nat)
    requires 1 <= m <= |p|
    ensures PathWeight(g, p[..m]) <= PathWeight(g, p)
  {
    if m < |p| {
      PrefixWeight(g, p[..|p| - 1], m);
      assert p[..|p| - 1][..m] == p[..m];
    } else {
      assert p[..m] == p;
    }
  }

  /** A set that holds `s` and is closed under edges holds every node reachable from `s`. */
  lemma {:induction false} ClosedHoldsReachable(g: Graph, S: set<Node>, p: seq<Node>, s: Node, t: Node)
    requires s in S && Closed(g, S)
    requires WalkBetween(g, p, s, t)
    ensures t in S
  {
    if |p| > 1 {
      PrefixWalk(g, p, s, t, |p| - 1);
      ClosedHoldsReachable(g, S, p[..|p| - 1], s, p[|p| - 2]);
      assert Edge(g, p[|p| - 2], p[|p| - 1]);
    }
  }

  /** A neighbour that shows up in a node's list is an edge from that node. */
  lemma ListedIsEdge(g: Graph, n: Node, k: nat)
    requires k < |NeighboursOf(g, n)|
    ensures Edge(g, n, NeighboursOf(g, n)[k].0)
  {
  }

  /** In a dictionary, the distance listed at position `k` is the one `Lookup` finds. */
  lemma {:induction false} LookupAt(es: Neighbours, k: nat)
    requires DistinctKeys(es) && k < |es|
    ensures Lookup(es, es[k].0) == Some(es[k].1)
  {
    if k > 0 {
      assert Keys(es)[0] != Keys(es)[k];
      assert Keys(es[1..]) == Keys(es)[1..];
      LookupAt(es[1..], k - 1);
    }
  }

  /** In a well-formed graph, the listed distance is the edge's distance. */
  lemma ListedDistance(g: Graph, n: Node, k: nat)
    requires WellFormed(g)
    requires n in g && k < |g[n]|
    ensures EdgeWeight(g, n, g[n][k].0) == Some(g[n][k].1)
  {
    LookupAt(g[n], k);
  }
}
