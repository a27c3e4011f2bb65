/**
 * Uniform-cost search (UCS.py, lines 7-27).
 *
 * The priority queue holds `(cost, node, path)` tuples and `heapq` pops the
 * least of them in Python's tuple order. A node is settled (added to
 * `visitados`) when it is popped for the first time; the goal is checked on
 * popping, before the settled test, so the first goal entry popped is returned.
 */
module UniformCost {
  import opened Wrappers
  import opened Graphs
  import opened Ordering

  /** A queue entry: the cost of `path`, the node it ends at, and the path from the start. */
  datatype Entry = Entry(cost: nat, node: Node, path: seq<Node>)

  /**
   * Python's `<` on `(cost, node, path)` tuples: a lesser entry never costs
   * more, and no entry is less than itself.
   */
  function EntryLess(a: Entry, b: Entry): (r: bool)
    ensures r ==> a.cost <= b.cost && a != b
  {
    || a.cost < b.cost
    || (a.cost == b.cost && (StrLess(a.node, b.node) || (a.node == b.node && ListLess(a.path, b.path))))
  }

  /** Tuple comparison is a strict total order on entries. */
  lemma EntryOrder()
    ensures StrictTotalOrder(EntryLess)
  {
    StrOrder();
    ListOrder();
  }

  /** The position of a least entry: the one `heapq.heappop` hands back. */
  function ArgMin(h: seq<Entry>): (i: nat)
    requires |h| > 0
    ensures i < |h|
    ensures forall k :: 0 <= k < |h| ==> !EntryLess(h[k], h[i])
  {
    EntryOrder();
    if |h| == 1 then 0
    else
      var j := ArgMin(h[..|h| - 1]);
      assert forall k :: 0 <= k < |h| - 1 ==> h[..|h| - 1][k] == h[k];
      if EntryLess(h[|h| - 1], h[j]) then |h| - 1 else j
  }

  /** `heapq.heappop`: a least entry, and the queue without it. */
  function PopMin(h: seq<Entry>): (r: (Entry, seq<Entry>))
    requires |h| > 0
    ensures r.0 in h
    ensures forall e :: e in h ==> !EntryLess(e, r.0)
    ensures multiset(r.1) + multiset{r.0} == multiset(h)
  {
    var i := ArgMin(h);
    assert h == h[..i] + [h[i]] + h[i + 1..];
    (h[i], h[..i] + h[i + 1..])
  }

  /**
   * The least entry is unique, so what `heappop` returns does not depend on
   * how the heap happens to be laid out.
   */
  lemma PopMinUnique(h: seq<Entry>, e: Entry)
    requires e in h
    requires forall x :: x in h ==> !EntryLess(x, e)
    ensures PopMin(h).0 == e
  {
    EntryOrder();
    var m := PopMin(h).0;
    assert !EntryLess(m, e) && !EntryLess(e, m);
  }

  /** The entry's path is a walk from `start` to its node and its cost is the walk's weight. */
  ghost predicate Walked(g: Graph, start: Node, e: Entry)
  {
    WalkBetween(g, e.path, start, e.node) && e.cost == PathWeight(g, e.path)
  }

  /** Some queued entry reaches `u` for at most `bound`. */
  ghost predicate Offered(heap: seq<Entry>, u: Node, bound: nat)
  {
    exists e :: e in heap && e.node == u && e.cost <= bound
  }

  /** No walk from `start` to `v` weighs less than `d`. */
  ghost predicate NoShorter(g: Graph, start: Node, v: Node, d: nat)
  {
    forall w :: WalkBetween(g, w, start, v) ==> d <= PathWeight(g, w)
  }

  /** Some walk from `start` to `v` weighs exactly `d`. */
  ghost predicate Attained(g: Graph, start: Node, v: Node, d: nat)
  {
    exists p :: WalkBetween(g, p, start, v) && PathWeight(g, p) == d
  }

  /**
   * Every edge out of a settled node (other than those in `except`) to an
   * unsettled one is on offer in the queue for at most the settled cost plus
   * the edge's distance.
   */
  ghost predicate Covered(g: Graph, heap: seq<Entry>, settled: map<Node, nat>, except: set<Node>)
  {
    forall v, u {:trigger Edge(g, v, u)} ::
      v in settled && v !in except && u !in settled && Edge(g, v, u) ==>
        Offered(heap, u, settled[v] + Distance(g, v, u))
  }

  /** `order` lists the settled nodes once each, by non-decreasing settled cost. */
  ghost predicate SettledInOrder(order: seq<Node>, settled: map<Node, nat>)
  {
    && NoDuplicates(order)
    && (forall k :: 0 <= k < |order| ==> order[k] in settled)
    && (forall v :: v in settled ==> v in order)
    && (forall i, j :: 0 <= i < j < |order| ==> settled[order[i]] <= settled[order[j]])
  }

  /** Every queued entry is a walk from `start` weighing its cost, no cheaper than `floor`, to a node of `U`. */
  ghost predicate QueueWalks(g: Graph, start: Node, heap: seq<Entry>, floor: nat, U: set<Node>)
  {
    forall e :: e in heap ==> Walked(g, start, e) && floor <= e.cost && e.node in U
  }

  /** Every settled cost is the shortest distance from `start`. */
  ghost predicate Distances(g: Graph, start: Node, settled: map<Node, nat>)
  {
    forall v :: v in settled ==> NoShorter(g, start, v, settled[v]) && Attained(g, start, v, settled[v])
  }

  /** No settled cost exceeds `ceiling`. */
  ghost predicate AtMost(settled: map<Node, nat>, ceiling: nat)
  {
    forall v :: v in settled ==> settled[v] <= ceiling
  }

  /**
   * What holds between two pops: queued entries are walks weighing their
   * cost, no cheaper than the last settled cost; settled costs are shortest
   * distances, settled in order; the frontier is covered; `start` is settled
   * or queued at cost 0; `goal` is never settled.
   */
  ghost predicate Searching(g: Graph, start: Node, goal: Node, heap: seq<Entry>, settled: map<Node, nat>,
                            last: nat, U: set<Node>, unseen: set<Node>, order: seq<Node>)
  {
    && QueueWalks(g, start, heap, last, U)
    && Distances(g, start, settled)
    && AtMost(settled, last)
    && Covered(g, heap, settled, {})
    && (start in settled || Offered(heap, start, 0))
    && goal !in settled
    && Unseen(U, settled.Keys, unseen)
    && SettledInOrder(order, settled)
  }

  /** The first node of a walk that lies outside `S`, when its last node does. */
  lemma FirstOutside(w: seq<Node>, S: set<Node>) returns (m: nat)
    requires |w| > 0 && w[|w| - 1] !in S
    ensures m < |w| && w[m] !in S
    ensures forall j :: 0 <= j < m ==> w[j] in S
  {
    m := 0;
    while w[m] in S
      invariant m < |w|
      invariant forall j :: 0 <= j < m ==> w[j] in S
      decreases |w| - m
    {
      m := m + 1;
    }
  }

  /**
   * Where a walk from `start` first leaves the settled set, at position `m`,
   * the queue offers that node for no more than the walk weighs.
   */
  lemma CrossingOffered(g: Graph, start: Node, heap: seq<Entry>, settled: map<Node, nat>, w: seq<Node>, t: Node, m: nat)
    returns (x: Entry)
    requires forall v :: v in settled ==> NoShorter(g, start, v, settled[v])
    requires Covered(g, heap, settled, {})
    requires WalkBetween(g, w, start, t)
    requires 0 < m < |w| && w[m - 1] in settled && w[m] !in settled
    ensures x in heap && x.cost <= PathWeight(g, w)
  {
    var v, u := w[m - 1], w[m];
    assert Edge(g, v, u);
    assert NoShorter(g, start, v, settled[v]);
    CrossingWeight(g, start, w, t, m, settled[v]);
    assert Offered(heap, u, settled[v] + Distance(g, v, u));
    x :| x in heap && x.node == u && x.cost <= settled[v] + Distance(g, v, u);
  }

  /** A walk weighs at least the shortest distance to a node on it plus the next edge. */
  lemma CrossingWeight(g: Graph, start: Node, w: seq<Node>, t: Node, m: nat, d: nat)
    requires WalkBetween(g, w, start, t)
    requires 0 < m < |w|
    requires NoShorter(g, start, w[m - 1], d)
    ensures d + Distance(g, w[m - 1], w[m]) <= PathWeight(g, w)
  {
    PrefixWalk(g, w, start, t, m);
    assert d <= PathWeight(g, w[..m]);
    assert w[..m + 1][..m] == w[..m];
    assert PathWeight(g, w[..m + 1]) == PathWeight(g, w[..m]) + Distance(g, w[m - 1], w[m]);
    PrefixWeight(g, w, m + 1);
  }

  /**
   * The heart of uniform-cost search: a least queued entry for an unsettled
   * node costs no more than any walk to that node, since every such walk
   * leaves the settled set along an edge the queue covers.
   */
  lemma PopIsShortest(g: Graph, start: Node, heap: seq<Entry>, settled: map<Node, nat>, e: Entry, w: seq<Node>)
    requires forall x :: x in heap ==> !EntryLess(x, e)
    requires forall v :: v in settled ==> NoShorter(g, start, v, settled[v])
    requires Covered(g, heap, settled, {})
    requires start in settled || Offered(heap, start, 0)
    requires e.node !in settled
    requires WalkBetween(g, w, start, e.node)
    ensures e.cost <= PathWeight(g, w)
  {
    var m := FirstOutside(w, settled.Keys);
    var x: Entry;
    if m > 0 {
      x := CrossingOffered(g, start, heap, settled, w, e.node, m);
    } else {
      x :| x in heap && x.node == start && x.cost <= 0;
    }
    assert !EntryLess(x, e);
  }

  /** Whether neighbour `n` has been dealt with: settled already, or on offer through `current`. */
  ghost predicate Pushed(heap: seq<Entry>, visited: set<Node>, cost: nat, n: (Node, Weight))
  {
    n.0 in visited || Offered(heap, n.0, cost + n.1)
  }

  /** Every entry of `heap` beyond those of `heap0` is a walk from `start`, no cheaper than `cost`, to a node of `U`. */
  ghost predicate Extends(g: Graph, start: Node, heap0: seq<Entry>, heap: seq<Entry>, cost: nat, U: set<Node>)
  {
    && (forall e :: e in heap0 ==> e in heap)
    && (forall e :: e in heap ==> e in heap0 || (Walked(g, start, e) && cost <= e.cost && e.node in U))
  }

  /**
   * The entries lines 23-25 push for the neighbour list `es` of a node popped
   * at `cost` by `path`: `(cost + d, n, path + [n])` for each `(n, d)` with `n`
   * not in `visited`, in listed order.
   */
  function Pushes(es: Neighbours, visited: set<Node>, cost: nat, path: seq<Node>): seq<Entry>
  {
    if es == [] then []
    else
      var (n, d) := es[|es| - 1];
      Pushes(es[..|es| - 1], visited, cost, path) + if n in visited then [] else [Entry(cost + d, n, path + [n])]
  }

  /** One more turn of the loop `Pushes` describes. */
  lemma PushesNext(es: Neighbours, j: nat, visited: set<Node>, cost: nat, path: seq<Node>)
    requires j < |es|
    ensures Pushes(es[..j + 1], visited, cost, path) ==
      Pushes(es[..j], visited, cost, path) + if es[j].0 in visited then [] else [Entry(cost + es[j].1, es[j].0, path + [es[j].0])]
  {
    assert es[..j + 1][..j] == es[..j];
  }

  /** `Pushes` holds exactly one entry per listed neighbour outside `visited`, and nothing else. */
  lemma {:induction false} PushesElements(es: Neighbours, visited: set<Node>, cost: nat, path: seq<Node>)
    ensures forall x :: x in Pushes(es, visited, cost, path) ==>
      exists k :: 0 <= k < |es| && es[k].0 !in visited && x == Entry(cost + es[k].1, es[k].0, path + [es[k].0])
    ensures forall k :: 0 <= k < |es| && es[k].0 !in visited ==>
      Entry(cost + es[k].1, es[k].0, path + [es[k].0]) in Pushes(es, visited, cost, path)
  {
    if es != [] {
      var init := es[..|es| - 1];
      PushesElements(init, visited, cost, path);
      assert forall k :: 0 <= k < |init| ==> init[k] == es[k];
    }
  }

  /** The entry pushed for the `j`-th neighbour of `current` is a walk weighing its cost. */
  lemma NeighbourWalked(g: Graph, start: Node, current: Node, cost: nat, path: seq<Node>, j: nat)
    requires WellFormed(g)
    requires Walked(g, start, Entry(cost, current, path))
    requires j < |NeighboursOf(g, current)|
    ensures Walked(g, start, Entry(cost + NeighboursOf(g, current)[j].1, NeighboursOf(g, current)[j].0,
                                   path + [NeighboursOf(g, current)[j].0]))
  {
    var neighbor := NeighboursOf(g, current)[j].0;
    ListedDistance(g, current, j);
    assert Distance(g, current, neighbor) == NeighboursOf(g, current)[j].1;
    ExtendWalk(g, path, start, current, neighbor);
  }

  /** Once every neighbour is dealt with, every edge out of `current` to an unsettled node is on offer. */
  lemma AllPushed(g: Graph, current: Node, cost: nat, visited: set<Node>, heap: seq<Entry>)
    requires WellFormed(g)
    requires forall k :: 0 <= k < |NeighboursOf(g, current)| ==> Pushed(heap, visited, cost, NeighboursOf(g, current)[k])
    ensures forall u {:trigger Edge(g, current, u)} ::
      Edge(g, current, u) && u !in visited ==> Offered(heap, u, cost + Distance(g, current, u))
  {
    var neighbors := NeighboursOf(g, current);
    forall u | Edge(g, current, u) && u !in visited ensures Offered(heap, u, cost + Distance(g, current, u)) {
      var k :| 0 <= k < |neighbors| && neighbors[k].0 == u;
      ListedDistance(g, current, k);
      assert Pushed(heap, visited, cost, neighbors[k]);
    }
  }

  /**
   * What lines 23-25 push, on top of any queue, are walks from `start` to
   * nodes of `U`, none cheaper than `cost`.
   */
  lemma PushesWalked(g: Graph, start: Node, current: Node, cost: nat, path: seq<Node>,
                     visited: set<Node>, heap0: seq<Entry>, U: set<Node>)
    requires WellFormed(g)
    requires Walked(g, start, Entry(cost, current, path))
    requires forall k :: 0 <= k < |NeighboursOf(g, current)| ==> NeighboursOf(g, current)[k].0 in U
    ensures Extends(g, start, heap0, heap0 + Pushes(NeighboursOf(g, current), visited, cost, path), cost, U)
  {
    var neighbors := NeighboursOf(g, current);
    var pushes := Pushes(neighbors, visited, cost, path);
    PushesElements(neighbors, visited, cost, path);
    forall x | x in pushes ensures Walked(g, start, x) && cost <= x.cost && x.node in U {
      var k :| 0 <= k < |neighbors| && neighbors[k].0 !in visited &&
        x == Entry(cost + neighbors[k].1, neighbors[k].0, path + [neighbors[k].0]);
      NeighbourWalked(g, start, current, cost, path, k);
      assert x.node == neighbors[k].0 && x.cost == cost + neighbors[k].1;
    }
  }

  /** After lines 23-25, every edge out of `current` to a node outside `visited` is on offer at `cost` plus its distance. */
  lemma PushesOffered(g: Graph, current: Node, cost: nat, path: seq<Node>, visited: set<Node>, heap0: seq<Entry>)
    requires WellFormed(g)
    ensures forall u {:trigger Edge(g, current, u)} :: Edge(g, current, u) && u !in visited ==>
      Offered(heap0 + Pushes(NeighboursOf(g, current), visited, cost, path), u, cost + Distance(g, current, u))
  {
    var neighbors := NeighboursOf(g, current);
    var heap := heap0 + Pushes(neighbors, visited, cost, path);
    PushesElements(neighbors, visited, cost, path);
    forall k | 0 <= k < |neighbors| ensures Pushed(heap, visited, cost, neighbors[k]) {
      if neighbors[k].0 !in visited {
        assert Entry(cost + neighbors[k].1, neighbors[k].0, path + [neighbors[k].0]) in heap;
      }
    }
    AllPushed(g, current, cost, visited, heap);
  }

  /**
   * Lines 23-25: push `(cost + distance, neighbour, path + [neighbour])` for
   * every neighbour of `current` not yet settled, in listed order.
   */
  method PushNeighbours(g: Graph, current: Node, cost: nat, path: seq<Node>, visited: set<Node>, heap0: seq<Entry>)
    returns (heap: seq<Entry>)
    ensures heap == heap0 + Pushes(NeighboursOf(g, current), visited, cost, path)
  {
    heap := heap0;
    var neighbors := NeighboursOf(g, current);
    var j := 0;
    while j < |neighbors|
      invariant 0 <= j <= |neighbors|
      invariant heap == heap0 + Pushes(neighbors[..j], visited, cost, path)
    {
      var (neighbor, distance) := neighbors[j];
      PushesNext(neighbors, j, visited, cost, path);
      if neighbor !in visited {
        heap := heap + [Entry(cost + distance, neighbor, path + [neighbor])];
      }
      j := j + 1;
    }
    assert neighbors[..j] == neighbors;
  }

  /** What a pop leaves behind: everything else that was queued, and one entry fewer. */
  lemma PopMembers(heap: seq<Entry>, e: Entry, rest: seq<Entry>)
    requires multiset(rest) + multiset{e} == multiset(heap)
    ensures forall x :: x in rest ==> x in heap
    ensures forall x :: x in heap && x != e ==> x in rest
    ensures |rest| + 1 == |heap|
  {
    assert |multiset(rest)| + 1 == |multiset(heap)|;
    forall x | x in rest ensures x in heap {
      assert x in multiset(rest);
      assert x in multiset(heap);
    }
    forall x | x in heap && x != e ensures x in rest {
      assert x in multiset(heap);
      assert multiset(heap)[x] == multiset(rest)[x] + multiset{e}[x];
      assert x in multiset(rest);
    }
  }

  /** Python compares costs first, so `heappop` returns an entry no dearer than any queued one. */
  lemma PopLeast(heap: seq<Entry>)
    requires |heap| > 0
    ensures forall x :: x in heap ==> PopMin(heap).0.cost <= x.cost
  {
    var e := PopMin(heap).0;
    forall x | x in heap ensures e.cost <= x.cost {
      assert !EntryLess(x, e);
    }
  }

  /** The loop at lines 23-25 pushes no entry cheaper than the popped cost. */
  lemma PushesNoCheaper(es: Neighbours, visited: set<Node>, cost: nat, path: seq<Node>)
    ensures forall x :: x in Pushes(es, visited, cost, path) ==> cost <= x.cost
  {
    PushesElements(es, visited, cost, path);
  }

  /** Popping an entry for a node already settled (lines 19-20) keeps the invariant. */
  lemma DropKeeps(g: Graph, start: Node, goal: Node, heap: seq<Entry>, e: Entry, rest: seq<Entry>,
                  settled: map<Node, nat>, last: nat, U: set<Node>, unseen: set<Node>, order: seq<Node>)
    requires Searching(g, start, goal, heap, settled, last, U, unseen, order)
    requires multiset(rest) + multiset{e} == multiset(heap)
    requires e.node in settled
    ensures Searching(g, start, goal, rest, settled, last, U, unseen, order)
    ensures |rest| < |heap|
  {
    PopMembers(heap, e, rest);
    assert QueueWalks(g, start, heap, last, U);
    assert QueueWalks(g, start, rest, last, U);
    forall v, u | v in settled && u !in settled && Edge(g, v, u)
      ensures Offered(rest, u, settled[v] + Distance(g, v, u))
    {
      var x :| x in heap && x.node == u && x.cost <= settled[v] + Distance(g, v, u);
      assert x in rest;
    }
    if start !in settled {
      var x :| x in heap && x.node == start && x.cost <= 0;
      assert x in rest;
    }
  }

  /**
   * The queue after settling `e` and pushing its neighbours (lines 21-25):
   * every entry is still a walk, none cheaper than `e`, and the frontier of
   * the enlarged settled map is covered.
   */
  lemma SettleKeepsQueue(g: Graph, start: Node, heap: seq<Entry>, e: Entry, rest: seq<Entry>, heap': seq<Entry>,
                         settled: map<Node, nat>, settled': map<Node, nat>, U: set<Node>)
    requires QueueWalks(g, start, heap, 0, U)
    requires Covered(g, heap, settled, {})
    requires start in settled || Offered(heap, start, 0)
    requires multiset(rest) + multiset{e} == multiset(heap)
    requires forall x :: x in heap ==> !EntryLess(x, e)
    requires settled' == settled[e.node := e.cost]
    requires Extends(g, start, rest, heap', e.cost, U)
    requires forall u {:trigger Edge(g, e.node, u)} ::
      Edge(g, e.node, u) && u !in settled' ==> Offered(heap', u, e.cost + Distance(g, e.node, u))
    ensures QueueWalks(g, start, heap', e.cost, U)
    ensures Covered(g, heap', settled', {})
    ensures start in settled' || Offered(heap', start, 0)
  {
    PopMembers(heap, e, rest);
    forall x | x in heap' ensures Walked(g, start, x) && e.cost <= x.cost && x.node in U {
      if x in rest {
        assert !EntryLess(x, e);
      }
    }
    forall v, u | v in settled' && u !in settled' && Edge(g, v, u)
      ensures Offered(heap', u, settled'[v] + Distance(g, v, u))
    {
      if v != e.node {
        var x :| x in heap && x.node == u && x.cost <= settled[v] + Distance(g, v, u);
        assert x in rest;
      }
    }
    if start !in settled' {
      var x :| x in heap && x.node == start && x.cost <= 0;
      assert x in rest;
    }
  }

  /** Settling `e` at its cost records a shortest distance, because `e` is least in the queue. */
  lemma SettleShortest(g: Graph, start: Node, heap: seq<Entry>, e: Entry, settled: map<Node, nat>, settled': map<Node, nat>)
    requires forall x :: x in heap ==> !EntryLess(x, e)
    requires Distances(g, start, settled)
    requires Covered(g, heap, settled, {})
    requires start in settled || Offered(heap, start, 0)
    requires e.node !in settled && Walked(g, start, e)
    requires settled' == settled[e.node := e.cost]
    ensures Distances(g, start, settled')
  {
    forall v | v in settled' ensures NoShorter(g, start, v, settled'[v]) && Attained(g, start, v, settled'[v]) {
      if v == e.node {
        forall w | WalkBetween(g, w, start, e.node) ensures e.cost <= PathWeight(g, w) {
          PopIsShortest(g, start, heap, settled, e, w);
        }
        assert WalkBetween(g, e.path, start, v) && PathWeight(g, e.path) == settled'[v];
      } else {
        assert settled'[v] == settled[v];
      }
    }
  }

  /** Appending a node settled no cheaper than any before keeps `order` in order. */
  lemma SettleInOrder(order: seq<Node>, settled: map<Node, nat>, settled': map<Node, nat>, u: Node, c: nat, last: nat)
    requires SettledInOrder(order, settled)
    requires AtMost(settled, last)
    requires last <= c && u !in settled && settled' == settled[u := c]
    ensures SettledInOrder(order + [u], settled')
    ensures AtMost(settled', c)
  {
    var order' := order + [u];
    AppendDistinct(order, u);
    forall i, j | 0 <= i < j < |order'| ensures settled'[order'[i]] <= settled'[order'[j]] {
      assert order'[i] == order[i] && order[i] in settled && order[i] != u;
      if j < |order| {
        assert order'[j] == order[j] && order[j] != u;
      }
    }
  }

  /** Lines 8-11: the queue holds only `(0, start, [start])` and nothing is settled. */
  lemma SearchStarts(g: Graph, start: Node, goal: Node, U: set<Node>)
    requires start in U
    ensures Searching(g, start, goal, [Entry(0, start, [start])], map[], 0, U, U, [])
  {
    assert Walked(g, start, Entry(0, start, [start]));
    assert Entry(0, start, [start]) in [Entry(0, start, [start])];
  }

  /** Lines 21-25: settling the least entry `e` and pushing its neighbours keeps the invariant. */
  lemma SettleKeeps(g: Graph, start: Node, goal: Node, heap: seq<Entry>, e: Entry, rest: seq<Entry>, heap': seq<Entry>,
                    settled: map<Node, nat>, last: nat, U: set<Node>, unseen: set<Node>, order: seq<Node>)
    requires Searching(g, start, goal, heap, settled, last, U, unseen, order)
    requires e in heap && forall x :: x in heap ==> !EntryLess(x, e)
    requires multiset(rest) + multiset{e} == multiset(heap)
    requires e.node !in settled && e.node != goal
    requires Extends(g, start, rest, heap', e.cost, U)
    requires forall u {:trigger Edge(g, e.node, u)} ::
      Edge(g, e.node, u) && u !in settled.Keys + {e.node} ==> Offered(heap', u, e.cost + Distance(g, e.node, u))
    ensures Searching(g, start, goal, heap', settled[e.node := e.cost], e.cost, U, unseen - {e.node}, order + [e.node])
    ensures |unseen - {e.node}| < |unseen|
  {
    var settled' := settled[e.node := e.cost];
    assert settled'.Keys == settled.Keys + {e.node};
    assert QueueWalks(g, start, heap, 0, U);
    SettleKeepsQueue(g, start, heap, e, rest, heap', settled, settled', U);
    assert Walked(g, start, e) && last <= e.cost && e.node in U;
    SettleShortest(g, start, heap, e, settled, settled');
    SettleInOrder(order, settled, settled', e.node, e.cost, last);
    UnseenShrinks(U, settled.Keys, unseen, e.node);
  }

  /** Lines 14-17: the goal entry popped first is a walk to the goal no heavier than any other. */
  lemma GoalPopped(g: Graph, start: Node, goal: Node, heap: seq<Entry>, e: Entry, settled: map<Node, nat>, last: nat,
                   U: set<Node>, unseen: set<Node>, order: seq<Node>)
    requires Searching(g, start, goal, heap, settled, last, U, unseen, order)
    requires e in heap && forall x :: x in heap ==> !EntryLess(x, e)
    requires e.node == goal
    ensures WalkBetween(g, e.path, start, goal) && e.cost == PathWeight(g, e.path)
    ensures NoShorter(g, start, goal, e.cost)
    ensures AtMost(settled, e.cost)
  {
    assert Walked(g, start, e);
    forall w | WalkBetween(g, w, start, goal) ensures e.cost <= PathWeight(g, w) {
      PopIsShortest(g, start, heap, settled, e, w);
    }
  }

  /** Lines 13 and 27: once the queue runs dry every reachable node is settled, and the goal is unreachable. */
  lemma ExhaustedUnreachable(g: Graph, start: Node, goal: Node, settled: map<Node, nat>, last: nat,
                             U: set<Node>, unseen: set<Node>, order: seq<Node>)
    requires Searching(g, start, goal, [], settled, last, U, unseen, order)
    ensures forall v :: Reachable(g, start, v) ==> v in settled
    ensures !Reachable(g, start, goal)
  {
    assert start in settled;
    assert Closed(g, settled.Keys);
    forall v | Reachable(g, start, v) ensures v in settled {
      var p :| WalkBetween(g, p, start, v);
      ClosedHoldsReachable(g, settled.Keys, p, start, v);
    }
  }

  /** Lines 21-25: settle the popped entry's node at its cost and push its unsettled neighbours. */
  method Settle(g: Graph, ghost start: Node, ghost goal: Node, ghost heap0: seq<Entry>, e: Entry, rest: seq<Entry>,
                visited0: set<Node>, ghost settled0: map<Node, nat>, ghost last0: nat, ghost U: set<Node>,
                ghost unseen0: set<Node>, ghost order0: seq<Node>)
    returns (heap: seq<Entry>, visited: set<Node>, ghost settled: map<Node, nat>,
             ghost last: nat, ghost unseen: set<Node>, ghost order: seq<Node>)
    requires WellFormed(g) && visited0 == settled0.Keys
    requires forall n, k :: n in g && 0 <= k < |g[n]| ==> g[n][k].0 in U
    requires Searching(g, start, goal, heap0, settled0, last0, U, unseen0, order0)
    requires e in heap0 && forall x :: x in heap0 ==> !EntryLess(x, e)
    requires multiset(rest) + multiset{e} == multiset(heap0)
    requires e.node !in settled0 && e.node != goal
    ensures heap == rest + Pushes(NeighboursOf(g, e.node), visited0 + {e.node}, e.cost, e.path)
    ensures visited == visited0 + {e.node}
    ensures settled == settled0[e.node := e.cost] && last == e.cost
    ensures order == order0 + [e.node] && unseen == unseen0 - {e.node}
    ensures visited == settled.Keys
    ensures Searching(g, start, goal, heap, settled, last, U, unseen, order)
    ensures |unseen| < |unseen0|
  {
    heap := PushNeighbours(g, e.node, e.cost, e.path, visited0 + {e.node}, rest);
    PushesWalked(g, start, e.node, e.cost, e.path, visited0 + {e.node}, rest, U);
    PushesOffered(g, e.node, e.cost, e.path, visited0 + {e.node}, rest);
    SettleKeeps(g, start, goal, heap0, e, rest, heap, settled0, last0, U, unseen0, order0);
    visited := visited0 + {e.node};
    settled := settled0[e.node := e.cost];
    order := order0 + [e.node];
    last := e.cost;
    unseen := unseen0 - {e.node};
  }

  /** Every popped entry's path is a walk from `start` whose weight is its cost. */
  ghost predicate PoppedWalks(g: Graph, start: Node, popped: seq<Entry>)
  {
    forall i :: 0 <= i < |popped| ==> Walked(g, start, popped[i])
  }

  /** Popping a queued entry, which is a walk, keeps `PoppedWalks`. */
  lemma PoppedWalksNext(g: Graph, start: Node, popped: seq<Entry>, heap: seq<Entry>, floor: nat, U: set<Node>)
    requires PoppedWalks(g, start, popped) && QueueWalks(g, start, heap, floor, U) && |heap| > 0
    ensures PoppedWalks(g, start, popped + [PopMin(heap).0])
  {
    var p := popped + [PopMin(heap).0];
    forall i | 0 <= i < |p| ensures Walked(g, start, p[i]) {
      if i < |popped| {
        assert p[i] == popped[i];
      }
    }
  }

  /**
   * Lines 14-25, one turn of the loop: pop the least entry; hand it back if
   * it reaches the goal, drop it if its node is settled, otherwise settle
   * the node and push its unsettled neighbours.
   */
  method Step(g: Graph, ghost start: Node, goal: Node, heap0: seq<Entry>, visited0: set<Node>,
              ghost settled0: map<Node, nat>, ghost last0: nat, ghost U: set<Node>, ghost unseen0: set<Node>,
              ghost order0: seq<Node>, ghost popped0: seq<Entry>)
    returns (found: Option<Entry>, heap: seq<Entry>, visited: set<Node>, ghost settled: map<Node, nat>,
             ghost last: nat, ghost unseen: set<Node>, ghost order: seq<Node>, ghost popped: seq<Entry>)
    requires WellFormed(g) && |heap0| > 0 && visited0 == settled0.Keys
    requires forall n, k :: n in g && 0 <= k < |g[n]| ==> g[n][k].0 in U
    requires Searching(g, start, goal, heap0, settled0, last0, U, unseen0, order0)
    requires PopsInOrder(popped0, heap0) && PoppedWalks(g, start, popped0)
    ensures found.Some? <==> PopMin(heap0).0.node == goal
    ensures found.Some? ==> found.value == PopMin(heap0).0
    ensures found.None? && PopMin(heap0).0.node in visited0 ==> heap == PopMin(heap0).1 && visited == visited0
    ensures found.None? && PopMin(heap0).0.node !in visited0 ==>
      var e := PopMin(heap0).0;
      && heap == PopMin(heap0).1 + Pushes(NeighboursOf(g, e.node), visited0 + {e.node}, e.cost, e.path)
      && visited == visited0 + {e.node}
    ensures found.Some? ==> found.value.node == goal && Walked(g, start, found.value)
    ensures found.Some? ==> NoShorter(g, start, goal, found.value.cost) && AtMost(settled, found.value.cost)
    ensures found.Some? && heap0 == [Entry(0, start, [start])] ==> found.value == heap0[0]
    ensures found.None? ==> heap0 != [Entry(0, start, [start])] || start != goal
    ensures visited == settled.Keys
    ensures Searching(g, start, goal, heap, settled, last, U, unseen, order)
    ensures found.None? ==> |unseen| < |unseen0| || (|unseen| == |unseen0| && |heap| < |heap0|)
    ensures found.None? ==> forall x :: x in heap ==> PopMin(heap0).0.cost <= x.cost
    ensures popped == popped0 + [PopMin(heap0).0]
    ensures PopsInOrder(popped, heap) && PoppedWalks(g, start, popped)
  {
    var (e, rest) := PopMin(heap0);
    PopLeast(heap0);
    PoppedWalksNext(g, start, popped0, heap0, last0, U);
    popped := popped0 + [e];
    heap, visited, settled, last, unseen, order := heap0, visited0, settled0, last0, unseen0, order0;
    if e.node == goal {
      GoalPopped(g, start, goal, heap0, e, settled0, last0, U, unseen0, order0);
      PopNext(popped0, heap0, heap0);
      return Some(e), heap, visited, settled, last, unseen, order, popped;
    }
    found := None;
    if e.node in visited {
      DropKeeps(g, start, goal, heap0, e, rest, settled0, last0, U, unseen0, order0);
      PopMembers(heap0, e, rest);
      heap := rest;
    } else {
      heap, visited, settled, last, unseen, order := Settle(g, start, goal, heap0, e, rest, visited0, settled0, last0, U, unseen0, order0);
      PopMembers(heap0, e, rest);
      PushesNoCheaper(NeighboursOf(g, e.node), visited0 + {e.node}, e.cost, e.path);
    }
    PopNext(popped0, heap0, heap);
  }

  /** Each entry costs no less than the entries before it. */
  ghost predicate CostsInOrder(popped: seq<Entry>)
  {
    forall i, j :: 0 <= i < j < |popped| ==> popped[i].cost <= popped[j].cost
  }

  /**
   * The entries popped so far cost no less one after another, and none
   * costs more than an entry still queued.
   */
  ghost predicate PopsInOrder(popped: seq<Entry>, heap: seq<Entry>)
  {
    && CostsInOrder(popped)
    && (|popped| > 0 ==> forall x :: x in heap ==> popped[|popped| - 1].cost <= x.cost)
  }

  /** Line 14 again: the next pop costs no less than the previous ones. */
  lemma PopNext(popped: seq<Entry>, heap: seq<Entry>, heap': seq<Entry>)
    requires PopsInOrder(popped, heap) && |heap| > 0
    requires forall x :: x in heap' ==> PopMin(heap).0.cost <= x.cost
    ensures PopsInOrder(popped + [PopMin(heap).0], heap')
  {
    var e := PopMin(heap).0;
    var p := popped + [e];
    forall i, j | 0 <= i < j < |p| ensures p[i].cost <= p[j].cost {
      if j == |popped| {
        assert p[i] == popped[i] && p[j] == e;
        if i < |popped| - 1 {
          assert popped[i].cost <= popped[|popped| - 1].cost;
        }
      } else {
        assert p[i] == popped[i] && p[j] == popped[j];
      }
    }
  }

  /**
   * `busca_custo_uniforme(grafo, inicio, objetivo)`: the path and cost of
   * the first goal entry popped, or `None` (the source's `(None, inf)`).
   * `settled` holds the settled nodes' costs and `order` the order in which
   * they were settled.
   */
  method UniformCostSearch(g: Graph, start: Node, goal: Node)
    returns (r: Option<(seq<Node>, nat)>, ghost settled: map<Node, nat>, ghost order: seq<Node>, ghost popped: seq<Entry>)
    requires WellFormed(g)
    ensures start == goal ==> r == Some(([start], 0))
    ensures r.Some? ==> WalkBetween(g, r.value.0, start, goal) && r.value.1 == PathWeight(g, r.value.0)
    ensures r.Some? ==> NoShorter(g, start, goal, r.value.1)
    ensures r.None? <==> !Reachable(g, start, goal)
    ensures Distances(g, start, settled)
    ensures SettledInOrder(order, settled)
    ensures r.Some? ==> forall v :: v in settled ==> settled[v] <= r.value.1
    ensures r.None? ==> forall v :: Reachable(g, start, v) ==> v in settled
    ensures CostsInOrder(popped)
    ensures PoppedWalks(g, start, popped)
    ensures r.Some? ==> |popped| > 0 && popped[|popped| - 1] == Entry(r.value.1, goal, r.value.0)
  {
    var heap := [Entry(0, start, [start])];
    var visited: set<Node> := {};
    settled, order, popped := map[], [], [];
    ghost var last: nat := 0;
    ghost var mentioned := MentionedNodes(g);
    ghost var U := mentioned + {start};
    ghost var unseen := U;
    SearchStarts(g, start, goal, U);

    while |heap| > 0
      invariant visited == settled.Keys
      invariant Searching(g, start, goal, heap, settled, last, U, unseen, order)
      invariant start == goal ==> heap == [Entry(0, start, [start])]
      invariant PopsInOrder(popped, heap)
      invariant PoppedWalks(g, start, popped)
      decreases |unseen|, |heap|
    {
      var found;
      found, heap, visited, settled, last, unseen, order, popped :=
        Step(g, start, goal, heap, visited, settled, last, U, unseen, order, popped);
      if found.Some? {
        return Some((found.value.path, found.value.cost)), settled, order, popped;
      }
    }
    r := None;
    ExhaustedUnreachable(g, start, goal, settled, last, U, unseen, order);
  }
}
