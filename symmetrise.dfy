/**
 * Making the loaded graph undirected (dfs_search.py, lines 18-24).
 *
 * `graph_dict` starts as a deep copy of the loaded document; then, for every
 * declared entry `node -> neighbor` in document order, the reverse entry
 * `graph_dict[neighbor][node] = distance` is written, creating an empty
 * neighbour list first when `neighbor` is not yet a key.
 */
module Symmetrisation {
  import opened Wrappers
  import opened Graphs

  /** The loaded JSON object `{node: {neighbor: distance}}`, keys in document order. */
  type Document = seq<(Node, Neighbours)>

  function DocKeys(doc: Document): (ks: seq<Node>)
    ensures |ks| == |doc|
    ensures forall i :: 0 <= i < |doc| ==> ks[i] == doc[i].0
  {
    if doc == [] then [] else DocKeys(doc[..|doc| - 1]) + [doc[|doc| - 1].0]
  }

  /** A document that is a dictionary of dictionaries. */
  ghost predicate WellFormedDoc(doc: Document)
  {
    && NoDuplicates(DocKeys(doc))
    && forall i :: 0 <= i < |doc| ==> DistinctKeys(doc[i].1)
  }

  /**
   * The distance of `a -> b` after symmetrisation: the one `b` declared for `a`
   * when `b` declares `a`, otherwise the one `a` declared for `b`.
   */
  function SymmetricDistance(doc: Document, a: Node, b: Node): Option<Weight>
  {
    if Declared(doc, b, a).Some? then Declared(doc, b, a) else Declared(doc, a, b)
  }

  /** `doc.get(n)`. */
  function DocLookup(doc: Document, n: Node): (r: Option<Neighbours>)
    ensures r.Some? <==> exists i :: 0 <= i < |doc| && doc[i].0 == n
  {
    if doc == [] then None
    else if doc[0].0 == n then Some(doc[0].1)
    else
      var r := DocLookup(doc[1..], n);
      assert forall i :: 1 <= i < |doc| ==> doc[i] == doc[1..][i - 1];
      r
  }

  /** The distance the document declares for `a -> b`, if it declares one. */
  function Declared(doc: Document, a: Node, b: Node): Option<Weight>
  {
    match DocLookup(doc, a)
    case Some(es) => Lookup(es, b)
    case None => None
  }

  /** Every node the document names, as a key or as a neighbour. */
  ghost function DocNodes(doc: Document): set<Node>
  {
    (set i | 0 <= i < |doc| :: doc[i].0) + MentionedNeighbours(doc)
  }

  ghost function MentionedNeighbours(doc: Document): set<Node>
  {
    set i, j | 0 <= i < |doc| && 0 <= j < |doc[i].1| :: doc[i].1[j].0
  }

  /** `copy.deepcopy(graph_from_json)`, read as a graph: every edge is the one the document declares. */
  function Copy(doc: Document): (r: Graph)
    ensures forall a, b :: EdgeWeight(r, a, b) == Declared(doc, a, b)
  {
    map n | n in (set i | 0 <= i < |doc| :: doc[i].0) :: DocLookup(doc, n).value
  }

  /**
   * One step of the inner loop: `graph_dict[neighbor][node] = distance`,
   * creating `neighbor`'s list when it is not yet a key. Only the edge
   * `neighbor -> node` changes.
   */
  function AddReverse(d: Graph, node: Node, neighbor: Node, distance: Weight): (r: Graph)
  {
    var d' := if neighbor in d then d else d[neighbor := []];
    d'[neighbor := Put(d'[neighbor], node, distance)]
  }

  /** The inner loop over the entries `es` declared by `node`. */
  function ReverseEntries(d: Graph, node: Node, es: Neighbours): (r: Graph)
  {
    if es == [] then d
    else
      var last := es[|es| - 1];
      AddReverse(ReverseEntries(d, node, es[..|es| - 1]), node, last.0, last.1)
  }

  /** The outer loop over the document's keys. */
  function ReverseDoc(d: Graph, doc: Document): (r: Graph)
  {
    if doc == [] then d
    else
      var last := doc[|doc| - 1];
      ReverseEntries(ReverseDoc(d, doc[..|doc| - 1]), last.0, last.1)
  }

  /**
   * `graph_dict` once the loop at lines 20-24 has finished: every key of the
   * document stays a key, and every node named only as a neighbour becomes one.
   */
  function Symmetrised(doc: Document): (r: Graph)
    ensures r.Keys == DocNodes(doc)
  {
    ReverseDocKeys(Copy(doc), doc);
    ReverseDoc(Copy(doc), doc)
  }

  /** The loop itself, run on a copy of the document. */
  method Symmetrise(doc: Document) returns (graph: Graph)
    requires WellFormedDoc(doc)
    ensures graph == Symmetrised(doc)
    ensures WellFormed(graph)
    ensures graph.Keys == DocNodes(doc)
    ensures forall a, b :: EdgeWeight(graph, a, b) == SymmetricDistance(doc, a, b)
  {
    graph := Copy(doc);
    ghost var copy := graph;
    var i := 0;
    while i < |doc|
      invariant 0 <= i <= |doc|
      invariant graph == ReverseDoc(copy, doc[..i])
    {
      graph := ReverseNeighbours(graph, doc[i].0, doc[i].1);
      assert doc[..i + 1][..i] == doc[..i];
      i := i + 1;
    }
    assert doc[..i] == doc;
    SymmetrisedGraph(doc);
  }

  /** The inner loop at lines 22-24, for the entries declared by `node`. */
  method ReverseNeighbours(graph0: Graph, node: Node, neighbors: Neighbours) returns (graph: Graph)
    ensures graph == ReverseEntries(graph0, node, neighbors)
  {
    graph := graph0;
    var j := 0;
    while j < |neighbors|
      invariant 0 <= j <= |neighbors|
      invariant graph == ReverseEntries(graph0, node, neighbors[..j])
    {
      var (neighbor, distance) := neighbors[j];
      if neighbor !in graph {
        graph := graph[neighbor := []];
      }
      graph := graph[neighbor := Put(graph[neighbor], node, distance)];
      assert neighbors[..j + 1][..j] == neighbors[..j];
      j := j + 1;
    }
    assert neighbors[..j] == neighbors;
  }

  /** A reverse write adds `neighbor` as a key when it is not one yet, and no other key. */
  lemma AddReverseKeys(d: Graph, node: Node, neighbor: Node, distance: Weight)
    ensures AddReverse(d, node, neighbor, distance).Keys == d.Keys + {neighbor}
  {
  }

  /** A reverse write sets the edge `neighbor -> node` to `distance` and changes no other. */
  lemma AddReverseEffect(d: Graph, node: Node, neighbor: Node, distance: Weight, p: Node, q: Node)
    ensures EdgeWeight(AddReverse(d, node, neighbor, distance), p, q) ==
      if p == neighbor && q == node then Some(distance) else EdgeWeight(d, p, q)
  {
  }

  // ---------------------------------------------------------------------------
  // Lookups in a list built one entry at a time

  lemma {:induction false} LookupSnoc(s: Neighbours, k: Node, v: Weight, p: Node)
    ensures Lookup(s + [(k, v)], p) ==
      if Lookup(s, p).Some? then Lookup(s, p) else if p == k then Some(v) else None
  {
    if s != [] {
      assert (s + [(k, v)])[1..] == s[1..] + [(k, v)];
      LookupSnoc(s[1..], k, v, p);
    }
  }

  lemma DistinctKeysPrefix(es: Neighbours)
    requires es != [] && DistinctKeys(es)
    ensures DistinctKeys(es[..|es| - 1])
    ensures Lookup(es[..|es| - 1], es[|es| - 1].0).None?
  {
    var init := es[..|es| - 1];
    assert Keys(init) == Keys(es)[..|es| - 1];
  }

  lemma {:induction false} DocLookupSnoc(doc: Document, n: Node, es: Neighbours, a: Node)
    ensures DocLookup(doc + [(n, es)], a) ==
      if DocLookup(doc, a).Some? then DocLookup(doc, a) else if a == n then Some(es) else None
  {
    if doc != [] {
      assert (doc + [(n, es)])[1..] == doc[1..] + [(n, es)];
      DocLookupSnoc(doc[1..], n, es, a);
    }
  }

  lemma WellFormedDocPrefix(doc: Document)
    requires doc != [] && WellFormedDoc(doc)
    ensures WellFormedDoc(doc[..|doc| - 1])
    ensures DocLookup(doc[..|doc| - 1], doc[|doc| - 1].0).None?
  {
    var init := doc[..|doc| - 1];
    assert DocKeys(init) == DocKeys(doc)[..|doc| - 1];
  }

  // ---------------------------------------------------------------------------
  // The inner loop

  /** After the inner loop for `node`, `graph[p][node]` is the distance `node` declared for `p`. */
  lemma {:induction false} ReverseEntriesEdges(d: Graph, node: Node, es: Neighbours, p: Node, q: Node)
    requires DistinctKeys(es)
    ensures EdgeWeight(ReverseEntries(d, node, es), p, q) ==
      if q == node && Lookup(es, p).Some? then Lookup(es, p) else EdgeWeight(d, p, q)
  {
    if es != [] {
      var init, last := es[..|es| - 1], es[|es| - 1];
      assert es == init + [last];
      DistinctKeysPrefix(es);
      ReverseEntriesEdges(d, node, init, p, q);
      AddReverseEffect(ReverseEntries(d, node, init), node, last.0, last.1, p, q);
      LookupSnoc(init, last.0, last.1, p);
    }
  }

  /** Dropping the last entry of a neighbour list drops at most its key from the key set. */
  lemma {:induction false} KeySetSnoc(es: Neighbours)
    requires es != []
    ensures Elements(Keys(es)) == Elements(Keys(es[..|es| - 1])) + {es[|es| - 1].0}
  {
    var init, k := es[..|es| - 1], es[|es| - 1].0;
    var ks, ki := Keys(es), Keys(init);
    forall i | 0 <= i < |ks| ensures ks[i] == (ki + [k])[i] {
      if i < |ki| {
        assert ks[i] == es[i].0 == init[i].0 == ki[i];
      }
    }
    assert ks == ki + [k];
  }

  /** The inner loop makes every neighbour it names a key. */
  lemma {:induction false} ReverseEntriesKeys(d: Graph, node: Node, es: Neighbours)
    ensures ReverseEntries(d, node, es).Keys == d.Keys + Elements(Keys(es))
  {
    if es != [] {
      ReverseEntriesKeys(d, node, es[..|es| - 1]);
      AddReverseKeys(ReverseEntries(d, node, es[..|es| - 1]), node, es[|es| - 1].0, es[|es| - 1].1);
      KeySetSnoc(es);
    }
  }

  lemma {:induction false} ReverseEntriesWellFormed(d: Graph, node: Node, es: Neighbours)
    requires WellFormed(d)
    ensures WellFormed(ReverseEntries(d, node, es))
  {
    if es != [] {
      var init := es[..|es| - 1];
      ReverseEntriesWellFormed(d, node, init);
      var r := ReverseEntries(d, node, init);
      var nb := es[|es| - 1].0;
      if nb in r {
        PutDistinct(r[nb], node, es[|es| - 1].1);
      } else {
        PutDistinct([], node, es[|es| - 1].1);
      }
    }
  }

  /** The reverse writes never move a neighbour that was already listed. */
  lemma {:induction false} ReverseEntriesKeepsOrder(d: Graph, node: Node, es: Neighbours, p: Node)
    requires p in d
    ensures p in ReverseEntries(d, node, es)
    ensures Keys(d[p]) <= Keys(ReverseEntries(d, node, es)[p])
  {
    if es != [] {
      var init, last := es[..|es| - 1], es[|es| - 1];
      ReverseEntriesKeepsOrder(d, node, init, p);
      var r := ReverseEntries(d, node, init);
      if last.0 == p {
        PutKeys(r[p], node, last.1);
      }
    }
  }

  // ---------------------------------------------------------------------------
  // The outer loop

  lemma {:induction false} ReverseDocEdges(d: Graph, doc: Document, p: Node, q: Node)
    requires WellFormedDoc(doc)
    ensures EdgeWeight(ReverseDoc(d, doc), p, q) ==
      if Declared(doc, q, p).Some? then Declared(doc, q, p) else EdgeWeight(d, p, q)
  {
    if doc != [] {
      var init, last := doc[..|doc| - 1], doc[|doc| - 1];
      assert doc == init + [last];
      WellFormedDocPrefix(doc);
      ReverseDocEdges(d, init, p, q);
      ReverseEntriesEdges(ReverseDoc(d, init), last.0, last.1, p, q);
      DocLookupSnoc(init, last.0, last.1, q);
    }
  }

  lemma MentionedSnoc(doc: Document)
    requires doc != []
    ensures MentionedNeighbours(doc) == MentionedNeighbours(doc[..|doc| - 1]) + Elements(Keys(doc[|doc| - 1].1))
  {
    var init := doc[..|doc| - 1];
    forall n | n in MentionedNeighbours(doc) ensures n in MentionedNeighbours(init) + Elements(Keys(doc[|doc| - 1].1)) {
      var i, j :| 0 <= i < |doc| && 0 <= j < |doc[i].1| && doc[i].1[j].0 == n;
      if i < |init| {
        assert init[i].1[j].0 == n;
      }
    }
    forall n | n in MentionedNeighbours(init) ensures n in MentionedNeighbours(doc) {
      var i, j :| 0 <= i < |init| && 0 <= j < |init[i].1| && init[i].1[j].0 == n;
      assert doc[i].1[j].0 == n;
    }
  }

  /** The outer loop makes every node named as a neighbour a key. */
  lemma {:induction false} ReverseDocKeys(d: Graph, doc: Document)
    ensures ReverseDoc(d, doc).Keys == d.Keys + MentionedNeighbours(doc)
  {
    if doc != [] {
      var init, last := doc[..|doc| - 1], doc[|doc| - 1];
      ReverseDocKeys(d, init);
      ReverseEntriesKeys(ReverseDoc(d, init), last.0, last.1);
      MentionedSnoc(doc);
    }
  }

  lemma {:induction false} ReverseDocWellFormed(d: Graph, doc: Document)
    requires WellFormed(d)
    ensures WellFormed(ReverseDoc(d, doc))
  {
    if doc != [] {
      var init, last := doc[..|doc| - 1], doc[|doc| - 1];
      ReverseDocWellFormed(d, init);
      ReverseEntriesWellFormed(ReverseDoc(d, init), last.0, last.1);
    }
  }

  lemma {:induction false} ReverseDocKeepsOrder(d: Graph, doc: Document, p: Node)
    requires p in d
    ensures p in ReverseDoc(d, doc)
    ensures Keys(d[p]) <= Keys(ReverseDoc(d, doc)[p])
  {
    if doc != [] {
      var init, last := doc[..|doc| - 1], doc[|doc| - 1];
      ReverseDocKeepsOrder(d, init, p);
      ReverseEntriesKeepsOrder(ReverseDoc(d, init), last.0, last.1, p);
    }
  }

  // ---------------------------------------------------------------------------
  // The symmetrised graph

  /** What `Symmetrise` promises about the graph it builds. */
  lemma SymmetrisedGraph(doc: Document)
    requires WellFormedDoc(doc)
    ensures WellFormed(Symmetrised(doc))
    ensures Symmetrised(doc).Keys == DocNodes(doc)
    ensures forall a, b :: EdgeWeight(Symmetrised(doc), a, b) == SymmetricDistance(doc, a, b)
  {
    SymmetrisedEdges(doc);
    SymmetrisedWellFormed(doc);
  }

  /** Every distance of the symmetrised graph is the one `SymmetricDistance` picks. */
  lemma SymmetrisedEdges(doc: Document)
    requires WellFormedDoc(doc)
    ensures forall a, b :: EdgeWeight(Symmetrised(doc), a, b) == SymmetricDistance(doc, a, b)
  {
    forall a, b ensures EdgeWeight(Symmetrised(doc), a, b) == SymmetricDistance(doc, a, b) {
      ReverseDocEdges(Copy(doc), doc, a, b);
    }
  }

  lemma SymmetrisedWellFormed(doc: Document)
    requires WellFormedDoc(doc)
    ensures WellFormed(Symmetrised(doc))
  {
    var c := Copy(doc);
    forall n | n in c ensures DistinctKeys(c[n]) {
      var i :| 0 <= i < |doc| && doc[i].0 == n;
      DocLookupAt(doc, i);
    }
    ReverseDocWellFormed(c, doc);
  }

  lemma {:induction false} DocLookupAt(doc: Document, i: nat)
    requires WellFormedDoc(doc) && i < |doc|
    ensures DocLookup(doc, doc[i].0) == Some(doc[i].1)
  {
    var init := doc[..|doc| - 1];
    WellFormedDocPrefix(doc);
    assert doc == init + [doc[|doc| - 1]];
    DocLookupSnoc(init, doc[|doc| - 1].0, doc[|doc| - 1].1, doc[i].0);
    if i < |doc| - 1 {
      DocLookupAt(init, i);
    }
  }

  /** For every declared entry `node -> neighbor`, `graph[neighbor][node]` holds its distance. */
  lemma ReverseEntryPresent(doc: Document, i: nat, j: nat)
    requires WellFormedDoc(doc)
    requires i < |doc| && j < |doc[i].1|
    ensures EdgeWeight(Symmetrised(doc), doc[i].1[j].0, doc[i].0) == Some(doc[i].1[j].1)
  {
    SymmetrisedEdges(doc);
    DocLookupAt(doc, i);
    LookupAt(doc[i].1, j);
  }

  /** The symmetrised graph is undirected: an edge exists one way exactly when it exists the other. */
  lemma SymmetrisedUndirected(doc: Document, a: Node, b: Node)
    requires WellFormedDoc(doc)
    ensures Edge(Symmetrised(doc), a, b) <==> Edge(Symmetrised(doc), b, a)
    ensures Edge(Symmetrised(doc), a, b) <==> Declared(doc, a, b).Some? || Declared(doc, b, a).Some?
  {
    SymmetrisedEdges(doc);
  }

  /** Distances are symmetric when the document never declares a pair twice with two distances. */
  lemma SymmetrisedConsistent(doc: Document, a: Node, b: Node)
    requires WellFormedDoc(doc)
    requires Declared(doc, a, b).Some? && Declared(doc, b, a).Some? ==> Declared(doc, a, b) == Declared(doc, b, a)
    ensures EdgeWeight(Symmetrised(doc), a, b) == EdgeWeight(Symmetrised(doc), b, a)
  {
    SymmetrisedEdges(doc);
  }

  /** The neighbours a key declared stay first in its list, in their declared order. */
  lemma SymmetrisedKeepsOrder(doc: Document, i: nat)
    requires WellFormedDoc(doc) && i < |doc|
    ensures doc[i].0 in Symmetrised(doc)
    ensures Keys(doc[i].1) <= Keys(Symmetrised(doc)[doc[i].0])
  {
    DocLookupAt(doc, i);
    ReverseDocKeepsOrder(Copy(doc), doc, doc[i].0);
  }
}
