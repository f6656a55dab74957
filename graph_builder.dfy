/**
 * The Graph class (add_node, add_edge) and graph_from_path, the breadth-first walk
 * that expands nodes in discovery order until every node has been expanded.
 */
module GraphBuilder {
  import opened Wrappers
  import opened Paths
  import opened FileSystems
  import opened Nodes
  import opened Classifier
  import opened Children
  import opened Sequences

  /** No two nodes are structurally equal. */
  predicate Distinct(nodes: seq<Node>) {
    forall i, j :: 0 <= i < j < |nodes| ==> nodes[i] != nodes[j]
  }

  /** The nodes the entries of fs classify to: a finite set, whatever symbolic links do. */
  ghost function NodesOfEntries(fs: FileSystem): set<Node> {
    set q | q in fs.Keys && ClassifyResolved(fs, q).Ok? :: ClassifyResolved(fs, q).value
  }

  /** How the walk expands a node: child_nodes_from_node on a fixed filesystem. */
  type Expansion = Node -> Result<seq<Node>, Error>

  function Expander(fs: FileSystem): Expansion {
    n => ChildNodes(fs, n)
  }

  /** Expanding a member of universe lists only members of universe. */
  ghost predicate ClosedUniverse(expand: Expansion, universe: set<Node>) {
    forall n, c :: n in universe && expand(n).Ok? && c in expand(n).value ==> c in universe
  }

  /** Every node a path classifies to is the node of the entry the path resolves to. */
  lemma ClassifiedIsNodeOfEntry(fs: FileSystem, p: Path)
    requires ClassifyPath(fs, p).Ok?
    ensures ClassifyPath(fs, p).value in NodesOfEntries(fs)
  {
    var q := Resolve(fs, p).value;
    assert q in fs.Keys && ClassifyResolved(fs, q) == ClassifyPath(fs, p);
  }

  /** Every child a node expands to is the node of some entry. */
  lemma ChildrenAreNodesOfEntries(fs: FileSystem, n: Node)
    requires ChildNodes(fs, n).Ok?
    ensures forall c :: c in ChildNodes(fs, n).value ==> c in NodesOfEntries(fs)
  {
    var paths := ChildPaths(fs, n).value;
    var cs := ChildNodes(fs, n).value;
    forall c | c in cs
      ensures c in NodesOfEntries(fs)
    {
      var k :| 0 <= k < |cs| && cs[k] == c;
      ClassifiedIsNodeOfEntry(fs, paths[k]);
    }
  }

  /** The nodes of the entries are closed under expansion: the walk never leaves them. */
  lemma EntriesClosed(fs: FileSystem)
    ensures ClosedUniverse(Expander(fs), NodesOfEntries(fs))
  {
    forall n, c | n in NodesOfEntries(fs) && Expander(fs)(n).Ok? && c in Expander(fs)(n).value
      ensures c in NodesOfEntries(fs)
    {
      ChildrenAreNodesOfEntries(fs, n);
    }
  }

  /** Pairwise different elements drawn from a set are no more than the set's members. */
  lemma {:induction false} DistinctBound<T>(xs: seq<T>, s: set<T>)
    requires forall i, j :: 0 <= i < j < |xs| ==> xs[i] != xs[j]
    requires forall i :: 0 <= i < |xs| ==> xs[i] in s
    ensures |xs| <= |s|
  {
    if xs != [] {
      var last := xs[|xs| - 1];
      var rest := xs[..|xs| - 1];
      forall i | 0 <= i < |rest|
        ensures rest[i] in s - {last}
      {
        assert rest[i] == xs[i];
      }
      DistinctBound(rest, s - {last});
    }
  }

  /** GraphModel with the runtime methods of Graph. */
  class Graph {
    var nodes: seq<Node>
    var edges: map<int, seq<int>>

    constructor (nodes: seq<Node>, edges: map<int, seq<int>>)
      ensures this.nodes == nodes && this.edges == edges
    {
      this.nodes := nodes;
      this.edges := edges;
    }

    /** add_node: appends node unless a structurally equal node is already present. */
    method AddNode(node: Node) returns (added: bool)
      modifies this
      ensures added <==> node !in old(nodes)
      ensures nodes == if added then old(nodes) + [node] else old(nodes)
      ensures edges == old(edges)
      ensures Distinct(old(nodes)) ==> Distinct(nodes)
    {
      if node !in nodes {
        nodes := nodes + [node];
        return true;
      }
      return false;
    }

    /** add_edge: appends child to the parent's list, which starts empty. */
    method AddEdge(parentIndex: int, childIndex: int)
      modifies this
      ensures nodes == old(nodes)
      ensures parentIndex in edges
      ensures edges == old(edges)[parentIndex := EdgesFrom(old(edges), parentIndex) + [childIndex]]
    {
      if parentIndex !in edges {
        edges := edges[parentIndex := []];
      }
      edges := edges[parentIndex := edges[parentIndex] + [childIndex]];
    }
  }

  /** The children recorded for parent, none if it has no key yet. */
  function EdgesFrom(edges: map<int, seq<int>>, parent: int): seq<int> {
    if parent in edges then edges[parent] else []
  }

  /**
   * Every edge goes from a valid index to a higher valid index; each list increases
   * strictly. A parent gets a key only with its first edge, so no list is empty.
   */
  predicate EdgesForward(nodes: seq<Node>, edges: map<int, seq<int>>) {
    forall p :: p in edges ==>
      && 0 <= p < |nodes|
      && edges[p] != []
      && (forall t :: t in edges[p] ==> p < t < |nodes|)
      && (forall i, j :: 0 <= i < j < |edges[p]| ==> edges[p][i] < edges[p][j])
  }

  /** Some edge leads to j. */
  ghost predicate HasParent(edges: map<int, seq<int>>, j: int) {
    exists p :: p in edges && j in edges[p]
  }

  /** Every node but the first is the target of an edge, and of edges from one parent only. */
  ghost predicate OneParentEach(nodes: seq<Node>, edges: map<int, seq<int>>) {
    && (forall j :: 0 < j < |nodes| ==> HasParent(edges, j))
    && (forall p1, p2, j :: p1 in edges && p2 in edges && j in edges[p1] && j in edges[p2] ==> p1 == p2)
  }

  /** Nodes expanded earlier discovered their children earlier: breadth-first order. */
  predicate BreadthFirst(edges: map<int, seq<int>>) {
    forall p1, p2, a, b :: p1 in edges && p2 in edges && p1 < p2 && a in edges[p1] && b in edges[p2] ==> a < b
  }

  /**
   * An edge p -> t records that nodes[t] is a child of nodes[p] and of no node before
   * it: the edge was added when the node was first discovered.
   */
  predicate EdgesAtDiscovery(expand: Expansion, nodes: seq<Node>, edges: map<int, seq<int>>)
    requires EdgesForward(nodes, edges)
  {
    forall p, t :: p in edges && t in edges[p] ==>
      && IsChildOf(expand, nodes[t], nodes[p])
      && forall e :: 0 <= e < p ==> !IsChildOf(expand, nodes[t], nodes[e])
  }

  /**
   * Children discovered from one expansion keep that expansion's order: of two children
   * of p, the one with the lower index (the earlier one in p's increasing edge list) is
   * listed first by the expansion of nodes[p].
   */
  predicate SiblingsInOrder(expand: Expansion, nodes: seq<Node>, edges: map<int, seq<int>>)
    requires EdgesForward(nodes, edges)
  {
    forall p, a, b :: p in edges && a in edges[p] && b in edges[p] && a < b ==>
      && expand(nodes[p]).Ok?
      && FirstIndexOf(expand(nodes[p]).value, nodes[a]) < FirstIndexOf(expand(nodes[p]).value, nodes[b])
  }

  /** c is among the children the expansion of n lists. */
  predicate IsChildOf(expand: Expansion, c: Node, n: Node) {
    expand(n).Ok? && c in expand(n).value
  }

  /** Every node expands without error and all its children are nodes. */
  predicate Closed(expand: Expansion, nodes: seq<Node>) {
    forall e :: 0 <= e < |nodes| ==>
      expand(nodes[e]).Ok? && forall c :: c in expand(nodes[e]).value ==> c in nodes
  }

  // The walk's bookkeeping: kids[e] is what expanding nodes[e] gave.

  /** kids[e] is the expansion of nodes[e], for the nodes expanded so far. */
  ghost predicate Expansions(expand: Expansion, nodes: seq<Node>, kids: seq<seq<Node>>) {
    |kids| <= |nodes| && forall e :: 0 <= e < |kids| ==> expand(nodes[e]) == Ok(kids[e])
  }

  /** EdgesAtDiscovery, stated over the recorded expansions. */
  predicate DiscoveredIn(nodes: seq<Node>, edges: map<int, seq<int>>, kids: seq<seq<Node>>)
    requires EdgesForward(nodes, edges)
  {
    forall p, t :: p in edges && t in edges[p] ==>
      && p < |kids| && nodes[t] in kids[p]
      && forall e :: 0 <= e < p ==> nodes[t] !in kids[e]
  }

  /** SiblingsInOrder, stated over the recorded expansions. */
  predicate OrderedIn(nodes: seq<Node>, edges: map<int, seq<int>>, kids: seq<seq<Node>>)
    requires EdgesForward(nodes, edges)
  {
    forall p, a, b :: p in edges && p < |kids| && a in edges[p] && b in edges[p] && a < b ==>
      FirstIndexOf(kids[p], nodes[a]) < FirstIndexOf(kids[p], nodes[b])
  }

  /** Every recorded child is a node. */
  predicate KidsAreNodes(nodes: seq<Node>, kids: seq<seq<Node>>) {
    forall e, c :: 0 <= e < |kids| && c in kids[e] ==> c in nodes
  }

  /** With every node expanded, the recorded expansions give closure and discovery edges. */
  lemma ExpansionsGiveTree(expand: Expansion, nodes: seq<Node>, edges: map<int, seq<int>>, kids: seq<seq<Node>>)
    requires Expansions(expand, nodes, kids) && |kids| == |nodes|
    requires KidsAreNodes(nodes, kids)
    requires EdgesForward(nodes, edges) && DiscoveredIn(nodes, edges, kids)
    requires OrderedIn(nodes, edges, kids)
    ensures Closed(expand, nodes)
    ensures EdgesAtDiscovery(expand, nodes, edges)
    ensures SiblingsInOrder(expand, nodes, edges)
  {
    forall p, a, b | p in edges && a in edges[p] && b in edges[p] && a < b
      ensures expand(nodes[p]).Ok?
      ensures FirstIndexOf(expand(nodes[p]).value, nodes[a]) < FirstIndexOf(expand(nodes[p]).value, nodes[b])
    {
      assert expand(nodes[p]) == Ok(kids[p]);
    }
    forall p, t | p in edges && t in edges[p]
      ensures IsChildOf(expand, nodes[t], nodes[p])
      ensures forall e :: 0 <= e < p ==> !IsChildOf(expand, nodes[t], nodes[e])
    {
      forall e | 0 <= e < p
        ensures !IsChildOf(expand, nodes[t], nodes[e])
      {
        assert expand(nodes[e]) == Ok(kids[e]);
      }
    }
  }

  /**
   * A discovery tree whose root expands to no children is the root alone, with no
   * edges: the edge map stays empty, as it starts.
   */
  lemma LeafRootHasNoEdges(expand: Expansion, nodes: seq<Node>, edges: map<int, seq<int>>)
    requires |nodes| >= 1 && expand(nodes[0]) == Ok([])
    requires EdgesForward(nodes, edges) && OneParentEach(nodes, edges)
    requires EdgesAtDiscovery(expand, nodes, edges)
    ensures nodes == [nodes[0]]
    ensures edges == map[]
  {
    if |nodes| > 1 {
      NonRootIsListed(expand, nodes, edges, 1);
      assert false;
    }
    assert nodes == [nodes[0]];
    forall p | p in edges
      ensures false
    {
      KeyHasChild(nodes, edges, p);
    }
  }

  /** Every key of a forward edge map has a child above it, so some node lies past it. */
  lemma KeyHasChild(nodes: seq<Node>, edges: map<int, seq<int>>, p: int)
    requires EdgesForward(nodes, edges) && p in edges
    ensures p + 1 < |nodes|
  {
    assert edges[p][0] in edges[p];
  }

  /** Every node but the first is listed by the expansion of some node before it. */
  lemma NonRootIsListed(expand: Expansion, nodes: seq<Node>, edges: map<int, seq<int>>, j: int)
    requires EdgesForward(nodes, edges) && OneParentEach(nodes, edges)
    requires EdgesAtDiscovery(expand, nodes, edges)
    requires 0 < j < |nodes|
    ensures exists p :: 0 <= p < j && IsChildOf(expand, nodes[j], nodes[p])
  {
    assert HasParent(edges, j);
    var p :| p in edges && j in edges[p];
    assert IsChildOf(expand, nodes[j], nodes[p]);
  }

  /**
   * graph_from_path. On success the graph starts with the root's node, holds no two
   * equal nodes, is closed under expansion, and its edges form a breadth-first
   * discovery tree: each node but the root has exactly one incoming edge, from the
   * first node whose expansion lists it. The walk terminates on every filesystem,
   * symbolic link cycles included. A failure is the root's classification error or
   * the expansion error of the node of some entry.
   */
  method GraphFromPath(fs: FileSystem, path: Path) returns (r: Result<Graph, Error>)
    ensures ClassifyPath(fs, path).Err? ==> r == Err(ClassifyPath(fs, path).error)
    ensures r.Ok? ==>
      var g := r.value;
      && fresh(g)
      && ClassifyPath(fs, path).Ok? && |g.nodes| >= 1 && g.nodes[0] == ClassifyPath(fs, path).value
      && Distinct(g.nodes)
      && Closed(Expander(fs), g.nodes)
      && EdgesForward(g.nodes, g.edges)
      && OneParentEach(g.nodes, g.edges)
      && EdgesAtDiscovery(Expander(fs), g.nodes, g.edges)
      && SiblingsInOrder(Expander(fs), g.nodes, g.edges)
      && BreadthFirst(g.edges)
    ensures r.Err? && ClassifyPath(fs, path).Ok? ==>
      exists n :: n in NodesOfEntries(fs) && ChildNodes(fs, n) == Err(r.error)
  {
    var node := NodeFromPath(fs, path);
    if node.Err? {
      return Err(node.error);
    }
    ClassifiedIsNodeOfEntry(fs, path);
    EntriesClosed(fs);
    r := Walk(node.value, Expander(fs), NodesOfEntries(fs));
  }

  /**
   * The breadth-first loop of graph_from_path from the root's node: expand the node at
   * index, add each child not yet present together with an edge to it, move on until
   * every node has been expanded. universe is any finite set holding the root and
   * closed under expansion; it bounds the number of nodes and so the loop.
   */
  method Walk(root: Node, expand: Expansion, ghost universe: set<Node>) returns (r: Result<Graph, Error>)
    requires root in universe && ClosedUniverse(expand, universe)
    ensures r.Ok? ==>
      var g := r.value;
      && fresh(g)
      && |g.nodes| >= 1 && g.nodes[0] == root
      && Distinct(g.nodes)
      && (forall n :: n in g.nodes ==> n in universe)
      && Closed(expand, g.nodes)
      && EdgesForward(g.nodes, g.edges)
      && OneParentEach(g.nodes, g.edges)
      && EdgesAtDiscovery(expand, g.nodes, g.edges)
      && SiblingsInOrder(expand, g.nodes, g.edges)
      && BreadthFirst(g.edges)
    ensures r.Err? ==> exists n :: n in universe && expand(n) == Err(r.error)
  {
    var graph := new Graph([root], map[]);
    var index := 0;
    ghost var kids: seq<seq<Node>> := [];
    while index < |graph.nodes|
      invariant 0 <= index <= |graph.nodes| <= |universe| && 1 <= |graph.nodes|
      invariant graph.nodes[0] == root
      invariant Distinct(graph.nodes)
      invariant forall n :: n in graph.nodes ==> n in universe
      invariant |kids| == index && Expansions(expand, graph.nodes, kids)
      invariant KidsAreNodes(graph.nodes, kids)
      invariant EdgesForward(graph.nodes, graph.edges)
      invariant forall p :: p in graph.edges ==> p < index
      invariant OneParentEach(graph.nodes, graph.edges)
      invariant DiscoveredIn(graph.nodes, graph.edges, kids)
      invariant OrderedIn(graph.nodes, graph.edges, kids)
      invariant BreadthFirst(graph.edges)
      decreases |universe| - index
    {
      var current := graph.nodes[index];
      var children := expand(current);
      if children.Err? {
        return Err(children.error);
      }
      var cs := children.value;
      AddChildren(graph, index, cs, expand, kids, universe);
      kids := kids + [cs];
      DistinctBound(graph.nodes, universe);
      index := index + 1;
    }
    ExpansionsGiveTree(expand, graph.nodes, graph.edges, kids);
    return Ok(graph);
  }

  /**
   * The inner loop of graph_from_path: each child in cs, in order, that is not a node
   * yet is appended together with an edge from the node at index. Nodes are only
   * appended, every child ends up a node, and the discovery tree, now recording cs as
   * the expansion of the node at index, keeps all its properties.
   */
  method AddChildren(graph: Graph, index: int, cs: seq<Node>,
                     ghost expand: Expansion, ghost kids: seq<seq<Node>>, ghost universe: set<Node>)
    modifies graph
    requires |kids| == index < |graph.nodes|
    requires Distinct(graph.nodes)
    requires forall n :: n in graph.nodes ==> n in universe
    requires forall c :: c in cs ==> c in universe
    requires Expansions(expand, graph.nodes, kids) && KidsAreNodes(graph.nodes, kids)
    requires EdgesForward(graph.nodes, graph.edges) && (forall p :: p in graph.edges ==> p < index)
    requires OneParentEach(graph.nodes, graph.edges)
    requires DiscoveredIn(graph.nodes, graph.edges, kids)
    requires OrderedIn(graph.nodes, graph.edges, kids)
    requires BreadthFirst(graph.edges)
    ensures old(graph.nodes) <= graph.nodes
    ensures forall n :: n in graph.nodes ==> n in old(graph.nodes) || n in cs
    ensures forall c :: c in cs ==> c in graph.nodes
    ensures Distinct(graph.nodes)
    ensures forall n :: n in graph.nodes ==> n in universe
    ensures Expansions(expand, graph.nodes, kids) && KidsAreNodes(graph.nodes, kids)
    ensures EdgesForward(graph.nodes, graph.edges) && (forall p :: p in graph.edges ==> p <= index)
    ensures OneParentEach(graph.nodes, graph.edges)
    ensures DiscoveredIn(graph.nodes, graph.edges, kids + [cs])
    ensures OrderedIn(graph.nodes, graph.edges, kids + [cs])
    ensures BreadthFirst(graph.edges)
  {
    for i := 0 to |cs|
      invariant old(graph.nodes) <= graph.nodes
      invariant forall n :: n in graph.nodes ==> n in old(graph.nodes) || n in cs
      invariant Distinct(graph.nodes)
      invariant forall n :: n in graph.nodes ==> n in universe
      invariant Expansions(expand, graph.nodes, kids)
      invariant KidsAreNodes(graph.nodes, kids)
      invariant EdgesForward(graph.nodes, graph.edges)
      invariant forall p :: p in graph.edges ==> p <= index
      invariant OneParentEach(graph.nodes, graph.edges)
      invariant DiscoveredIn(graph.nodes, graph.edges, kids + [cs])
      invariant OrderedIn(graph.nodes, graph.edges, kids + [cs])
      invariant BreadthFirst(graph.edges)
      invariant forall k :: 0 <= k < i ==> cs[k] in graph.nodes
      invariant forall t :: index in graph.edges && t in graph.edges[index] ==>
        0 <= t < |graph.nodes| && FirstIndexOf(cs, graph.nodes[t]) < i
    {
      ghost var before := graph.nodes;
      ghost var edgesBefore := graph.edges;
      var added := graph.AddNode(cs[i]);
      if added {
        var childIndex := |graph.nodes| - 1;
        graph.AddEdge(index, childIndex);
        AddedEdgeKeepsTree(before, edgesBefore, kids, cs, i, graph.nodes, graph.edges);
        AddedEdgeKeepsOrder(before, edgesBefore, kids, cs, i, graph.nodes, graph.edges);
      } else {
        assert cs[i] in graph.nodes;
      }
    }
  }

  /**
   * Appending a newly discovered child cs[i] of the node being expanded, together with
   * the edge to it, keeps the discovery tree: the new index exceeds every other, and
   * no node expanded earlier had the child, or it would already be a node.
   */
  lemma AddedEdgeKeepsTree(nodes: seq<Node>, edges: map<int, seq<int>>, kids: seq<seq<Node>>,
                           cs: seq<Node>, i: int, nodes': seq<Node>, edges': map<int, seq<int>>)
    requires |kids| < |nodes| && 0 <= i < |cs|
    requires cs[i] !in nodes && KidsAreNodes(nodes, kids)
    requires nodes' == nodes + [cs[i]]
    requires edges' == edges[|kids| := EdgesFrom(edges, |kids|) + [|nodes|]]
    requires EdgesForward(nodes, edges) && (forall p :: p in edges ==> p <= |kids|)
    requires OneParentEach(nodes, edges)
    requires DiscoveredIn(nodes, edges, kids + [cs])
    requires BreadthFirst(edges)
    ensures EdgesForward(nodes', edges') && (forall p :: p in edges' ==> p <= |kids|)
    ensures OneParentEach(nodes', edges')
    ensures DiscoveredIn(nodes', edges', kids + [cs])
    ensures BreadthFirst(edges')
    ensures KidsAreNodes(nodes', kids)
  {
    AddedEdgeForward(nodes, edges, |kids|, cs[i], nodes', edges');
    AddedEdgeOneParent(nodes, edges, |kids|, cs[i], nodes', edges');
    AddedEdgeDiscovered(nodes, edges, kids, cs, i, nodes', edges');
    AddedEdgeBreadthFirst(nodes, edges, |kids|, edges');
  }

  /**
   * The same append keeps siblings in the order of the expansion: cs[i] is listed first
   * at position i, since every child listed before it is already a node, and every
   * earlier edge out of the expanded node leads to a child listed before position i.
   */
  lemma AddedEdgeKeepsOrder(nodes: seq<Node>, edges: map<int, seq<int>>, kids: seq<seq<Node>>,
                            cs: seq<Node>, i: int, nodes': seq<Node>, edges': map<int, seq<int>>)
    requires |kids| < |nodes| && 0 <= i < |cs|
    requires cs[i] !in nodes && forall k :: 0 <= k < i ==> cs[k] in nodes
    requires nodes' == nodes + [cs[i]]
    requires edges' == edges[|kids| := EdgesFrom(edges, |kids|) + [|nodes|]]
    requires EdgesForward(nodes, edges) && (forall p :: p in edges ==> p <= |kids|)
    requires EdgesForward(nodes', edges')
    requires OrderedIn(nodes, edges, kids + [cs])
    requires forall t :: |kids| in edges && t in edges[|kids|] ==>
      0 <= t < |nodes| && FirstIndexOf(cs, nodes[t]) < i
    ensures OrderedIn(nodes', edges', kids + [cs])
    ensures forall t :: |kids| in edges' && t in edges'[|kids|] ==>
      0 <= t < |nodes'| && FirstIndexOf(cs, nodes'[t]) < i + 1
  {
    FirstListedAt(cs, i, nodes);
    AddedEdgeListedBefore(nodes, edges, |kids|, cs, i, nodes', edges');
    AddedEdgeOrdered(nodes, edges, kids, cs, i, nodes', edges');
  }

  lemma AddedEdgeListedBefore(nodes: seq<Node>, edges: map<int, seq<int>>, index: int,
                              cs: seq<Node>, i: int, nodes': seq<Node>, edges': map<int, seq<int>>)
    requires 0 <= i < |cs| && FirstIndexOf(cs, cs[i]) == i
    requires nodes' == nodes + [cs[i]]
    requires edges' == edges[index := EdgesFrom(edges, index) + [|nodes|]]
    requires forall t :: index in edges && t in edges[index] ==>
      0 <= t < |nodes| && FirstIndexOf(cs, nodes[t]) < i
    ensures forall t :: index in edges' && t in edges'[index] ==>
      0 <= t < |nodes'| && FirstIndexOf(cs, nodes'[t]) < i + 1
  {
    forall t | index in edges' && t in edges'[index]
      ensures 0 <= t < |nodes'| && FirstIndexOf(cs, nodes'[t]) < i + 1
    {
      if t != |nodes| {
        assert t in EdgesFrom(edges, index);
      }
    }
  }

  lemma AddedEdgeOrdered(nodes: seq<Node>, edges: map<int, seq<int>>, kids: seq<seq<Node>>,
                         cs: seq<Node>, i: int, nodes': seq<Node>, edges': map<int, seq<int>>)
    requires |kids| < |nodes| && 0 <= i < |cs| && FirstIndexOf(cs, cs[i]) == i
    requires nodes' == nodes + [cs[i]]
    requires edges' == edges[|kids| := EdgesFrom(edges, |kids|) + [|nodes|]]
    requires EdgesForward(nodes, edges) && EdgesForward(nodes', edges')
    requires OrderedIn(nodes, edges, kids + [cs])
    requires forall t :: |kids| in edges && t in edges[|kids|] ==>
      0 <= t < |nodes| && FirstIndexOf(cs, nodes[t]) < i
    ensures OrderedIn(nodes', edges', kids + [cs])
  {
    var all := kids + [cs];
    var prior := EdgesFrom(edges, |kids|);
    forall p, a, b | p in edges' && p < |all| && a in edges'[p] && b in edges'[p] && a < b
      ensures FirstIndexOf(all[p], nodes'[a]) < FirstIndexOf(all[p], nodes'[b])
    {
      if p != |kids| {
        assert edges'[p] == edges[p];
        assert nodes'[a] == nodes[a] && nodes'[b] == nodes[b];
      } else if b != |nodes| {
        assert b in prior && a in prior;
        assert nodes'[a] == nodes[a] && nodes'[b] == nodes[b];
      } else {
        assert all[p] == cs && a in prior;
        assert nodes'[a] == nodes[a] && nodes'[b] == cs[i];
      }
    }
  }

  /** A child listed at i after children that are all nodes, itself no node, is first listed at i. */
  lemma FirstListedAt(cs: seq<Node>, i: int, nodes: seq<Node>)
    requires 0 <= i < |cs|
    requires cs[i] !in nodes && forall k :: 0 <= k < i ==> cs[k] in nodes
    ensures FirstIndexOf(cs, cs[i]) == i
  {
    assert cs[i] in cs;
  }

  lemma AddedEdgeForward(nodes: seq<Node>, edges: map<int, seq<int>>, index: int,
                         child: Node, nodes': seq<Node>, edges': map<int, seq<int>>)
    requires 0 <= index < |nodes|
    requires nodes' == nodes + [child]
    requires edges' == edges[index := EdgesFrom(edges, index) + [|nodes|]]
    requires EdgesForward(nodes, edges) && (forall p :: p in edges ==> p <= index)
    ensures EdgesForward(nodes', edges') && (forall p :: p in edges' ==> p <= index)
  {
    var listBefore := EdgesFrom(edges, index);
    var listAfter := listBefore + [|nodes|];
    assert forall t :: t in listBefore ==> index < t < |nodes|;
    forall i, j | 0 <= i < j < |listAfter|
      ensures listAfter[i] < listAfter[j]
    {
      assert listAfter[i] == listBefore[i];
      if j < |listBefore| {
        assert listAfter[j] == listBefore[j];
      } else {
        assert listBefore[i] in listBefore;
      }
    }
  }

  lemma AddedEdgeOneParent(nodes: seq<Node>, edges: map<int, seq<int>>, index: int,
                           child: Node, nodes': seq<Node>, edges': map<int, seq<int>>)
    requires 0 <= index < |nodes|
    requires nodes' == nodes + [child]
    requires edges' == edges[index := EdgesFrom(edges, index) + [|nodes|]]
    requires EdgesForward(nodes, edges)
    requires OneParentEach(nodes, edges)
    ensures OneParentEach(nodes', edges')
  {
    var t := |nodes|;
    forall j | 0 < j < |nodes'|
      ensures HasParent(edges', j)
    {
      if j == t {
        assert j in edges'[index];
      } else {
        assert HasParent(edges, j);
        var p :| p in edges && j in edges[p];
        assert j in edges'[p];
      }
    }
    forall p1, p2, j | p1 in edges' && p2 in edges' && j in edges'[p1] && j in edges'[p2]
      ensures p1 == p2
    {
      if j == t {
        assert p1 == index && p2 == index;
      } else {
        assert j in edges[p1] && j in edges[p2];
      }
    }
  }

  lemma AddedEdgeDiscovered(nodes: seq<Node>, edges: map<int, seq<int>>, kids: seq<seq<Node>>,
                            cs: seq<Node>, i: int, nodes': seq<Node>, edges': map<int, seq<int>>)
    requires |kids| < |nodes| && 0 <= i < |cs|
    requires cs[i] !in nodes && KidsAreNodes(nodes, kids)
    requires nodes' == nodes + [cs[i]]
    requires edges' == edges[|kids| := EdgesFrom(edges, |kids|) + [|nodes|]]
    requires EdgesForward(nodes, edges) && (forall p :: p in edges ==> p <= |kids|)
    requires EdgesForward(nodes', edges')
    requires DiscoveredIn(nodes, edges, kids + [cs])
    ensures DiscoveredIn(nodes', edges', kids + [cs])
    ensures KidsAreNodes(nodes', kids)
  {
    var all := kids + [cs];
    var t := |nodes|;
    forall p, u | p in edges' && u in edges'[p]
      ensures p < |all| && nodes'[u] in all[p]
      ensures forall e :: 0 <= e < p ==> nodes'[u] !in all[e]
    {
      if u == t {
        assert p == |kids|;
        assert cs[i] in cs;
        forall e | 0 <= e < p
          ensures nodes'[u] !in all[e]
        {
          assert all[e] == kids[e];
        }
      } else {
        assert u in edges[p];
        assert nodes'[u] == nodes[u];
      }
    }
  }

  lemma AddedEdgeBreadthFirst(nodes: seq<Node>, edges: map<int, seq<int>>, index: int,
                              edges': map<int, seq<int>>)
    requires 0 <= index < |nodes|
    requires edges' == edges[index := EdgesFrom(edges, index) + [|nodes|]]
    requires EdgesForward(nodes, edges) && (forall p :: p in edges ==> p <= index)
    requires BreadthFirst(edges)
    ensures BreadthFirst(edges')
  {
    forall p1, p2, a, b | p1 in edges' && p2 in edges' && p1 < p2 && a in edges'[p1] && b in edges'[p2]
      ensures a < b
    {
      assert p1 in edges && a in edges[p1];
      if p2 == index && b == |nodes| {
      } else {
        assert b in edges[p2];
      }
    }
  }
}
