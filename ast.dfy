/** The query side of the tree: an `AST` wraps a graph object and the id of its root; the node
  * searches, the traversal, subtree extraction and the per-graph fake-node counter. The graphs
  * queried are the well-formed ones the builder produces. */
module Ast {
  import opened Wrappers
  import opened NodeTypes
  import opened Graphs
  import opened Traversal
  import opened NodeSearch

  /** A networkx graph object: its content, and its identity, which keys the fake-node counter. */
  class Tree {
    const graph: Graph

    constructor (g: Graph)
      ensures graph == g
    {
      graph := g;
    }
  }

  /** An `AST`: the graph object it wraps and the id of its root. */
  datatype AST = AST(tree: Tree, root: int)

  /** `NodesSearchFilter`, and any other value passed in its place. */
  datatype SearchFilter = TopLevel | BottomLevel | All | Unlisted(name: string)

  /** `NotImplementedError` for a filter `find_nodes` does not know. */
  datatype QueryError = NotImplemented(filter: SearchFilter)

  // ---------------------------------------------------------------------------------------------
  // Searches

  /** `find_nodes`: the search the filter names, or an error for any other filter. */
  method FindNodes(ast: AST, types: seq<NodeType>, filter: SearchFilter) returns (r: Result<seq<int>, QueryError>)
    requires WellFormed(ast.tree.graph)
    requires filter.BottomLevel? || (filter.TopLevel? && |types| > 0) ==> ast.root in ast.tree.graph.succ
    ensures filter.All? ==> r == Ok(FindAll(ast.tree.graph, types))
    ensures filter.TopLevel? ==> r.Ok? && (|types| == 0 ==> r.value == [ast.root])
                                 && (|types| > 0 ==> r.value == TopSpec(ast.tree.graph, types, ast.root))
    ensures filter.BottomLevel? ==> r == Ok(BottomSpec(ast.tree.graph, types, ast.root))
    ensures filter.Unlisted? ==> r == Err(NotImplemented(filter))
  {
    match filter
    case All =>
      return Ok(FindAll(ast.tree.graph, types));
    case TopLevel =>
      var nodes := FindTopLevelNodes(ast, types);
      return Ok(nodes);
    case BottomLevel =>
      var nodes := FindBottomLevelNodes(ast, types);
      return Ok(nodes);
    case Unlisted(_) =>
      return Err(NotImplemented(filter));
  }

  /** `nodes`: every node of the graph, in graph node order. */
  function Nodes(ast: AST): seq<int> {
    ast.tree.graph.order
  }

  /** ALL with no type asked for lists every node, as `nodes` does. */
  lemma AllWithoutTypes(ast: AST)
    ensures FindAll(ast.tree.graph, []) == Nodes(ast)
  {
    KeepEverything(ast.tree.graph, [], ast.tree.graph.order);
  }

  lemma {:induction false} KeepEverything(g: Graph, types: seq<NodeType>, xs: seq<int>)
    requires |types| == 0
    ensures KeepMatching(g, types, xs) == xs
    decreases |xs|
  {
    if xs != [] {
      KeepEverything(g, types, xs[..|xs| - 1]);
    }
  }

  /** `_find_top_level_nodes`: with no type asked for, the root alone; otherwise the callbacks run
    * over the traversal from the root, keeping the outermost matches in the order they are
    * entered. */
  method FindTopLevelNodes(ast: AST, types: seq<NodeType>) returns (r: seq<int>)
    requires WellFormed(ast.tree.graph)
    requires |types| > 0 ==> ast.root in ast.tree.graph.succ
    ensures |types| == 0 ==> r == [ast.root]
    ensures ast.root in ast.tree.graph.succ ==> r == TopSpec(ast.tree.graph, types, ast.root)
    ensures |types| > 0 ==> forall x :: x in r <==>
              x in Desc(ast.tree.graph, ast.root) && InTypes(ast.tree.graph, types, x) &&
              NoMatchAbove(ast.tree.graph, types, ast.root, x)
  {
    if |types| == 0 {
      return [ast.root];
    }
    var g := ast.tree.graph;
    var ev := Events(g, ast.root);
    var current: Option<int> := None;
    var nodes: seq<int> := [];
    for i := 0 to |ev|
      invariant TopReplay(g, types, TopState(None, []), ev[..i]) == TopState(current, nodes)
    {
      assert ev[..i + 1][..i] == ev[..i];
      match ev[i]
      case Enter(x) =>
        if current.None? && InTypes(g, types, x) {
          nodes := nodes + [x];
          current := Some(x);
        }
      case Leave(x) =>
        if current.Some? && current.value == x {
          current := None;
        }
    }
    assert ev[..|ev|] == ev;
    TopLevelReplay(g, types, ast.root);
    TopLevelFinds(g, types, ast.root);
    return nodes;
  }

  /** `_find_bottom_level_nodes`: the callbacks run over the traversal from the root, keeping the
    * innermost matches in the order they are left; the stack they pop is never empty. */
  method FindBottomLevelNodes(ast: AST, types: seq<NodeType>) returns (r: seq<int>)
    requires WellFormed(ast.tree.graph) && ast.root in ast.tree.graph.succ
    ensures r == BottomSpec(ast.tree.graph, types, ast.root)
    ensures forall x :: x in r <==>
              x in Desc(ast.tree.graph, ast.root) && x in ast.tree.graph.succ &&
              Matches(ast.tree.graph, types, x) && !MatchBelow(ast.tree.graph, types, x)
  {
    var g := ast.tree.graph;
    var ev := Events(g, ast.root);
    ghost var s0 := BottomState([], {}, []);
    BottomLevelReplay(g, types, ast.root);
    assert ev[..|ev|] == ev;
    var stack: seq<int> := [];
    var notBottom: set<int> := {};
    var nodes: seq<int> := [];
    for i := 0 to |ev|
      invariant BottomReplay(g, types, s0, ev[..i]) == Ok(BottomState(stack, notBottom, nodes))
    {
      assert ev[..i + 1][..i] == ev[..i];
      assert ev[..i + 1] + ev[i + 1..] == ev;
      match ev[i]
      case Enter(x) =>
        if Matches(g, types, x) {
          stack := stack + [x];
        }
      case Leave(x) =>
        if Matches(g, types, x) {
          if x !in notBottom {
            nodes := nodes + [x];
          }
          if stack == [] {
            BottomReplayErrs(g, types, s0, ev[..i + 1], ev[i + 1..]);
            assert false;
          }
          stack := stack[..|stack| - 1];
          notBottom := notBottom + (set y | y in stack);
        }
    }
    BottomLevelFinds(g, types, ast.root);
    return nodes;
  }

  // ---------------------------------------------------------------------------------------------
  // Traversal

  /** The node a traversal starts from: the given one, or the root. */
  function Source(ast: AST, source: Option<int>): int {
    if source.Some? then source.value else ast.root
  }

  /** `traverse` in directed mode: the enter and leave events its callbacks are called on, in
    * order. Each reachable node is entered and left once, and nothing else is. */
  function Traverse(ast: AST, source: Option<int>): (r: seq<Event>)
    requires WellFormed(ast.tree.graph) && Source(ast, source) in ast.tree.graph.succ
    ensures Distinct(r)
    ensures |r| >= 2 && r[0] == Enter(Source(ast, source)) && r[|r| - 1] == Leave(Source(ast, source))
    ensures forall x :: Enter(x) in r <==> x in Desc(ast.tree.graph, Source(ast, source))
    ensures forall x :: Leave(x) in r <==> x in Desc(ast.tree.graph, Source(ast, source))
  {
    var g, n := ast.tree.graph, Source(ast, source);
    TraversalVisitsOnce(g, n);
    Events(g, n)
  }

  /** `get_root`. */
  function GetRoot(ast: AST): (r: int)
    ensures r == Source(ast, None)
  {
    ast.root
  }

  // ---------------------------------------------------------------------------------------------
  // Subtrees

  /** The members of `xs` that are in `keep`, in their order in `xs`. */
  function Restrict(xs: seq<int>, keep: set<int>): (r: seq<int>)
    ensures forall x :: x in r <==> x in xs && x in keep
    ensures Distinct(xs) ==> Distinct(r)
    ensures (forall x :: x in xs ==> x in keep) ==> r == xs
    decreases |xs|
  {
    if xs == [] then []
    else
      var front, last := xs[..|xs| - 1], xs[|xs| - 1];
      assert forall x :: x in xs <==> x in front || x == last;
      assert Distinct(xs) ==> Distinct(front) && last !in front;
      var kept := Restrict(front, keep);
      assert xs == front + [last];
      kept + (if last in keep then [last] else [])
  }

  /** `subgraph`: the nodes in `keep` with their attributes, and the edges between them. */
  function Subgraph(g: Graph, keep: set<int>): Graph {
    Graph(Restrict(g.order, keep),
          map k | k in g.attrs && k in keep :: g.attrs[k],
          map k | k in g.succ && k in keep :: Restrict(g.succ[k], keep))
  }

  /** The graph of `get_subtree(n)`: the subgraph on the nodes `dfs_preorder_nodes` lists from `n`. */
  function SubtreeGraph(g: Graph, n: int): Graph
    requires Forward(g) && n in g.succ
  {
    Subgraph(g, set x | x in Preorder(g, n))
  }

  /** `get_subtree`: a new graph object holding the subtree, rooted at `n`. */
  method GetSubtree(ast: AST, n: int) returns (r: AST)
    requires Forward(ast.tree.graph) && n in ast.tree.graph.succ
    ensures r.root == n && r.tree.graph == SubtreeGraph(ast.tree.graph, n)
    ensures fresh(r.tree)
  {
    var t := new Tree(SubtreeGraph(ast.tree.graph, n));
    return AST(t, n);
  }

  /** The subtree at `n` is a well-formed graph whose nodes are exactly those reachable from `n`,
    * each with its attributes and successors as in the whole graph, and traversing it from `n`
    * gives the same events as traversing the whole graph from `n`. */
  lemma SubtreeSpec(g: Graph, n: int)
    requires WellFormed(g) && n in g.succ
    ensures var sub := SubtreeGraph(g, n);
            && WellFormed(sub)
            && (forall x :: x in sub.order <==> x in Desc(g, n))
            && (forall x :: x in sub.succ ==> x in g.succ && sub.succ[x] == g.succ[x] && sub.attrs[x] == g.attrs[x])
            && Events(sub, n) == Events(g, n)
  {
    SubtreeKeeps(g, n);
    SubgraphWellFormed(g, (set x | x in Preorder(g, n)), SubtreeGraph(g, n));
    SubEvents(g, SubtreeGraph(g, n), n);
  }

  /** The subtree at `n` holds the nodes reachable from `n`, unchanged. */
  lemma SubtreeKeeps(g: Graph, n: int)
    requires WellFormed(g) && n in g.succ
    ensures var sub := SubtreeGraph(g, n);
            && (forall x :: x in sub.order <==> x in Desc(g, n))
            && (forall x :: x in sub.succ ==> x in g.succ && sub.succ[x] == g.succ[x] && sub.attrs[x] == g.attrs[x])
  {
    var keep := set x | x in Preorder(g, n);
    PreorderIsDesc(g, n);
    assert forall x :: x in keep <==> x in Desc(g, n);
    var sub := Subgraph(g, keep);
    DescNodes(g, n);
    forall x | x in sub.succ ensures sub.succ[x] == g.succ[x] {
      DescClosed(g, n, x);
    }
  }

  /** The successors of a reachable node are reachable. */
  lemma DescClosed(g: Graph, n: int, x: int)
    requires Forward(g) && n in g.succ && x in Desc(g, n) && x in g.succ
    ensures forall c :: c in g.succ[x] ==> c in Desc(g, n)
  {
    forall c | c in g.succ[x] ensures c in Desc(g, n) {
      var j :| 0 <= j < |g.succ[x]| && g.succ[x][j] == c;
      DescOfMember(g, x, |g.succ[x]|, c);
      DescTransitive(g, n, x, c);
    }
  }

  /** A subgraph closed under successors keeps the shape of a well-formed graph. */
  lemma SubgraphWellFormed(g: Graph, keep: set<int>, sub: Graph)
    requires WellFormed(g) && sub == Subgraph(g, keep)
    requires forall x :: x in sub.succ ==> sub.succ[x] == g.succ[x]
    ensures WellFormed(sub)
  {
    assert forall i, j :: 0 <= i < j < |g.order| ==> g.order[i] != g.order[j];
    assert Distinct(g.order);
  }

  /** Traversing the subtree from a node of it gives the events of the whole graph. */
  lemma {:induction false} SubEvents(g: Graph, sub: Graph, x: int)
    requires Forward(g) && Forward(sub) && x in sub.succ
    requires forall y :: y in sub.succ ==> y in g.succ && sub.succ[y] == g.succ[y]
    ensures Events(sub, x) == Events(g, x)
    decreases Bound(g.order) - x, 1
  {
    SubChildEvents(g, sub, x, |sub.succ[x]|);
  }

  lemma {:induction false} SubChildEvents(g: Graph, sub: Graph, x: int, i: nat)
    requires Forward(g) && Forward(sub) && x in sub.succ && i <= |sub.succ[x]|
    requires forall y :: y in sub.succ ==> y in g.succ && sub.succ[y] == g.succ[y]
    ensures ChildEvents(sub, x, i) == ChildEvents(g, x, i)
    decreases Bound(g.order) - x, 0, i
  {
    if i > 0 {
      var c := sub.succ[x][i - 1];
      assert c in g.succ[x] && x < c;
      SubChildEvents(g, sub, x, i - 1);
      SubEvents(g, sub, c);
    }
  }

  // ---------------------------------------------------------------------------------------------
  // Fake nodes

  /** The id of the fake node created when `count` were created before on the same graph. */
  function FakeId(count: nat): (id: int)
    ensures id < 0 && -id - 1 == count
  {
    -(count + 1)
  }

  /** `_fake_nodes_qty_per_graph`: how many fake nodes were created, per graph object; a graph never
    * seen counts zero. It is shared by every `AST` wrapping the same graph object. */
  class FakeNodeCounter {
    var issued: map<Tree, nat>

    constructor ()
      ensures issued == map[]
    {
      issued := map[];
    }

    function Count(t: Tree): (c: nat)
      reads this
      ensures t !in issued ==> c == 0
    {
      if t in issued then issued[t] else 0
    }

    /** `create_fake_node`: the next negative id for the AST's graph object, counted for it alone. */
    method CreateFakeNode(ast: AST) returns (id: int)
      modifies this
      ensures id == FakeId(old(Count(ast.tree)))
      ensures issued == old(issued)[ast.tree := old(Count(ast.tree)) + 1]
      ensures Count(ast.tree) == old(Count(ast.tree)) + 1
      ensures forall t: Tree :: old(allocated(t)) && t != ast.tree ==> Count(t) == old(Count(t))
    {
      var c := Count(ast.tree);
      issued := issued[ast.tree := c + 1];
      id := FakeId(c);
    }

    /** Fake nodes of one graph are numbered -1, -2, -3, ... in creation order, whatever is
      * created for other graphs in between. */
    method CreateFakeNodesInTurn(ast: AST, other: AST) returns (first: int, second: int)
      requires other.tree != ast.tree
      modifies this
      ensures first == FakeId(old(Count(ast.tree))) && second == first - 1
      ensures old(Count(ast.tree)) == 0 ==> first == -1 && second == -2
      ensures Count(ast.tree) == old(Count(ast.tree)) + 2 && Count(other.tree) == old(Count(other.tree)) + 1
    {
      first := CreateFakeNode(ast);
      var between := CreateFakeNode(other);
      second := CreateFakeNode(ast);
    }
  }
}
