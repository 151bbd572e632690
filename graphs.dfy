/** The graph the builder produces and the queries read: a directed graph whose nodes are integer
  * ids, each with an attribute dictionary and an ordered list of successors (the children in the
  * order their edges were added). `order` is the order in which nodes were inserted. */
module Graphs {
  import opened NodeTypes
  import opened NativeTree

  /** An attribute value of a graph node. */
  datatype Value =
    | Raw(v: Native)                // a value copied from the parser unchanged
    | Type(t: NodeType)             // the `node_type` tag
    | Ref(index: int)               // a reference to graph node `index`
    | Refs(items: seq<Value>)       // a list whose parser nodes were rewritten into references

  datatype Graph = Graph(order: seq<int>, attrs: map<int, map<string, Value>>, succ: map<int, seq<int>>)

  /** One node of a graph whose ids are 1..n: its attributes and its successors in edge order. */
  datatype GraphNode = GraphNode(attrs: map<string, Value>, kids: seq<int>)

  /** `add_edge` to an existing node: a successor already present is not added twice. */
  function AddSuccessor(kids: seq<int>, c: int): (r: seq<int>)
    ensures c in r && forall x :: x in r <==> x in kids || x == c
  {
    if c in kids then kids else kids + [c]
  }

  /** The graph whose node `k` (1 <= k <= |nodes|) is `nodes[k - 1]`, inserted in id order. */
  function FromDense(nodes: seq<GraphNode>): (g: Graph)
    ensures |g.order| == |nodes| && forall i :: 0 <= i < |nodes| ==> g.order[i] == i + 1
    ensures forall k :: k in g.attrs <==> 1 <= k <= |nodes|
    ensures forall k :: k in g.succ <==> 1 <= k <= |nodes|
    ensures forall k :: 1 <= k <= |nodes| ==> g.attrs[k] == nodes[k - 1].attrs && g.succ[k] == nodes[k - 1].kids
  {
    Graph(seq(|nodes|, i => i + 1),
          map k | 1 <= k <= |nodes| :: NodeAt(nodes, k).attrs,
          map k | 1 <= k <= |nodes| :: NodeAt(nodes, k).kids)
  }

  /** Node `k` of a dense node list. */
  function NodeAt(nodes: seq<GraphNode>, k: int): GraphNode
    requires 1 <= k <= |nodes|
  {
    nodes[k - 1]
  }

  /** The shape every graph handed to the queries has: nodes listed once, each with a type tag,
    * edges between nodes, every child id larger than its parent's, and at most one parent per node. */
  ghost predicate WellFormed(g: Graph) {
    && (forall k :: k in g.attrs <==> k in g.succ)
    && (forall k :: k in g.succ <==> k in g.order)
    && (forall i, j :: 0 <= i < j < |g.order| ==> g.order[i] != g.order[j])
    && (forall k :: k in g.attrs ==> "node_type" in g.attrs[k] && g.attrs[k]["node_type"].Type?)
    && Forward(g)
    && SingleParent(g)
  }

  /** Every node is listed, and every edge goes between nodes, to a larger id. */
  ghost predicate Forward(g: Graph) {
    && (forall k :: k in g.succ ==> k in g.order)
    && (forall p, i :: p in g.succ && 0 <= i < |g.succ[p]| ==> g.succ[p][i] in g.succ && p < g.succ[p][i])
  }

  /** No node is the successor of two nodes, or twice the successor of one. */
  ghost predicate SingleParent(g: Graph) {
    forall p, q, i, j ::
      (p in g.succ && q in g.succ && 0 <= i < |g.succ[p]| && 0 <= j < |g.succ[q]| &&
       g.succ[p][i] == g.succ[q][j]) ==> p == q && i == j
  }

  /** The shape of a dense node list whose graph is well formed: every node stamped, every edge
    * to a later node of the list, and every node the successor of at most one node, once. */
  ghost predicate DenseWellFormed(nodes: seq<GraphNode>) {
    && (forall k :: 0 <= k < |nodes| ==> "node_type" in nodes[k].attrs && nodes[k].attrs["node_type"].Type?)
    && (forall k, j :: 0 <= k < |nodes| && 0 <= j < |nodes[k].kids| ==> k + 1 < nodes[k].kids[j] <= |nodes|)
    && (forall k, k', j, j' ::
          (0 <= k < |nodes| && 0 <= k' < |nodes| && 0 <= j < |nodes[k].kids| && 0 <= j' < |nodes[k'].kids| &&
           nodes[k].kids[j] == nodes[k'].kids[j']) ==> k == k' && j == j')
  }

  /** A dense node list whose nodes are stamped, whose edges go forward and whose nodes have at most
    * one incoming edge makes a well-formed graph. */
  lemma FromDenseWellFormed(nodes: seq<GraphNode>)
    requires DenseWellFormed(nodes)
    ensures WellFormed(FromDense(nodes))
  {
    var g := FromDense(nodes);
    forall k | k in g.succ ensures k in g.order {
      assert g.order[k - 1] == k;
    }
    forall k | k in g.attrs
      ensures "node_type" in g.attrs[k] && g.attrs[k]["node_type"].Type?
    {
      assert g.attrs[k] == nodes[k - 1].attrs;
    }
    forall p, i | p in g.succ && 0 <= i < |g.succ[p]|
      ensures g.succ[p][i] in g.succ && p < g.succ[p][i]
    {
      assert g.succ[p] == nodes[p - 1].kids;
    }
    forall p, q, i, j | p in g.succ && q in g.succ && 0 <= i < |g.succ[p]| && 0 <= j < |g.succ[q]| &&
                        g.succ[p][i] == g.succ[q][j]
      ensures p == q && i == j
    {
      assert g.succ[p] == nodes[p - 1].kids && g.succ[q] == nodes[q - 1].kids;
    }
  }

  /** The `node_type` attribute of a node. */
  function TypeOf(g: Graph, k: int): NodeType
    requires k in g.attrs && "node_type" in g.attrs[k] && g.attrs[k]["node_type"].Type?
  {
    g.attrs[k]["node_type"].t
  }
}
