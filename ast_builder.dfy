/** The graph builder: a parse tree of the external Java parser is walked once, every parser
  * node, string set and string becomes a graph node with the next dense id, and then every
  * parser node still held in an attribute is replaced by a reference to the graph node built
  * from it. Each step is proved to do what the reference definition in `BuildSpec` says. */
module Builder {
  import opened Wrappers
  import opened NodeTypes
  import opened NativeTree
  import opened Graphs
  import opened Attributes
  import opened BuildSpec
  import opened References
  import Traversal

  /** The parser node each graph node was built from, by id. */
  ghost function Origins(froms: seq<Native>): map<int, NativeId> {
    map k | 1 <= k <= |froms| && FromAt(froms, k).JNode? :: FromAt(froms, k).id
  }

  /** The value graph node `k` was built from. */
  ghost function FromAt(froms: seq<Native>, k: int): Native
    requires 1 <= k <= |froms|
  {
    froms[k - 1]
  }

  /** The identity map a whole build writes is inverted by the origins of its nodes. */
  lemma BuiltInverts(catalog: Catalog, e: Emission)
    requires RecordsMatch(catalog, e, 1)
    ensures Inverts(Origins(e.froms), Apply(map[], e.recorded))
  {
    IdentityNamesNodes(catalog, e, 1);
  }

  /** What a successful `build` hands back: a well-formed graph with one node per value built and
    * no parser node left in any attribute, the root's node at id 1 when the tree builds one (the
    * sentinel otherwise), and an identity map whose every entry names the node built from the
    * parser node with that identity. */
  lemma BuildResult(catalog: Catalog, tree: Native)
    requires Built(catalog, tree, 1).Ok?
    requires NodesResolvable(Apply(map[], Built(catalog, tree, 1).value.recorded), Built(catalog, tree, 1).value.nodes)
    ensures var e := Built(catalog, tree, 1).value;
            var identity := Apply(map[], e.recorded);
            var g := FromDense(Resolved(identity, e.nodes));
            && WellFormed(g)
            && |g.order| == |e.froms|
            && (|g.order| > 0 <==> Buildable(tree))
            && (Buildable(tree) ==> e.froms[0] == tree)
            && IndexOf(e) == (if Buildable(tree) then 1 else UnknownNodeIndex)
            && (forall k, name :: k in g.attrs && name in g.attrs[k] ==> !HoldsNative(g.attrs[k][name]))
            && (forall id :: id in identity ==>
                  && identity[id] in g.succ
                  && e.froms[identity[id] - 1].JNode? && e.froms[identity[id] - 1].id == id)
  {
    var e := Built(catalog, tree, 1).value;
    EmitLaid(catalog, tree, 1);
    BuildGraph(catalog, e);
    BuildIdentity(catalog, e);
  }

  /** A successful build of a value that builds a node is connected: every node of the graph
    * is reachable from node 1, the root, so each node other than the root has a parent. */
  lemma BuildReachable(catalog: Catalog, tree: Native)
    requires Built(catalog, tree, 1).Ok? && Buildable(tree)
    requires NodesResolvable(Apply(map[], Built(catalog, tree, 1).value.recorded), Built(catalog, tree, 1).value.nodes)
    ensures var e := Built(catalog, tree, 1).value;
            var g := FromDense(Resolved(Apply(map[], e.recorded), e.nodes));
            Traversal.ReachesAll(g, 1)
  {
    var e := Built(catalog, tree, 1).value;
    var identity := Apply(map[], e.recorded);
    EmitLaid(catalog, tree, 1);
    BuildGraph(catalog, e);
    ResolvedSucc(identity, e.nodes);
    TreeAllReachable(e, FromDense(Resolved(identity, e.nodes)));
  }

  /** The successors in the graph of a resolved dense node list are those of the list. */
  lemma ResolvedSucc(identity: map<NativeId, int>, nodes: seq<GraphNode>)
    requires NodesResolvable(identity, nodes)
    ensures var g := FromDense(Resolved(identity, nodes));
            && (forall x :: x in g.succ <==> 1 <= x <= |nodes|)
            && (forall x :: 1 <= x <= |nodes| ==> g.succ[x] == nodes[x - 1].kids)
  {
    var r := Resolved(identity, nodes);
    var g := FromDense(r);
    forall x | 1 <= x <= |nodes|
      ensures g.succ[x] == nodes[x - 1].kids
    {
      assert g.succ[x] == r[x - 1].kids;
    }
  }

  /** Every node of a whole build with a single root is reachable from node 1, on any graph with
    * the build's successors. */
  lemma TreeAllReachable(e: Emission, g: Graph)
    requires Tree(e, 1) && e.roots == [1]
    requires Forward(g) && forall x :: x in g.succ <==> 1 <= x <= |e.nodes|
    requires forall x :: 1 <= x <= |e.nodes| ==> g.succ[x] == e.nodes[x - 1].kids
    ensures 1 in g.succ && forall k :: k in g.succ ==> k in Traversal.Desc(g, 1)
  {
    assert |e.nodes| > 0 by {
      ChildrenOfMembers(e.parents, 1, 0);
    }
    forall k | k in g.succ
      ensures k in Traversal.Desc(g, 1)
    {
      TreeReachable(e, g, k);
    }
  }

  /** In a whole build whose only root is node 1, every node is reachable from node 1: its
    * parent has a smaller id and, by induction, is reachable, and it is a successor of its parent. */
  lemma {:induction false} TreeReachable(e: Emission, g: Graph, k: int)
    requires Tree(e, 1) && e.roots == [1]
    requires Forward(g) && forall x :: 1 <= x <= |e.nodes| ==> x in g.succ && g.succ[x] == e.nodes[x - 1].kids
    requires 1 <= k <= |e.nodes|
    ensures k in Traversal.Desc(g, 1)
    decreases k
  {
    if k > 1 {
      var p := e.parents[k - 1];
      ChildrenOfMembers(e.parents, 1, 0);
      assert p != 0;
      TreeReachable(e, g, p);
      ChildrenOfMembers(e.parents, 1, p);
      assert KidsAt(e, 1, p - 1);
      assert k in g.succ[p];
      var j :| 0 <= j < |g.succ[p]| && g.succ[p][j] == k;
      Traversal.DescOfMember(g, p, |g.succ[p]|, k);
      assert k in Traversal.Desc(g, p);
      Traversal.DescTransitive(g, 1, p, k);
    }
  }

  /** The graph a laid-out build resolves to. */
  lemma BuildGraph(catalog: Catalog, e: Emission)
    requires Laid(catalog, e, 1)
    requires NodesResolvable(Apply(map[], e.recorded), e.nodes)
    ensures var g := FromDense(Resolved(Apply(map[], e.recorded), e.nodes));
            && WellFormed(g)
            && (forall k, name :: k in g.attrs && name in g.attrs[k] ==> !HoldsNative(g.attrs[k][name]))
  {
    LaidWellFormed(catalog, e);
    LaidPlain(catalog, e, 1);
    ResolvedGraph(Apply(map[], e.recorded), e.nodes);
  }

  /** Every identity entry of a laid-out build names a node built from that parser node. */
  lemma BuildIdentity(catalog: Catalog, e: Emission)
    requires RecordsMatch(catalog, e, 1)
    ensures var identity := Apply(map[], e.recorded);
            forall id :: id in identity ==>
              && 1 <= identity[id] <= |e.froms|
              && e.froms[identity[id] - 1].JNode? && e.froms[identity[id] - 1].id == id
  {
    IdentityNamesNodes(catalog, e, 1);
  }

  /** Every node a build lays out has plain attributes. */
  lemma LaidPlain(catalog: Catalog, e: Emission, b: int)
    requires AttrsFrom(catalog, e)
    ensures forall k :: 0 <= k < |e.nodes| ==> Plain(e.nodes[k].attrs)
  {
    forall k | 0 <= k < |e.nodes| ensures Plain(e.nodes[k].attrs) {
      NodeAttributesStamped(catalog, e.froms[k]);
    }
  }

  /** Every node a build lays out has its attributes listed in its insertion order. */
  lemma LaidListed(catalog: Catalog, e: Emission)
    requires AttrsFrom(catalog, e)
    ensures forall k :: 0 <= k < |e.nodes| ==> Listed(catalog, e.nodes[k].attrs)
  {
    forall k | 0 <= k < |e.nodes| ensures Listed(catalog, e.nodes[k].attrs) {
      NodeAttributesListed(catalog, e.froms[k]);
    }
  }

  /** Every node of a whole build has its attributes listed in its insertion order. */
  lemma BuiltListed(catalog: Catalog, tree: Native)
    requires Built(catalog, tree, 1).Ok?
    ensures var e := Built(catalog, tree, 1).value;
            forall k :: 0 <= k < |e.nodes| ==> Listed(catalog, e.nodes[k].attrs)
  {
    EmitLaid(catalog, tree, 1);
    LaidListed(catalog, Built(catalog, tree, 1).value);
  }

  /** The graph of a resolved dense node list is well formed and holds no parser node. */
  lemma ResolvedGraph(identity: map<NativeId, int>, nodes: seq<GraphNode>)
    requires NodesResolvable(identity, nodes)
    requires forall k :: 0 <= k < |nodes| ==> Plain(nodes[k].attrs)
    requires DenseWellFormed(nodes)
    ensures var g := FromDense(Resolved(identity, nodes));
            && WellFormed(g)
            && (forall k, name :: k in g.attrs && name in g.attrs[k] ==> !HoldsNative(g.attrs[k][name]))
  {
    ResolvedClean(identity, nodes);
    ResolvedWellFormed(identity, nodes);
    var g := FromDense(Resolved(identity, nodes));
    forall k, name | k in g.attrs && name in g.attrs[k] ensures !HoldsNative(g.attrs[k][name]) {
      assert g.attrs[k] == Resolved(identity, nodes)[k - 1].attrs;
    }
  }

  /** One more string member of a set: its leaf is appended and becomes the last successor of
    * the collection node. */
  lemma LeafStep(n0: seq<GraphNode>, p: int, members: seq<Native>, i: nat, prior: Emission)
    requires 1 <= p <= |n0| && i < |members| && members[i].JStr?
    requires Leaves(members, i, |n0| + 1) == Ok(prior)
    ensures Leaves(members, i + 1, |n0| + 1).Ok?
    ensures var before := Attach(n0, p, prior);
            Attach(n0, p, Leaves(members, i + 1, |n0| + 1).value) ==
            (before + [GraphNode(StringAttributes(members[i].s), [])])[p - 1 :=
              GraphNode(before[p - 1].attrs, AddSuccessor(before[p - 1].kids, |before| + 1))]
  {
    var before := Attach(n0, p, prior);
    var m := members[i];
    var next := Adopt(m, StringAttributes(m.s), [], Nothing, |n0| + 1 + |prior.nodes|);
    assert Leaves(members, i + 1, |n0| + 1) == Ok(Join(prior, next));
    assert next.nodes == [GraphNode(StringAttributes(m.s), [])] && next.roots == [|before| + 1];
    AttachRoot(before, p, next, |before| + 1);
    AttachJoin(n0, p, prior, next);
  }

  /** Once every member has passed, the nodes appended are the building of the set. */
  lemma CollectionBuilt(catalog: Catalog, v: Native, start: seq<GraphNode>, index: int)
    requires v.JSet? && index == |start| + 1 && Leaves(v.members, |v.members|, index + 1).Ok?
    ensures Built(catalog, v, index).Ok?
    ensures Attach(start + [GraphNode(CollectionAttributes(), [])], index, Leaves(v.members, |v.members|, index + 1).value) ==
            start + Built(catalog, v, index).value.nodes
  {
    CollectionEmit(catalog, v, index);
    AttachAdopt(start, v, CollectionAttributes(), [], Leaves(v.members, |v.members|, index + 1).value, index);
  }

  /** A `None` member adds nothing. */
  lemma NoneStep(members: seq<Native>, i: nat, b: nat, prior: Emission)
    requires i < |members| && members[i].JNone? && Leaves(members, i, b) == Ok(prior)
    ensures Leaves(members, i + 1, b) == Ok(prior)
  {
  }

  /** One more child that is not a list: its nodes are appended and, if it built a node `c`,
    * that node becomes the parent's last successor. */
  lemma AttachValue(n0: seq<GraphNode>, m0: map<NativeId, int>, p: int, prior: Emission, next: Emission, c: int,
                    after: seq<GraphNode>, now: seq<GraphNode>)
    requires 1 <= p <= |n0|
    requires next.roots == (if c != UnknownNodeIndex then [c] else [])
    requires c == UnknownNodeIndex ==> next.nodes == []
    requires after == Attach(n0, p, prior) + next.nodes
    requires now == if c != UnknownNodeIndex
                    then after[p - 1 := GraphNode(after[p - 1].attrs, AddSuccessor(after[p - 1].kids, c))]
                    else after
    ensures now == Attach(n0, p, Join(prior, next))
    ensures Apply(m0, Join(prior, next).recorded) == Apply(Apply(m0, prior.recorded), next.recorded)
  {
    AttachJoin(n0, p, prior, next);
    ApplyAppend(m0, prior.recorded, next.recorded);
    if c != UnknownNodeIndex {
      AttachRoot(Attach(n0, p, prior), p, next, c);
    } else {
      AttachNothing(Attach(n0, p, prior), p, next);
    }
  }

  /** Before the first child: nothing emitted, the state untouched. */
  lemma EmitToStart(catalog: Catalog, c: Native, n0: seq<GraphNode>, m0: map<NativeId, int>, p: int, b: nat)
    requires 1 <= p <= |n0|
    ensures BuiltTo(catalog, c, 0, b) == Ok(Nothing)
    ensures n0 == Attach(n0, p, Nothing) && m0 == Apply(m0, Nothing.recorded)
  {
    assert Connect(n0[p - 1].kids, []) == n0[p - 1].kids;
    assert n0[p - 1 := GraphNode(n0[p - 1].attrs, n0[p - 1].kids)] == n0;
  }

  /** The builder's state: the graph as a dense node list (node `k` is `nodes[k - 1]`) and the
    * identity map from parser nodes to the ids of the graph nodes built from them. */
  class AstBuilder {
    const catalog: Catalog
    var nodes: seq<GraphNode>
    var identity: map<NativeId, int>

    constructor(catalog: Catalog)
      ensures this.catalog == catalog && nodes == [] && identity == map[]
    {
      this.catalog := catalog;
      nodes := [];
      identity := map[];
    }

    /** `_create_initial_state`: an empty graph and an empty identity map. */
    method CreateInitialState()
      modifies this
      ensures nodes == [] && identity == map[]
    {
      nodes := [];
      identity := map[];
    }

    /** `add_node` with the next id: the node gets id `len(graph) + 1` and no successors. */
    method AddNode(a: map<string, Value>) returns (index: int)
      modifies this
      ensures index == |old(nodes)| + 1 && nodes == old(nodes) + [GraphNode(a, [])]
      ensures identity == old(identity)
    {
      index := |nodes| + 1;
      nodes := nodes + [GraphNode(a, [])];
    }

    /** `add_edge` between existing nodes: `c` becomes the last successor of `p` unless it is one already. */
    method AddEdge(p: int, c: int)
      requires 1 <= p <= |nodes|
      modifies this
      ensures nodes == old(nodes)[p - 1 := GraphNode(old(nodes)[p - 1].attrs, AddSuccessor(old(nodes)[p - 1].kids, c))]
      ensures identity == old(identity)
    {
      nodes := nodes[p - 1 := GraphNode(nodes[p - 1].attrs, AddSuccessor(nodes[p - 1].kids, c))];
    }

    /** `_post_process_javalang_attributes`: the three normalisation rules, each reading the
      * attribute it rewrites (a missing one raises). */
    method PostProcessAttributes(t: NodeType, attributes: map<string, Value>) returns (r: Result<map<string, Value>, BuildError>)
      ensures r == Normalized(t, attributes)
    {
      var a := attributes;
      if t == MethodDeclaration {
        if "body" !in a { return Err(MissingAttribute("body")); }
        if a["body"] == Raw(JNone) {
          a := a["body" := Raw(JList([]))];
        }
      }
      if t == LambdaExpression {
        if "body" !in a { return Err(MissingAttribute("body")); }
        if a["body"].Raw? && a["body"].v.JNode? {
          a := a["body" := Raw(JList([a["body"].v]))];
        }
      }
      if t == MethodInvocation || t == MemberReference {
        if "qualifier" !in a { return Err(MissingAttribute("qualifier")); }
        if a["qualifier"] == Raw(JStr("")) {
          a := a["qualifier" := Raw(JNone)];
        }
      }
      return Ok(a);
    }

    /** `_add_javalang_standard_node`: a node with the catalog attributes of the parser node's
      * type, its type tag and line, normalised; the parser node's children are not built here. */
    method AddStandardNode(v: Native) returns (r: Result<(int, NodeType), BuildError>)
      requires v.JNode?
      modifies this
      ensures var placed := Place(catalog, v, |old(nodes)| + 1);
              && (r.Ok? <==> placed.Ok?) && (r.Err? ==> r.error == placed.error)
              && (r.Ok? ==> nodes == old(nodes) + placed.value.nodes &&
                            r.value == (|old(nodes)| + 1, PlacedType(catalog, v)))
      ensures identity == old(identity)
    {
      if v.className !in catalog.nodeTypeOf {
        return Err(UnknownNodeClass(v.className));
      }
      var t := catalog.nodeTypeOf[v.className];
      if t !in catalog.attributeNames {
        return Err(UnknownNodeType(t));
      }
      var copied := CopyAttributes(v, catalog.attributeNames[t]);
      if copied.Err? {
        return Err(copied.error);
      }
      var attributes := copied.value["node_type" := Type(t)]["line" := LineOf(v.position)];
      var processed := PostProcessAttributes(t, attributes);
      if processed.Err? {
        return Err(processed.error);
      }
      var index := AddNode(processed.value);
      return Ok((index, t));
    }

    /** `_add_javalang_string_node`: a leaf holding the string. */
    method AddStringNode(s: string) returns (index: int)
      modifies this
      ensures index == |old(nodes)| + 1 && nodes == old(nodes) + [GraphNode(StringAttributes(s), [])]
      ensures identity == old(identity)
    {
      index := AddNode(StringAttributes(s));
    }

    /** `_add_javalang_collection_node`: a collection node with a string leaf child per string
      * member, in iteration order; a `None` member is skipped and any other member raises. */
    method AddCollectionNode(v: Native) returns (r: Result<int, BuildError>)
      requires v.JSet?
      modifies this
      ensures var e := Built(catalog, v, |old(nodes)| + 1);
              && (r.Ok? <==> e.Ok?) && (r.Err? ==> r.error == e.error)
              && (r.Ok? ==> nodes == old(nodes) + e.value.nodes && r.value == |old(nodes)| + 1)
      ensures identity == old(identity)
    {
      ghost var start := nodes;
      var index := AddNode(CollectionAttributes());
      ghost var n0 := nodes;
      ghost var prior := Nothing;
      var i := 0;
      while i < |v.members|
        invariant 0 <= i <= |v.members| && |n0| == index && n0 == start + [GraphNode(CollectionAttributes(), [])]
        invariant Leaves(v.members, i, index + 1) == Ok(prior)
        invariant nodes == Attach(n0, index, prior)
        invariant identity == old(identity)
      {
        var o := AddCollectionMember(v.members, i, index, n0, prior);
        if o.Fail? {
          CollectionFails(catalog, v, i, index);
          return Err(o.error);
        }
        prior := Leaves(v.members, i + 1, index + 1).value;
        i := i + 1;
      }
      CollectionBuilt(catalog, v, start, index);
      return Ok(index);
    }

    /** The body of the loop of `_add_javalang_collection_node`: a string member gets a leaf
      * that becomes the collection node's last successor, `None` is skipped and anything else
      * raises. */
    method AddCollectionMember(members: seq<Native>, i: nat, p: int, ghost n0: seq<GraphNode>, ghost prior: Emission)
      returns (o: Outcome<BuildError>)
      requires i < |members| && p == |n0| && 1 <= p
      requires Leaves(members, i, p + 1) == Ok(prior) && nodes == Attach(n0, p, prior)
      modifies this
      ensures identity == old(identity)
      ensures o.Pass? <==> Leaves(members, i + 1, p + 1).Ok?
      ensures o.Fail? ==> o.error == UnexpectedCollectionMember(members[i]) && !members[i].JStr? && !members[i].JNone?
      ensures o.Pass? ==> nodes == Attach(n0, p, Leaves(members, i + 1, p + 1).value)
    {
      var m := members[i];
      if m.JStr? {
        LeafStep(n0, p, members, i, prior);
        var leaf := AddStringNode(m.s);
        AddEdge(p, leaf);
      } else if m.JNone? {
        NoneStep(members, i, p + 1, prior);
      } else {
        return Fail(UnexpectedCollectionMember(m));
      }
      return Pass;
    }

    /** `_add_javalang_node`: the node of a parser node, set or string, with its id and type;
      * any other value adds nothing and reports the sentinel. */
    method AddNativeNode(v: Native) returns (r: Result<(int, NodeType), BuildError>)
      modifies this
      ensures var placed := Place(catalog, v, |old(nodes)| + 1);
              && (r.Ok? <==> placed.Ok?) && (r.Err? ==> r.error == placed.error)
              && (r.Ok? ==> nodes == old(nodes) + placed.value.nodes &&
                            r.value == (IndexOf(placed.value), PlacedType(catalog, v)))
      ensures identity == old(identity)
    {
      if v.JNode? {
        r := AddStandardNode(v);
      } else if v.JSet? {
        var index :- AddCollectionNode(v);
        r := Ok((index, Collection));
      } else if v.JStr? {
        var index := AddStringNode(v.s);
        r := Ok((index, String));
      } else {
        r := Ok((UnknownNodeIndex, Unknown));
      }
    }

    /** `_add_subtree_from_javalang_node`: the value's node, recorded in the identity map and
      * filled with its children when it is a parser node of a non-synthetic type. */
    method AddSubtree(v: Native, ghost e: Result<Emission, BuildError>) returns (r: Result<int, BuildError>)
      requires e == Built(catalog, v, |nodes| + 1)
      modifies this
      ensures && (r.Ok? <==> e.Ok?) && (r.Err? ==> r.error == e.error)
              && (r.Ok? ==> && nodes == old(nodes) + e.value.nodes
                            && identity == Apply(old(identity), e.value.recorded)
                            && r.value == IndexOf(e.value))
      decreases v, 2
    {
      ghost var n0, m0 := nodes, identity;
      var placed := AddNativeNode(v);
      if placed.Err? {
        PlaceFails(catalog, v, |n0| + 1);
        return Err(placed.error);
      }
      var index, t := placed.value.0, placed.value.1;
      PlaceRecurses(catalog, v, |n0| + 1);
      if index != UnknownNodeIndex && !IsSyntheticType(t) {
        PlaceThenFill(catalog, v, index);
        identity := identity[v.id := index];
        assert identity == Apply(m0, [(v.id, index)]);
        var o := AddChildren(v, index);
        if o.Fail? {
          return Err(o.error);
        }
        ghost var sub := BuiltTo(catalog, v, |Kids(v)|, index + 1).value;
        AttachAdopt(n0, v, StandardAttributes(catalog, v).value, [(v.id, index)], sub, index);
        ApplyAppend(m0, [(v.id, index)], sub.recorded);
      } else {
        PlaceIsEmit(catalog, v, |n0| + 1);
        assert Apply(m0, []) == m0;
      }
      return Ok(index);
    }

    /** `_add_javalang_children`: each child in order, nested lists flattened into the same
      * parent, with an edge from the parent to every child that built a node. */
    method AddChildren(c: Native, p: int) returns (o: Outcome<BuildError>)
      requires 1 <= p <= |nodes|
      modifies this
      ensures var e := BuiltTo(catalog, c, |Kids(c)|, |old(nodes)| + 1);
              && (o.Pass? <==> e.Ok?) && (o.Fail? ==> o.error == e.error)
              && (o.Pass? ==> nodes == Attach(old(nodes), p, e.value) &&
                              identity == Apply(old(identity), e.value.recorded))
      decreases c, 1
    {
      ghost var n0, m0 := nodes, identity;
      ghost var b := |n0| + 1;
      EmitToStart(catalog, c, n0, m0, p, b);
      ghost var prior := Nothing;
      var i := 0;
      while i < |Kids(c)|
        invariant 0 <= i <= |Kids(c)| && 1 <= p <= |n0|
        invariant BuiltTo(catalog, c, i, b) == Ok(prior)
        invariant nodes == Attach(n0, p, prior) && identity == Apply(m0, prior.recorded)
      {
        o := AddChild(c, i, p, n0, m0, prior);
        if o.Fail? {
          EmitToFails(catalog, c, i + 1, |Kids(c)|, b, o.error);
          return;
        }
        prior := BuiltTo(catalog, c, i + 1, b).value;
        i := i + 1;
      }
      return Pass;
    }

    /** The body of the loop of `_add_javalang_children`: child `i` of `c` is added after what
      * the earlier children added, a nested list flattened into the same parent. */
    method AddChild(c: Native, i: nat, p: int, ghost n0: seq<GraphNode>, ghost m0: map<NativeId, int>, ghost prior: Emission)
      returns (o: Outcome<BuildError>)
      requires i < |Kids(c)| && 1 <= p <= |n0|
      requires BuiltTo(catalog, c, i, |n0| + 1) == Ok(prior)
      requires nodes == Attach(n0, p, prior) && identity == Apply(m0, prior.recorded)
      modifies this
      ensures var e := BuiltTo(catalog, c, i + 1, |n0| + 1);
              && (o.Pass? <==> e.Ok?) && (o.Fail? ==> o.error == e.error)
              && (o.Pass? ==> nodes == Attach(n0, p, e.value) && identity == Apply(m0, e.value.recorded))
      decreases c, 0
    {
      if Kids(c)[i].JList? {
        o := AddListChild(c, i, p, n0, m0, prior);
      } else {
        o := AddValueChild(c, i, p, n0, m0, prior);
      }
    }

    /** The body of the loop of `_add_javalang_children` for a child that is a nested list: its
      * elements are added to the same parent, after what the earlier children added. */
    method AddListChild(c: Native, i: nat, p: int, ghost n0: seq<GraphNode>, ghost m0: map<NativeId, int>,
                        ghost prior: Emission)
      returns (o: Outcome<BuildError>)
      requires i < |Kids(c)| && Kids(c)[i].JList? && 1 <= p <= |n0|
      requires BuiltTo(catalog, c, i, |n0| + 1) == Ok(prior)
      requires nodes == Attach(n0, p, prior) && identity == Apply(m0, prior.recorded)
      modifies this
      ensures var e := BuiltTo(catalog, c, i + 1, |n0| + 1);
              && (o.Pass? <==> e.Ok?) && (o.Fail? ==> o.error == e.error)
              && (o.Pass? ==> nodes == Attach(n0, p, e.value) && identity == Apply(m0, e.value.recorded))
      decreases Kids(c)[i], 2
    {
      ghost var b' := |n0| + 1 + |prior.nodes|;
      var k := Kids(c)[i];
      EmitToListStep(catalog, c, i, |n0| + 1);
      assert |nodes| + 1 == b';
      o := AddChildren(k, p);
      if o.Pass? {
        ghost var next := BuiltTo(catalog, k, |Kids(k)|, b').value;
        AttachJoin(n0, p, prior, next);
        ApplyAppend(m0, prior.recorded, next.recorded);
      }
    }

    /** The body of the loop of `_add_javalang_children` for a child that is not a list: its
      * subtree is added after what the earlier children added and, if it built a node, an edge
      * from the parent to that node. */
    method AddValueChild(c: Native, i: nat, p: int, ghost n0: seq<GraphNode>, ghost m0: map<NativeId, int>,
                         ghost prior: Emission)
      returns (o: Outcome<BuildError>)
      requires i < |Kids(c)| && !Kids(c)[i].JList? && 1 <= p <= |n0|
      requires BuiltTo(catalog, c, i, |n0| + 1) == Ok(prior)
      requires nodes == Attach(n0, p, prior) && identity == Apply(m0, prior.recorded)
      modifies this
      ensures var e := BuiltTo(catalog, c, i + 1, |n0| + 1);
              && (o.Pass? <==> e.Ok?) && (o.Fail? ==> o.error == e.error)
              && (o.Pass? ==> nodes == Attach(n0, p, e.value) && identity == Apply(m0, e.value.recorded))
      decreases Kids(c)[i], 3
    {
      ghost var b' := |n0| + 1 + |prior.nodes|;
      var k := Kids(c)[i];
      ghost var built := Built(catalog, k, b');
      EmitToValueStep(catalog, c, i, |n0| + 1, prior, built);
      assert |nodes| + 1 == b';
      var index := AddSubtree(k, built);
      if index.Err? {
        return Fail(index.error);
      }
      ghost var next := built.value;
      EmitRoots(catalog, k, b');
      ghost var after := nodes;
      if index.value != UnknownNodeIndex {
        AddEdge(p, index.value);
      }
      AttachValue(n0, m0, p, prior, next, index.value, after, nodes);
      return Pass;
    }

    /** `_replace_javalang_nodes_in_attributes` for one node: every attribute is rewritten in
      * place, in the order the dictionary yields them, which is their insertion order; the first
      * one the resolver rejects raises. Keys missing from that order (a node the builder never
      * makes) are visited afterwards. */
    method ReplaceNodesInNodeAttributes(a: map<string, Value>) returns (r: Result<map<string, Value>, BuildError>)
      ensures r.Ok? <==> NodeResolvable(identity, a)
      ensures r.Ok? ==> r.value == ResolvedAttrs(identity, a)
      ensures r.Err? ==> r.error.UnparsableAttribute? || (r.error.BrokenReference? && r.error.id !in identity)
      ensures var first := FirstFailure(identity, a, InsertionOrder(catalog, a));
              && (first.Some? ==> r == Err(first.value))
              && (Listed(catalog, a) && r.Err? ==> first.Some?)
    {
      var order := InsertionOrder(catalog, a);
      var out, done, failed := ResolveInOrder(a, order);
      if failed.Some? {
        FirstFailureSpec(identity, a, order);
        return Err(failed.value);
      }
      if Listed(catalog, a) {
        forall name | name in a
          ensures name in done
        {
          var j :| 0 <= j < |order| && order[j] == name;
        }
      }
      r := ResolveRest(a, out, done);
    }

    /** The attributes named by `names` rewritten in that order, up to the first that does not
      * resolve; `done` holds the names visited. */
    method ResolveInOrder(a: map<string, Value>, names: seq<string>)
      returns (out: map<string, Value>, done: set<string>, failed: Option<BuildError>)
      ensures failed == FirstFailure(identity, a, names)
      ensures failed.None? ==>
                && out.Keys == a.Keys
                && (forall j :: 0 <= j < |names| ==> names[j] in done)
                && (forall name :: name in a && name in done ==>
                      AttributeResolvable(identity, a[name]) && out[name] == ResolveAttribute(identity, a[name]).value)
                && (forall name :: name in a && name !in done ==> out[name] == a[name])
    {
      out, done := a, {};
      var i := 0;
      while i < |names|
        invariant 0 <= i <= |names| && out.Keys == a.Keys
        invariant FirstFailure(identity, a, names) == FirstFailure(identity, a, names[i..])
        invariant forall j :: 0 <= j < i ==> names[j] in done
        invariant forall name :: name in a && name in done ==>
                    AttributeResolvable(identity, a[name]) && out[name] == ResolveAttribute(identity, a[name]).value
        invariant forall name :: name in a && name !in done ==> out[name] == a[name]
      {
        var name := names[i];
        assert names[i..][1..] == names[i + 1..];
        if name in a {
          var x := ResolveAttribute(identity, a[name]);
          if x.Err? {
            return out, done, Some(x.error);
          }
          out := out[name := x.value];
        }
        done := done + {name};
        i := i + 1;
      }
      assert names[i..] == [];
      return out, done, None;
    }

    /** The attributes not in `done` rewritten in whatever order, after those in `done` were. */
    method ResolveRest(a: map<string, Value>, out0: map<string, Value>, done: set<string>)
      returns (r: Result<map<string, Value>, BuildError>)
      requires out0.Keys == a.Keys
      requires forall name :: name in a && name in done ==>
                 AttributeResolvable(identity, a[name]) && out0[name] == ResolveAttribute(identity, a[name]).value
      requires forall name :: name in a && name !in done ==> out0[name] == a[name]
      ensures r.Ok? <==> NodeResolvable(identity, a)
      ensures r.Ok? ==> r.value == ResolvedAttrs(identity, a)
      ensures r.Err? ==> r.error.UnparsableAttribute? || (r.error.BrokenReference? && r.error.id !in identity)
      ensures a.Keys <= done ==> r.Ok?
    {
      var out := out0;
      var todo := a.Keys - done;
      while todo != {}
        invariant todo <= a.Keys && out.Keys == a.Keys
        invariant forall name :: name in a && name !in todo ==>
                    AttributeResolvable(identity, a[name]) && out[name] == ResolveAttribute(identity, a[name]).value
        invariant forall name :: name in todo ==> out[name] == a[name]
        decreases |todo|
      {
        var name :| name in todo;
        var x := ResolveAttribute(identity, a[name]);
        if x.Err? {
          return Err(x.error);
        }
        out := out[name := x.value];
        todo := todo - {name};
      }
      ResolvedAttrsPointwise(identity, a, out);
      return Ok(out);
    }

    /** `_replace_javalang_nodes_in_attributes`: the nodes in id order, each one's attributes
      * rewritten; successors and the identity map are untouched. The error raised is that of the
      * first node, in id order, with an attribute that does not resolve. */
    method ReplaceNodesInAttributes() returns (o: Outcome<BuildError>)
      modifies this
      ensures identity == old(identity) && |nodes| == |old(nodes)|
      ensures o.Pass? <==> NodesResolvable(identity, old(nodes))
      ensures o.Pass? ==> nodes == Resolved(identity, old(nodes))
      ensures o.Fail? ==> o.error.UnparsableAttribute? || (o.error.BrokenReference? && o.error.id !in identity)
      ensures var first := FirstNodesFailure(catalog, identity, old(nodes));
              (forall k :: 0 <= k < |old(nodes)| ==> Listed(catalog, old(nodes)[k].attrs)) ==>
                (o.Fail? <==> first.Some?) && (o.Fail? ==> o.error == first.value)
    {
      ghost var n0 := nodes;
      var i := 0;
      while i < |nodes|
        invariant 0 <= i <= |nodes| == |n0| && identity == old(identity)
        invariant FirstNodesFailure(catalog, identity, n0) == FirstNodesFailure(catalog, identity, n0[i..])
        invariant forall k :: 0 <= k < i ==> NodeResolvable(identity, n0[k].attrs)
        invariant forall k :: 0 <= k < i ==> nodes[k] == GraphNode(ResolvedAttrs(identity, n0[k].attrs), n0[k].kids)
        invariant forall k :: i <= k < |nodes| ==> nodes[k] == n0[k]
      {
        assert n0[i..][1..] == n0[i + 1..] && n0[i..][0] == n0[i];
        var r := ReplaceNodesInNodeAttributes(nodes[i].attrs);
        if r.Err? {
          return Fail(r.error);
        }
        nodes := nodes[i := GraphNode(r.value, nodes[i].kids)];
        i := i + 1;
      }
      assert nodes == Resolved(identity, n0);
      if forall k :: 0 <= k < |n0| ==> Listed(catalog, n0[k].attrs) {
        ListedNodesFailure(catalog, identity, n0);
      }
      return Pass;
    }

    /** `build` from an already parsed tree: a fresh state, the tree built from id 1, then the
      * second pass; the graph and the id of the root's node (the sentinel when the tree is not a
      * parser node, set or string). A failed second pass raises the error of the first node, in
      * id order, with an attribute that does not resolve, its attributes taken in insertion order. */
    method Build(tree: Native) returns (r: Result<(Graph, int), BuildError>)
      modifies this
      ensures var e := Built(catalog, tree, 1);
              && (e.Err? ==> r == Err(e.error))
              && (e.Ok? ==> identity == Apply(map[], e.value.recorded) &&
                            (r.Ok? <==> NodesResolvable(identity, e.value.nodes)))
              && (r.Ok? ==> r.value == (FromDense(Resolved(identity, e.value.nodes)), IndexOf(e.value)))
              && (e.Ok? && r.Err? ==> FirstNodesFailure(catalog, identity, e.value.nodes) == Some(r.error))
    {
      CreateInitialState();
      var root :- AddSubtree(tree, Built(catalog, tree, |nodes| + 1));
      ghost var e := Built(catalog, tree, 1).value;
      assert [] + e.nodes == e.nodes;
      assert nodes == e.nodes && Apply(map[], e.recorded) == identity;
      BuiltListed(catalog, tree);
      var o := ReplaceNodesInAttributes();
      if o.Fail? {
        return Err(o.error);
      }
      return Ok((FromDense(nodes), root));
    }
  }
}
