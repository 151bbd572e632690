/** The second pass of the builder: every parser node still held in an attribute, on its own
  * or at any depth of nested lists, is replaced by a reference to the graph node built from it,
  * looked up in the identity map. */
module References {
  import opened Wrappers
  import opened NodeTypes
  import opened NativeTree
  import opened Graphs
  import opened Attributes

  /** A parser node at any list depth of a parser value (set members are not looked into). */
  predicate NativeHoldsNode(x: Native) {
    match x
    case JNode(_, _, _, _, _) => true
    case JList(items) => exists k :: 0 <= k < |items| && NativeHoldsNode(items[k])
    case _ => false
  }

  /** A parser node left in an attribute value, at any list depth. */
  predicate HoldsNative(x: Value) {
    match x
    case Raw(n) => NativeHoldsNode(n)
    case Refs(items) => exists k :: 0 <= k < |items| && HoldsNative(items[k])
    case _ => false
  }

  /** A list item the resolver accepts: every parser node at any depth is in the identity map,
    * and every other leaf is an int, a bool, a string or None. */
  predicate ItemResolvable(identity: map<NativeId, int>, item: Native) {
    match item
    case JNode(id, _, _, _, _) => id in identity
    case JList(items) => forall k :: 0 <= k < |items| ==> ItemResolvable(identity, items[k])
    case JInt(_) => true
    case JBool(_) => true
    case JStr(_) => true
    case JNone => true
    case _ => false
  }

  /** `_create_reference_to_node`: the reference to the graph node recorded for a parser node; a
    * parser node missing from the identity map raises (a failed dictionary lookup). */
  function CreateReference(identity: map<NativeId, int>, id: NativeId): (r: Result<Value, BuildError>)
    ensures r.Ok? <==> id in identity
    ensures r.Ok? ==> r.value.Ref? && r.value.index == identity[id]
    ensures r.Err? ==> r.error == BrokenReference(id)
  {
    if id in identity then Ok(Ref(identity[id])) else Err(BrokenReference(id))
  }

  /** `_replace_javalang_nodes_in_list`: a list with parser nodes replaced by references, at any depth. */
  function ResolveList(identity: map<NativeId, int>, items: seq<Native>): (r: Result<seq<Value>, BuildError>)
    decreases items
    ensures r.Ok? <==> forall k :: 0 <= k < |items| ==> ItemResolvable(identity, items[k])
    ensures r.Ok? ==> |r.value| == |items| && forall k :: 0 <= k < |r.value| ==> !HoldsNative(r.value[k])
    ensures r.Err? ==> r.error.UnparsableAttribute? || (r.error.BrokenReference? && r.error.id !in identity)
  {
    if items == [] then Ok([])
    else
      var head :- ResolveItem(identity, items[0]);
      var tail :- ResolveList(identity, items[1..]);
      Ok([head] + tail)
  }

  /** One list item: a node becomes its reference, a nested list is resolved, scalars are kept,
    * and anything else raises. */
  function ResolveItem(identity: map<NativeId, int>, item: Native): (r: Result<Value, BuildError>)
    decreases item
    ensures r.Ok? <==> ItemResolvable(identity, item)
    ensures r.Ok? ==> !HoldsNative(r.value)
    ensures r.Err? ==> r.error.UnparsableAttribute? || (r.error.BrokenReference? && r.error.id !in identity)
  {
    match item
    case JNode(id, _, _, _, _) => CreateReference(identity, id)
    case JList(items) =>
      var rs :- ResolveList(identity, items);
      Ok(Refs(rs))
    case JInt(_) => Ok(Raw(item))
    case JBool(_) => Ok(Raw(item))
    case JStr(_) => Ok(Raw(item))
    case JNone => Ok(Raw(item))
    case _ => Err(UnparsableAttribute(item))
  }

  /** Whether the resolver accepts a top-level attribute value. */
  predicate AttributeResolvable(identity: map<NativeId, int>, x: Value) {
    match x
    case Raw(JNode(id, _, _, _, _)) => id in identity
    case Raw(JList(items)) => forall k :: 0 <= k < |items| ==> ItemResolvable(identity, items[k])
    case _ => true
  }

  /** The rewrite of one attribute value: a parser node becomes a reference, a list is resolved
    * item by item, and any other value is kept. */
  function ResolveAttribute(identity: map<NativeId, int>, x: Value): (r: Result<Value, BuildError>)
    ensures r.Ok? <==> AttributeResolvable(identity, x)
    ensures r.Ok? && (x.Raw? || x.Type?) ==> !HoldsNative(r.value)
    ensures r.Ok? && !(x.Raw? && (x.v.JNode? || x.v.JList?)) ==> r.value == x
    ensures r.Err? ==> r.error.UnparsableAttribute? || (r.error.BrokenReference? && r.error.id !in identity)
  {
    match x
    case Raw(JNode(id, _, _, _, _)) => CreateReference(identity, id)
    case Raw(JList(items)) =>
      var rs :- ResolveList(identity, items);
      Ok(Refs(rs))
    case _ => Ok(x)
  }

  /** A value with parser nodes and references both reduced to parser-node identities: the
    * information the resolver must keep. */
  datatype Shape =
    | NodeShape(id: NativeId)
    | ListShape(items: seq<Shape>)
    | LeafShape(leaf: Native)
    | TagShape(t: NodeType)
    | Dangling(index: int)

  ghost function NativeShape(x: Native): Shape
    decreases x
  {
    match x
    case JNode(id, _, _, _, _) => NodeShape(id)
    case JList(items) => ListShape(seq(|items|, k requires 0 <= k < |items| => NativeShape(items[k])))
    case _ => LeafShape(x)
  }

  /** The shape of an attribute value, reading each reference through `origin`, which gives the
    * parser node each graph node was built from. */
  ghost function ValueShape(x: Value, origin: map<int, NativeId>): Shape
    decreases x
  {
    match x
    case Raw(n) => NativeShape(n)
    case Type(t) => TagShape(t)
    case Ref(index) => if index in origin then NodeShape(origin[index]) else Dangling(index)
    case Refs(items) => ListShape(seq(|items|, k requires 0 <= k < |items| => ValueShape(items[k], origin)))
  }

  /** `origin` inverts the identity map: each recorded parser node maps to a graph node built from it. */
  ghost predicate Inverts(origin: map<int, NativeId>, identity: map<NativeId, int>) {
    forall id :: id in identity ==> identity[id] in origin && origin[identity[id]] == id
  }

  /** Resolving a list item keeps its shape: every reference leads back to the parser node it replaced. */
  lemma {:induction false} ResolveItemKeepsShape(identity: map<NativeId, int>, origin: map<int, NativeId>, item: Native)
    requires Inverts(origin, identity)
    requires ResolveItem(identity, item).Ok?
    ensures ValueShape(ResolveItem(identity, item).value, origin) == NativeShape(item)
    decreases item
  {
    if item.JList? {
      ResolveListKeepsShape(identity, origin, item.items);
    }
  }

  lemma {:induction false} ResolveListKeepsShape(identity: map<NativeId, int>, origin: map<int, NativeId>, items: seq<Native>)
    requires Inverts(origin, identity)
    requires ResolveList(identity, items).Ok?
    ensures var rs := ResolveList(identity, items).value;
            |rs| == |items| && forall k :: 0 <= k < |items| ==> ValueShape(rs[k], origin) == NativeShape(items[k])
    decreases items
  {
    if items != [] {
      ResolveItemKeepsShape(identity, origin, items[0]);
      ResolveListKeepsShape(identity, origin, items[1..]);
      var rs := ResolveList(identity, items).value;
      forall k | 0 <= k < |items|
        ensures ValueShape(rs[k], origin) == NativeShape(items[k])
      {
        if k > 0 {
          assert rs[k] == ResolveList(identity, items[1..]).value[k - 1];
          assert items[k] == items[1..][k - 1];
        }
      }
    }
  }

  /** Resolving an attribute keeps its shape (the round trip of reference resolution). */
  lemma ResolveAttributeKeepsShape(identity: map<NativeId, int>, origin: map<int, NativeId>, x: Value)
    requires Inverts(origin, identity)
    requires ResolveAttribute(identity, x).Ok?
    requires x.Raw? || x.Type?
    ensures ValueShape(ResolveAttribute(identity, x).value, origin) == ValueShape(x, origin)
  {
    if x.Raw? && x.v.JList? {
      ResolveListKeepsShape(identity, origin, x.v.items);
      var rs := ResolveList(identity, x.v.items).value;
      assert ValueShape(Refs(rs), origin).items == NativeShape(x.v).items;
    }
  }

  // ---------------------------------------------------------------------------------------------
  // Whole nodes and node lists

  /** Whether the resolver accepts every attribute of a node. */
  predicate NodeResolvable(identity: map<NativeId, int>, a: map<string, Value>) {
    forall name :: name in a ==> AttributeResolvable(identity, a[name])
  }

  /** Whether the resolver accepts every attribute of every node. */
  predicate NodesResolvable(identity: map<NativeId, int>, nodes: seq<GraphNode>) {
    forall k :: 0 <= k < |nodes| ==> NodeResolvable(identity, nodes[k].attrs)
  }

  /** A node's attributes after the second pass. */
  function ResolvedAttrs(identity: map<NativeId, int>, a: map<string, Value>): (r: map<string, Value>)
    requires NodeResolvable(identity, a)
    ensures r.Keys == a.Keys
  {
    map name | name in a :: ResolveAttribute(identity, a[name]).value
  }

  /** Attributes resolved one by one, under the same keys, are the resolved attributes. */
  lemma ResolvedAttrsPointwise(identity: map<NativeId, int>, a: map<string, Value>, out: map<string, Value>)
    requires out.Keys == a.Keys
    requires forall name :: name in a ==>
               AttributeResolvable(identity, a[name]) && out[name] == ResolveAttribute(identity, a[name]).value
    ensures NodeResolvable(identity, a) && out == ResolvedAttrs(identity, a)
  {
  }

  /** The node list after the second pass: attributes resolved, successors untouched. */
  function Resolved(identity: map<NativeId, int>, nodes: seq<GraphNode>): (r: seq<GraphNode>)
    requires NodesResolvable(identity, nodes)
    ensures |r| == |nodes|
  {
    seq(|nodes|, k requires 0 <= k < |nodes| => GraphNode(ResolvedAttrs(identity, nodes[k].attrs), nodes[k].kids))
  }

  /** After the second pass no attribute holds a parser node, at any depth; type tags and
    * successors are kept and so are the attribute names. */
  lemma ResolvedClean(identity: map<NativeId, int>, nodes: seq<GraphNode>)
    requires NodesResolvable(identity, nodes)
    requires forall k :: 0 <= k < |nodes| ==> Plain(nodes[k].attrs)
    ensures var r := Resolved(identity, nodes);
            forall k :: 0 <= k < |nodes| ==>
              && r[k].kids == nodes[k].kids
              && r[k].attrs.Keys == nodes[k].attrs.Keys
              && (forall name :: name in r[k].attrs ==> !HoldsNative(r[k].attrs[name]))
              && (forall name :: name in nodes[k].attrs && nodes[k].attrs[name].Type? ==>
                    r[k].attrs[name] == nodes[k].attrs[name])
  {
  }

  /** The second pass loses nothing: read back through `origin`, every resolved attribute has the
    * shape of the value it replaced. */
  lemma ResolvedKeepsShape(identity: map<NativeId, int>, origin: map<int, NativeId>, nodes: seq<GraphNode>)
    requires Inverts(origin, identity)
    requires NodesResolvable(identity, nodes)
    requires forall k :: 0 <= k < |nodes| ==> Plain(nodes[k].attrs)
    ensures var r := Resolved(identity, nodes);
            forall k, name :: 0 <= k < |nodes| && name in nodes[k].attrs ==>
              ValueShape(r[k].attrs[name], origin) == ValueShape(nodes[k].attrs[name], origin)
  {
    forall k, name | 0 <= k < |nodes| && name in nodes[k].attrs
      ensures ValueShape(Resolved(identity, nodes)[k].attrs[name], origin) == ValueShape(nodes[k].attrs[name], origin)
    {
      ResolveAttributeKeepsShape(identity, origin, nodes[k].attrs[name]);
    }
  }

  /** The second pass keeps a well-formed graph well formed. */
  lemma ResolvedWellFormed(identity: map<NativeId, int>, nodes: seq<GraphNode>)
    requires NodesResolvable(identity, nodes)
    requires forall k :: 0 <= k < |nodes| ==> Plain(nodes[k].attrs)
    requires DenseWellFormed(nodes)
    ensures DenseWellFormed(Resolved(identity, nodes)) && WellFormed(FromDense(Resolved(identity, nodes)))
  {
    ResolvedClean(identity, nodes);
    FromDenseWellFormed(Resolved(identity, nodes));
  }

  // ---------------------------------------------------------------------------------------------
  // Which error the second pass raises

  /** The order in which the builder inserted a node's attributes, read off its type tag: the
    * names the catalog lists for the type (the attributes copied from a parser node), then
    * `node_type`, then `string` on a string leaf, then `line`. A dictionary yields its keys in
    * insertion order, and rewriting a value keeps its key's place. */
  function InsertionOrder(catalog: Catalog, a: map<string, Value>): seq<string> {
    var tagged := "node_type" in a && a["node_type"].Type?;
    var copied := if tagged && a["node_type"].t in catalog.attributeNames then catalog.attributeNames[a["node_type"].t] else [];
    copied + (if tagged && a["node_type"].t == String then ["node_type", "string", "line"] else ["node_type", "line"])
  }

  /** Every attribute of the node is among the names of its insertion order. */
  predicate Listed(catalog: Catalog, a: map<string, Value>) {
    forall name :: name in a ==> name in InsertionOrder(catalog, a)
  }

  /** The error of the first of `names` that the node holds and whose value does not resolve. */
  function FirstFailure(identity: map<NativeId, int>, a: map<string, Value>, names: seq<string>): (r: Option<BuildError>)
    decreases |names|
    ensures r.Some? ==> r.value.UnparsableAttribute? || (r.value.BrokenReference? && r.value.id !in identity)
  {
    if names == [] then None
    else if names[0] in a && ResolveAttribute(identity, a[names[0]]).Err? then Some(ResolveAttribute(identity, a[names[0]]).error)
    else FirstFailure(identity, a, names[1..])
  }

  /** There is no first failure iff every listed attribute resolves; otherwise it is the error of
    * a listed attribute all of whose predecessors resolve. */
  lemma {:induction false} FirstFailureSpec(identity: map<NativeId, int>, a: map<string, Value>, names: seq<string>)
    ensures var first := FirstFailure(identity, a, names);
            && (first.None? <==> forall j :: 0 <= j < |names| && names[j] in a ==> AttributeResolvable(identity, a[names[j]]))
            && (first.Some? ==> exists j :: 0 <= j < |names| && names[j] in a &&
                                  ResolveAttribute(identity, a[names[j]]) == Err(first.value) &&
                                  forall i :: 0 <= i < j && names[i] in a ==> AttributeResolvable(identity, a[names[i]]))
    decreases |names|
  {
    if names != [] {
      var tail := names[1..];
      FirstFailureSpec(identity, a, tail);
      forall j | 1 <= j < |names|
        ensures names[j] == tail[j - 1]
      {
      }
      if !(names[0] in a && ResolveAttribute(identity, a[names[0]]).Err?) && FirstFailure(identity, a, tail).Some? {
        var j :| 0 <= j < |tail| && tail[j] in a && ResolveAttribute(identity, a[tail[j]]) == Err(FirstFailure(identity, a, tail).value) &&
                 forall i :: 0 <= i < j && tail[i] in a ==> AttributeResolvable(identity, a[tail[i]]);
        assert names[j + 1] == tail[j];
      }
    }
  }

  /** For a node whose attributes are all listed, there is a first failure iff the node does not resolve. */
  lemma ListedFailure(catalog: Catalog, identity: map<NativeId, int>, a: map<string, Value>)
    requires Listed(catalog, a)
    ensures FirstFailure(identity, a, InsertionOrder(catalog, a)).None? <==> NodeResolvable(identity, a)
  {
    var order := InsertionOrder(catalog, a);
    FirstFailureSpec(identity, a, order);
    if FirstFailure(identity, a, order).None? {
      forall name | name in a
        ensures AttributeResolvable(identity, a[name])
      {
        var j :| 0 <= j < |order| && order[j] == name;
      }
    }
  }

  /** The error of the first node, in id order, one of whose attributes does not resolve, each
    * node's attributes visited in insertion order. */
  function FirstNodesFailure(catalog: Catalog, identity: map<NativeId, int>, nodes: seq<GraphNode>): Option<BuildError>
    decreases |nodes|
  {
    if nodes == [] then None
    else
      var first := FirstFailure(identity, nodes[0].attrs, InsertionOrder(catalog, nodes[0].attrs));
      if first.Some? then first else FirstNodesFailure(catalog, identity, nodes[1..])
  }

  /** There is a first failing node iff some node has a failing listed attribute, and the error
    * is that of the first such node's first failing attribute. */
  lemma {:induction false} FirstNodesFailureSpec(catalog: Catalog, identity: map<NativeId, int>, nodes: seq<GraphNode>)
    ensures var first := FirstNodesFailure(catalog, identity, nodes);
            && (first.None? <==> forall k :: 0 <= k < |nodes| ==>
                                   FirstFailure(identity, nodes[k].attrs, InsertionOrder(catalog, nodes[k].attrs)).None?)
            && (first.Some? ==> exists k :: 0 <= k < |nodes| &&
                                  FirstFailure(identity, nodes[k].attrs, InsertionOrder(catalog, nodes[k].attrs)) == first &&
                                  forall i :: 0 <= i < k ==>
                                    FirstFailure(identity, nodes[i].attrs, InsertionOrder(catalog, nodes[i].attrs)).None?)
    decreases |nodes|
  {
    if nodes != [] {
      var tail := nodes[1..];
      FirstNodesFailureSpec(catalog, identity, tail);
      forall k | 1 <= k < |nodes|
        ensures nodes[k] == tail[k - 1]
      {
      }
      var head := FirstFailure(identity, nodes[0].attrs, InsertionOrder(catalog, nodes[0].attrs));
      if head.None? && FirstNodesFailure(catalog, identity, tail).Some? {
        var k :| 0 <= k < |tail| &&
                 FirstFailure(identity, tail[k].attrs, InsertionOrder(catalog, tail[k].attrs)) == FirstNodesFailure(catalog, identity, tail) &&
                 forall i :: 0 <= i < k ==> FirstFailure(identity, tail[i].attrs, InsertionOrder(catalog, tail[i].attrs)).None?;
        assert nodes[k + 1] == tail[k];
      }
    }
  }

  /** When every node's attributes are listed, there is a first failing node iff the second
    * pass cannot resolve every node. */
  lemma ListedNodesFailure(catalog: Catalog, identity: map<NativeId, int>, nodes: seq<GraphNode>)
    requires forall k :: 0 <= k < |nodes| ==> Listed(catalog, nodes[k].attrs)
    ensures FirstNodesFailure(catalog, identity, nodes).None? <==> NodesResolvable(identity, nodes)
  {
    FirstNodesFailureSpec(catalog, identity, nodes);
    forall k | 0 <= k < |nodes|
      ensures FirstFailure(identity, nodes[k].attrs, InsertionOrder(catalog, nodes[k].attrs)).None? <==>
              NodeResolvable(identity, nodes[k].attrs)
    {
      ListedFailure(catalog, identity, nodes[k].attrs);
    }
  }

  /** The attributes of every node the builder makes are listed in its insertion order: a parser
    * node's are the catalog's names plus `node_type` and `line`, a collection's are `node_type`
    * and `line`, and a string leaf's are `node_type`, `string` and `line`. */
  lemma NodeAttributesListed(catalog: Catalog, v: Native)
    requires Buildable(v) && NodeAttributes(catalog, v).Ok?
    ensures Listed(catalog, NodeAttributes(catalog, v).value)
  {
    var a := NodeAttributes(catalog, v).value;
    if v.JNode? {
      StandardAttributesSpec(catalog, v);
      var names := catalog.attributeNames[TypeOfNode(catalog, v)];
      assert InsertionOrder(catalog, a)[..|names|] == names;
      forall name | name in a
        ensures name in InsertionOrder(catalog, a)
      {
        if name != "node_type" && name != "line" {
          var k :| 0 <= k < |names| && names[k] == name;
          assert InsertionOrder(catalog, a)[k] == name;
        }
      }
    }
  }
}
