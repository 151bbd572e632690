/** The attributes a graph node gets: the catalog's attribute names copied from a parser node,
  * the type tag and the line, and the three normalisation rules; plus the fixed attributes of
  * collection and string nodes. */
module Attributes {
  import opened Wrappers
  import opened NodeTypes
  import opened NativeTree
  import opened Graphs

  /** The exceptions building and resolving can raise. */
  datatype BuildError =
    | UnknownNodeClass(className: string)       // a parser class the catalog has no node type for
    | UnknownNodeType(nodeType: NodeType)       // a node type the catalog lists no attributes for
    | MissingAttribute(name: string)            // a catalog attribute the parser node lacks
    | UnexpectedCollectionMember(member: Native) // a set member that is neither a string nor None
    | UnparsableAttribute(item: Native)          // a list item the resolver cannot classify
    | BrokenReference(id: NativeId)              // a parser node that never entered the identity map

  /** The index returned for a value that does not become a graph node. */
  const UnknownNodeIndex: int := -1

  /** The `line` attribute: the line of the node's position, or None. */
  function LineOf(position: Option<int>): Value {
    if position.Some? then Raw(JInt(position.value)) else Raw(JNone)
  }

  // ---------------------------------------------------------------------------------------------
  // Attributes of the three kinds of graph node

  /** Attribute values as the builder leaves them: copied parser values and type tags, no references yet. */
  predicate Plain(a: map<string, Value>) {
    forall name :: name in a ==> a[name].Raw? || a[name].Type?
  }

  /** The attributes the catalog names, read from the parser node; a name the node lacks fails. */
  function CopyAttributes(v: Native, names: seq<string>): (r: Result<map<string, Value>, BuildError>)
    requires v.JNode?
  {
    if names == [] then Ok(map[])
    else if names[0] !in v.fields then Err(MissingAttribute(names[0]))
    else
      var rest :- CopyAttributes(v, names[1..]);
      Ok(rest[names[0] := Raw(v.fields[names[0]])])
  }

  /** Copying succeeds exactly when the node has every name; it then holds each named field
    * as a plain value and nothing else, and otherwise reports the first missing name. */
  lemma {:induction false} CopyAttributesSpec(v: Native, names: seq<string>)
    requires v.JNode?
    ensures var r := CopyAttributes(v, names);
            && (r.Ok? <==> forall k :: 0 <= k < |names| ==> names[k] in v.fields)
            && (r.Ok? ==> r.value.Keys == set k | 0 <= k < |names| :: names[k])
            && (r.Ok? ==> forall k :: 0 <= k < |names| ==> r.value[names[k]] == Raw(v.fields[names[k]]))
            && (r.Ok? ==> Plain(r.value))
            && (r.Err? ==> exists k :: 0 <= k < |names| && names[k] !in v.fields &&
                                       r.error == MissingAttribute(names[k]) &&
                                       forall j :: 0 <= j < k ==> names[j] in v.fields)
    decreases |names|
  {
    var r := CopyAttributes(v, names);
    if names == [] {
    } else if names[0] !in v.fields {
      assert r.error == MissingAttribute(names[0]);
    } else {
      var tail := names[1..];
      CopyAttributesSpec(v, tail);
      var rest := CopyAttributes(v, tail);
      forall k | 1 <= k < |names|
        ensures names[k] == tail[k - 1]
      {
      }
      if rest.Ok? {
        assert (set k | 0 <= k < |names| :: names[k]) == {names[0]} + (set k | 0 <= k < |tail| :: tail[k]) by {
          forall k | 0 <= k < |names|
            ensures names[k] in {names[0]} + (set k | 0 <= k < |tail| :: tail[k])
          {
            if k > 0 {
              assert tail[k - 1] == names[k];
            }
          }
        }
      } else {
        var k :| 0 <= k < |tail| && tail[k] !in v.fields && rest.error == MissingAttribute(tail[k]) &&
                 forall j :: 0 <= j < k ==> tail[j] in v.fields;
        assert names[k + 1] == tail[k];
      }
    }
  }

  /** Whether the normalisation step rewrites attribute `name` holding `x` on a node of type `t`. */
  predicate IsRewritten(t: NodeType, name: string, x: Value) {
    || (t == MethodDeclaration && name == "body" && x == Raw(JNone))
    || (t == LambdaExpression && name == "body" && x.Raw? && x.v.JNode?)
    || ((t == MethodInvocation || t == MemberReference) && name == "qualifier" && x == Raw(JStr("")))
  }

  /** The attribute a normalisation rule reads for a node type, if any. */
  function NormalizedKey(t: NodeType): Option<string> {
    if t == MethodDeclaration || t == LambdaExpression then Some("body")
    else if t == MethodInvocation || t == MemberReference then Some("qualifier")
    else None
  }

  /** The type-specific normalisation of a standard node's attributes. */
  function Normalized(t: NodeType, a: map<string, Value>): (r: Result<map<string, Value>, BuildError>) {
    match NormalizedKey(t)
    case None => Ok(a)
    case Some(key) =>
      if key !in a then Err(MissingAttribute(key))
      else if t == MethodDeclaration && a["body"] == Raw(JNone) then Ok(a["body" := Raw(JList([]))])
      else if t == LambdaExpression && a["body"].Raw? && a["body"].v.JNode? then Ok(a["body" := Raw(JList([a["body"].v]))])
      else if (t == MethodInvocation || t == MemberReference) && a["qualifier"] == Raw(JStr("")) then
        Ok(a["qualifier" := Raw(JNone)])
      else Ok(a)
  }

  /** Normalisation fails exactly when the attribute its rule reads is missing; otherwise it keeps
    * the keys, applies the three rewrites and leaves every other attribute as it was. */
  lemma NormalizedSpec(t: NodeType, a: map<string, Value>)
    ensures var r := Normalized(t, a);
            && (r.Err? <==> NormalizedKey(t).Some? && NormalizedKey(t).value !in a)
            && (r.Err? ==> r.error == MissingAttribute(NormalizedKey(t).value))
            && (r.Ok? ==> r.value.Keys == a.Keys)
            && (r.Ok? && t == MethodDeclaration && a["body"] == Raw(JNone) ==> r.value["body"] == Raw(JList([])))
            && (r.Ok? && t == LambdaExpression && a["body"].Raw? && a["body"].v.JNode? ==>
                  r.value["body"] == Raw(JList([a["body"].v])))
            && (r.Ok? && (t == MethodInvocation || t == MemberReference) && a["qualifier"] == Raw(JStr("")) ==>
                  r.value["qualifier"] == Raw(JNone))
            && (r.Ok? ==> forall name :: name in a && !IsRewritten(t, name, a[name]) ==> r.value[name] == a[name])
            && (r.Ok? && Plain(a) ==> Plain(r.value))
  {
  }

  /** The attributes of the graph node built for a parser node: an unknown class or node type
    * raises, and so does a catalog attribute the node lacks. */
  function StandardAttributes(catalog: Catalog, v: Native): (r: Result<map<string, Value>, BuildError>)
    requires v.JNode?
    ensures r.Ok? ==> Catalogued(catalog, v)
  {
    if v.className !in catalog.nodeTypeOf then Err(UnknownNodeClass(v.className))
    else
      var t := TypeOfNode(catalog, v);
      if t !in catalog.attributeNames then Err(UnknownNodeType(t))
      else
        var copied :- CopyAttributes(v, catalog.attributeNames[t]);
        Normalized(t, copied["node_type" := Type(t)]["line" := LineOf(v.position)])
  }

  /** What `_add_standard_javalang_node` raises, and which attributes it copies and rewrites. */
  lemma StandardAttributesSpec(catalog: Catalog, v: Native)
    requires v.JNode?
    ensures var r := StandardAttributes(catalog, v);
            && (v.className !in catalog.nodeTypeOf ==> r == Err(UnknownNodeClass(v.className)))
            && (v.className in catalog.nodeTypeOf && TypeOfNode(catalog, v) !in catalog.attributeNames ==>
                  r == Err(UnknownNodeType(TypeOfNode(catalog, v))))
    ensures var r := StandardAttributes(catalog, v);
            Catalogued(catalog, v) ==>
              var names := catalog.attributeNames[TypeOfNode(catalog, v)];
              r.Err? <==> (exists k :: 0 <= k < |names| && names[k] !in v.fields) ||
                          (var key := NormalizedKey(TypeOfNode(catalog, v));
                           key.Some? && key.value !in (set k | 0 <= k < |names| :: names[k]))
    ensures var r := StandardAttributes(catalog, v);
            r.Ok? ==>
              var names := catalog.attributeNames[TypeOfNode(catalog, v)];
              && r.value.Keys == (set k | 0 <= k < |names| :: names[k]) + {"node_type", "line"}
              && Plain(r.value)
              && r.value["node_type"] == Type(TypeOfNode(catalog, v)) && r.value["line"] == LineOf(v.position)
              && (forall k :: 0 <= k < |names| && names[k] != "node_type" && names[k] != "line" &&
                              !IsRewritten(TypeOfNode(catalog, v), names[k], Raw(v.fields[names[k]])) ==>
                              r.value[names[k]] == Raw(v.fields[names[k]]))
              && (TypeOfNode(catalog, v) == MethodDeclaration && v.fields["body"] == JNone ==>
                    r.value["body"] == Raw(JList([])))
  {
    if Catalogued(catalog, v) {
      var t := TypeOfNode(catalog, v);
      CopyAttributesSpec(v, catalog.attributeNames[t]);
      var copied := CopyAttributes(v, catalog.attributeNames[t]);
      if copied.Ok? {
        NormalizedSpec(t, copied.value["node_type" := Type(t)]["line" := LineOf(v.position)]);
      }
    }
  }

  /** The attributes of a collection node. */
  function CollectionAttributes(): map<string, Value> {
    map["node_type" := Type(Collection), "line" := Raw(JNone)]
  }

  /** The attributes of a string leaf. */
  function StringAttributes(s: string): map<string, Value> {
    map["node_type" := Type(String), "string" := Raw(JStr(s)), "line" := Raw(JNone)]
  }

  /** Whether a value becomes a graph node at all (a parser node, a set or a string). */
  predicate Buildable(v: Native) {
    v.JNode? || v.JSet? || v.JStr?
  }

  /** Whether the builder records a value in the identity map and walks its children. */
  predicate RecursesInto(catalog: Catalog, v: Native) {
    v.JNode? && v.className in catalog.nodeTypeOf && !IsSyntheticType(TypeOfNode(catalog, v))
  }

  /** The attributes the graph node built from `v` gets. */
  function NodeAttributes(catalog: Catalog, v: Native): Result<map<string, Value>, BuildError>
    requires Buildable(v)
  {
    match v
    case JNode(_, _, _, _, _) => StandardAttributes(catalog, v)
    case JSet(_) => Ok(CollectionAttributes())
    case JStr(s) => Ok(StringAttributes(s))
  }

  /** Every graph node is stamped with its type tag and a line. */
  lemma NodeAttributesStamped(catalog: Catalog, v: Native)
    requires Buildable(v) && NodeAttributes(catalog, v).Ok?
    ensures var a := NodeAttributes(catalog, v).value;
            Plain(a) && "node_type" in a && a["node_type"].Type? && "line" in a &&
            IsSyntheticType(a["node_type"].t) == !RecursesInto(catalog, v)
  {
    if v.JNode? {
      StandardAttributesSpec(catalog, v);
    }
  }
}
