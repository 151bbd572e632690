/** Values produced by the external Java parser, and the node-type catalog the builder consults.
  * The parser and the catalog are external: a parse tree is given as a value, and the catalog
  * as its two lookup tables. */
module NativeTree {
  import opened Wrappers
  import opened NodeTypes

  /** Identity of a parser node object (Python object identity). */
  type NativeId = nat

  /** Every shape of value that the parser can place in a node's attributes or children. */
  datatype Native =
    | JNode(id: NativeId, className: string, fields: map<string, Native>,
            position: Option<int>, children: seq<Native>)
      // a parser node: its class, its named attributes, the line of its position (if any)
      // and its `children` enumeration, which may hold arbitrarily nested lists
    | JSet(members: seq<Native>)   // a Python set, in its iteration order
    | JStr(s: string)
    | JList(items: seq<Native>)
    | JInt(i: int)
    | JBool(b: bool)               // a Python bool, which is also an int
    | JNone
    | JOther(description: string)  // any other value (a tuple, a float, an object of another class)

  /** The static catalog: parser class name to node type, node type to attribute names. */
  datatype Catalog = Catalog(nodeTypeOf: map<string, NodeType>, attributeNames: map<NodeType, seq<string>>)

  /** The node type the catalog assigns to a parser node. */
  function TypeOfNode(catalog: Catalog, v: Native): NodeType
    requires v.JNode? && v.className in catalog.nodeTypeOf
  {
    catalog.nodeTypeOf[v.className]
  }

  /** Whether the catalog knows a parser node's class and the attribute names of its type. */
  predicate Catalogued(catalog: Catalog, v: Native) {
    v.JNode? && v.className in catalog.nodeTypeOf && TypeOfNode(catalog, v) in catalog.attributeNames
  }

  /** The values a container (a parser node or a nested list) enumerates as children. */
  function Kids(c: Native): seq<Native> {
    match c
    case JNode(_, _, _, _, children) => children
    case JList(items) => items
    case _ => []
  }
}
