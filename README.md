# JaPa4Py core, modelled in Dafny

JaPa4Py turns a Java source file into a graph-shaped abstract syntax tree and answers queries on it.
This project models four parts of it and proves properties of the model:

- **The graph builder** (`AstBuilder`). It walks a parse tree produced by the javalang parser. Each
  parser node, set and string it meets becomes a graph node with the next dense integer id. Each
  parser node gets the attributes the node-type catalog names for its type, plus `node_type` and
  `line`, and three attributes are normalised. A second pass replaces the parser nodes still held in
  attributes, at any depth of nested lists, by references to the graph nodes built from them.
- **The query engine** (`AST`). It offers a depth-first traversal with enter and leave events, the
  three node searches (`ALL`, `TOP_LEVEL` for the outermost matches, `BOTTOM_LEVEL` for the innermost
  matches), extraction of a subtree, and negative "fake" node ids counted per graph.
- **The computed-fields registry**. It maps each node type to its computed fields by name. It refuses
  a duplicate name outside an interactive shell.
- **The standard computed fields**. This is the fixed sequence of registrations made at start-up.

Layout, one module per file:

- `wrappers.dfy`: `Option`, `Result` and `Outcome`.
- `node_types.dfy`: the node-type tags.
- `native_tree.dfy`: the parser's values and the catalog.
- `graphs.dfy`: the graph as a node order, an attribute map and ordered successor lists.
- `attributes.dfy`: attribute copying and normalisation, and the build errors.
- `references.dfy`: the reference resolver.
- `build_spec.dfy`: the reference definition of what building appends, and its shape lemmas.
- `ast_builder.dfy`: the builder class, with its methods proved against that definition.
- `traversal.dfy`: the event sequence of a depth-first traversal and its lemmas.
- `node_search.dfy`: the declarative search specifications and the replay of the search callbacks.
- `ast.dfy`: the `AST` queries and the fake-node counter.
- `registry.dfy`: the registry class.
- `standard_fields.dfy`: the standard registrations.

The builder is a class whose methods update its node list and identity map in place. Each method
is proved equal to a ghost reference function (`Emit`, `EmitTo`, `Leaves`) that says what building
appends. Lemmas then show that what it appends is a tree:

- ids are dense and given in creation order;
- every child has a larger id than its parent;
- every node has at most one parent;
- every node of a whole build is reachable from the root, id 1;
- each node carries the attributes of the value it was built from;
- the identity map names only non-synthetic parser nodes.

The two stateful searches are loops over the traversal's events. Their loop invariants replay the
Python callbacks (`current_node`, `nodes_stack`, `not_bottom_nodes`). Lemmas show that the replay
equals a declarative answer:

- top-level search returns the matches with no matching proper ancestor on their path from the root;
- bottom-level search returns the matches with no matching descendant.

When the second pass fails, the model reports the same error as the source. The source visits
the nodes in id order and each node's attributes in dictionary order, which is insertion order:
the catalog's names for the node's type, then `node_type`, then `line`. The error is that of the
first attribute that does not resolve.

The project's design description says a node without a source position has no `line` attribute.
The code at `src/_ast_builder.py:80` stores `line = None` instead, and the model follows the code.

## Model

| member | source | states |
|---|---|---|
| Builder.AstBuilder.Build | src/_ast_builder.py:16-25 | Building a parse tree on fresh state fails with the build's first error. Otherwise the identity map is exactly the writes the build made. Resolution succeeds iff every attribute resolves, and then the result is the resolved dense graph together with the id of the root (or -1). A failed resolution reports the first failing attribute of the first failing node, nodes in id order and attributes in insertion order. |
| Builder.BuildResult | src/_ast_builder.py:16-25 | A successful build gives a well-formed graph: ids 1..n in creation order, forward edges and at most one parent per node. It has one node per value built. Its root is id 1 iff the tree's root is a node, set or string, and is -1 otherwise. No parser node remains in any attribute. Every identity entry names the node built from that parser node. |
| Builder.BuildReachable | src/_ast_builder.py:31-56 | When the tree builds a node, every node of the built graph is reachable from id 1. So every node other than the root has a parent, and the graph is one tree. |
| Builder.TreeAllReachable | src/_ast_builder.py:45-56 | In a whole build with the single root 1, every node is reachable from node 1: its parent has a smaller id and has it as a successor. |
| Builder.AstBuilder.CreateInitialState | src/_ast_builder.py:27-29 | The graph and the identity map are empty. |
| Builder.AstBuilder.AddSubtree | src/_ast_builder.py:31-43 | Adding a value appends exactly the nodes of its reference emission and applies its identity writes. It returns the emission's root id (-1 for a value that builds nothing), or the same error. |
| Builder.AstBuilder.AddChildren | src/_ast_builder.py:45-56 | Adding all children of a container appends their emission below the parent. Nested lists are flattened, and an edge goes to each child that built a node. A child's error is the call's error. |
| Builder.AstBuilder.AddChild | src/_ast_builder.py:50-56 | One more child extends the emission of the earlier children by exactly that child's emission, on both nodes and identity map. |
| Builder.AstBuilder.AddListChild | src/_ast_builder.py:51-52 | A nested-list child adds its own children to the same parent. |
| Builder.AstBuilder.AddValueChild | src/_ast_builder.py:53-56 | A non-list child is built, and an edge from the parent is added only when it produced a node. |
| Builder.AstBuilder.AddNativeNode | src/_ast_builder.py:58-70 | A parser node, set or string is placed with the next id and its reported type. Any other value appends nothing and reports -1 and Unknown. |
| Builder.AstBuilder.AddStandardNode | src/_ast_builder.py:72-85 | A parser node is appended with the next id and its catalog type. It has its catalogued, normalised attributes and no successors yet, and an unknown class, type or attribute is an error. |
| Attributes.StandardAttributesSpec | src/_ast_builder.py:72-85 | A standard node's attributes are exactly the catalog names plus `node_type` and `line`. `line` is the position's line or None. The error cases are an unknown class, an unknown type or a missing attribute. Every attribute that is not rewritten is copied unchanged. |
| Attributes.CopyAttributesSpec | src/_ast_builder.py:76-77 | Copying succeeds iff the node has every catalogued name. It then holds exactly those names with the node's values. Otherwise it fails on the first missing name. |
| Builder.AstBuilder.PostProcessAttributes | src/_ast_builder.py:87-99 | The result is the normalisation of the attributes for the node type. |
| Attributes.NormalizedSpec | src/_ast_builder.py:87-99 | A method's None body becomes `[]`, a lambda's single-node body becomes a one-element list, and an empty qualifier of a call or member reference becomes None. Every other attribute is unchanged and the keys are kept. Only a missing attribute that a rule reads is an error. |
| Attributes.NodeAttributesStamped | src/_ast_builder.py:79-80 | Every built node carries a `node_type` tag and a `line`. Its tag is Collection or String exactly when the builder does not recurse into it. |
| Builder.AstBuilder.AddCollectionNode | src/_ast_builder.py:101-114 | A set becomes a Collection node followed by one String leaf child per string member, or the first unexpected member's error. |
| Builder.AstBuilder.AddCollectionMember | src/_ast_builder.py:106-113 | A string member adds a leaf and an edge, a None member is skipped, and any other member fails with `UnexpectedCollectionMember`. |
| BuildSpec.CollectionFails | src/_ast_builder.py:106-113 | A set with a member that is neither a string nor None fails the build at the first such member. |
| BuildSpec.LeavesUnrecorded | src/_ast_builder.py:106-109 | The leaves of a set are never written to the identity map. |
| Builder.AstBuilder.AddStringNode | src/_ast_builder.py:116-119 | A string becomes a String node with the next id, carrying `string`, `node_type` and `line` None, and no successors. |
| BuildSpec.EmitLaid | src/_ast_builder.py:31-70 | What building appends is a forest in creation order. A buildable value's node comes first, with the next id, and a value that builds nothing appends nothing. Each node's successors are the nodes built from its child values, in order. Each identity write names a non-synthetic parser node. |
| BuildSpec.EmitRoots | src/_ast_builder.py:58-70 | The id a value's building reports is the next id iff the value is a parser node, set or string, and -1 otherwise, in which case no node is added. |
| BuildSpec.PlaceRecurses | src/_ast_builder.py:35-42 | The builder records and recurses into a placed value iff it got a real id and a type other than Collection or String. |
| BuildSpec.PlaceIsEmit | src/_ast_builder.py:36-43 | A value the builder does not recurse into is built by placing it alone, with no identity write. |
| BuildSpec.LaidWellFormed | src/_ast_builder.py:45-56 | A whole build from id 1 is a well-formed graph: stamped nodes, edges from a smaller to a larger id, and at most one parent per node. |
| BuildSpec.IdentityNamesNodes | src/_ast_builder.py:36-38 | Every identity entry names a node of the build that was made from the parser node with that identity and whose children were built. |
| BuildSpec.EmitToFails | src/_ast_builder.py:50-54 | Once a child's building fails, building more children fails with the same error. |
| Builder.AstBuilder.ReplaceNodesInAttributes | src/_ast_builder.py:121-137 | The pass succeeds iff every attribute of every node resolves. The nodes are then replaced by their resolved forms, and the identity map and node count are kept. An error is an unparsable value or a parser node missing from the identity map. When every node's keys are in its insertion order, as after a build, the error is that of the first node in id order with a failing attribute. |
| Builder.AstBuilder.ReplaceNodesInNodeAttributes | src/_ast_builder.py:130-137 | One node's attributes resolve iff each of them does, giving the resolved attributes under the same keys. The attributes are visited in insertion order, and the error is that of the first one that fails. |
| Builder.AstBuilder.ResolveInOrder | src/_ast_builder.py:130-137 | Visiting the named attributes in order stops with exactly the first failure, and otherwise has rewritten each visited attribute and no other. |
| Builder.AstBuilder.ResolveRest | src/_ast_builder.py:130-137 | Once the visited attributes are rewritten, the remaining ones are rewritten too, and the node resolves iff every attribute does. |
| References.FirstFailureSpec | src/_ast_builder.py:130-137 | There is no first failure iff every listed attribute resolves. Otherwise the first failure is the error of a listed attribute all of whose predecessors resolve. |
| References.FirstNodesFailureSpec | src/_ast_builder.py:129-137 | The first failing node's error is that of a node all of whose predecessors, in id order, resolve. There is none iff no node has a failing listed attribute. |
| References.ListedNodesFailure | src/_ast_builder.py:129-137 | When every node's keys are in its insertion order, there is a first failing node iff the pass cannot resolve every node. |
| References.NodeAttributesListed | src/_ast_builder.py:76-80 | Every key of a node the builder makes is in its insertion order: the catalog's names, then `node_type` and `line` (and `string` for a string leaf). |
| Builder.BuiltListed | src/_ast_builder.py:72-119 | Every node of a whole build has each of its keys in its insertion order. |
| References.ResolveAttribute | src/_ast_builder.py:131-137 | A top-level parser node becomes a reference and a list is resolved. Any other value is kept as it is. It succeeds iff the value is resolvable. |
| References.ResolveList | src/_ast_builder.py:139-158 | A list resolves iff each item does, to a list of the same length with no parser node left at any depth. |
| References.ResolveItem | src/_ast_builder.py:146-156 | A parser node becomes its reference, a list recurses, and int, bool, string and None are kept. Anything else is `UnparsableAttribute`. |
| References.ResolveAttributeKeepsShape | src/_ast_builder.py:121-158 | Resolution keeps the shape of every attribute. Each reference points back at the node built from the parser node it replaced, and the other leaves are unchanged. |
| References.ResolvedKeepsShape | src/_ast_builder.py:129-137 | Every resolved attribute of every node has the shape of the original. |
| References.ResolvedClean | src/_ast_builder.py:129-158 | After resolution no parser node remains at any list depth of any attribute. |
| References.ResolvedWellFormed | src/_ast_builder.py:129-137 | Resolution keeps a well-formed dense graph well formed. |
| Builder.BuiltInverts | src/_ast_builder.py:38 | The identity map a build writes inverts the map from each node to the parser node it came from. |
| References.CreateReference | src/_ast_builder.py:160-161 | The reference is to the id recorded for the parser node. A parser node missing from the identity map is `BrokenReference`, not skipped. |
| Ast.FindNodes | src/ast.py:34-42 | ALL, TOP_LEVEL and BOTTOM_LEVEL give their searches' answers, and any other filter is `NotImplemented`. |
| NodeSearch.FindAll | src/ast.py:99-104 | The result is exactly the nodes whose type is listed (every node when none is listed). It is a subsequence of the graph's node order, so it keeps that order. |
| NodeSearch.KeepMatchingOrder | src/ast.py:99-104 | Filtering keeps the matching nodes in their order. |
| Ast.AllWithoutTypes | src/ast.py:44-46 | ALL with no types is the graph's node list. |
| Ast.FindTopLevelNodes | src/ast.py:106-127 | With no types the result is `[root]`. Otherwise the loop replaying the callbacks returns exactly the top-level specification: the matching nodes reachable from the root with no matching proper ancestor on their path from the root, the root itself included. |
| NodeSearch.TopLevelFinds | src/ast.py:112-127 | A node is in the top-level answer iff it is reachable from the root, matches, and has no matching proper ancestor on its path from the root. |
| NodeSearch.TopLevelReplay | src/ast.py:112-127 | Replaying the enter and leave callbacks over the traversal's events collects exactly the top-level answer. |
| Ast.FindBottomLevelNodes | src/ast.py:129-149 | The loop replaying the callbacks never pops an empty stack and returns exactly the bottom-level specification: the reachable matching nodes with no matching proper descendant. |
| NodeSearch.BottomLevelFinds | src/ast.py:129-149 | A node is in the bottom-level answer iff it is reachable from the root, matches, and has no matching proper descendant. |
| NodeSearch.BottomLevelReplay | src/ast.py:129-149 | Replaying the callbacks over the traversal's events never pops an empty stack and collects exactly the bottom-level answer. |
| NodeSearch.BottomLevelLeaves | src/ast.py:134-146 | With no types, the bottom-level answer is exactly the reachable leaves. |
| Ast.GetRoot | src/ast.py:68-69 | The root is the default traversal source. |
| Ast.GetSubtree | src/ast.py:71-74 | The result is a new tree rooted at `n` whose graph is the subgraph induced by the nodes reachable from `n`. |
| Ast.SubtreeSpec | src/ast.py:71-74 | The subtree is well formed and holds exactly the nodes reachable from `n`, each with its attributes and successors unchanged. Traversing it from `n` gives the same events as traversing the whole graph. |
| Ast.Traverse | src/ast.py:76-91 | Directed traversal from the source (default the root) emits no event twice. It starts with the source's enter and ends with its leave, and enters and leaves exactly the nodes reachable from the source. |
| Traversal.TraversalVisitsOnce | src/ast.py:87-91 | Each reachable node has exactly one enter and one leave, and no other node has events. The events of each reachable node's own traversal sit inside, between its enter and its leave. |
| Traversal.PreorderIsDesc | src/ast.py:72 | The depth-first preorder lists exactly the nodes reachable from its start. |
| Traversal.PreorderEnters | src/ast.py:87-89 | The preorder is the sequence of enter events of the traversal. |
| Ast.FakeId | src/ast.py:96 | The fake id for a count is negative and encodes the count, so successive counts give -1, -2, -3 and so on, and no fake id is a built node's positive id. |
| Ast.FakeNodeCounter.CreateFakeNode | src/ast.py:93-97 | The id is the fake id for the graph's current count. That graph's count goes up by one, and every other graph's count is unchanged. |
| Ast.FakeNodeCounter.CreateFakeNodesInTurn | src/ast.py:93-97 | Two fake nodes for one graph get successive ids, -1 and -2 on a graph never seen, even with a fake node made for another graph in between. |
| Ast.FakeNodeCounter.Count | src/ast.py:154 | A graph that never had a fake node has count 0. |
| FieldsRegistry.Registry.constructor | src/_computed_fields_registry.py:11-12 | A new registry has no fields for any type. |
| FieldsRegistry.Registry.Register | src/_computed_fields_registry.py:14-25 | The new table and the outcome are those of registering for each type in turn, stopping at the first duplicate outside an interactive shell. |
| FieldsRegistry.RegistrationInstalls | src/_computed_fields_registry.py:20-25 | A successful registration gives every listed type the computator under the name, and keeps the type's other fields. |
| FieldsRegistry.RegistrationFrame | src/_computed_fields_registry.py:20-25 | Every type not listed keeps its fields, whatever the outcome. |
| FieldsRegistry.RegistrationPasses | src/_computed_fields_registry.py:20-23 | Registration succeeds iff it runs in an interactive shell, or the name is new for every listed type and no type is listed twice. |
| FieldsRegistry.RegistrationFails | src/_computed_fields_registry.py:20-23 | A failed registration was outside an interactive shell. It names a listed type that already has the name, and the table is the one left after the types before it, which stay updated. |
| FieldsRegistry.RegistrationStaysFailed | src/_computed_fields_registry.py:22-23 | After a failure, the remaining types are not touched. |
| FieldsRegistry.Registry.GetFields | src/_computed_fields_registry.py:27-28 | A type's fields are those registered for it, and a type never registered has none. |
| FieldsRegistry.Registry.Clear | src/_computed_fields_registry.py:30-31 | After clearing, every type has no fields, as on a new registry. |
| StandardFields.RegisterStandardComputedProperties | src/computed_fields_catalog/standard_fields.py:8-10 | The table and outcome are the node filters' followed by the chained getters', stopping at a failure. |
| StandardFields.RegisterStandardNodesFilters | src/computed_fields_catalog/standard_fields.py:13-48 | The five node-filter registrations are made in order, stopping at the first failure. |
| StandardFields.RegisterStandardChainFields | src/computed_fields_catalog/standard_fields.py:51-59 | `names`, a chain through `declarators` to `name`, is registered for the four variable-like declaration types. |
| StandardFields.StandardFromEmpty | src/computed_fields_catalog/standard_fields.py:13-59 | On an empty registry outside an interactive shell, the standard registrations succeed. Class, interface and annotation declarations then have exactly `constructors`, `methods` and `fields` filtering `body`. Enum declarations have exactly `methods` and `fields` filtering `declarations`. The four variable-like declarations have exactly `names`. |
| StandardFields.StandardTwiceFails | src/computed_fields_catalog/standard_fields.py:14-20 | Run again outside an interactive shell, the registrations fail at once on `constructors` for class declarations and leave the table as it was. |
| StandardFields.StandardInteractiveAgain | src/_computed_fields_registry.py:22-25 | Run again in an interactive shell, the registrations succeed and leave the table as it was, because each overwrites a field with the same computator. |
| StandardFields.ReregisterSame | src/_computed_fields_registry.py:22-25 | In an interactive shell, re-registering a computator a type already holds under that name changes nothing. |

## Left out

- Reading the source file, detecting its encoding and calling the javalang parser are left out. The model starts from a parse tree given as a value. A set is given as a sequence in its iteration order.
- The node-type catalog is not part of this model. It is a parameter holding its two lookup tables. An unknown class or type is an error, like the failed dictionary lookup in the source.
- Python object identity of parser nodes is an explicit `NativeId`. Identity of graphs, as used to key the fake-node counter, is Dafny object identity of `Tree`.
- networkx is left out. A graph is a node order, an attribute map and ordered successor lists. `subgraph` keeps the original node order, and the library's own order for an induced subgraph is not modelled.
- The traversal callbacks are left out. `traverse` returns its event sequence instead, and the searches loop over that sequence.
- Undirected traversal is left out. Its neighbour order comes from a library view.
- `__str__` is left out. It only formats the graph for printing.
- `_is_in_interactive_shell` is left out. It reads process flags, so it is a boolean parameter of the registration methods.
- The global registry instance is left out. The standard registrations take the registry object as a parameter.
- The computator factories are not part of this model. A computator is an opaque tag naming its factory's arguments.
- `get_fields` is modelled without side effects. Its insertion of an empty entry for an unregistered type is left out, because no lookup can observe the difference. The returned dictionary is not shared with the registry, so aliasing is left out.
- `AST.build`, which reads a file, is left out. `get_subtrees`, `build_from_javalang` and iteration over an AST are called by the tests but are not defined in `ast.py`, so they are left out too.
- `ASTNode` is left out: a node is its integer id, and search results are lists of ids.
- Ast.FindNodes, Ast.FindTopLevelNodes, Ast.FindBottomLevelNodes, Ast.Traverse, Ast.GetSubtree: these require the graph to have the shape the builder produces (`Graphs.WellFormed`, established by `Builder.BuildResult`). They also require the root or source to be a node of the graph; on a tree rooted at a non-node value (root id -1) the source's behaviour is not modelled.
- The termination of the traversal is argued from child ids being larger than parent ids. A cyclic graph, which the builder never produces, is outside the model.
- Dictionary key order is not stored with a node. The resolver takes it from the node's type tag and the catalog, which gives the order in which the builder inserted the keys.
- The partial graph left behind when building raises is left out: the model reports the error and does not describe the half-built state.
