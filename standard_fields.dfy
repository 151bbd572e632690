/** The standard computed fields: the fixed sequence of registrations made at start-up, as calls on
  * the registry object, and the table they produce. */
module StandardFields {
  import opened Wrappers
  import opened NodeTypes
  import opened FieldsRegistry

  /** The three declaration types whose members sit under `body`. */
  const BodyTypes: seq<NodeType> := [ClassDeclaration, InterfaceDeclaration, AnnotationDeclaration]

  /** The four declaration types whose names sit under `declarators`. */
  const VariableTypes: seq<NodeType> := [ConstantDeclaration, FieldDeclaration, LocalVariableDeclaration, VariableDeclaration]

  /** One more registration, made only if everything before it succeeded. */
  function Then(r: (Table, Outcome<RegistryError>), f: Computator, name: string, types: seq<NodeType>,
                interactive: bool): (Table, Outcome<RegistryError>)
  {
    if r.1.Fail? then r else Registered(r.0, f, name, types, interactive)
  }

  /** What `_register_standard_nodes_filters` does to a table. */
  function NodesFilters(table: Table, interactive: bool): (Table, Outcome<RegistryError>) {
    var r := Registered(table, NodesFilter("body", ConstructorDeclaration), "constructors", BodyTypes, interactive);
    var r := Then(r, NodesFilter("body", MethodDeclaration), "methods", BodyTypes, interactive);
    var r := Then(r, NodesFilter("body", FieldDeclaration), "fields", BodyTypes, interactive);
    var r := Then(r, NodesFilter("declarations", MethodDeclaration), "methods", [EnumDeclaration], interactive);
    Then(r, NodesFilter("declarations", FieldDeclaration), "fields", [EnumDeclaration], interactive)
  }

  /** What `_register_standard_chain_fields` does to a table. */
  function ChainFields(table: Table, interactive: bool): (Table, Outcome<RegistryError>) {
    Registered(table, ChainGetter("declarators", "name"), "names", VariableTypes, interactive)
  }

  /** What `register_standard_computed_properties` does to a table. */
  function StandardRegistration(table: Table, interactive: bool): (Table, Outcome<RegistryError>) {
    var r := NodesFilters(table, interactive);
    if r.1.Fail? then r else ChainFields(r.0, interactive)
  }

  /** The fields of each type after the standard registrations on an empty registry. */
  function StandardTable(): Table {
    var body: Fields := map["constructors" := NodesFilter("body", ConstructorDeclaration),
                            "methods" := NodesFilter("body", MethodDeclaration),
                            "fields" := NodesFilter("body", FieldDeclaration)];
    var names: Fields := map["names" := ChainGetter("declarators", "name")];
    map[ClassDeclaration := body, InterfaceDeclaration := body, AnnotationDeclaration := body,
        EnumDeclaration := map["methods" := NodesFilter("declarations", MethodDeclaration),
                               "fields" := NodesFilter("declarations", FieldDeclaration)],
        ConstantDeclaration := names, FieldDeclaration := names,
        LocalVariableDeclaration := names, VariableDeclaration := names]
  }

  /** `_register_standard_nodes_filters`: five registrations, stopping at the first failure. */
  method RegisterStandardNodesFilters(registry: Registry, interactive: bool) returns (o: Outcome<RegistryError>)
    modifies registry
    ensures (registry.registry, o) == NodesFilters(old(registry.registry), interactive)
  {
    o := registry.Register(NodesFilter("body", ConstructorDeclaration), "constructors", BodyTypes, interactive);
    if o.Fail? { return; }
    o := registry.Register(NodesFilter("body", MethodDeclaration), "methods", BodyTypes, interactive);
    if o.Fail? { return; }
    o := registry.Register(NodesFilter("body", FieldDeclaration), "fields", BodyTypes, interactive);
    if o.Fail? { return; }
    o := registry.Register(NodesFilter("declarations", MethodDeclaration), "methods", [EnumDeclaration], interactive);
    if o.Fail? { return; }
    o := registry.Register(NodesFilter("declarations", FieldDeclaration), "fields", [EnumDeclaration], interactive);
  }

  /** `_register_standard_chain_fields`: one registration. */
  method RegisterStandardChainFields(registry: Registry, interactive: bool) returns (o: Outcome<RegistryError>)
    modifies registry
    ensures (registry.registry, o) == ChainFields(old(registry.registry), interactive)
  {
    o := registry.Register(ChainGetter("declarators", "name"), "names", VariableTypes, interactive);
  }

  /** `register_standard_computed_properties`: the node filters, then the chained getters. */
  method RegisterStandardComputedProperties(registry: Registry, interactive: bool) returns (o: Outcome<RegistryError>)
    modifies registry
    ensures (registry.registry, o) == StandardRegistration(old(registry.registry), interactive)
  {
    o := RegisterStandardNodesFilters(registry, interactive);
    if o.Fail? { return; }
    o := RegisterStandardChainFields(registry, interactive);
  }

  /** On a cleared registry outside an interactive shell, the standard registrations succeed and
    * give each declaration type exactly its standard fields. */
  lemma StandardFromEmpty()
    ensures StandardRegistration(map[], false) == (StandardTable(), Pass)
  {
    FiltersFromEmpty();
    ChainFieldsAfterFilters();
  }

  /** The table after the three registrations on the body types, on an empty registry. */
  function BodyTable(): Table {
    var body: Fields := map["constructors" := NodesFilter("body", ConstructorDeclaration),
                            "methods" := NodesFilter("body", MethodDeclaration),
                            "fields" := NodesFilter("body", FieldDeclaration)];
    map[ClassDeclaration := body, InterfaceDeclaration := body, AnnotationDeclaration := body]
  }

  /** The table after the node filters alone, on an empty registry. */
  function FiltersTable(): Table {
    BodyTable()[EnumDeclaration := map["methods" := NodesFilter("declarations", MethodDeclaration),
                                       "fields" := NodesFilter("declarations", FieldDeclaration)]]
  }

  lemma FiltersFromEmpty()
    ensures NodesFilters(map[], false) == (FiltersTable(), Pass)
  {
    BodyFromEmpty();
    var t3 := BodyTable();
    var e1 := map["methods" := NodesFilter("declarations", MethodDeclaration)];
    var t4 := t3[EnumDeclaration := e1];
    assert Registration(t3, NodesFilter("declarations", MethodDeclaration), "methods", [EnumDeclaration], false, 1) == (t4, Pass);
    assert FieldsOf(t4, EnumDeclaration) == e1 && "fields" !in e1;
    var e2 := e1["fields" := NodesFilter("declarations", FieldDeclaration)];
    assert t4[EnumDeclaration := e2] == FiltersTable();
    assert Registration(t4, NodesFilter("declarations", FieldDeclaration), "fields", [EnumDeclaration], false, 1) == (FiltersTable(), Pass);
  }

  lemma BodyFromEmpty()
    ensures var r := Registered(map[], NodesFilter("body", ConstructorDeclaration), "constructors", BodyTypes, false);
            var r := Then(r, NodesFilter("body", MethodDeclaration), "methods", BodyTypes, false);
            Then(r, NodesFilter("body", FieldDeclaration), "fields", BodyTypes, false) == (BodyTable(), Pass)
  {
    var ctor, meth, field := NodesFilter("body", ConstructorDeclaration), NodesFilter("body", MethodDeclaration),
                             NodesFilter("body", FieldDeclaration);
    var c1: Fields := map["constructors" := ctor];
    var c2 := c1["methods" := meth];
    var c3 := c2["fields" := field];
    var t1 := map[ClassDeclaration := c1, InterfaceDeclaration := c1, AnnotationDeclaration := c1];
    var t2 := map[ClassDeclaration := c2, InterfaceDeclaration := c2, AnnotationDeclaration := c2];
    OnBodyTypes(map[], ctor, "constructors", t1);
    OnBodyTypes(t1, meth, "methods", t2);
    OnBodyTypes(t2, field, "fields", BodyTable());
  }

  lemma ChainFieldsAfterFilters()
    ensures ChainFields(FiltersTable(), false) == (StandardTable(), Pass)
  {
    var t5 := FiltersTable();
    var names: Fields := map["names" := ChainGetter("declarators", "name")];
    var f := ChainGetter("declarators", "name");
    var t6 := t5[ConstantDeclaration := names];
    var t7 := t6[FieldDeclaration := names];
    var t8 := t7[LocalVariableDeclaration := names];
    assert Registration(t5, f, "names", VariableTypes, false, 1) == (t6, Pass);
    assert Registration(t5, f, "names", VariableTypes, false, 2) == (t7, Pass);
    assert Registration(t5, f, "names", VariableTypes, false, 3) == (t8, Pass);
    assert t8[VariableDeclaration := names] == StandardTable();
  }

  /** A registration on the three body types of a table where none has the name yet. */
  lemma OnBodyTypes(table: Table, f: Computator, name: string, after: Table)
    requires forall t :: t in BodyTypes ==> name !in FieldsOf(table, t)
    requires after == table[ClassDeclaration := FieldsOf(table, ClassDeclaration)[name := f]]
                           [InterfaceDeclaration := FieldsOf(table, InterfaceDeclaration)[name := f]]
                           [AnnotationDeclaration := FieldsOf(table, AnnotationDeclaration)[name := f]]
    ensures Registered(table, f, name, BodyTypes, false) == (after, Pass)
  {
    var t1 := table[ClassDeclaration := FieldsOf(table, ClassDeclaration)[name := f]];
    var t2 := t1[InterfaceDeclaration := FieldsOf(table, InterfaceDeclaration)[name := f]];
    assert Registration(table, f, name, BodyTypes, false, 1) == (t1, Pass);
    assert Registration(table, f, name, BodyTypes, false, 2) == (t2, Pass);
  }

  /** Run a second time outside an interactive shell, the standard registrations fail at once, on
    * `constructors` for class declarations, and change nothing. */
  lemma StandardTwiceFails()
    ensures StandardRegistration(StandardTable(), false) ==
            (StandardTable(), Fail(AlreadyRegistered("constructors", ClassDeclaration)))
  {
    var f := NodesFilter("body", ConstructorDeclaration);
    var r := (StandardTable(), Fail(AlreadyRegistered("constructors", ClassDeclaration)));
    assert Registration(StandardTable(), f, "constructors", BodyTypes, false, 1) == r;
    RegistrationStaysFailed(StandardTable(), f, "constructors", BodyTypes, false, 1, 3);
  }

  /** In an interactive shell, running the standard registrations on their own table succeeds and
    * changes nothing: each registration overwrites a field with the same computator. */
  lemma StandardInteractiveAgain()
    ensures StandardRegistration(StandardTable(), true) == (StandardTable(), Pass)
  {
    var t := StandardTable();
    BodyAgain();
    OtherAgain();
    AllAgain(t);
  }

  /** The registrations on the other types, run again on the standard table in an interactive
    * shell, change nothing. */
  lemma OtherAgain()
    ensures var t := StandardTable();
            && Registered(t, NodesFilter("declarations", MethodDeclaration), "methods", [EnumDeclaration], true) == (t, Pass)
            && Registered(t, NodesFilter("declarations", FieldDeclaration), "fields", [EnumDeclaration], true) == (t, Pass)
            && Registered(t, ChainGetter("declarators", "name"), "names", VariableTypes, true) == (t, Pass)
  {
    var t := StandardTable();
    assert forall x :: x in VariableTypes ==> x in t && t[x] == t[ConstantDeclaration];
    ReregisterSame(t, NodesFilter("declarations", MethodDeclaration), "methods", [EnumDeclaration], 1);
    ReregisterSame(t, NodesFilter("declarations", FieldDeclaration), "fields", [EnumDeclaration], 1);
    ReregisterSame(t, ChainGetter("declarators", "name"), "names", VariableTypes, 4);
  }

  /** A table each standard registration leaves as it is is left as it is by all of them. */
  lemma AllAgain(t: Table)
    requires Registered(t, NodesFilter("body", ConstructorDeclaration), "constructors", BodyTypes, true) == (t, Pass)
    requires Registered(t, NodesFilter("body", MethodDeclaration), "methods", BodyTypes, true) == (t, Pass)
    requires Registered(t, NodesFilter("body", FieldDeclaration), "fields", BodyTypes, true) == (t, Pass)
    requires Registered(t, NodesFilter("declarations", MethodDeclaration), "methods", [EnumDeclaration], true) == (t, Pass)
    requires Registered(t, NodesFilter("declarations", FieldDeclaration), "fields", [EnumDeclaration], true) == (t, Pass)
    requires Registered(t, ChainGetter("declarators", "name"), "names", VariableTypes, true) == (t, Pass)
    ensures StandardRegistration(t, true) == (t, Pass)
  {
  }

  /** The three registrations on the body types, run again on the standard table in an
    * interactive shell, change nothing. */
  lemma BodyAgain()
    ensures var t := StandardTable();
            && Registered(t, NodesFilter("body", ConstructorDeclaration), "constructors", BodyTypes, true) == (t, Pass)
            && Registered(t, NodesFilter("body", MethodDeclaration), "methods", BodyTypes, true) == (t, Pass)
            && Registered(t, NodesFilter("body", FieldDeclaration), "fields", BodyTypes, true) == (t, Pass)
  {
    var t := StandardTable();
    assert forall x :: x in BodyTypes ==> x in t && t[x] == t[ClassDeclaration];
    ReregisterSame(t, NodesFilter("body", ConstructorDeclaration), "constructors", BodyTypes, 3);
    ReregisterSame(t, NodesFilter("body", MethodDeclaration), "methods", BodyTypes, 3);
    ReregisterSame(t, NodesFilter("body", FieldDeclaration), "fields", BodyTypes, 3);
  }

  /** In an interactive shell, registering a computator every listed type already holds under that
    * name changes nothing. */
  lemma {:induction false} ReregisterSame(table: Table, f: Computator, name: string, types: seq<NodeType>, i: nat)
    requires i <= |types|
    requires forall t :: t in types ==> t in table && name in table[t] && table[t][name] == f
    ensures Registration(table, f, name, types, true, i) == (table, Pass)
  {
    if i > 0 {
      ReregisterSame(table, f, name, types, i - 1);
      var t := types[i - 1];
      assert table[t][name := f] == table[t];
      assert table[t := table[t]] == table;
    }
  }
}
