/** The computed-fields registry: for each node type, the computed fields registered for it by
  * name. Registering refuses a name a type already has, unless running in an interactive shell,
  * where the latest registration wins. */
module FieldsRegistry {
  import opened Wrappers
  import opened NodeTypes

  /** A field computator, kept opaque: a filter of the nodes under an attribute by type, or a
    * getter chained through two attributes. */
  datatype Computator = NodesFilter(attr: string, nodeType: NodeType) | ChainGetter(attr: string, sub: string)

  /** `RuntimeError` for a name a type already has. */
  datatype RegistryError = AlreadyRegistered(name: string, nodeType: NodeType)

  type Fields = map<string, Computator>
  type Table = map<NodeType, Fields>

  /** The fields of a type; a type never registered has none. */
  function FieldsOf(table: Table, t: NodeType): (r: Fields)
    ensures t !in table ==> r == map[]
  {
    if t in table then table[t] else map[]
  }

  /** The table and the outcome after `register` has handled the first `i` types: each type gets
    * the computator under `name`, until a type already has `name` outside an interactive shell;
    * the types before it stay updated. */
  function Registration(table: Table, f: Computator, name: string, types: seq<NodeType>, interactive: bool,
                        i: nat): (Table, Outcome<RegistryError>)
    requires i <= |types|
  {
    if i == 0 then (table, Pass)
    else
      var (before, o) := Registration(table, f, name, types, interactive, i - 1);
      if o.Fail? then (before, o)
      else
        var t := types[i - 1];
        if name in FieldsOf(before, t) && !interactive then (before, Fail(AlreadyRegistered(name, t)))
        else (before[t := FieldsOf(before, t)[name := f]], Pass)
  }

  /** `register` for all the types given. */
  function Registered(table: Table, f: Computator, name: string, types: seq<NodeType>, interactive: bool)
    : (Table, Outcome<RegistryError>)
  {
    Registration(table, f, name, types, interactive, |types|)
  }

  /** `_ComputedFieldsRegistry`. */
  class Registry {
    var registry: Table

    /** A registry with no fields for any type. */
    constructor ()
      ensures registry == map[]
    {
      registry := map[];
    }

    /** `register`. */
    method Register(f: Computator, name: string, types: seq<NodeType>, interactive: bool)
      returns (o: Outcome<RegistryError>)
      modifies this
      ensures (registry, o) == Registered(old(registry), f, name, types, interactive)
    {
      ghost var start := registry;
      for i := 0 to |types|
        invariant Registration(start, f, name, types, interactive, i) == (registry, Pass)
      {
        var t := types[i];
        var fields := GetFields(t);
        if name in fields && !interactive {
          o := Fail(AlreadyRegistered(name, t));
          RegistrationStaysFailed(start, f, name, types, interactive, i + 1, |types|);
          return;
        }
        registry := registry[t := fields[name := f]];
      }
      return Pass;
    }

    /** `get_fields`: the fields of a type, none for a type never registered. */
    function GetFields(t: NodeType): (r: Fields)
      reads this
      ensures r == FieldsOf(registry, t)
    {
      if t in registry then registry[t] else map[]
    }

    /** `clear`: back to a registry with no fields for any type. */
    method Clear()
      modifies this
      ensures registry == map[]
      ensures forall t :: GetFields(t) == map[]
    {
      registry := map[];
    }
  }

  // ---------------------------------------------------------------------------------------------
  // What registering does

  /** After a failure the remaining types are not looked at. */
  lemma {:induction false} RegistrationStaysFailed(table: Table, f: Computator, name: string, types: seq<NodeType>,
                                                   interactive: bool, i: nat, j: nat)
    requires i <= j <= |types| && Registration(table, f, name, types, interactive, i).1.Fail?
    ensures Registration(table, f, name, types, interactive, j) == Registration(table, f, name, types, interactive, i)
    decreases j
  {
    if j > i {
      RegistrationStaysFailed(table, f, name, types, interactive, i, j - 1);
    }
  }

  /** Registering leaves the fields of every type not listed unchanged. */
  lemma {:induction false} RegistrationFrame(table: Table, f: Computator, name: string, types: seq<NodeType>,
                                             interactive: bool, i: nat, t: NodeType)
    requires i <= |types| && t !in types[..i]
    ensures FieldsOf(Registration(table, f, name, types, interactive, i).0, t) == FieldsOf(table, t)
  {
    if i > 0 {
      assert types[..i - 1] <= types[..i];
      RegistrationFrame(table, f, name, types, interactive, i - 1, t);
    }
  }

  /** A registration that succeeds installs the computator under `name` for every type listed and
    * keeps their other fields. */
  lemma {:induction false} RegistrationInstalls(table: Table, f: Computator, name: string, types: seq<NodeType>,
                                                interactive: bool, i: nat, t: NodeType)
    requires i <= |types| && t in types[..i]
    requires Registration(table, f, name, types, interactive, i).1.Pass?
    ensures FieldsOf(Registration(table, f, name, types, interactive, i).0, t) == FieldsOf(table, t)[name := f]
  {
    var (before, o) := Registration(table, f, name, types, interactive, i - 1);
    if types[i - 1] != t {
      assert t in types[..i - 1] by {
        var k :| 0 <= k < i && types[..i][k] == t;
        assert types[..i - 1][k] == t;
      }
      RegistrationInstalls(table, f, name, types, interactive, i - 1, t);
    } else if t in types[..i - 1] {
      RegistrationInstalls(table, f, name, types, interactive, i - 1, t);
    } else {
      RegistrationFrame(table, f, name, types, interactive, i - 1, t);
    }
  }

  /** No type among `types` has a field `name`, and no type is listed twice. */
  predicate Fresh(table: Table, name: string, types: seq<NodeType>) {
    && (forall k :: 0 <= k < |types| ==> name !in FieldsOf(table, types[k]))
    && (forall j, k :: 0 <= j < k < |types| ==> types[j] != types[k])
  }

  /** Registering succeeds exactly in an interactive shell or when the name is fresh for every type
    * listed, each listed once. */
  lemma {:induction false} RegistrationPasses(table: Table, f: Computator, name: string, types: seq<NodeType>,
                                              interactive: bool, i: nat)
    requires i <= |types|
    ensures Registration(table, f, name, types, interactive, i).1.Pass? <==>
            interactive || Fresh(table, name, types[..i])
  {
    if i > 0 {
      RegistrationPasses(table, f, name, types, interactive, i - 1);
      var (before, o) := Registration(table, f, name, types, interactive, i - 1);
      var t := types[i - 1];
      assert types[..i] == types[..i - 1] + [t];
      if o.Pass? && !interactive {
        if t in types[..i - 1] {
          RegistrationInstalls(table, f, name, types, interactive, i - 1, t);
          var j :| 0 <= j < i - 1 && types[j] == t;
          assert types[..i][j] == types[..i][i - 1];
        } else {
          RegistrationFrame(table, f, name, types, interactive, i - 1, t);
        }
      }
    }
  }

  /** A registration that fails names the first type already holding `name`, and leaves every
    * type before it updated. */
  lemma {:induction false} RegistrationFails(table: Table, f: Computator, name: string, types: seq<NodeType>,
                                             interactive: bool, i: nat)
    requires i <= |types|
    requires Registration(table, f, name, types, interactive, i).1.Fail?
    ensures var (after, o) := Registration(table, f, name, types, interactive, i);
            && !interactive
            && exists k :: 0 <= k < i && Registration(table, f, name, types, interactive, k) == (after, Pass) &&
                 o.error == AlreadyRegistered(name, types[k]) && name in FieldsOf(after, types[k])
  {
    if Registration(table, f, name, types, interactive, i - 1).1.Fail? {
      RegistrationFails(table, f, name, types, interactive, i - 1);
    } else {
      var after := Registration(table, f, name, types, interactive, i).0;
      assert Registration(table, f, name, types, interactive, i - 1) == (after, Pass);
    }
  }
}
