/** What building a parse tree appends to the graph, as a function of the tree and of the id the
  * first new node gets: the reference definition the builder's methods are proved against, and
  * the shape of what it produces (ids in creation order, every edge to a later node, every new
  * node the child of exactly one node, each node built from the value its parent calls for). */
module BuildSpec {
  import opened Wrappers
  import opened NodeTypes
  import opened NativeTree
  import opened Graphs
  import opened Attributes

  /** What building appends: the new nodes in creation order (node `b + k` is `nodes[k]` when the
    * first gets id `b`), the parser value each was built from, the id of each one's parent (0
    * for the new nodes that become children of the node being filled: the roots), the
    * identity-map writes in the order they happen, and the roots. */
  datatype Emission = Emission(nodes: seq<GraphNode>, froms: seq<Native>, parents: seq<int>,
                               recorded: seq<(NativeId, int)>, roots: seq<int>)

  const Nothing: Emission := Emission([], [], [], [], [])

  /** One emission followed by the next. */
  function Join(x: Emission, y: Emission): Emission {
    Emission(x.nodes + y.nodes, x.froms + y.froms, x.parents + y.parents, x.recorded + y.recorded, x.roots + y.roots)
  }

  /** The successors of a node after `add_edge` to each of `cs` in turn. */
  function Connect(kids: seq<int>, cs: seq<int>): seq<int>
    decreases |cs|
  {
    if cs == [] then kids else AddSuccessor(Connect(kids, cs[..|cs| - 1]), cs[|cs| - 1])
  }

  /** The identity map after the writes `rs` in turn. */
  function Apply(m: map<NativeId, int>, rs: seq<(NativeId, int)>): map<NativeId, int>
    decreases |rs|
  {
    if rs == [] then m else Apply(m, rs[..|rs| - 1])[rs[|rs| - 1].0 := rs[|rs| - 1].1]
  }

  /** Node `b` built from `v` with attributes `a` and the identity writes `rec`, followed by
    * `sub`, whose roots become its children. */
  function Adopt(v: Native, a: map<string, Value>, rec: seq<(NativeId, int)>, sub: Emission, b: int): Emission {
    Emission([GraphNode(a, Connect([], sub.roots))] + sub.nodes, [v] + sub.froms, [0] + Lift(sub.parents, b),
             rec + sub.recorded, [b])
  }

  /** The parents of adopted nodes: the roots (parent 0) get parent `b`. */
  function Lift(parents: seq<int>, b: int): (r: seq<int>)
    ensures |r| == |parents| && forall c :: 0 <= c < |r| ==> r[c] == if parents[c] == 0 then b else parents[c]
  {
    seq(|parents|, c requires 0 <= c < |parents| => if parents[c] == 0 then b else parents[c])
  }

  // ---------------------------------------------------------------------------------------------
  // The reference definition

  /** Building value `v` when the next id is `b`: a parser node gets a node and, unless its type
    * is synthetic, is recorded and has its children built and attached; a set gets a collection
    * node with a string leaf per string member; a string gets a string leaf; anything else adds
    * nothing. */
  ghost function Emit(catalog: Catalog, v: Native, b: nat): Result<Emission, BuildError>
    decreases v, 1
  {
    match v
    case JNode(_, _, _, _, _) =>
      var a :- StandardAttributes(catalog, v);
      if IsSyntheticType(TypeOfNode(catalog, v)) then Ok(Adopt(v, a, [], Nothing, b))
      else
        var sub :- EmitTo(catalog, v, |Kids(v)|, b + 1);
        Ok(Adopt(v, a, [(v.id, b)], sub, b))
    case JSet(members) =>
      var leaves :- Leaves(members, |members|, b + 1);
      Ok(Adopt(v, CollectionAttributes(), [], leaves, b))
    case JStr(s) => Ok(Adopt(v, StringAttributes(s), [], Nothing, b))
    case _ => Ok(Nothing)
  }

  /** Building the first `i` children of container `c` (a parser node or a nested list), nested
    * lists flattened into the same parent, when the next id is `b`. */
  ghost function EmitTo(catalog: Catalog, c: Native, i: nat, b: nat): Result<Emission, BuildError>
    requires i <= |Kids(c)|
    decreases c, 0, i
  {
    if i == 0 then Ok(Nothing)
    else
      var prior :- EmitTo(catalog, c, i - 1, b);
      var k := Kids(c)[i - 1];
      var next :- if k.JList? then EmitTo(catalog, k, |Kids(k)|, b + |prior.nodes|)
                  else Emit(catalog, k, b + |prior.nodes|);
      Ok(Join(prior, next))
  }

  /** `Emit` and `EmitTo` as the builder's method contracts name them: the same values, through
    * functions that are not themselves recursive, so that a contract unfolds the reference
    * definition one step and the lemmas below supply the rest. */
  ghost function Built(catalog: Catalog, v: Native, b: nat): Result<Emission, BuildError> {
    Emit(catalog, v, b)
  }

  ghost function BuiltTo(catalog: Catalog, c: Native, i: nat, b: nat): Result<Emission, BuildError>
    requires i <= |Kids(c)|
  {
    EmitTo(catalog, c, i, b)
  }

  /** The string leaves of the first `i` members of a set when the next id is `b`: None is
    * skipped and any other member raises. */
  ghost function Leaves(members: seq<Native>, i: nat, b: nat): Result<Emission, BuildError>
    requires i <= |members|
    decreases i
  {
    if i == 0 then Ok(Nothing)
    else
      var prior :- Leaves(members, i - 1, b);
      var m := members[i - 1];
      if m.JStr? then
        Ok(Join(prior, Adopt(m, StringAttributes(m.s), [], Nothing, b + |prior.nodes|)))
      else if m.JNone? then Ok(prior)
      else Err(UnexpectedCollectionMember(m))
  }

  /** The id `_add_subtree_from_javalang_node` returns for an emission: its node, or the sentinel. */
  function IndexOf(e: Emission): int {
    if e.roots == [] then UnknownNodeIndex else e.roots[0]
  }

  // ---------------------------------------------------------------------------------------------
  // Which values the children of a node are built from, stated over the parse tree alone

  /** The values among the first `i` children of container `c` that become child nodes: nested
    * lists flattened, values that build no node dropped. */
  ghost function FlatTo(c: Native, i: nat): seq<Native>
    requires i <= |Kids(c)|
    decreases c, i
  {
    if i == 0 then []
    else
      var k := Kids(c)[i - 1];
      FlatTo(c, i - 1) + (if k.JList? then FlatTo(k, |Kids(k)|) else if Buildable(k) then [k] else [])
  }

  /** The string members among the first `i` members of a set. */
  ghost function StringsTo(members: seq<Native>, i: nat): seq<Native>
    requires i <= |members|
    decreases i
  {
    if i == 0 then [] else StringsTo(members, i - 1) + (if members[i - 1].JStr? then [members[i - 1]] else [])
  }

  /** The values whose nodes are the children of the node built from `v`, in order. */
  ghost function ChildValues(catalog: Catalog, v: Native): seq<Native> {
    if RecursesInto(catalog, v) then FlatTo(v, |Kids(v)|)
    else if v.JSet? then StringsTo(v.members, |v.members|)
    else []
  }

  // ---------------------------------------------------------------------------------------------
  // The shape of an emission whose first node gets id `b`

  /** The ids of the nodes whose parent is `p`, in id order, when `parents[c]` is the parent of
    * node `b + c`. */
  function ChildrenOf(parents: seq<int>, b: int, p: int): seq<int>
    decreases |parents|
  {
    if parents == [] then []
    else ChildrenOf(parents[..|parents| - 1], b, p) + (if parents[|parents| - 1] == p then [b + |parents| - 1] else [])
  }

  /** Every new node's parent is 0 (it is a root) or an earlier new node. */
  ghost predicate ParentsBack(e: Emission, b: int) {
    && |e.parents| == |e.nodes|
    && forall c :: 0 <= c < |e.parents| ==> e.parents[c] == 0 || b <= e.parents[c] < b + c
  }

  /** The new nodes form a forest: the successors of each are its children and the roots are the
    * parentless nodes, both in id order. */
  ghost predicate Tree(e: Emission, b: int) {
    && ParentsBack(e, b)
    && (forall k :: 0 <= k < |e.nodes| ==> KidsAt(e, b, k))
    && e.roots == ChildrenOf(e.parents, b, 0)
  }

  /** The successors of node `b + k` are its children, in id order. */
  ghost predicate KidsAt(e: Emission, b: int, k: int)
    requires 0 <= k < |e.nodes|
  {
    e.nodes[k].kids == ChildrenOf(e.parents, b, b + k)
  }

  /** Each node has the attributes the value it was built from calls for. */
  ghost predicate AttrsFrom(catalog: Catalog, e: Emission) {
    && |e.froms| == |e.nodes|
    && forall k :: 0 <= k < |e.nodes| ==>
         Buildable(e.froms[k]) && NodeAttributes(catalog, e.froms[k]) == Ok(e.nodes[k].attrs)
  }

  /** The successors of node `b + k` were built from its value's child values, in order. */
  ghost predicate KidsFromAt(catalog: Catalog, e: Emission, b: int, k: int)
    requires 0 <= k < |e.nodes| && |e.froms| == |e.nodes|
  {
    var kids, want := e.nodes[k].kids, ChildValues(catalog, e.froms[k]);
    && |kids| == |want|
    && forall j :: 0 <= j < |kids| ==> b <= kids[j] < b + |e.froms| && e.froms[kids[j] - b] == want[j]
  }

  /** The successors of each node were built from its value's child values, in order. */
  ghost predicate KidsFrom(catalog: Catalog, e: Emission, b: int) {
    && |e.froms| == |e.nodes|
    && forall k :: 0 <= k < |e.nodes| ==> KidsFromAt(catalog, e, b, k)
  }

  /** The roots were built from `vals`, in order. */
  ghost predicate RootsFrom(e: Emission, b: int, vals: seq<Native>) {
    && |e.roots| == |vals|
    && forall j :: 0 <= j < |e.roots| ==> b <= e.roots[j] < b + |e.froms| && e.froms[e.roots[j] - b] == vals[j]
  }

  /** Every identity write names a new node built from the parser node it records. */
  ghost predicate RecordsMatch(catalog: Catalog, e: Emission, b: int) {
    && |e.froms| == |e.nodes|
    && forall r :: 0 <= r < |e.recorded| ==>
         && b <= e.recorded[r].1 < b + |e.nodes|
         && e.froms[e.recorded[r].1 - b].JNode? && e.froms[e.recorded[r].1 - b].id == e.recorded[r].0
         && RecursesInto(catalog, e.froms[e.recorded[r].1 - b])
  }

  /** Everything the builder promises about what one building step appends. */
  ghost predicate Laid(catalog: Catalog, e: Emission, b: int) {
    Tree(e, b) && AttrsFrom(catalog, e) && KidsFrom(catalog, e, b) && RecordsMatch(catalog, e, b)
  }

  // ---------------------------------------------------------------------------------------------
  // Lemmas about the pieces

  lemma {:induction false} ConnectAppend(kids: seq<int>, a: seq<int>, c: seq<int>)
    ensures Connect(kids, a + c) == Connect(Connect(kids, a), c)
    decreases |c|
  {
    if c == [] {
      assert a + c == a;
    } else {
      assert (a + c)[..|a + c| - 1] == a + c[..|c| - 1];
      ConnectAppend(kids, a, c[..|c| - 1]);
    }
  }

  /** Attaching increasing ids to a node without successors lists them as they are. */
  lemma {:induction false} ConnectIncreasing(cs: seq<int>)
    requires forall j, j' :: 0 <= j < j' < |cs| ==> cs[j] < cs[j']
    ensures Connect([], cs) == cs
    decreases |cs|
  {
    if cs != [] {
      ConnectIncreasing(cs[..|cs| - 1]);
      assert cs[|cs| - 1] !in cs[..|cs| - 1];
      assert cs[..|cs| - 1] + [cs[|cs| - 1]] == cs;
    }
  }

  lemma {:induction false} ApplyAppend(m: map<NativeId, int>, a: seq<(NativeId, int)>, c: seq<(NativeId, int)>)
    ensures Apply(m, a + c) == Apply(Apply(m, a), c)
    decreases |c|
  {
    if c == [] {
      assert a + c == a;
    } else {
      assert (a + c)[..|a + c| - 1] == a + c[..|c| - 1];
      ApplyAppend(m, a, c[..|c| - 1]);
    }
  }

  /** Every entry of the identity map after the writes `rs` was there before or was written. */
  lemma {:induction false} ApplyFrom(m: map<NativeId, int>, rs: seq<(NativeId, int)>, id: NativeId)
    requires id in Apply(m, rs)
    ensures (id in m && Apply(m, rs)[id] == m[id]) ||
            exists r :: 0 <= r < |rs| && rs[r] == (id, Apply(m, rs)[id])
    decreases |rs|
  {
    if rs != [] {
      var last := rs[|rs| - 1];
      if id != last.0 {
        ApplyFrom(m, rs[..|rs| - 1], id);
        if !(id in m && Apply(m, rs)[id] == m[id]) {
          var r :| 0 <= r < |rs| - 1 && rs[..|rs| - 1][r] == (id, Apply(m, rs)[id]);
          assert rs[r] == (id, Apply(m, rs)[id]);
        }
      } else {
        assert rs[|rs| - 1] == (id, Apply(m, rs)[id]);
      }
    }
  }

  /** Every id written is in the identity map afterwards. */
  lemma {:induction false} ApplyCovers(m: map<NativeId, int>, rs: seq<(NativeId, int)>, r: int)
    requires 0 <= r < |rs|
    ensures rs[r].0 in Apply(m, rs)
    decreases |rs|
  {
    if r < |rs| - 1 {
      ApplyCovers(m, rs[..|rs| - 1], r);
    }
  }

  // ---------------------------------------------------------------------------------------------
  // Children lists

  /** The children of `p` are exactly the nodes whose parent is `p`. */
  lemma {:induction false} ChildrenOfMembers(ps: seq<int>, b: int, p: int)
    ensures forall j :: 0 <= j < |ChildrenOf(ps, b, p)| ==>
              b <= ChildrenOf(ps, b, p)[j] < b + |ps| && ps[ChildrenOf(ps, b, p)[j] - b] == p
    ensures forall c :: 0 <= c < |ps| && ps[c] == p ==> b + c in ChildrenOf(ps, b, p)
    decreases |ps|
  {
    if ps != [] {
      var init := ps[..|ps| - 1];
      ChildrenOfMembers(init, b, p);
      var r, r0 := ChildrenOf(ps, b, p), ChildrenOf(init, b, p);
      forall j | 0 <= j < |r|
        ensures b <= r[j] < b + |ps| && ps[r[j] - b] == p
      {
        if j < |r0| {
          assert r[j] == r0[j] && ps[r0[j] - b] == init[r0[j] - b];
        }
      }
      forall c | 0 <= c < |ps| && ps[c] == p
        ensures b + c in r
      {
        if c < |ps| - 1 {
          assert init[c] == p;
        }
      }
    }
  }

  /** Children are listed in increasing id order. */
  lemma {:induction false} ChildrenOfIncreasing(ps: seq<int>, b: int, p: int)
    ensures forall j, j' :: 0 <= j < j' < |ChildrenOf(ps, b, p)| ==> ChildrenOf(ps, b, p)[j] < ChildrenOf(ps, b, p)[j']
    decreases |ps|
  {
    if ps != [] {
      var init := ps[..|ps| - 1];
      ChildrenOfIncreasing(init, b, p);
      ChildrenOfMembers(init, b, p);
    }
  }

  lemma {:induction false} ChildrenOfAppend(xs: seq<int>, ys: seq<int>, b: int, p: int)
    ensures ChildrenOf(xs + ys, b, p) == ChildrenOf(xs, b, p) + ChildrenOf(ys, b + |xs|, p)
    decreases |ys|
  {
    if ys == [] {
      assert xs + ys == xs;
    } else {
      assert (xs + ys)[..|xs + ys| - 1] == xs + ys[..|ys| - 1];
      ChildrenOfAppend(xs, ys[..|ys| - 1], b, p);
    }
  }

  lemma ChildrenOfFirst(q: int, ps: seq<int>, b: int, p: int)
    ensures ChildrenOf([q] + ps, b, p) == (if q == p then [b] else []) + ChildrenOf(ps, b + 1, p)
  {
    ChildrenOfAppend([q], ps, b, p);
    assert [q][..0] == [];
  }

  /** A node nobody names as parent has no children. */
  lemma {:induction false} ChildrenOfNone(ps: seq<int>, b: int, p: int)
    requires forall c :: 0 <= c < |ps| ==> ps[c] != p
    ensures ChildrenOf(ps, b, p) == []
    decreases |ps|
  {
    if ps != [] {
      ChildrenOfNone(ps[..|ps| - 1], b, p);
    }
  }

  /** Adopting the roots as children of `b`: they become its children and nothing else changes. */
  lemma {:induction false} ChildrenOfLift(ps: seq<int>, b: int, b': int, p: int)
    requires b != 0 && forall c :: 0 <= c < |ps| ==> ps[c] != b
    ensures ChildrenOf(Lift(ps, b), b', p) == if p == b then ChildrenOf(ps, b', 0) else if p == 0 then [] else ChildrenOf(ps, b', p)
    decreases |ps|
  {
    if ps != [] {
      var init := ps[..|ps| - 1];
      assert Lift(ps, b)[..|ps| - 1] == Lift(init, b);
      ChildrenOfLift(init, b, b', p);
    }
  }

  // ---------------------------------------------------------------------------------------------
  // Each shape predicate survives joining two emissions, the second starting where the first ends

  lemma JoinTree(x: Emission, y: Emission, b: int, b': int)
    requires b' == b + |x.nodes|
    requires 0 < b && Tree(x, b) && Tree(y, b')
    ensures Tree(Join(x, y), b)
  {
    var e := Join(x, y);
    JoinedBack(e, x, y, b, b');
    JoinedKids(e, x, y, b, b');
    ChildrenOfAppend(x.parents, y.parents, b, 0);
  }

  lemma JoinedBack(e: Emission, x: Emission, y: Emission, b: int, b': int)
    requires b' == b + |x.nodes| && ParentsBack(x, b) && ParentsBack(y, b')
    requires e.nodes == x.nodes + y.nodes && e.parents == x.parents + y.parents
    ensures ParentsBack(e, b)
  {
    var n := |x.nodes|;
    forall c | 0 <= c < |e.parents|
      ensures e.parents[c] == 0 || b <= e.parents[c] < b + c
    {
      if c < n {
        assert e.parents[c] == x.parents[c];
      } else {
        assert e.parents[c] == y.parents[c - n];
      }
    }
  }

  /** Each node keeps its children: no node of one part is a parent in the other. */
  lemma JoinedKids(e: Emission, x: Emission, y: Emission, b: int, b': int)
    requires b' == b + |x.nodes| && 0 < b && ParentsBack(x, b) && ParentsBack(y, b')
    requires forall k :: 0 <= k < |x.nodes| ==> KidsAt(x, b, k)
    requires forall k :: 0 <= k < |y.nodes| ==> KidsAt(y, b', k)
    requires e.nodes == x.nodes + y.nodes && e.parents == x.parents + y.parents
    ensures forall k :: 0 <= k < |e.nodes| ==> KidsAt(e, b, k)
  {
    forall k | 0 <= k < |e.nodes|
      ensures KidsAt(e, b, k)
    {
      if k < |x.nodes| {
        JoinedLeftKids(e, x, y, b, b', k);
      } else {
        JoinedRightKids(e, x, y, b, b', k);
      }
    }
  }

  lemma JoinedLeftKids(e: Emission, x: Emission, y: Emission, b: int, b': int, k: int)
    requires b' == b + |x.nodes| && 0 < b && |x.parents| == |x.nodes| && ParentsBack(y, b') && 0 <= k < |x.nodes|
    requires KidsAt(x, b, k)
    requires e.nodes == x.nodes + y.nodes && e.parents == x.parents + y.parents
    ensures KidsAt(e, b, k)
  {
    ChildrenOfAppend(x.parents, y.parents, b, b + k);
    ChildrenOfNone(y.parents, b', b + k);
    assert e.nodes[k] == x.nodes[k];
  }

  lemma JoinedRightKids(e: Emission, x: Emission, y: Emission, b: int, b': int, k: int)
    requires b' == b + |x.nodes| && 0 < b && ParentsBack(x, b) && |x.nodes| <= k < |e.nodes|
    requires e.nodes == x.nodes + y.nodes && e.parents == x.parents + y.parents
    requires KidsAt(y, b', k - |x.nodes|)
    ensures KidsAt(e, b, k)
  {
    ChildrenOfAppend(x.parents, y.parents, b, b + k);
    ChildrenOfNone(x.parents, b, b + k);
    assert e.nodes[k] == y.nodes[k - |x.nodes|];
  }

  lemma JoinAttrs(catalog: Catalog, x: Emission, y: Emission)
    requires AttrsFrom(catalog, x) && AttrsFrom(catalog, y)
    ensures AttrsFrom(catalog, Join(x, y))
  {
    var e, n := Join(x, y), |x.nodes|;
    forall k | 0 <= k < |e.nodes|
      ensures Buildable(e.froms[k]) && NodeAttributes(catalog, e.froms[k]) == Ok(e.nodes[k].attrs)
    {
      if k < n {
        assert e.nodes[k] == x.nodes[k] && e.froms[k] == x.froms[k];
      } else {
        assert e.nodes[k] == y.nodes[k - n] && e.froms[k] == y.froms[k - n];
      }
    }
  }

  lemma JoinKidsFrom(catalog: Catalog, x: Emission, y: Emission, b: int, b': int)
    requires b' == b + |x.nodes|
    requires KidsFrom(catalog, x, b) && KidsFrom(catalog, y, b')
    ensures KidsFrom(catalog, Join(x, y), b)
  {
    var e, n := Join(x, y), |x.nodes|;
    forall k | 0 <= k < |e.nodes|
      ensures KidsFromAt(catalog, e, b, k)
    {
      if k < n {
        assert KidsFromAt(catalog, x, b, k);
        assert e.nodes[k] == x.nodes[k] && e.froms[k] == x.froms[k];
        var kids := e.nodes[k].kids;
        forall j | 0 <= j < |kids|
          ensures e.froms[kids[j] - b] == x.froms[kids[j] - b]
        {
        }
      } else {
        assert KidsFromAt(catalog, y, b', k - n);
        assert e.nodes[k] == y.nodes[k - n] && e.froms[k] == y.froms[k - n];
        var kids := e.nodes[k].kids;
        forall j | 0 <= j < |kids|
          ensures e.froms[kids[j] - b] == y.froms[kids[j] - b']
        {
        }
      }
    }
  }

  lemma JoinRootsFrom(x: Emission, y: Emission, b: int, b': int, vx: seq<Native>, vy: seq<Native>)
    requires b' == b + |x.nodes| && |x.froms| == |x.nodes|
    requires RootsFrom(x, b, vx) && RootsFrom(y, b', vy)
    ensures RootsFrom(Join(x, y), b, vx + vy)
  {
    var e, m := Join(x, y), |x.roots|;
    forall j | 0 <= j < |e.roots|
      ensures b <= e.roots[j] < b + |e.froms| && e.froms[e.roots[j] - b] == (vx + vy)[j]
    {
      if j < m {
        assert e.roots[j] == x.roots[j] && e.froms[x.roots[j] - b] == x.froms[x.roots[j] - b];
      } else {
        var r := y.roots[j - m];
        assert e.roots[j] == r && e.froms[r - b] == y.froms[r - b'];
      }
    }
  }

  lemma JoinRecords(catalog: Catalog, x: Emission, y: Emission, b: int, b': int)
    requires b' == b + |x.nodes|
    requires RecordsMatch(catalog, x, b) && RecordsMatch(catalog, y, b')
    ensures RecordsMatch(catalog, Join(x, y), b)
  {
    var e, n, m := Join(x, y), |x.nodes|, |x.recorded|;
    forall r | 0 <= r < |e.recorded|
      ensures b <= e.recorded[r].1 < b + |e.nodes|
      ensures e.froms[e.recorded[r].1 - b].JNode? && e.froms[e.recorded[r].1 - b].id == e.recorded[r].0
      ensures RecursesInto(catalog, e.froms[e.recorded[r].1 - b])
    {
      if r < m {
        var w := x.recorded[r];
        assert e.recorded[r] == w && e.froms[w.1 - b] == x.froms[w.1 - b];
      } else {
        var w := y.recorded[r - m];
        assert e.recorded[r] == w && e.froms[w.1 - b] == y.froms[w.1 - b'];
      }
    }
  }

  /** Joining two laid emissions, the second starting where the first ends, gives a laid one
    * whose roots were built from both root values in turn. */
  lemma JoinLaid(catalog: Catalog, x: Emission, y: Emission, b: int, b': int, vx: seq<Native>, vy: seq<Native>)
    requires b' == b + |x.nodes|
    requires 0 < b && Laid(catalog, x, b) && Laid(catalog, y, b')
    requires RootsFrom(x, b, vx) && RootsFrom(y, b', vy)
    ensures Laid(catalog, Join(x, y), b) && RootsFrom(Join(x, y), b, vx + vy)
  {
    JoinTree(x, y, b, b');
    JoinAttrs(catalog, x, y);
    JoinKidsFrom(catalog, x, y, b, b');
    JoinRecords(catalog, x, y, b, b');
    JoinRootsFrom(x, y, b, b', vx, vy);
  }

  // ---------------------------------------------------------------------------------------------
  // Each shape predicate survives adopting an emission's roots as the children of a new node

  lemma AdoptTree(v: Native, a: map<string, Value>, rec: seq<(NativeId, int)>, sub: Emission, b: int)
    requires 0 < b && Tree(sub, b + 1)
    ensures Tree(Adopt(v, a, rec, sub, b), b)
    ensures Adopt(v, a, rec, sub, b).nodes[0].kids == sub.roots
  {
    AdoptFirstKids(sub, b);
    AdoptedTree(Adopt(v, a, rec, sub, b), sub, a, b);
  }

  /** An emission whose first node has the old roots as successors, followed by the old nodes
    * with the roots lifted under it, is a tree again. */
  lemma AdoptedTree(e: Emission, sub: Emission, a: map<string, Value>, b: int)
    requires 0 < b && Tree(sub, b + 1)
    requires e.nodes == [GraphNode(a, sub.roots)] + sub.nodes
    requires e.parents == [0] + Lift(sub.parents, b) && e.roots == [b]
    ensures Tree(e, b)
  {
    AdoptedBack(e, sub, a, b);
    AdoptedKids(e, sub, a, b, b + 1);
    AdoptedRootsOf(e, sub, b);
  }

  lemma AdoptedBack(e: Emission, sub: Emission, a: map<string, Value>, b: int)
    requires 0 < b && ParentsBack(sub, b + 1)
    requires e.nodes == [GraphNode(a, sub.roots)] + sub.nodes
    requires e.parents == [0] + Lift(sub.parents, b)
    ensures ParentsBack(e, b)
  {
    AdoptedParents(sub.parents, b);
  }

  /** The first node's successors are its children, and the old nodes keep theirs. */
  lemma AdoptedKids(e: Emission, sub: Emission, a: map<string, Value>, b: int, b1: int)
    requires 0 < b && b1 == b + 1 && ParentsBack(sub, b1) && sub.roots == ChildrenOf(sub.parents, b1, 0)
    requires forall k :: 0 <= k < |sub.nodes| ==> KidsAt(sub, b1, k)
    requires e.nodes == [GraphNode(a, sub.roots)] + sub.nodes
    requires e.parents == [0] + Lift(sub.parents, b)
    ensures forall k :: 0 <= k < |e.nodes| ==> KidsAt(e, b, k)
  {
    forall k | 0 <= k < |e.nodes|
      ensures KidsAt(e, b, k)
    {
      if k == 0 {
        AdoptFirstKids(sub, b);
      } else {
        AdoptLaterKids(sub, b, k - 1);
        assert e.nodes[k] == sub.nodes[k - 1];
      }
    }
  }

  lemma AdoptedRootsOf(e: Emission, sub: Emission, b: int)
    requires 0 < b && ParentsBack(sub, b + 1)
    requires e.parents == [0] + Lift(sub.parents, b) && e.roots == [b]
    ensures e.roots == ChildrenOf(e.parents, b, 0)
  {
    AdoptedParents(sub.parents, b);
    AdoptedRoots(sub.parents, b);
  }

  /** Adoption by `b` keeps every parent earlier than its child, and none of the old nodes
    * names `b` as parent. */
  lemma AdoptedParents(ps: seq<int>, b: int)
    requires 0 < b && forall c :: 0 <= c < |ps| ==> ps[c] == 0 || b + 1 <= ps[c] < b + 1 + c
    ensures forall c :: 0 <= c < |ps| ==> ps[c] != b
    ensures var q := [0] + Lift(ps, b);
            forall c :: 0 <= c < |q| ==> q[c] == 0 || b <= q[c] < b + c
  {
    var q := [0] + Lift(ps, b);
    forall c | 0 <= c < |q|
      ensures q[c] == 0 || b <= q[c] < b + c
    {
      if c > 0 {
        assert q[c] == Lift(ps, b)[c - 1];
      }
    }
  }

  /** The adopting node's successors are the old roots, which are its children. */
  lemma AdoptFirstKids(sub: Emission, b: int)
    requires 0 < b && ParentsBack(sub, b + 1) && sub.roots == ChildrenOf(sub.parents, b + 1, 0)
    ensures Connect([], sub.roots) == sub.roots
    ensures sub.roots == ChildrenOf([0] + Lift(sub.parents, b), b, b)
  {
    AdoptedParents(sub.parents, b);
    ChildrenOfIncreasing(sub.parents, b + 1, 0);
    ConnectIncreasing(sub.roots);
    AdoptedChildren(sub.parents, b, b);
  }

  /** An old node keeps its children after adoption. */
  lemma AdoptLaterKids(sub: Emission, b: int, k: int)
    requires 0 < b && ParentsBack(sub, b + 1) && 0 <= k < |sub.nodes|
    requires KidsAt(sub, b + 1, k)
    ensures sub.nodes[k].kids == ChildrenOf([0] + Lift(sub.parents, b), b, b + 1 + k)
  {
    AdoptedParents(sub.parents, b);
    AdoptedChildren(sub.parents, b, b + 1 + k);
  }

  /** After adoption by `b`, the old roots are `b`'s children and every other node keeps its own. */
  lemma AdoptedChildren(ps: seq<int>, b: int, p: int)
    requires 0 < b && p != 0 && forall c :: 0 <= c < |ps| ==> ps[c] != b
    ensures ChildrenOf([0] + Lift(ps, b), b, p) == ChildrenOf(ps, b + 1, if p == b then 0 else p)
  {
    ChildrenOfFirst(0, Lift(ps, b), b, p);
    ChildrenOfLift(ps, b, b + 1, p);
  }

  /** After adoption by `b`, `b` is the one root. */
  lemma AdoptedRoots(ps: seq<int>, b: int)
    requires 0 < b && forall c :: 0 <= c < |ps| ==> ps[c] != b
    ensures ChildrenOf([0] + Lift(ps, b), b, 0) == [b]
  {
    ChildrenOfFirst(0, Lift(ps, b), b, 0);
    ChildrenOfLift(ps, b, b + 1, 0);
  }

  lemma AdoptAttrs(catalog: Catalog, v: Native, a: map<string, Value>, rec: seq<(NativeId, int)>, sub: Emission, b: int)
    requires AttrsFrom(catalog, sub) && Buildable(v) && NodeAttributes(catalog, v) == Ok(a)
    ensures AttrsFrom(catalog, Adopt(v, a, rec, sub, b))
  {
    var e := Adopt(v, a, rec, sub, b);
    forall k | 0 <= k < |e.nodes|
      ensures Buildable(e.froms[k]) && NodeAttributes(catalog, e.froms[k]) == Ok(e.nodes[k].attrs)
    {
      if k > 0 {
        assert e.nodes[k] == sub.nodes[k - 1] && e.froms[k] == sub.froms[k - 1];
      }
    }
  }

  lemma AdoptKidsFrom(catalog: Catalog, v: Native, a: map<string, Value>, rec: seq<(NativeId, int)>, sub: Emission, b: int)
    requires KidsFrom(catalog, sub, b + 1) && RootsFrom(sub, b + 1, ChildValues(catalog, v))
    requires Adopt(v, a, rec, sub, b).nodes[0].kids == sub.roots
    ensures KidsFrom(catalog, Adopt(v, a, rec, sub, b), b)
  {
    ShiftKidsFrom(catalog, Adopt(v, a, rec, sub, b), sub, v, b);
  }

  /** An emission that is a node built from `v` followed by `sub`, whose roots are that node's
    * successors, has its successors built from the child values when `sub` has. */
  lemma ShiftKidsFrom(catalog: Catalog, e: Emission, sub: Emission, v: Native, b: int)
    requires |e.nodes| > 0 && e.nodes == [GraphNode(e.nodes[0].attrs, sub.roots)] + sub.nodes && e.froms == [v] + sub.froms
    requires KidsFrom(catalog, sub, b + 1) && RootsFrom(sub, b + 1, ChildValues(catalog, v))
    ensures KidsFrom(catalog, e, b)
  {
    forall k | 0 <= k < |e.nodes|
      ensures KidsFromAt(catalog, e, b, k)
    {
      if k > 0 {
        ShiftKidsAt(catalog, e, sub, v, b, k);
      } else {
        ShiftRootKids(catalog, e, sub, v, b);
      }
    }
  }

  /** A node of `sub` keeps its successors' values when `sub` is shifted one place. */
  lemma ShiftKidsAt(catalog: Catalog, e: Emission, sub: Emission, v: Native, b: int, k: int)
    requires |sub.froms| == |sub.nodes| && |e.nodes| == |e.froms| && e.froms == [v] + sub.froms
    requires 0 < k < |e.nodes| && e.nodes[k] == sub.nodes[k - 1]
    requires KidsFromAt(catalog, sub, b + 1, k - 1)
    ensures KidsFromAt(catalog, e, b, k)
  {
    var kids := e.nodes[k].kids;
    forall j | 0 <= j < |kids|
      ensures e.froms[kids[j] - b] == sub.froms[kids[j] - (b + 1)]
    {
    }
  }

  /** The adopting node's successors are the roots of `sub`, built from its child values. */
  lemma ShiftRootKids(catalog: Catalog, e: Emission, sub: Emission, v: Native, b: int)
    requires |sub.froms| == |sub.nodes| && |e.nodes| == |e.froms| > 0 && e.froms == [v] + sub.froms
    requires e.nodes[0].kids == sub.roots && RootsFrom(sub, b + 1, ChildValues(catalog, v))
    ensures KidsFromAt(catalog, e, b, 0)
  {
    forall j | 0 <= j < |sub.roots|
      ensures e.froms[sub.roots[j] - b] == sub.froms[sub.roots[j] - (b + 1)]
    {
    }
  }

  lemma AdoptRecords(catalog: Catalog, v: Native, a: map<string, Value>, rec: seq<(NativeId, int)>, sub: Emission, b: int)
    requires RecordsMatch(catalog, sub, b + 1)
    requires rec == [] || (v.JNode? && rec == [(v.id, b)] && RecursesInto(catalog, v))
    ensures RecordsMatch(catalog, Adopt(v, a, rec, sub, b), b)
  {
    var e := Adopt(v, a, rec, sub, b);
    forall r | 0 <= r < |e.recorded|
      ensures b <= e.recorded[r].1 < b + |e.nodes|
      ensures e.froms[e.recorded[r].1 - b].JNode? && e.froms[e.recorded[r].1 - b].id == e.recorded[r].0
      ensures RecursesInto(catalog, e.froms[e.recorded[r].1 - b])
    {
      if r >= |rec| {
        var w := sub.recorded[r - |rec|];
        assert e.recorded[r] == w && e.froms[w.1 - b] == sub.froms[w.1 - (b + 1)];
      }
    }
  }

  /** A node adopting a laid emission whose roots were built from its child values is laid, and
    * is the one root. */
  lemma AdoptLaid(catalog: Catalog, v: Native, a: map<string, Value>, rec: seq<(NativeId, int)>, sub: Emission, b: int)
    requires 0 < b && Laid(catalog, sub, b + 1) && RootsFrom(sub, b + 1, ChildValues(catalog, v))
    requires Buildable(v) && NodeAttributes(catalog, v) == Ok(a)
    requires rec == [] || (v.JNode? && rec == [(v.id, b)] && RecursesInto(catalog, v))
    ensures Laid(catalog, Adopt(v, a, rec, sub, b), b) && RootsFrom(Adopt(v, a, rec, sub, b), b, [v])
  {
    AdoptTree(v, a, rec, sub, b);
    AdoptAttrs(catalog, v, a, rec, sub, b);
    AdoptKidsFrom(catalog, v, a, rec, sub, b);
    AdoptRecords(catalog, v, a, rec, sub, b);
  }

  // ---------------------------------------------------------------------------------------------
  // The shape of what building produces

  /** A value that builds a node builds it first, with the next id, and one that does not adds
    * nothing; everything appended is laid out as a tree. */
  lemma {:induction false} EmitLaid(catalog: Catalog, v: Native, b: nat)
    requires 0 < b && Emit(catalog, v, b).Ok?
    ensures var e := Emit(catalog, v, b).value;
            && Laid(catalog, e, b)
            && RootsFrom(e, b, if Buildable(v) then [v] else [])
            && e.roots == (if Buildable(v) then [b] else [])
            && (!Buildable(v) ==> e.nodes == [])
    decreases v, 2
  {
    match v
    case JNode(_, _, _, _, _) =>
      NodeLaid(catalog, v, b);
    case JSet(members) =>
      SetLaid(catalog, v, b);
    case JStr(s) =>
      AdoptLaid(catalog, v, StringAttributes(s), [], Nothing, b);
    case _ =>
  }

  lemma {:induction false} NodeLaid(catalog: Catalog, v: Native, b: nat)
    requires 0 < b && v.JNode? && Emit(catalog, v, b).Ok?
    ensures var e := Emit(catalog, v, b).value;
            Laid(catalog, e, b) && RootsFrom(e, b, [v]) && e.roots == [b]
    decreases v, 1
  {
    var a := StandardAttributes(catalog, v).value;
    if IsSyntheticType(TypeOfNode(catalog, v)) {
      AdoptLaid(catalog, v, a, [], Nothing, b);
    } else {
      EmitToLaid(catalog, v, |Kids(v)|, b + 1);
      AdoptLaid(catalog, v, a, [(v.id, b)], EmitTo(catalog, v, |Kids(v)|, b + 1).value, b);
    }
  }

  lemma {:induction false} SetLaid(catalog: Catalog, v: Native, b: nat)
    requires 0 < b && v.JSet? && Emit(catalog, v, b).Ok?
    ensures var e := Emit(catalog, v, b).value;
            Laid(catalog, e, b) && RootsFrom(e, b, [v]) && e.roots == [b]
  {
    LeavesLaid(catalog, v.members, |v.members|, b + 1);
    AdoptLaid(catalog, v, CollectionAttributes(), [], Leaves(v.members, |v.members|, b + 1).value, b);
  }

  /** Building children: each laid after the last, the roots being the flattened child values. */
  lemma {:induction false} EmitToLaid(catalog: Catalog, c: Native, i: nat, b: nat)
    requires 0 < b && i <= |Kids(c)| && EmitTo(catalog, c, i, b).Ok?
    ensures Laid(catalog, EmitTo(catalog, c, i, b).value, b)
    ensures RootsFrom(EmitTo(catalog, c, i, b).value, b, FlatTo(c, i))
    decreases c, 0, i, 1
  {
    if i > 0 {
      EmitToLaid(catalog, c, i - 1, b);
      EmitToStepLaid(catalog, c, i, b);
    }
  }

  /** One more child: laid after those before it. */
  lemma {:induction false} EmitToStepLaid(catalog: Catalog, c: Native, i: nat, b: nat)
    requires 0 < b && 0 < i <= |Kids(c)| && EmitTo(catalog, c, i, b).Ok?
    requires EmitTo(catalog, c, i - 1, b).Ok?
    requires Laid(catalog, EmitTo(catalog, c, i - 1, b).value, b)
    requires RootsFrom(EmitTo(catalog, c, i - 1, b).value, b, FlatTo(c, i - 1))
    ensures Laid(catalog, EmitTo(catalog, c, i, b).value, b)
    ensures RootsFrom(EmitTo(catalog, c, i, b).value, b, FlatTo(c, i))
    decreases c, 0, i, 0
  {
    var e := EmitTo(catalog, c, i, b).value;
    var prior := EmitTo(catalog, c, i - 1, b).value;
    var k := Kids(c)[i - 1];
    var b' := b + |prior.nodes|;
    if k.JList? {
      var next := EmitTo(catalog, k, |Kids(k)|, b').value;
      assert e == Join(prior, next) && FlatTo(c, i) == FlatTo(c, i - 1) + FlatTo(k, |Kids(k)|);
      EmitToLaid(catalog, k, |Kids(k)|, b');
      JoinLaid(catalog, prior, next, b, b', FlatTo(c, i - 1), FlatTo(k, |Kids(k)|));
    } else {
      var next := Emit(catalog, k, b').value;
      assert e == Join(prior, next) && FlatTo(c, i) == FlatTo(c, i - 1) + (if Buildable(k) then [k] else []);
      EmitLaid(catalog, k, b');
      JoinLaid(catalog, prior, next, b, b', FlatTo(c, i - 1), if Buildable(k) then [k] else []);
    }
  }

  /** The leaves of a set: one per string member, in member order. */
  lemma {:induction false} LeavesLaid(catalog: Catalog, members: seq<Native>, i: nat, b: nat)
    requires 0 < b && i <= |members| && Leaves(members, i, b).Ok?
    ensures Laid(catalog, Leaves(members, i, b).value, b)
    ensures RootsFrom(Leaves(members, i, b).value, b, StringsTo(members, i))
    decreases i
  {
    if i > 0 {
      LeavesLaid(catalog, members, i - 1, b);
      LeavesStepLaid(catalog, members, i, b);
    }
  }

  /** A string member's leaf. */
  lemma LeafLaid(catalog: Catalog, m: Native, b: int)
    requires 0 < b && m.JStr?
    ensures var leaf := Adopt(m, StringAttributes(m.s), [], Nothing, b);
            Laid(catalog, leaf, b) && RootsFrom(leaf, b, [m])
  {
    AdoptLaid(catalog, m, StringAttributes(m.s), [], Nothing, b);
  }

  /** One more member: a string adds its leaf after those before it, a `None` adds nothing. */
  lemma LeavesStepLaid(catalog: Catalog, members: seq<Native>, i: nat, b: nat)
    requires 0 < b && 0 < i <= |members| && Leaves(members, i, b).Ok? && Leaves(members, i - 1, b).Ok?
    requires Laid(catalog, Leaves(members, i - 1, b).value, b)
    requires RootsFrom(Leaves(members, i - 1, b).value, b, StringsTo(members, i - 1))
    ensures Laid(catalog, Leaves(members, i, b).value, b)
    ensures RootsFrom(Leaves(members, i, b).value, b, StringsTo(members, i))
  {
    var e := Leaves(members, i, b).value;
    var prior := Leaves(members, i - 1, b).value;
    var m := members[i - 1];
    if m.JStr? {
      var b' := b + |prior.nodes|;
      var leaf := Adopt(m, StringAttributes(m.s), [], Nothing, b');
      assert e == Join(prior, leaf) && StringsTo(members, i) == StringsTo(members, i - 1) + [m];
      LeafLaid(catalog, m, b');
      JoinLaid(catalog, prior, leaf, b, b', StringsTo(members, i - 1), [m]);
    } else {
      assert e == prior && StringsTo(members, i) == StringsTo(members, i - 1);
    }
  }

  // ---------------------------------------------------------------------------------------------
  // From the shape to the graph

  /** Every edge of a forest goes to a later node of it, whose recorded parent is the edge's source. */
  lemma TreeEdgesForward(e: Emission, b: int)
    requires 0 < b && Tree(e, b)
    ensures forall k, j :: 0 <= k < |e.nodes| && 0 <= j < |e.nodes[k].kids| ==>
              b + k < e.nodes[k].kids[j] < b + |e.nodes| && e.parents[e.nodes[k].kids[j] - b] == b + k
  {
    forall k, j | 0 <= k < |e.nodes| && 0 <= j < |e.nodes[k].kids|
      ensures b + k < e.nodes[k].kids[j] < b + |e.nodes| && e.parents[e.nodes[k].kids[j] - b] == b + k
    {
      assert KidsAt(e, b, k);
      ChildrenOfMembers(e.parents, b, b + k);
    }
  }

  /** No node of a forest is the successor of two nodes, or twice the successor of one. */
  lemma TreeKidsUnique(e: Emission, b: int)
    requires 0 < b && Tree(e, b)
    ensures forall k, k', j, j' ::
              (0 <= k < |e.nodes| && 0 <= k' < |e.nodes| && 0 <= j < |e.nodes[k].kids| && 0 <= j' < |e.nodes[k'].kids| &&
               e.nodes[k].kids[j] == e.nodes[k'].kids[j']) ==> k == k' && j == j'
  {
    forall k, k', j, j' |
      0 <= k < |e.nodes| && 0 <= k' < |e.nodes| && 0 <= j < |e.nodes[k].kids| && 0 <= j' < |e.nodes[k'].kids| &&
      e.nodes[k].kids[j] == e.nodes[k'].kids[j']
      ensures k == k' && j == j'
    {
      KidUnique(e, b, k, k', j, j');
    }
  }

  /** Two successor slots holding the same id are the same slot. */
  lemma KidUnique(e: Emission, b: int, k: int, k': int, j: int, j': int)
    requires |e.parents| == |e.nodes| && 0 <= k < |e.nodes| && 0 <= k' < |e.nodes|
    requires KidsAt(e, b, k) && KidsAt(e, b, k')
    requires 0 <= j < |e.nodes[k].kids| && 0 <= j' < |e.nodes[k'].kids|
    requires e.nodes[k].kids[j] == e.nodes[k'].kids[j']
    ensures k == k' && j == j'
  {
    ChildrenOfMembers(e.parents, b, b + k);
    ChildrenOfMembers(e.parents, b, b + k');
    ChildrenOfIncreasing(e.parents, b, b + k);
  }

  /** What a whole build lays out, starting from id 1, is a well-formed graph. */
  lemma LaidWellFormed(catalog: Catalog, e: Emission)
    requires Laid(catalog, e, 1)
    ensures DenseWellFormed(e.nodes) && WellFormed(FromDense(e.nodes))
  {
    TreeEdgesForward(e, 1);
    TreeKidsUnique(e, 1);
    forall k | 0 <= k < |e.nodes|
      ensures "node_type" in e.nodes[k].attrs && e.nodes[k].attrs["node_type"].Type?
    {
      NodeAttributesStamped(catalog, e.froms[k]);
    }
    FromDenseWellFormed(e.nodes);
  }

  // ---------------------------------------------------------------------------------------------
  // The builder's state: a dense node list and the identity map

  /** The node list after an emission is appended below existing node `p`: its roots become
    * successors of `p` and its nodes follow the existing ones. */
  function Attach(nodes: seq<GraphNode>, p: int, e: Emission): (r: seq<GraphNode>)
    requires 1 <= p <= |nodes|
    ensures |r| == |nodes| + |e.nodes|
  {
    nodes[p - 1 := GraphNode(nodes[p - 1].attrs, Connect(nodes[p - 1].kids, e.roots))] + e.nodes
  }

  /** Attaching two emissions in turn is attaching their join. */
  lemma AttachJoin(nodes: seq<GraphNode>, p: int, x: Emission, y: Emission)
    requires 1 <= p <= |nodes|
    ensures Attach(Attach(nodes, p, x), p, y) == Attach(nodes, p, Join(x, y))
  {
    ConnectAppend(nodes[p - 1].kids, x.roots, y.roots);
  }

  /** What `_add_javalang_node` appends for `v` when the next id is `b`: a parser node's own node
    * without its children, or the whole of a set or a string. */
  ghost function Place(catalog: Catalog, v: Native, b: nat): Result<Emission, BuildError> {
    if v.JNode? then
      var a :- StandardAttributes(catalog, v);
      Ok(Adopt(v, a, [], Nothing, b))
    else Emit(catalog, v, b)
  }

  /** The node type `_add_javalang_node` reports for a value it placed. */
  function PlacedType(catalog: Catalog, v: Native): NodeType {
    match v
    case JNode(_, _, _, _, _) => if v.className in catalog.nodeTypeOf then TypeOfNode(catalog, v) else Unknown
    case JSet(_) => Collection
    case JStr(_) => String
    case _ => Unknown
  }

  /** The root a value's emission reports: its first node if it builds one, else nothing. */
  lemma EmitRoots(catalog: Catalog, v: Native, b: nat)
    requires 0 < b && Built(catalog, v, b).Ok?
    ensures var e := Built(catalog, v, b).value;
            && e.roots == (if Buildable(v) then [b] else [])
            && IndexOf(e) == (if Buildable(v) then b else UnknownNodeIndex)
            && (!Buildable(v) ==> e.nodes == [])
  {
    EmitLaid(catalog, v, b);
  }

  /** Every entry of the identity map a build writes names a node of it built from the parser
    * node with that identity, one whose children were built. */
  lemma IdentityNamesNodes(catalog: Catalog, e: Emission, b: int)
    requires RecordsMatch(catalog, e, b)
    ensures forall id :: id in Apply(map[], e.recorded) ==>
              && b <= Apply(map[], e.recorded)[id] < b + |e.nodes|
              && e.froms[Apply(map[], e.recorded)[id] - b].JNode?
              && e.froms[Apply(map[], e.recorded)[id] - b].id == id
              && RecursesInto(catalog, e.froms[Apply(map[], e.recorded)[id] - b])
  {
    forall id | id in Apply(map[], e.recorded)
      ensures b <= Apply(map[], e.recorded)[id] < b + |e.nodes|
      ensures e.froms[Apply(map[], e.recorded)[id] - b].JNode? && e.froms[Apply(map[], e.recorded)[id] - b].id == id
      ensures RecursesInto(catalog, e.froms[Apply(map[], e.recorded)[id] - b])
    {
      ApplyFrom(map[], e.recorded, id);
    }
  }

  /** Attaching an emission whose one root is `c` is appending its nodes and adding the edge to `c`. */
  lemma AttachRoot(nodes: seq<GraphNode>, p: int, e: Emission, c: int)
    requires 1 <= p <= |nodes| && e.roots == [c]
    ensures Attach(nodes, p, e) ==
            (nodes + e.nodes)[p - 1 := GraphNode(nodes[p - 1].attrs, AddSuccessor(nodes[p - 1].kids, c))]
  {
    assert e.roots[..0] == [];
    assert Connect(nodes[p - 1].kids, e.roots) == AddSuccessor(nodes[p - 1].kids, c);
  }

  /** Attaching an empty emission changes nothing. */
  lemma AttachNothing(nodes: seq<GraphNode>, p: int, e: Emission)
    requires 1 <= p <= |nodes| && e.roots == [] && e.nodes == []
    ensures Attach(nodes, p, e) == nodes
  {
  }

  /** Filling a node just added without successors yields the adopted emission. */
  lemma AttachAdopt(nodes: seq<GraphNode>, v: Native, a: map<string, Value>, rec: seq<(NativeId, int)>, sub: Emission, b: int)
    requires b == |nodes| + 1
    ensures Attach(nodes + [GraphNode(a, [])], b, sub) == nodes + Adopt(v, a, rec, sub, b).nodes
  {
  }

  /** Once building the first children of a container raises, building more raises the same error. */
  lemma {:induction false} EmitToFails(catalog: Catalog, c: Native, i: nat, j: nat, b: nat, err: BuildError)
    requires i <= j <= |Kids(c)| && BuiltTo(catalog, c, i, b) == Err(err)
    ensures BuiltTo(catalog, c, j, b) == Err(err)
    decreases j
  {
    if i < j {
      EmitToFails(catalog, c, i, j - 1, b, err);
    }
  }

  /** Once the leaves of the first members of a set raise, the leaves of more members raise the same error. */
  lemma {:induction false} LeavesFails(members: seq<Native>, i: nat, j: nat, b: nat, err: BuildError)
    requires i <= j <= |members| && Leaves(members, i, b) == Err(err)
    ensures Leaves(members, j, b) == Err(err)
    decreases j
  {
    if i < j {
      LeavesFails(members, i, j - 1, b, err);
    }
  }

  /** A set with a member that is neither a string nor None raises at the first such member. */
  lemma CollectionFails(catalog: Catalog, v: Native, i: nat, b: nat)
    requires v.JSet? && i < |v.members| && Leaves(v.members, i, b + 1).Ok?
    requires !v.members[i].JStr? && !v.members[i].JNone?
    ensures Built(catalog, v, b) == Err(UnexpectedCollectionMember(v.members[i]))
  {
    assert Leaves(v.members, i + 1, b + 1) == Err(UnexpectedCollectionMember(v.members[i]));
    LeavesFails(v.members, i + 1, |v.members|, b + 1, UnexpectedCollectionMember(v.members[i]));
  }

  /** Building a set whose members all pass: the collection node adopting its leaves. */
  lemma CollectionEmit(catalog: Catalog, v: Native, b: nat)
    requires v.JSet? && Leaves(v.members, |v.members|, b + 1).Ok?
    ensures Emit(catalog, v, b) == Ok(Adopt(v, CollectionAttributes(), [], Leaves(v.members, |v.members|, b + 1).value, b))
  {
  }

  /** The leaves of a set write nothing to the identity map. */
  lemma {:induction false} LeavesUnrecorded(members: seq<Native>, i: nat, b: nat)
    requires i <= |members| && Leaves(members, i, b).Ok?
    ensures Leaves(members, i, b).value.recorded == []
    decreases i
  {
    if i > 0 {
      LeavesUnrecorded(members, i - 1, b);
    }
  }

  /** Building one more child that is not a list: the child's emission joined to those before. */
  lemma EmitToValueStep(catalog: Catalog, c: Native, i: nat, b: nat, prior: Emission, next: Result<Emission, BuildError>)
    requires i < |Kids(c)| && !Kids(c)[i].JList? && BuiltTo(catalog, c, i, b) == Ok(prior)
    requires next == Built(catalog, Kids(c)[i], b + |prior.nodes|)
    ensures next.Ok? ==> BuiltTo(catalog, c, i + 1, b) == Ok(Join(prior, next.value))
    ensures next.Err? ==> BuiltTo(catalog, c, i + 1, b) == Err(next.error)
  {
    assert Kids(c)[i + 1 - 1] == Kids(c)[i];
  }

  /** Building one more child that is a nested list: its children's emission joined to those before. */
  lemma EmitToListStep(catalog: Catalog, c: Native, i: nat, b: nat)
    requires i < |Kids(c)| && Kids(c)[i].JList? && BuiltTo(catalog, c, i, b).Ok?
    ensures var prior := BuiltTo(catalog, c, i, b).value;
            var k := Kids(c)[i];
            var next := BuiltTo(catalog, k, |Kids(k)|, b + |prior.nodes|);
            BuiltTo(catalog, c, i + 1, b) == if next.Ok? then Ok(Join(prior, next.value)) else Err(next.error)
  {
  }

  /** When placing a value's node raises, building it raises the same error. */
  lemma PlaceFails(catalog: Catalog, v: Native, b: nat)
    requires 0 < b && Place(catalog, v, b).Err?
    ensures Built(catalog, v, b) == Place(catalog, v, b)
  {
  }

  /** The builder recurses into a placed value exactly when it reported a real id and a
    * non-synthetic type. */
  lemma PlaceRecurses(catalog: Catalog, v: Native, b: nat)
    requires 0 < b && Place(catalog, v, b).Ok?
    ensures IndexOf(Place(catalog, v, b).value) != UnknownNodeIndex && !IsSyntheticType(PlacedType(catalog, v))
            <==> RecursesInto(catalog, v)
  {
    if v.JSet? {
      LeavesUnrecorded(v.members, |v.members|, b + 1);
    }
  }

  /** A value the builder does not recurse into is built by placing it, with no identity write. */
  lemma PlaceIsEmit(catalog: Catalog, v: Native, b: nat)
    requires 0 < b && Place(catalog, v, b).Ok? && !RecursesInto(catalog, v)
    ensures Built(catalog, v, b) == Place(catalog, v, b) && Place(catalog, v, b).value.recorded == []
  {
    if v.JSet? {
      LeavesUnrecorded(v.members, |v.members|, b + 1);
    }
  }

  /** A parser node the builder recurses into is placed without children, then recorded and
    * filled with its children's emission. */
  lemma PlaceThenFill(catalog: Catalog, v: Native, b: nat)
    requires 0 < b && Place(catalog, v, b).Ok? && RecursesInto(catalog, v)
    ensures var a := StandardAttributes(catalog, v).value;
            var sub := BuiltTo(catalog, v, |Kids(v)|, b + 1);
            && StandardAttributes(catalog, v).Ok?
            && Place(catalog, v, b).value.nodes == [GraphNode(a, [])]
            && Built(catalog, v, b) == if sub.Ok? then Ok(Adopt(v, a, [(v.id, b)], sub.value, b)) else Err(sub.error)
  {
  }
}
