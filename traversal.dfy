/** Depth-first traversal of a graph in directed mode, as `traverse` drives its callbacks: an
  * enter event when a node is first reached, then its successors' traversals in edge order, then
  * a leave event. Also the nodes reachable from a node, and how the two relate on the graphs the
  * builder produces (ids increase along edges and no node has two parents). */
module Traversal {
  import opened Graphs

  /** A labelled step of the traversal: a "forward" edge reaching `node` or a "reverse" edge
    * leaving it. */
  datatype Event = Enter(node: int) | Leave(node: int)

  /** A bound above every node id of a graph, used as the termination measure of the walks. */
  ghost function Bound(order: seq<int>): (r: int)
    ensures 0 <= r && forall x :: x in order ==> x < r
    decreases |order|
  {
    if order == [] then 0
    else
      var m := Bound(order[..|order| - 1]);
      var last := order[|order| - 1];
      assert forall x :: x in order ==> x in order[..|order| - 1] || x == last;
      if m <= last then last + 1 else m
  }

  /** The events of a traversal from node `n`. */
  function Events(g: Graph, n: int): seq<Event>
    requires Forward(g) && n in g.succ
    decreases Bound(g.order) - n, 1
  {
    [Enter(n)] + ChildEvents(g, n, |g.succ[n]|) + [Leave(n)]
  }

  /** The events of the traversals from the first `i` successors of `n`, one after the other. */
  function ChildEvents(g: Graph, n: int, i: nat): seq<Event>
    requires Forward(g) && n in g.succ && i <= |g.succ[n]|
    decreases Bound(g.order) - n, 0, i
  {
    if i == 0 then [] else ChildEvents(g, n, i - 1) + Events(g, g.succ[n][i - 1])
  }

  /** `dfs_preorder_nodes`: the nodes reachable from `n`, each listed when it is first reached. */
  function Preorder(g: Graph, n: int): seq<int>
    requires Forward(g) && n in g.succ
    decreases Bound(g.order) - n, 1
  {
    [n] + ChildPreorder(g, n, |g.succ[n]|)
  }

  function ChildPreorder(g: Graph, n: int, i: nat): seq<int>
    requires Forward(g) && n in g.succ && i <= |g.succ[n]|
    decreases Bound(g.order) - n, 0, i
  {
    if i == 0 then [] else ChildPreorder(g, n, i - 1) + Preorder(g, g.succ[n][i - 1])
  }

  /** The nodes reachable from `n`: `n` and everything reachable from its successors. */
  ghost function Desc(g: Graph, n: int): set<int>
    requires Forward(g) && n in g.succ
    decreases Bound(g.order) - n, 1
  {
    {n} + DescOf(g, n, |g.succ[n]|)
  }

  /** The nodes reachable from the first `i` successors of `n`. */
  ghost function DescOf(g: Graph, n: int, i: nat): set<int>
    requires Forward(g) && n in g.succ && i <= |g.succ[n]|
    decreases Bound(g.order) - n, 0, i
  {
    if i == 0 then {} else DescOf(g, n, i - 1) + Desc(g, g.succ[n][i - 1])
  }

  /** Every node of the graph is reachable from `n`. */
  ghost predicate ReachesAll(g: Graph, n: int) {
    Forward(g) && n in g.succ && forall k :: k in g.succ ==> k in Desc(g, n)
  }

  /** The nodes entered, in order. */
  function Enters(ev: seq<Event>): seq<int> {
    if ev == [] then []
    else Enters(ev[..|ev| - 1]) + (if ev[|ev| - 1].Enter? then [ev[|ev| - 1].node] else [])
  }

  /** `b` occurs in `a` as a contiguous stretch. */
  ghost predicate Within(b: seq<Event>, a: seq<Event>) {
    exists p, q :: a == p + b + q
  }

  /** No element occurs twice. */
  ghost predicate Distinct<T>(s: seq<T>) {
    forall i, j :: 0 <= i < j < |s| ==> s[i] != s[j]
  }

  // ---------------------------------------------------------------------------------------------
  // Reachability

  /** Everything reachable from `n` is a node of the graph with an id no smaller than `n`'s. */
  lemma {:induction false} DescNodes(g: Graph, n: int)
    requires Forward(g) && n in g.succ
    ensures forall y :: y in Desc(g, n) ==> y in g.succ && n <= y
    decreases Bound(g.order) - n, 1
  {
    DescOfNodes(g, n, |g.succ[n]|);
  }

  lemma {:induction false} DescOfNodes(g: Graph, n: int, i: nat)
    requires Forward(g) && n in g.succ && i <= |g.succ[n]|
    ensures forall y :: y in DescOf(g, n, i) ==> y in g.succ && n < y
    decreases Bound(g.order) - n, 0, i
  {
    if i > 0 {
      DescOfNodes(g, n, i - 1);
      DescNodes(g, g.succ[n][i - 1]);
    }
  }

  /** What is reachable from the first `i` successors is what is reachable from one of them. */
  lemma {:induction false} DescOfMember(g: Graph, n: int, i: nat, x: int)
    requires Forward(g) && n in g.succ && i <= |g.succ[n]|
    ensures x in DescOf(g, n, i) <==> exists j :: 0 <= j < i && x in Desc(g, g.succ[n][j])
    decreases i
  {
    if i > 0 {
      DescOfMember(g, n, i - 1, x);
    }
  }

  /** Every node reachable from `n` other than `n` is the successor of a node reachable from `n`. */
  lemma {:induction false} DescParent(g: Graph, n: int, y: int)
    requires Forward(g) && n in g.succ && y in Desc(g, n) && y != n
    ensures exists m, j :: m in Desc(g, n) && m in g.succ && 0 <= j < |g.succ[m]| && g.succ[m][j] == y
    decreases Bound(g.order) - n
  {
    DescOfMember(g, n, |g.succ[n]|, y);
    var j :| 0 <= j < |g.succ[n]| && y in Desc(g, g.succ[n][j]);
    var c := g.succ[n][j];
    if y == c {
      assert n in Desc(g, n);
    } else {
      DescParent(g, c, y);
      var m, k :| m in Desc(g, c) && m in g.succ && 0 <= k < |g.succ[m]| && g.succ[m][k] == y;
      DescOfMember(g, n, |g.succ[n]|, m);
      assert m in Desc(g, n);
    }
  }

  /** Reachability is transitive. */
  lemma {:induction false} DescTransitive(g: Graph, n: int, a: int, x: int)
    requires Forward(g) && n in g.succ && a in Desc(g, n)
    requires a in g.succ && x in Desc(g, a)
    ensures x in Desc(g, n)
    decreases Bound(g.order) - n
  {
    if a != n {
      DescOfMember(g, n, |g.succ[n]|, a);
      var j :| 0 <= j < |g.succ[n]| && a in Desc(g, g.succ[n][j]);
      DescTransitive(g, g.succ[n][j], a, x);
      DescOfMember(g, n, |g.succ[n]|, x);
    }
  }

  /** The nodes reachable from two different successors of a node are disjoint: a node has one
    * parent, and ids grow along edges. */
  lemma {:induction false} SiblingsDisjoint(g: Graph, n: int, i: int, j: int, x: int)
    requires Forward(g) && SingleParent(g) && n in g.succ && 0 <= i < |g.succ[n]| && 0 <= j < |g.succ[n]|
    requires x in Desc(g, g.succ[n][i]) && x in Desc(g, g.succ[n][j])
    ensures i == j
    decreases x - n
  {
    var ci, cj := g.succ[n][i], g.succ[n][j];
    DescNodes(g, ci);
    DescNodes(g, cj);
    if x == ci || x == cj {
      if ci != cj {
        var other := if x == ci then cj else ci;
        DescParent(g, other, x);
        assert false;
      }
    } else {
      DescParent(g, ci, x);
      var m, l :| m in Desc(g, ci) && m in g.succ && 0 <= l < |g.succ[m]| && g.succ[m][l] == x;
      DescParent(g, cj, x);
      var m', l' :| m' in Desc(g, cj) && m' in g.succ && 0 <= l' < |g.succ[m']| && g.succ[m'][l'] == x;
      assert m == m';
      SiblingsDisjoint(g, n, i, j, m);
    }
  }

  /** The nodes reachable from earlier successors are disjoint from those reachable from the next. */
  lemma EarlierSiblingsDisjoint(g: Graph, n: int, i: int, x: int)
    requires Forward(g) && SingleParent(g) && n in g.succ && 0 <= i < |g.succ[n]|
    requires x in Desc(g, g.succ[n][i])
    ensures x !in DescOf(g, n, i)
  {
    DescOfMember(g, n, i, x);
    if x in DescOf(g, n, i) {
      var j :| 0 <= j < i && x in Desc(g, g.succ[n][j]);
      SiblingsDisjoint(g, n, i, j, x);
    }
  }

  // ---------------------------------------------------------------------------------------------
  // The traversal

  /** Every event of a traversal is about a reachable node. */
  lemma {:induction false} EventsNodes(g: Graph, n: int)
    requires Forward(g) && n in g.succ
    ensures forall k :: 0 <= k < |Events(g, n)| ==> Events(g, n)[k].node in Desc(g, n)
    decreases Bound(g.order) - n, 1
  {
    ChildEventsNodes(g, n, |g.succ[n]|);
  }

  lemma {:induction false} ChildEventsNodes(g: Graph, n: int, i: nat)
    requires Forward(g) && n in g.succ && i <= |g.succ[n]|
    ensures forall k :: 0 <= k < |ChildEvents(g, n, i)| ==> ChildEvents(g, n, i)[k].node in DescOf(g, n, i)
    decreases Bound(g.order) - n, 0, i
  {
    if i > 0 {
      ChildEventsNodes(g, n, i - 1);
      EventsNodes(g, g.succ[n][i - 1]);
    }
  }

  /** Two sequences without repeats and without a common element make one without repeats. */
  lemma DistinctAppend<T>(a: seq<T>, b: seq<T>)
    requires Distinct(a) && Distinct(b)
    requires forall i, j :: 0 <= i < |a| && 0 <= j < |b| ==> a[i] != b[j]
    ensures Distinct(a + b)
  {
    forall i, j | 0 <= i < j < |a + b| ensures (a + b)[i] != (a + b)[j] {
      if j < |a| {
        assert (a + b)[i] == a[i] && (a + b)[j] == a[j];
      } else if i < |a| {
        assert (a + b)[i] == a[i] && (a + b)[j] == b[j - |a|];
      } else {
        assert (a + b)[i] == b[i - |a|] && (a + b)[j] == b[j - |a|];
      }
    }
  }

  /** No event of a traversal happens twice. */
  lemma {:induction false} EventsDistinct(g: Graph, n: int)
    requires Forward(g) && SingleParent(g) && n in g.succ
    ensures Distinct(Events(g, n))
    decreases Bound(g.order) - n, 1
  {
    var ce := ChildEvents(g, n, |g.succ[n]|);
    ChildEventsDistinct(g, n, |g.succ[n]|);
    ChildEventsNodes(g, n, |g.succ[n]|);
    DescOfNodes(g, n, |g.succ[n]|);
    DistinctAppend([Enter(n)], ce);
    DistinctAppend([Enter(n)] + ce, [Leave(n)]);
  }

  lemma {:induction false} ChildEventsDistinct(g: Graph, n: int, i: nat)
    requires Forward(g) && SingleParent(g) && n in g.succ && i <= |g.succ[n]|
    ensures Distinct(ChildEvents(g, n, i))
    decreases Bound(g.order) - n, 0, i
  {
    if i > 0 {
      var c := g.succ[n][i - 1];
      var a, b := ChildEvents(g, n, i - 1), Events(g, c);
      ChildEventsDistinct(g, n, i - 1);
      EventsDistinct(g, c);
      ChildEventsNodes(g, n, i - 1);
      EventsNodes(g, c);
      forall k, l | 0 <= k < |a| && 0 <= l < |b| ensures a[k] != b[l] {
        EarlierSiblingsDisjoint(g, n, i - 1, b[l].node);
      }
      DistinctAppend(a, b);
    }
  }

  /** The traversal from a reachable node `x` happens, uninterrupted, inside the traversal from
    * `n`: `x` is entered before and left after every event of the nodes reachable from it. */
  lemma {:induction false} EventsNest(g: Graph, n: int, x: int)
    requires Forward(g) && n in g.succ && x in Desc(g, n)
    ensures x in g.succ && Within(Events(g, x), Events(g, n))
    decreases Bound(g.order) - n
  {
    DescNodes(g, n);
    if x == n {
      assert Events(g, n) == [] + Events(g, n) + [];
    } else {
      DescOfMember(g, n, |g.succ[n]|, x);
      var j :| 0 <= j < |g.succ[n]| && x in Desc(g, g.succ[n][j]);
      var c := g.succ[n][j];
      var ce := ChildEvents(g, n, |g.succ[n]|);
      EventsNest(g, c, x);
      ChildEventsWithin(g, n, |g.succ[n]|, j);
      WithinTransitive(Events(g, x), Events(g, c), ce);
      assert Events(g, n) == [Enter(n)] + ce + [Leave(n)];
      WithinTransitive(Events(g, x), ce, Events(g, n));
    }
  }

  /** Occurring as a stretch is transitive. */
  lemma WithinTransitive(c: seq<Event>, b: seq<Event>, a: seq<Event>)
    requires Within(c, b) && Within(b, a)
    ensures Within(c, a)
  {
    var p, q :| b == p + c + q;
    var p', q' :| a == p' + b + q';
    assert a == (p' + p) + c + (q + q');
  }

  /** The traversal from the `j`-th successor occurs inside the traversals of the first `i`. */
  lemma {:induction false} ChildEventsWithin(g: Graph, n: int, i: nat, j: nat)
    requires Forward(g) && n in g.succ && j < i <= |g.succ[n]|
    ensures Within(Events(g, g.succ[n][j]), ChildEvents(g, n, i))
    decreases i
  {
    var e := Events(g, g.succ[n][j]);
    if i == j + 1 {
      assert ChildEvents(g, n, i) == ChildEvents(g, n, j) + e + [];
    } else {
      ChildEventsWithin(g, n, i - 1, j);
      var p, q :| ChildEvents(g, n, i - 1) == p + e + q;
      assert ChildEvents(g, n, i) == p + e + (q + Events(g, g.succ[n][i - 1]));
    }
  }

  /** `traverse` reaches every node reachable from its source exactly once: one enter and one leave
    * event per reachable node, no other events, no event twice, and the traversal from each
    * reachable node nested inside, from its enter to its leave. */
  lemma TraversalVisitsOnce(g: Graph, n: int)
    requires WellFormed(g) && n in g.succ
    ensures var ev := Events(g, n);
            && Distinct(ev)
            && (forall k :: 0 <= k < |ev| ==> ev[k].node in Desc(g, n))
            && (forall x :: x in Desc(g, n) ==> Enter(x) in ev && Leave(x) in ev)
            && (forall x :: x in Desc(g, n) ==> x in g.succ && Within(Events(g, x), ev))
  {
    EventsDistinct(g, n);
    EventsNodes(g, n);
    forall x | x in Desc(g, n)
      ensures x in g.succ && Within(Events(g, x), Events(g, n))
      ensures Enter(x) in Events(g, n) && Leave(x) in Events(g, n)
    {
      EventsNest(g, n, x);
      var p, q :| Events(g, n) == p + Events(g, x) + q;
      assert Events(g, n)[|p|] == Enter(x);
      assert Events(g, n)[|p| + |Events(g, x)| - 1] == Leave(x);
    }
  }

  /** The nodes entered in a sequence of events, piece by piece. */
  lemma {:induction false} EntersAppend(a: seq<Event>, b: seq<Event>)
    ensures Enters(a + b) == Enters(a) + Enters(b)
    decreases |b|
  {
    if b != [] {
      var b0, t := b[..|b| - 1], if b[|b| - 1].Enter? then [b[|b| - 1].node] else [];
      assert (a + b)[..|a + b| - 1] == a + b0;
      assert (a + b)[|a + b| - 1] == b[|b| - 1];
      calc {
        Enters(a + b);
        Enters(a + b0) + t;
        { EntersAppend(a, b0); }
        Enters(a) + Enters(b0) + t;
        Enters(a) + Enters(b);
      }
    } else {
      assert a + b == a;
    }
  }

  /** `dfs_preorder_nodes` lists the nodes in the order the traversal enters them. */
  lemma {:induction false} PreorderEnters(g: Graph, n: int)
    requires Forward(g) && n in g.succ
    ensures Preorder(g, n) == Enters(Events(g, n))
    decreases Bound(g.order) - n, 1
  {
    var ce := ChildEvents(g, n, |g.succ[n]|);
    ChildPreorderEnters(g, n, |g.succ[n]|);
    EntersAppend([Enter(n)] + ce, [Leave(n)]);
    EntersAppend([Enter(n)], ce);
    assert Enters([Enter(n)]) == [n] by {
      assert [Enter(n)][..0] == [];
    }
    assert Enters([Leave(n)]) == [] by {
      assert [Leave(n)][..0] == [];
    }
  }

  lemma {:induction false} ChildPreorderEnters(g: Graph, n: int, i: nat)
    requires Forward(g) && n in g.succ && i <= |g.succ[n]|
    ensures ChildPreorder(g, n, i) == Enters(ChildEvents(g, n, i))
    decreases Bound(g.order) - n, 0, i
  {
    if i > 0 {
      var c := g.succ[n][i - 1];
      var a, b := ChildEvents(g, n, i - 1), Events(g, c);
      assert ChildEvents(g, n, i) == a + b;
      assert ChildPreorder(g, n, i) == ChildPreorder(g, n, i - 1) + Preorder(g, c);
      ChildPreorderEnters(g, n, i - 1);
      PreorderEnters(g, c);
      EntersAppend(a, b);
    }
  }

  /** The nodes `dfs_preorder_nodes` lists are exactly the reachable ones. */
  lemma PreorderIsDesc(g: Graph, n: int)
    requires WellFormed(g) && n in g.succ
    ensures forall x :: x in Preorder(g, n) <==> x in Desc(g, n)
  {
    PreorderEnters(g, n);
    TraversalVisitsOnce(g, n);
    forall x ensures x in Preorder(g, n) <==> x in Desc(g, n) {
      EntersMember(Events(g, n), x);
    }
  }

  /** A node is entered in a sequence of events exactly when its enter event is there. */
  lemma {:induction false} EntersMember(ev: seq<Event>, x: int)
    ensures x in Enters(ev) <==> Enter(x) in ev
    decreases |ev|
  {
    if ev != [] {
      EntersMember(ev[..|ev| - 1], x);
      assert ev == ev[..|ev| - 1] + [ev[|ev| - 1]];
    }
  }
}
