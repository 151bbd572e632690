/** The three node searches of the query engine, stated over the tree: ALL (every matching node in
  * graph order), TOP_LEVEL (the outermost matches, in the order they are entered) and BOTTOM_LEVEL
  * (the innermost matches, in the order they are left); the callbacks the engine runs during a
  * traversal, replayed as folds over the traversal's events; and the proofs that the replays
  * compute the searches. */
module NodeSearch {
  import opened Wrappers
  import opened NodeTypes
  import opened Graphs
  import opened Traversal

  /** `node.node_type in node_types`. */
  predicate InTypes(g: Graph, types: seq<NodeType>, x: int) {
    x in g.attrs && "node_type" in g.attrs[x] && g.attrs[x]["node_type"].Type? && g.attrs[x]["node_type"].t in types
  }

  /** `not node_types or node.node_type in node_types`: no types asked for matches every node. */
  predicate Matches(g: Graph, types: seq<NodeType>, x: int) {
    |types| == 0 || InTypes(g, types, x)
  }

  /** Strictly increasing, as the ids of a graph the builder produced are in its node order. */
  predicate Increasing(xs: seq<int>) {
    forall i, j :: 0 <= i < j < |xs| ==> xs[i] < xs[j]
  }

  /** `r` is `xs` with some elements left out, the others kept in their order. */
  predicate SubsequenceOf(r: seq<int>, xs: seq<int>)
    decreases |xs|
  {
    if xs == [] then r == []
    else
      || (r != [] && r[|r| - 1] == xs[|xs| - 1] && SubsequenceOf(r[..|r| - 1], xs[..|xs| - 1]))
      || SubsequenceOf(r, xs[..|xs| - 1])
  }

  // ---------------------------------------------------------------------------------------------
  // ALL

  /** `_find_nodes`: the matching nodes, in graph node order. */
  function FindAll(g: Graph, types: seq<NodeType>): (r: seq<int>)
    ensures forall x :: x in r <==> x in g.order && Matches(g, types, x)
    ensures |r| <= |g.order|
    ensures SubsequenceOf(r, g.order)
    ensures Increasing(g.order) ==> Increasing(r)
  {
    KeepMatchingOrder(g, types, g.order);
    KeepMatching(g, types, g.order)
  }

  /** The members of `xs` that match, in their order in `xs`. */
  function KeepMatching(g: Graph, types: seq<NodeType>, xs: seq<int>): (r: seq<int>)
    ensures forall x :: x in r <==> x in xs && Matches(g, types, x)
    ensures |r| <= |xs|
    ensures Increasing(xs) ==> Increasing(r)
    decreases |xs|
  {
    if xs == [] then []
    else
      var front := xs[..|xs| - 1];
      var last := xs[|xs| - 1];
      assert forall x :: x in xs <==> x in front || x == last;
      assert Increasing(xs) ==> Increasing(front) && forall x :: x in front ==> x < last;
      var kept := KeepMatching(g, types, front);
      assert forall i :: 0 <= i < |kept| ==> kept[i] in front;
      kept + (if Matches(g, types, last) then [last] else [])
  }

  /** The matching members are kept in their order. */
  lemma {:induction false} KeepMatchingOrder(g: Graph, types: seq<NodeType>, xs: seq<int>)
    ensures SubsequenceOf(KeepMatching(g, types, xs), xs)
    decreases |xs|
  {
    if xs != [] {
      var front := xs[..|xs| - 1];
      KeepMatchingOrder(g, types, front);
      var kept := KeepMatching(g, types, front);
      var r := KeepMatching(g, types, xs);
      if Matches(g, types, xs[|xs| - 1]) {
        assert r == kept + [xs[|xs| - 1]] && r[..|r| - 1] == kept;
      } else {
        assert r == kept;
      }
    }
  }

  // ---------------------------------------------------------------------------------------------
  // The searches, stated over the tree below a node

  /** TOP_LEVEL below `n`: `n` if it matches, otherwise the top-level matches below each successor
    * in turn. */
  ghost function TopSpec(g: Graph, types: seq<NodeType>, n: int): seq<int>
    requires Forward(g) && n in g.succ
    decreases Bound(g.order) - n, 1
  {
    if Matches(g, types, n) then [n] else TopOf(g, types, n, |g.succ[n]|)
  }

  ghost function TopOf(g: Graph, types: seq<NodeType>, n: int, i: nat): seq<int>
    requires Forward(g) && n in g.succ && i <= |g.succ[n]|
    decreases Bound(g.order) - n, 0, i
  {
    if i == 0 then [] else TopOf(g, types, n, i - 1) + TopSpec(g, types, g.succ[n][i - 1])
  }

  /** Some node reachable from `n` matches. */
  ghost predicate AnyMatch(g: Graph, types: seq<NodeType>, n: int)
    requires Forward(g) && n in g.succ
    decreases Bound(g.order) - n, 1
  {
    Matches(g, types, n) || AnyMatchOf(g, types, n, |g.succ[n]|)
  }

  ghost predicate AnyMatchOf(g: Graph, types: seq<NodeType>, n: int, i: nat)
    requires Forward(g) && n in g.succ && i <= |g.succ[n]|
    decreases Bound(g.order) - n, 0, i
  {
    i > 0 && (AnyMatchOf(g, types, n, i - 1) || AnyMatch(g, types, g.succ[n][i - 1]))
  }

  /** BOTTOM_LEVEL below `n`: the bottom-level matches below each successor in turn, then `n` if it
    * matches and nothing below it does. */
  ghost function BottomSpec(g: Graph, types: seq<NodeType>, n: int): seq<int>
    requires Forward(g) && n in g.succ
    decreases Bound(g.order) - n, 1
  {
    BottomOf(g, types, n, |g.succ[n]|) +
    (if Matches(g, types, n) && !AnyMatchOf(g, types, n, |g.succ[n]|) then [n] else [])
  }

  ghost function BottomOf(g: Graph, types: seq<NodeType>, n: int, i: nat): seq<int>
    requires Forward(g) && n in g.succ && i <= |g.succ[n]|
    decreases Bound(g.order) - n, 0, i
  {
    if i == 0 then [] else BottomOf(g, types, n, i - 1) + BottomSpec(g, types, g.succ[n][i - 1])
  }

  /** No node above `x` on the way from `n` matches. */
  ghost predicate NoMatchAbove(g: Graph, types: seq<NodeType>, n: int, x: int)
    requires Forward(g) && n in g.succ
  {
    forall a :: a in Desc(g, n) && a in g.succ && a != x && x in Desc(g, a) ==> !Matches(g, types, a)
  }

  /** Some node below `x` matches. */
  ghost predicate MatchBelow(g: Graph, types: seq<NodeType>, x: int)
    requires Forward(g) && x in g.succ
  {
    exists y :: y in Desc(g, x) && y != x && Matches(g, types, y)
  }

  // ---------------------------------------------------------------------------------------------
  // What the searches find

  /** The TOP_LEVEL search finds exactly the matching nodes reachable from `n` with no matching node
    * above them. */
  lemma TopLevelFinds(g: Graph, types: seq<NodeType>, n: int)
    requires WellFormed(g) && n in g.succ
    ensures forall x :: x in TopSpec(g, types, n) <==>
              x in Desc(g, n) && Matches(g, types, x) && NoMatchAbove(g, types, n, x)
  {
    forall x ensures x in TopSpec(g, types, n) <==>
                       x in Desc(g, n) && Matches(g, types, x) && NoMatchAbove(g, types, n, x) {
      TopMember(g, types, n, x);
    }
  }

  lemma {:induction false} TopMember(g: Graph, types: seq<NodeType>, n: int, x: int)
    requires Forward(g) && SingleParent(g) && n in g.succ
    ensures x in TopSpec(g, types, n) <==> x in Desc(g, n) && Matches(g, types, x) && NoMatchAbove(g, types, n, x)
    decreases Bound(g.order) - n
  {
    DescNodes(g, n);
    if Matches(g, types, n) {
      if x == n {
        NothingAbove(g, n);
      } else if x in Desc(g, n) && Matches(g, types, x) {
        assert !NoMatchAbove(g, types, n, x) by {
          assert n in Desc(g, n) && n in g.succ && n != x && x in Desc(g, n);
        }
      }
    } else {
      TopOfMember(g, types, n, |g.succ[n]|, x);
      DescOfMember(g, n, |g.succ[n]|, x);
      if x in TopSpec(g, types, n) {
        var j :| 0 <= j < |g.succ[n]| && x in TopSpec(g, types, g.succ[n][j]);
        TopMemberBelow(g, types, n, j, x);
      } else if x in Desc(g, n) && Matches(g, types, x) && NoMatchAbove(g, types, n, x) {
        var j :| 0 <= j < |g.succ[n]| && x in Desc(g, g.succ[n][j]);
        var c := g.succ[n][j];
        forall a | a in Desc(g, c) && a in g.succ && a != x && x in Desc(g, a) ensures !Matches(g, types, a) {
          DescOfMember(g, n, |g.succ[n]|, a);
        }
        TopMember(g, types, c, x);
      }
    }
  }

  /** Nothing reachable from `n` other than `n` reaches `n`. */
  lemma NothingAbove(g: Graph, n: int)
    requires Forward(g) && n in g.succ
    ensures forall a :: a in Desc(g, n) && a in g.succ && n in Desc(g, a) ==> a == n
  {
    DescNodes(g, n);
    forall a | a in Desc(g, n) && a in g.succ && n in Desc(g, a) ensures a == n {
      DescNodes(g, a);
    }
  }

  /** A top-level match below successor `j` of a node that does not match is a top-level match
    * below the node. */
  lemma {:induction false} TopMemberBelow(g: Graph, types: seq<NodeType>, n: int, j: int, x: int)
    requires Forward(g) && SingleParent(g) && n in g.succ && !Matches(g, types, n) && 0 <= j < |g.succ[n]|
    requires x in TopSpec(g, types, g.succ[n][j])
    ensures x in Desc(g, n) && Matches(g, types, x) && NoMatchAbove(g, types, n, x)
    decreases Bound(g.order) - n, 0
  {
    var c := g.succ[n][j];
    TopMember(g, types, c, x);
    DescOfMember(g, n, |g.succ[n]|, x);
    forall a | a in Desc(g, n) && a in g.succ && a != x && x in Desc(g, a) ensures !Matches(g, types, a) {
      if a != n {
        DescOfMember(g, n, |g.succ[n]|, a);
        var k :| 0 <= k < |g.succ[n]| && a in Desc(g, g.succ[n][k]);
        DescTransitive(g, g.succ[n][k], a, x);
        SiblingsDisjoint(g, n, j, k, x);
      }
    }
  }

  lemma {:induction false} TopOfMember(g: Graph, types: seq<NodeType>, n: int, i: nat, x: int)
    requires Forward(g) && n in g.succ && i <= |g.succ[n]|
    ensures x in TopOf(g, types, n, i) <==> exists j :: 0 <= j < i && x in TopSpec(g, types, g.succ[n][j])
    decreases i
  {
    if i > 0 {
      TopOfMember(g, types, n, i - 1, x);
    }
  }

  /** Some node reachable from `n` matches exactly when `AnyMatch` says so. */
  lemma {:induction false} AnyMatchFinds(g: Graph, types: seq<NodeType>, n: int)
    requires Forward(g) && n in g.succ
    ensures AnyMatch(g, types, n) <==> exists y :: y in Desc(g, n) && Matches(g, types, y)
    decreases Bound(g.order) - n, 1
  {
    AnyMatchOfFinds(g, types, n, |g.succ[n]|);
  }

  lemma {:induction false} AnyMatchOfFinds(g: Graph, types: seq<NodeType>, n: int, i: nat)
    requires Forward(g) && n in g.succ && i <= |g.succ[n]|
    ensures AnyMatchOf(g, types, n, i) <==> exists y :: y in DescOf(g, n, i) && Matches(g, types, y)
    decreases Bound(g.order) - n, 0, i
  {
    if i > 0 {
      AnyMatchOfFinds(g, types, n, i - 1);
      AnyMatchFinds(g, types, g.succ[n][i - 1]);
    }
  }

  /** Below a node means reachable from one of its successors. */
  lemma MatchBelowKids(g: Graph, types: seq<NodeType>, n: int)
    requires Forward(g) && n in g.succ
    ensures MatchBelow(g, types, n) <==> AnyMatchOf(g, types, n, |g.succ[n]|)
  {
    AnyMatchOfFinds(g, types, n, |g.succ[n]|);
    DescOfNodes(g, n, |g.succ[n]|);
  }

  /** The BOTTOM_LEVEL search finds exactly the matching nodes reachable from `n` with no matching
    * node below them. */
  lemma BottomLevelFinds(g: Graph, types: seq<NodeType>, n: int)
    requires WellFormed(g) && n in g.succ
    ensures forall x :: x in BottomSpec(g, types, n) <==>
              x in Desc(g, n) && x in g.succ && Matches(g, types, x) && !MatchBelow(g, types, x)
  {
    forall x ensures x in BottomSpec(g, types, n) <==>
                       x in Desc(g, n) && x in g.succ && Matches(g, types, x) && !MatchBelow(g, types, x) {
      BottomMember(g, types, n, x);
    }
  }

  lemma {:induction false} BottomMember(g: Graph, types: seq<NodeType>, n: int, x: int)
    requires Forward(g) && SingleParent(g) && n in g.succ
    ensures x in BottomSpec(g, types, n) <==>
            x in Desc(g, n) && x in g.succ && Matches(g, types, x) && !MatchBelow(g, types, x)
    decreases Bound(g.order) - n
  {
    DescNodes(g, n);
    DescOfNodes(g, n, |g.succ[n]|);
    BottomOfMember(g, types, n, |g.succ[n]|, x);
    DescOfMember(g, n, |g.succ[n]|, x);
    if x == n {
      MatchBelowKids(g, types, n);
      if x in BottomOf(g, types, n, |g.succ[n]|) {
        var j :| 0 <= j < |g.succ[n]| && x in BottomSpec(g, types, g.succ[n][j]);
        BottomMember(g, types, g.succ[n][j], x);
      }
    } else {
      if x in BottomOf(g, types, n, |g.succ[n]|) {
        var j :| 0 <= j < |g.succ[n]| && x in BottomSpec(g, types, g.succ[n][j]);
        BottomMember(g, types, g.succ[n][j], x);
      } else if x in Desc(g, n) {
        var j :| 0 <= j < |g.succ[n]| && x in Desc(g, g.succ[n][j]);
        BottomMember(g, types, g.succ[n][j], x);
      }
    }
  }

  lemma {:induction false} BottomOfMember(g: Graph, types: seq<NodeType>, n: int, i: nat, x: int)
    requires Forward(g) && n in g.succ && i <= |g.succ[n]|
    ensures x in BottomOf(g, types, n, i) <==> exists j :: 0 <= j < i && x in BottomSpec(g, types, g.succ[n][j])
    decreases i
  {
    if i > 0 {
      BottomOfMember(g, types, n, i - 1, x);
    }
  }

  /** With no types asked for, every node matches and BOTTOM_LEVEL finds the leaves. */
  lemma BottomLevelLeaves(g: Graph, types: seq<NodeType>, n: int)
    requires WellFormed(g) && n in g.succ && |types| == 0
    ensures forall x :: x in BottomSpec(g, types, n) <==> x in Desc(g, n) && x in g.succ && |g.succ[x]| == 0
  {
    BottomLevelFinds(g, types, n);
    DescNodes(g, n);
    forall x | x in Desc(g, n)
      ensures x in g.succ && (MatchBelow(g, types, x) <==> |g.succ[x]| > 0)
    {
      DescOfNodes(g, x, |g.succ[x]|);
      if |g.succ[x]| > 0 {
        DescOfMember(g, x, |g.succ[x]|, g.succ[x][0]);
        DescNodes(g, g.succ[x][0]);
        assert g.succ[x][0] in Desc(g, x);
      }
    }
  }

  // ---------------------------------------------------------------------------------------------
  // The callbacks, as folds over the traversal's events

  /** The state of `_find_top_level_nodes`'s callbacks: the outermost match being traversed, if
    * any, and the nodes found so far. */
  datatype TopState = TopState(current: Option<int>, nodes: seq<int>)

  /** `on_node_entering` and `on_node_leaving` of `_find_top_level_nodes`. */
  function TopStep(g: Graph, types: seq<NodeType>, s: TopState, e: Event): TopState {
    match e
    case Enter(x) => if s.current.None? && InTypes(g, types, x) then TopState(Some(x), s.nodes + [x]) else s
    case Leave(x) => if s.current.Some? && s.current.value == x then TopState(None, s.nodes) else s
  }

  /** The callbacks run on each event in turn. */
  function TopReplay(g: Graph, types: seq<NodeType>, s: TopState, ev: seq<Event>): TopState
    decreases |ev|
  {
    if ev == [] then s else TopStep(g, types, TopReplay(g, types, s, ev[..|ev| - 1]), ev[|ev| - 1])
  }

  lemma {:induction false} TopReplayAppend(g: Graph, types: seq<NodeType>, s: TopState, a: seq<Event>, b: seq<Event>)
    ensures TopReplay(g, types, s, a + b) == TopReplay(g, types, TopReplay(g, types, s, a), b)
    decreases |b|
  {
    if b == [] {
      assert a + b == a;
    } else {
      assert (a + b)[..|a + b| - 1] == a + b[..|b| - 1];
      assert (a + b)[|a + b| - 1] == b[|b| - 1];
      TopReplayAppend(g, types, s, a, b[..|b| - 1]);
    }
  }

  /** Replayed over the traversal from `n` with no match being traversed, the callbacks append the
    * TOP_LEVEL matches below `n` (when some type is asked for). */
  lemma {:induction false} TopReplayFinds(g: Graph, types: seq<NodeType>, n: int, acc: seq<int>)
    requires Forward(g) && n in g.succ && |types| > 0
    ensures TopReplay(g, types, TopState(None, acc), Events(g, n)) == TopState(None, acc + TopSpec(g, types, n))
    decreases Bound(g.order) - n, 1
  {
    var ce := ChildEvents(g, n, |g.succ[n]|);
    var s0 := TopState(None, acc);
    TopReplayAppend(g, types, s0, [Enter(n)] + ce, [Leave(n)]);
    TopReplayAppend(g, types, s0, [Enter(n)], ce);
    assert TopReplay(g, types, s0, [Enter(n)]) == TopStep(g, types, s0, Enter(n)) by {
      assert [Enter(n)][..0] == [];
    }
    var s1 := TopStep(g, types, s0, Enter(n));
    if Matches(g, types, n) {
      DescOfNodes(g, n, |g.succ[n]|);
      TopReplayKidsSkip(g, types, n, |g.succ[n]|, n, acc + [n]);
    } else {
      TopReplayKidsFind(g, types, n, |g.succ[n]|, acc);
    }
    assert TopReplay(g, types, TopReplay(g, types, s1, ce), [Leave(n)]) ==
           TopStep(g, types, TopReplay(g, types, s1, ce), Leave(n)) by {
      assert [Leave(n)][..0] == [];
    }
  }

  lemma {:induction false} TopReplayKidsFind(g: Graph, types: seq<NodeType>, n: int, i: nat, acc: seq<int>)
    requires Forward(g) && n in g.succ && i <= |g.succ[n]| && |types| > 0
    ensures TopReplay(g, types, TopState(None, acc), ChildEvents(g, n, i)) == TopState(None, acc + TopOf(g, types, n, i))
    decreases Bound(g.order) - n, 0, i
  {
    if i > 0 {
      var c := g.succ[n][i - 1];
      var a, b := ChildEvents(g, n, i - 1), Events(g, c);
      var found := TopOf(g, types, n, i - 1);
      assert ChildEvents(g, n, i) == a + b;
      assert TopOf(g, types, n, i) == found + TopSpec(g, types, c);
      TopReplayAppend(g, types, TopState(None, acc), a, b);
      TopReplayKidsFind(g, types, n, i - 1, acc);
      TopReplayFinds(g, types, c, acc + found);
      assert acc + found + TopSpec(g, types, c) == acc + (found + TopSpec(g, types, c));
    }
  }

  /** While a match `m` is being traversed, the events of nodes not below it change nothing. */
  lemma {:induction false} TopReplaySkips(g: Graph, types: seq<NodeType>, n: int, m: int, acc: seq<int>)
    requires Forward(g) && n in g.succ && m !in Desc(g, n)
    ensures TopReplay(g, types, TopState(Some(m), acc), Events(g, n)) == TopState(Some(m), acc)
    decreases Bound(g.order) - n, 1
  {
    var ce := ChildEvents(g, n, |g.succ[n]|);
    var s0 := TopState(Some(m), acc);
    TopReplayAppend(g, types, s0, [Enter(n)] + ce, [Leave(n)]);
    TopReplayAppend(g, types, s0, [Enter(n)], ce);
    assert [Enter(n)][..0] == [] && [Leave(n)][..0] == [];
    TopReplayKidsSkip(g, types, n, |g.succ[n]|, m, acc);
  }

  lemma {:induction false} TopReplayKidsSkip(g: Graph, types: seq<NodeType>, n: int, i: nat, m: int, acc: seq<int>)
    requires Forward(g) && n in g.succ && i <= |g.succ[n]| && m !in DescOf(g, n, i)
    ensures TopReplay(g, types, TopState(Some(m), acc), ChildEvents(g, n, i)) == TopState(Some(m), acc)
    decreases Bound(g.order) - n, 0, i
  {
    if i > 0 {
      var c := g.succ[n][i - 1];
      TopReplayAppend(g, types, TopState(Some(m), acc), ChildEvents(g, n, i - 1), Events(g, c));
      TopReplayKidsSkip(g, types, n, i - 1, m, acc);
      TopReplaySkips(g, types, c, m, acc);
    }
  }

  /** The error `pop` raises on an empty list. */
  datatype SearchError = PopFromEmptyList

  /** The state of `_find_bottom_level_nodes`'s callbacks: the matches being traversed, innermost
    * last; the nodes known to have a match below them; and the nodes found so far. */
  datatype BottomState = BottomState(stack: seq<int>, notBottom: set<int>, nodes: seq<int>)

  /** `on_node_entering` and `on_node_leaving` of `_find_bottom_level_nodes`. */
  function BottomStep(g: Graph, types: seq<NodeType>, s: BottomState, e: Event): Result<BottomState, SearchError> {
    match e
    case Enter(x) =>
      Ok(if Matches(g, types, x) then s.(stack := s.stack + [x]) else s)
    case Leave(x) =>
      if !Matches(g, types, x) then Ok(s)
      else
        var nodes := if x !in s.notBottom then s.nodes + [x] else s.nodes;
        if s.stack == [] then Err(PopFromEmptyList)
        else
          var rest := s.stack[..|s.stack| - 1];
          Ok(BottomState(rest, s.notBottom + (set y | y in rest), nodes))
  }

  function BottomReplay(g: Graph, types: seq<NodeType>, s: BottomState, ev: seq<Event>): Result<BottomState, SearchError>
    decreases |ev|
  {
    if ev == [] then Ok(s)
    else
      var before :- BottomReplay(g, types, s, ev[..|ev| - 1]);
      BottomStep(g, types, before, ev[|ev| - 1])
  }

  lemma {:induction false} BottomReplayAppend(g: Graph, types: seq<NodeType>, s: BottomState, a: seq<Event>, b: seq<Event>)
    requires BottomReplay(g, types, s, a).Ok?
    ensures BottomReplay(g, types, s, a + b) == BottomReplay(g, types, BottomReplay(g, types, s, a).value, b)
    decreases |b|
  {
    if b == [] {
      assert a + b == a;
    } else {
      assert (a + b)[..|a + b| - 1] == a + b[..|b| - 1];
      assert (a + b)[|a + b| - 1] == b[|b| - 1];
      BottomReplayAppend(g, types, s, a, b[..|b| - 1]);
    }
  }

  /** The callbacks replayed over one event. */
  /** Once a callback fails, the rest of the traversal cannot undo it. */
  lemma {:induction false} BottomReplayErrs(g: Graph, types: seq<NodeType>, s: BottomState, a: seq<Event>, b: seq<Event>)
    requires BottomReplay(g, types, s, a).Err?
    ensures BottomReplay(g, types, s, a + b) == BottomReplay(g, types, s, a)
    decreases |b|
  {
    if b == [] {
      assert a + b == a;
    } else {
      assert (a + b)[..|a + b| - 1] == a + b[..|b| - 1];
      BottomReplayErrs(g, types, s, a, b[..|b| - 1]);
    }
  }

  lemma BottomReplayOne(g: Graph, types: seq<NodeType>, s: BottomState, e: Event)
    ensures BottomReplay(g, types, s, [e]) == BottomStep(g, types, s, e)
  {
    assert [e][..0] == [];
  }

  /** What replaying the traversal from `n` does, when nothing below `n` is on the stack or known to
    * have a match below it: the stack is as before, the BOTTOM_LEVEL matches below `n` are appended,
    * and every node on the stack is now known to have a match below it exactly when something
    * reachable from `n` matches. */
  ghost predicate BottomDone(g: Graph, types: seq<NodeType>, s: BottomState, r: Result<BottomState, SearchError>,
                             below: set<int>, found: seq<int>, any: bool)
  {
    && r.Ok? && r.value.stack == s.stack && r.value.nodes == s.nodes + found
    && s.notBottom <= r.value.notBottom
    && (forall y :: y in r.value.notBottom ==> y in s.notBottom || y in s.stack || y in below)
    && (forall y :: y in s.stack ==> (y in r.value.notBottom <==> y in s.notBottom || any))
  }

  lemma {:induction false} BottomReplayFinds(g: Graph, types: seq<NodeType>, n: int, s: BottomState)
    requires Forward(g) && SingleParent(g) && n in g.succ
    requires forall y :: y in s.stack ==> y !in Desc(g, n)
    requires forall y :: y in s.notBottom ==> y !in Desc(g, n)
    ensures BottomDone(g, types, s, BottomReplay(g, types, s, Events(g, n)), Desc(g, n), BottomSpec(g, types, n),
                       AnyMatch(g, types, n))
    decreases Bound(g.order) - n, 1
  {
    var k := |g.succ[n]|;
    var ce := ChildEvents(g, n, k);
    DescOfNodes(g, n, k);
    BottomReplayOne(g, types, s, Enter(n));
    var s1 := BottomStep(g, types, s, Enter(n)).value;
    BottomReplayAppend(g, types, s, [Enter(n)], ce);
    BottomReplayKids(g, types, n, k, s1);
    var s2 := BottomReplay(g, types, s1, ce).value;
    assert n in Desc(g, n);
    BottomReplayAppend(g, types, s, [Enter(n)] + ce, [Leave(n)]);
    BottomReplayOne(g, types, s2, Leave(n));
    BottomClose(g, types, n, s, s2, DescOf(g, n, k), BottomOf(g, types, n, k), AnyMatchOf(g, types, n, k));
  }

  /** Leaving `n` after the traversals of its successors did what `BottomDone` says. */
  lemma BottomClose(g: Graph, types: seq<NodeType>, n: int, s: BottomState, s2: BottomState,
                    below: set<int>, found: seq<int>, any: bool)
    requires n !in below && n !in s.notBottom && n !in s.stack
    requires BottomDone(g, types, BottomStep(g, types, s, Enter(n)).value, Ok(s2), below, found, any)
    ensures BottomDone(g, types, s, BottomStep(g, types, s2, Leave(n)), {n} + below,
                       found + (if Matches(g, types, n) && !any then [n] else []), Matches(g, types, n) || any)
  {
    if Matches(g, types, n) {
      assert n in s2.stack;
      assert s2.stack[..|s2.stack| - 1] == s.stack;
    }
  }

  lemma {:induction false} BottomReplayKids(g: Graph, types: seq<NodeType>, n: int, i: nat, s: BottomState)
    requires Forward(g) && SingleParent(g) && n in g.succ && i <= |g.succ[n]|
    requires forall y :: y in s.stack ==> y !in DescOf(g, n, i)
    requires forall y :: y in s.notBottom ==> y !in DescOf(g, n, i)
    ensures BottomDone(g, types, s, BottomReplay(g, types, s, ChildEvents(g, n, i)), DescOf(g, n, i),
                       BottomOf(g, types, n, i), AnyMatchOf(g, types, n, i))
    decreases Bound(g.order) - n, 0, i
  {
    if i == 0 {
      assert s.nodes + [] == s.nodes;
    } else {
      var c := g.succ[n][i - 1];
      BottomReplayKids(g, types, n, i - 1, s);
      var s1 := BottomReplay(g, types, s, ChildEvents(g, n, i - 1)).value;
      forall y | y in s1.stack || y in s1.notBottom ensures y !in Desc(g, c) {
        if y in Desc(g, c) {
          EarlierSiblingsDisjoint(g, n, i - 1, y);
        }
      }
      var a, b := ChildEvents(g, n, i - 1), Events(g, c);
      assert ChildEvents(g, n, i) == a + b;
      BottomReplayFinds(g, types, c, s1);
      BottomReplayAppend(g, types, s, a, b);
      BottomChain(g, types, s, s1, BottomReplay(g, types, s1, b), DescOf(g, n, i - 1), Desc(g, c),
                  BottomOf(g, types, n, i - 1), BottomSpec(g, types, c),
                  AnyMatchOf(g, types, n, i - 1), AnyMatch(g, types, c));
    }
  }

  /** Two replays, one after the other, each doing what `BottomDone` says. */
  lemma BottomChain(g: Graph, types: seq<NodeType>, s: BottomState, s1: BottomState, r: Result<BottomState, SearchError>,
                    below1: set<int>, below2: set<int>, found1: seq<int>, found2: seq<int>, any1: bool, any2: bool)
    requires BottomDone(g, types, s, Ok(s1), below1, found1, any1)
    requires BottomDone(g, types, s1, r, below2, found2, any2)
    ensures BottomDone(g, types, s, r, below1 + below2, found1 + found2, any1 || any2)
  {
    assert s.nodes + found1 + found2 == s.nodes + (found1 + found2);
  }

  /** `_find_top_level_nodes` with some type asked for: replayed over the traversal from the root,
    * the callbacks find the TOP_LEVEL matches. */
  lemma TopLevelReplay(g: Graph, types: seq<NodeType>, root: int)
    requires WellFormed(g) && root in g.succ && |types| > 0
    ensures TopReplay(g, types, TopState(None, []), Events(g, root)).nodes == TopSpec(g, types, root)
  {
    TopReplayFinds(g, types, root, []);
  }

  /** `_find_bottom_level_nodes`: replayed over the traversal from the root, the callbacks never pop
    * an empty stack and find the BOTTOM_LEVEL matches. */
  lemma BottomLevelReplay(g: Graph, types: seq<NodeType>, root: int)
    requires WellFormed(g) && root in g.succ
    ensures var r := BottomReplay(g, types, BottomState([], {}, []), Events(g, root));
            r.Ok? && r.value.nodes == BottomSpec(g, types, root)
  {
    BottomReplayFinds(g, types, root, BottomState([], {}, []));
  }
}
