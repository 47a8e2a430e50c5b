/** The trellis as an arena: HiddenMarkovModel's vector of positions and every
    transition object created between them, with the operations of
    HMMPosition and HiddenMarkovModel that build it and that compute the
    node and transition scores position by position. */
module Arena {
  import opened Outcomes
  import opened ExtendedLog
  import opened Probabilities
  import opened Trellis
  import opened Passes
  import opened Walk

  // ---------------------------------------------------------------------
  // The shape of a trellis over a residue sequence s

  /** The start node: id 0, state -1, the start residue, no in-transitions. */
  ghost predicate StartShaped(n: Node) {
    n.id == 0 && n.state == -1 && n.residue == StartNodeChar && n.inTransitions == []
  }

  /** Positions 0 .. upto exist; position k has id k; position 0 holds the
      start node alone; position k >= 1 holds one node per state, node j in
      state j, all with id k and residue s[k-1]. */
  ghost predicate NodesShaped(ps: seq<Position>, s: seq<char>, upto: nat) {
    && upto < |ps| && upto <= |s|
    && (forall k :: 0 <= k <= upto ==> ps[k].id == k)
    && |ps[0].nodes| == 1 && StartShaped(ps[0].nodes[0])
    && (forall k :: 1 <= k <= upto ==> |ps[k].nodes| == NumStates)
    && (forall k, j :: 1 <= k <= upto && 0 <= j < |ps[k].nodes| ==>
          ps[k].nodes[j].id == k && ps[k].nodes[j].state == j && ps[k].nodes[j].residue == s[k - 1])
  }

  /** Node j of position k has one in-transition per node of position k - 1,
      in that position's node order: in-transition i leads from node i of
      position k - 1 to node j of position k. */
  ghost predicate InLinked(ps: seq<Position>, xs: seq<Transition>, k: nat) {
    1 <= k < |ps| &&
    forall j :: 0 <= j < |ps[k].nodes| ==>
      |ps[k].nodes[j].inTransitions| == |ps[k - 1].nodes| &&
      forall i :: 0 <= i < |ps[k - 1].nodes| ==>
        ps[k].nodes[j].inTransitions[i] < |xs| &&
        xs[ps[k].nodes[j].inTransitions[i]].startNode == NodeRef(k - 1, i) &&
        xs[ps[k].nodes[j].inTransitions[i]].endNode == NodeRef(k, j)
  }

  /** Node i of position k has one out-transition per node of position k + 1,
      in that position's node order, and out-transition j of node i is the
      very transition recorded as in-transition i of node j at k + 1. */
  ghost predicate OutLinked(ps: seq<Position>, k: nat) {
    k + 1 < |ps| &&
    forall i :: 0 <= i < |ps[k].nodes| ==>
      |ps[k].nodes[i].outTransitions| == |ps[k + 1].nodes| &&
      forall j :: 0 <= j < |ps[k + 1].nodes| ==>
        i < |ps[k + 1].nodes[j].inTransitions| &&
        ps[k].nodes[i].outTransitions[j] == ps[k + 1].nodes[j].inTransitions[i]
  }

  /** No node of position k has an out-transition. */
  ghost predicate OutsEmpty(ps: seq<Position>, k: nat) {
    k < |ps| && forall i :: 0 <= i < |ps[k].nodes| ==> ps[k].nodes[i].outTransitions == []
  }

  /** A trellis over the first T residues of s, fully linked. */
  ghost predicate Shape(ps: seq<Position>, xs: seq<Transition>, s: seq<char>, T: nat) {
    && |ps| == T + 1
    && NodesShaped(ps, s, T)
    && (forall k :: 1 <= k <= T ==> InLinked(ps, xs, k))
    && (forall k :: 0 <= k < T ==> OutLinked(ps, k))
    && OutsEmpty(ps, T)
  }

  /** A trellis over the first k - 1 residues with position k pushed but not
      yet linked. */
  ghost predicate Pending(ps: seq<Position>, xs: seq<Transition>, s: seq<char>, k: nat) {
    && k >= 1 && |ps| == k + 1
    && NodesShaped(ps, s, k)
    && (forall k' :: 1 <= k' < k ==> InLinked(ps, xs, k'))
    && (forall k' :: 0 <= k' < k - 1 ==> OutLinked(ps, k'))
    && OutsEmpty(ps, k - 1) && OutsEmpty(ps, k)
    && (forall j :: 0 <= j < |ps[k].nodes| ==> ps[k].nodes[j].inTransitions == [])
  }

  /** Links depend only on the positions they join. */
  lemma InLinkedKept(ps: seq<Position>, ps': seq<Position>, xs: seq<Transition>, k: nat)
    requires InLinked(ps, xs, k) && k < |ps'| && ps'[k] == ps[k] && ps'[k - 1] == ps[k - 1]
    ensures InLinked(ps', xs, k)
  {
  }

  /** Two node sequences of the same length with the same in-transitions. */
  ghost predicate SameIns(q: seq<Node>, q': seq<Node>) {
    |q| == |q'| && forall b :: 0 <= b < |q| ==> q[b].inTransitions == q'[b].inTransitions
  }

  lemma OutLinkedKept(ps: seq<Position>, ps': seq<Position>, k: nat)
    requires OutLinked(ps, k) && k + 1 < |ps'| && ps'[k] == ps[k]
    requires SameIns(ps[k + 1].nodes, ps'[k + 1].nodes)
    ensures OutLinked(ps', k)
  {
    var q, next, next' := ps[k].nodes, ps[k + 1].nodes, ps'[k + 1].nodes;
    forall a, b | 0 <= a < |q| && 0 <= b < |next|
      ensures b < |q[a].outTransitions| && a < |next'[b].inTransitions|
      ensures q[a].outTransitions[b] == next'[b].inTransitions[a]
    {
      assert next'[b].inTransitions == next[b].inTransitions;
      assert |q[a].outTransitions| == |next|;
      var t := q[a].outTransitions[b];  // the term OutLinked's inner quantifier fires on
    }
  }

  /** Two trellises with the same positions, node skeletons and transition ends. */
  ghost predicate SameShape(ps: seq<Position>, ps': seq<Position>) {
    |ps| == |ps'| &&
    forall k :: 0 <= k < |ps| ==>
      ps[k].id == ps'[k].id && |ps[k].nodes| == |ps'[k].nodes| &&
      forall j :: 0 <= j < |ps[k].nodes| ==> SameSkeleton(ps[k].nodes[j], ps'[k].nodes[j])
  }

  ghost predicate SameEnds(xs: seq<Transition>, xs': seq<Transition>) {
    |xs| == |xs'| &&
    forall t :: 0 <= t < |xs| ==> xs[t].startNode == xs'[t].startNode && xs[t].endNode == xs'[t].endNode
  }

  /** Scores do not take part in the shape. */
  lemma ShapeIgnoresScores(ps: seq<Position>, ps': seq<Position>, xs: seq<Transition>, xs': seq<Transition>, s: seq<char>, T: nat)
    requires Shape(ps, xs, s, T) && SameShape(ps, ps') && SameEnds(xs, xs')
    ensures Shape(ps', xs', s, T)
  {
    assert NodesShaped(ps', s, T);
    forall k | 1 <= k <= T
      ensures InLinked(ps', xs', k)
    {
      assert InLinked(ps, xs, k);
    }
    forall k | 0 <= k < T
      ensures OutLinked(ps', k)
    {
      assert OutLinked(ps, k);
      assert InLinked(ps, xs, k + 1);
      forall i, j | 0 <= i < |ps[k].nodes| && 0 <= j < |ps[k + 1].nodes|
        ensures i < |ps'[k + 1].nodes[j].inTransitions|
        ensures ps'[k].nodes[i].outTransitions[j] == ps'[k + 1].nodes[j].inTransitions[i]
      {
        assert SameSkeleton(ps[k].nodes[i], ps'[k].nodes[i]);
        assert SameSkeleton(ps[k + 1].nodes[j], ps'[k + 1].nodes[j]);

      }
    }
  }

  /** The out-transitions of a linked position lead to the next position, in
      its node order. */
  lemma OutEnds(ps: seq<Position>, xs: seq<Transition>, s: seq<char>, T: nat, k: nat, i: nat, j: nat)
    requires Shape(ps, xs, s, T) && k < T && i < |ps[k].nodes| && j < |ps[k + 1].nodes|
    ensures j < |ps[k].nodes[i].outTransitions|
    ensures ps[k].nodes[i].outTransitions[j] < |xs|
    ensures xs[ps[k].nodes[i].outTransitions[j]].startNode == NodeRef(k, i)
    ensures xs[ps[k].nodes[i].outTransitions[j]].endNode == NodeRef(k + 1, j)
  {
    assert OutLinked(ps, k);
    assert InLinked(ps, xs, k + 1);
  }


  /** Partway through createTransitionsFor(k): nodes 0 .. j-1 of position k
      are linked to every node of position k - 1, node j to the first i of
      them.  Nothing else has changed, and each linked pair shares one new
      transition recorded at both ends. */
  ghost predicate LinkingState(P0: seq<Position>, X0: seq<Transition>, ps: seq<Position>, xs: seq<Transition>, k: nat, j: nat, i: nat) {
    && k >= 1 && |ps| == |P0| == k + 1
    && (forall k' :: 0 <= k' < k - 1 ==> ps[k'] == P0[k'])
    && ps[k - 1].id == P0[k - 1].id && ps[k].id == P0[k].id
    && |X0| <= |xs|
    && (forall t :: 0 <= t < |X0| ==> xs[t] == X0[t])
    && (forall t :: |X0| <= t < |xs| ==> xs[t].logConditionalProbability == Undef)
    && LinkingNodes(P0[k - 1].nodes, P0[k].nodes, ps[k - 1].nodes, ps[k].nodes, |X0|, xs, k, j, i)
  }

  /** The node part of LinkingState: `prev0`, `cur0` are the nodes of
      positions k - 1 and k before linking, `prev`, `cur` the same nodes now. */
  ghost predicate LinkingNodes(prev0: seq<Node>, cur0: seq<Node>, prev: seq<Node>, cur: seq<Node>, x0: nat, xs: seq<Transition>, k: nat, j: nat, i: nat) {
    && k >= 1 && x0 <= |xs|
    && j <= |cur0| && i <= |prev0|
    && |prev| == |prev0| && |cur| == |cur0|
    && (forall a :: 0 <= a < |prev| ==>
          prev[a].(outTransitions := []) == prev0[a] &&
          |prev[a].outTransitions| == (if a < i then j + 1 else j))
    && (forall b :: 0 <= b < |cur| ==>
          cur[b].(inTransitions := []) == cur0[b] &&
          |cur[b].inTransitions| == (if b < j then |prev| else if b == j then i else 0))
    && (forall a, b :: 0 <= a < |prev| && 0 <= b < |prev[a].outTransitions| ==>
          b < |cur| && a < |cur[b].inTransitions| &&
          prev[a].outTransitions[b] == cur[b].inTransitions[a] &&
          x0 <= cur[b].inTransitions[a] < |xs| &&
          xs[cur[b].inTransitions[a]] == NewTransition(NodeRef(k - 1, a), NodeRef(k, b)))
  }

  /** Once every node of position k is linked, the trellis is linked up to k. */
  lemma LinkingDone(P0: seq<Position>, X0: seq<Transition>, ps: seq<Position>, xs: seq<Transition>, s: seq<char>, k: nat)
    requires Pending(P0, X0, s, k)
    requires LinkingState(P0, X0, ps, xs, k, |P0[k].nodes|, 0)
    ensures Shape(ps, xs, s, k)
  {
    LinkingDoneNodes(P0, X0, ps, xs, s, k);
    forall k' | 1 <= k' <= k
      ensures InLinked(ps, xs, k')
    {
      if k' < k {
        LinkingDoneEarlierIn(P0, X0, ps, xs, s, k, k');
      } else {
        LinkingDoneIn(P0, X0, ps, xs, s, k);
      }
    }
    forall k' | 0 <= k' < k
      ensures OutLinked(ps, k')
    {
      if k' < k - 1 {
        LinkingDoneEarlierOut(P0, X0, ps, xs, s, k, k');
      } else {
        LinkingDoneOut(P0, X0, ps, xs, s, k);
      }
    }
  }

  lemma LinkingDoneNodes(P0: seq<Position>, X0: seq<Transition>, ps: seq<Position>, xs: seq<Transition>, s: seq<char>, k: nat)
    requires Pending(P0, X0, s, k)
    requires LinkingState(P0, X0, ps, xs, k, |P0[k].nodes|, 0)
    ensures NodesShaped(ps, s, k) && OutsEmpty(ps, k)
  {
    if k == 1 {
      assert ps[0].nodes[0].(outTransitions := []) == P0[0].nodes[0];
    } else {
      assert ps[0] == P0[0];
    }
  }

  lemma LinkingDoneEarlierIn(P0: seq<Position>, X0: seq<Transition>, ps: seq<Position>, xs: seq<Transition>, s: seq<char>, k: nat, k': nat)
    requires Pending(P0, X0, s, k)
    requires LinkingState(P0, X0, ps, xs, k, |P0[k].nodes|, 0)
    requires 1 <= k' < k
    ensures InLinked(ps, xs, k')
  {
    assert InLinked(P0, X0, k');
    assert ps[k' - 1] == P0[k' - 1];
    if k' < k - 1 {
      assert ps[k'] == P0[k'];
    } else {
      var q, q0 := ps[k'].nodes, P0[k'].nodes;
      forall a | 0 <= a < |q|
        ensures q[a].inTransitions == q0[a].inTransitions
      {
        assert q[a].(outTransitions := []) == q0[a];
      }
    }
  }

  lemma LinkingDoneIn(P0: seq<Position>, X0: seq<Transition>, ps: seq<Position>, xs: seq<Transition>, s: seq<char>, k: nat)
    requires Pending(P0, X0, s, k)
    requires LinkingState(P0, X0, ps, xs, k, |P0[k].nodes|, 0)
    ensures InLinked(ps, xs, k)
  {
    var prev, cur := ps[k - 1].nodes, ps[k].nodes;
    assert LinkingNodes(P0[k - 1].nodes, P0[k].nodes, prev, cur, |X0|, xs, k, |P0[k].nodes|, 0);
    LinkedNodesIn(P0[k - 1].nodes, P0[k].nodes, prev, cur, |X0|, xs, k);
  }

  /** With every node of the later position linked, each of its nodes has
      one in-transition per node of the earlier position, in order. */
  lemma LinkedNodesIn(prev0: seq<Node>, cur0: seq<Node>, prev: seq<Node>, cur: seq<Node>, x0: nat, xs: seq<Transition>, k: nat)
    requires LinkingNodes(prev0, cur0, prev, cur, x0, xs, k, |cur0|, 0)
    ensures forall b, a :: 0 <= b < |cur| && 0 <= a < |prev| ==>
      a < |cur[b].inTransitions| && cur[b].inTransitions[a] < |xs| &&
      xs[cur[b].inTransitions[a]].startNode == NodeRef(k - 1, a) &&
      xs[cur[b].inTransitions[a]].endNode == NodeRef(k, b)
  {
    forall b, a | 0 <= b < |cur| && 0 <= a < |prev|
      ensures a < |cur[b].inTransitions| && cur[b].inTransitions[a] < |xs|
      ensures xs[cur[b].inTransitions[a]].startNode == NodeRef(k - 1, a)
      ensures xs[cur[b].inTransitions[a]].endNode == NodeRef(k, b)
    {
      assert b < |prev[a].outTransitions|;
    }
  }

  lemma LinkingDoneEarlierOut(P0: seq<Position>, X0: seq<Transition>, ps: seq<Position>, xs: seq<Transition>, s: seq<char>, k: nat, k': nat)
    requires Pending(P0, X0, s, k)
    requires LinkingState(P0, X0, ps, xs, k, |P0[k].nodes|, 0)
    requires k' < k - 1
    ensures OutLinked(ps, k')
  {
    assert OutLinked(P0, k');
    assert ps[k'] == P0[k'];
    var q, q0 := ps[k' + 1].nodes, P0[k' + 1].nodes;
    if k' + 1 < k - 1 {
      assert ps[k' + 1] == P0[k' + 1];
    } else {
      forall a | 0 <= a < |q|
        ensures q[a].inTransitions == q0[a].inTransitions
      {
        assert q[a].(outTransitions := []) == q0[a];
      }
    }
    assert SameIns(q0, q);
    OutLinkedKept(P0, ps, k');
  }

  lemma LinkingDoneOut(P0: seq<Position>, X0: seq<Transition>, ps: seq<Position>, xs: seq<Transition>, s: seq<char>, k: nat)
    requires Pending(P0, X0, s, k)
    requires LinkingState(P0, X0, ps, xs, k, |P0[k].nodes|, 0)
    ensures OutLinked(ps, k - 1)
  {
    var prev, cur := ps[k - 1].nodes, ps[k].nodes;
    forall a, b | 0 <= a < |prev| && 0 <= b < |cur|
      ensures b < |prev[a].outTransitions| && a < |cur[b].inTransitions|
      ensures prev[a].outTransitions[b] == cur[b].inTransitions[a]
    {
    }
  }

  /** Linking one more pair keeps the node part of the linking state. */
  lemma LinkNodesStep(prev0: seq<Node>, cur0: seq<Node>, prev: seq<Node>, cur: seq<Node>, x0: nat, xs: seq<Transition>, k: nat, j: nat, i: nat)
    requires LinkingNodes(prev0, cur0, prev, cur, x0, xs, k, j, i)
    requires j < |cur0| && i < |prev0|
    ensures LinkingNodes(prev0, cur0, prev[i := AddOutTransition(prev[i], |xs|)], cur[j := AddInTransition(cur[j], |xs|)],
                         x0, xs + [NewTransition(NodeRef(k - 1, i), NodeRef(k, j))], k, j, i + 1)
  {
    var t := |xs|;
    var prev', cur' := prev[i := AddOutTransition(prev[i], t)], cur[j := AddInTransition(cur[j], t)];
    var xs' := xs + [NewTransition(NodeRef(k - 1, i), NodeRef(k, j))];
    forall a, b | 0 <= a < |prev'| && 0 <= b < |prev'[a].outTransitions|
      ensures b < |cur'| && a < |cur'[b].inTransitions|
      ensures prev'[a].outTransitions[b] == cur'[b].inTransitions[a]
      ensures x0 <= cur'[b].inTransitions[a] < |xs'|
      ensures xs'[cur'[b].inTransitions[a]] == NewTransition(NodeRef(k - 1, a), NodeRef(k, b))
    {
      if a == i && b == j {
        assert prev'[a].outTransitions[b] == t;
        assert cur'[b].inTransitions[a] == t;
      } else {
        assert b < |prev[a].outTransitions|;
        assert prev'[a].outTransitions[b] == prev[a].outTransitions[b];
        assert cur'[b].inTransitions[a] == cur[b].inTransitions[a];
      }
    }
  }

  /** Node j of position k is linked to all of position k - 1: go on with node j + 1. */
  lemma LinkNodesRow(prev0: seq<Node>, cur0: seq<Node>, prev: seq<Node>, cur: seq<Node>, x0: nat, xs: seq<Transition>, k: nat, j: nat)
    requires LinkingNodes(prev0, cur0, prev, cur, x0, xs, k, j, |prev0|) && j < |cur0|
    ensures LinkingNodes(prev0, cur0, prev, cur, x0, xs, k, j + 1, 0)
  {
  }

  /** The state-level step: recording one more transition. */
  lemma LinkStep(P0: seq<Position>, X0: seq<Transition>, ps: seq<Position>, xs: seq<Transition>, k: nat, j: nat, i: nat)
    requires LinkingState(P0, X0, ps, xs, k, j, i) && j < |P0[k].nodes| && i < |P0[k - 1].nodes|
    ensures ValidRef(ps, NodeRef(k - 1, i)) && ValidRef(ps, NodeRef(k, j))
    ensures LinkingState(P0, X0, Link(ps, NodeRef(k - 1, i), NodeRef(k, j), |xs|),
                         xs + [NewTransition(NodeRef(k - 1, i), NodeRef(k, j))], k, j, i + 1)
  {
    LinkNodesStep(P0[k - 1].nodes, P0[k].nodes, ps[k - 1].nodes, ps[k].nodes, |X0|, xs, k, j, i);
  }

  lemma LinkRow(P0: seq<Position>, X0: seq<Transition>, ps: seq<Position>, xs: seq<Transition>, k: nat, j: nat)
    requires k >= 1 && |P0| == k + 1
    requires LinkingState(P0, X0, ps, xs, k, j, |P0[k - 1].nodes|) && j < |P0[k].nodes|
    ensures LinkingState(P0, X0, ps, xs, k, j + 1, 0)
  {
    LinkNodesRow(P0[k - 1].nodes, P0[k].nodes, ps[k - 1].nodes, ps[k].nodes, |X0|, xs, k, j);
  }

  lemma LinkStart(P0: seq<Position>, X0: seq<Transition>, s: seq<char>, k: nat)
    requires Pending(P0, X0, s, k)
    ensures LinkingState(P0, X0, P0, X0, k, 0, 0)
  {
    assert OutsEmpty(P0, k - 1);
  }

  /** The positions after new HMMTransition(prev, cur) is recorded at both ends as transition t. */
  function Link(ps: seq<Position>, prev: NodeRef, cur: NodeRef, t: nat): (r: seq<Position>)
    requires ValidRef(ps, prev) && ValidRef(ps, cur) && prev.position != cur.position
    ensures |r| == |ps| && forall k :: 0 <= k < |ps| && k != prev.position && k != cur.position ==> r[k] == ps[k]
    ensures r[prev.position].id == ps[prev.position].id && r[cur.position].id == ps[cur.position].id
    ensures r[prev.position].nodes == ps[prev.position].nodes[prev.index := AddOutTransition(At(ps, prev), t)]
    ensures r[cur.position].nodes == ps[cur.position].nodes[cur.index := AddInTransition(At(ps, cur), t)]
  {
    var c := ps[cur.position];
    var ps' := ps[cur.position := c.(nodes := c.nodes[cur.index := AddInTransition(c.nodes[cur.index], t)])];
    var p := ps'[prev.position];
    ps'[prev.position := p.(nodes := p.nodes[prev.index := AddOutTransition(p.nodes[prev.index], t)])]
  }

  /** The trellis with node j of position k replaced. */
  function SetAt(ps: seq<Position>, k: nat, j: nat, n: Node): (r: seq<Position>)
    requires k < |ps| && j < |ps[k].nodes|
    ensures |r| == |ps| && r[k].id == ps[k].id && |r[k].nodes| == |ps[k].nodes| && r[k].nodes[j] == n
    ensures forall k' :: 0 <= k' < |ps| && k' != k ==> r[k'] == ps[k']
    ensures forall j' :: 0 <= j' < |ps[k].nodes| && j' != j ==> r[k].nodes[j'] == ps[k].nodes[j']
  {
    ps[k := ps[k].(nodes := ps[k].nodes[j := n])]
  }

  /** Replacing a node by one whose back-pointer, if any, leads to the
      position before keeps every back-pointer pointing back. */
  lemma PointersBackSet(ps: seq<Position>, k: nat, j: nat, n: Node)
    requires PointersBack(ps) && k < |ps| && j < |ps[k].nodes|
    requires n.highestWeightPreviousNode.Some? ==>
      k >= 1 && n.highestWeightPreviousNode.value.position == k - 1 &&
      n.highestWeightPreviousNode.value.index < |ps[k - 1].nodes|
    ensures PointersBack(SetAt(ps, k, j, n))
  {
    var r := SetAt(ps, k, j, n);
    forall k', j' | 0 <= k' < |r| && 0 <= j' < |r[k'].nodes| && r[k'].nodes[j'].highestWeightPreviousNode.Some?
      ensures k' >= 1 && r[k'].nodes[j'].highestWeightPreviousNode.value.position == k' - 1
      ensures r[k'].nodes[j'].highestWeightPreviousNode.value.index < |r[k' - 1].nodes|
    {
      if k' != k || j' != j {
        assert r[k'].nodes[j'] == ps[k'].nodes[j'];
      }
    }
  }

  /** The nodes of position k have their emission entries. */
  ghost predicate Covered(p: HMMProbabilities, ps: seq<Position>, k: nat)
    reads p
  {
    k < |ps| && forall j :: 0 <= j < |ps[k].nodes| ==> HasEmission(p, ps[k].nodes[j])
  }

  /** In a shaped trellis, a covered node can be scored from the position before. */
  lemma ScorableAt(p: HMMProbabilities, ps: seq<Position>, xs: seq<Transition>, s: seq<char>, T: nat, k: nat, j: nat)
    requires Shape(ps, xs, s, T) && p.Valid() && 1 <= k <= T && j < |ps[k].nodes|
    requires HasEmission(p, ps[k].nodes[j])
    ensures Scorable(p, ps[k - 1].nodes, ps[k].nodes[j])
  {
  }

  /** In a shaped trellis, every node of position k can be linked into every
      node of the next, whose emissions are covered; and position k's
      out-transitions are linked or absent. */
  lemma ReachableAt(p: HMMProbabilities, ps: seq<Position>, xs: seq<Transition>, s: seq<char>, T: nat, k: nat, i: nat)
    requires Shape(ps, xs, s, T) && p.Valid() && k <= T && i < |ps[k].nodes|
    requires k < T ==> Covered(p, ps, k + 1)
    ensures Reachable(p, ps[k].nodes[i], NextNodes(ps, k)) && OutFrontier(ps, xs, k)
  {
    if k < T {
      assert OutLinked(ps, k) && InLinked(ps, xs, k + 1);
    }
  }

  /** The scan of calculateHighestWeightPath over the in-transitions of
      node j of position k >= 1: the weight starts at the lowest value, and
      each in-transition in order offers its score (the weight of its start
      node, plus the transition, plus the emission), which replaces weight
      and back-pointer when strictly greater.  The node is updated as a
      local copy; nothing else is read from it while the scan runs. */
  method HighestWeightInto(p: HMMProbabilities, ps: seq<Position>, xs: seq<Transition>, k: nat, j: nat) returns (cur: Node)
    requires p.Valid() && InLinked(ps, xs, k) && j < |ps[k].nodes|
    requires Scorable(p, ps[k - 1].nodes, ps[k].nodes[j])
    ensures cur == ViterbiNode(p, k, ps[k - 1].nodes, ps[k].nodes[j])
  {
    var node := ps[k].nodes[j];
    ghost var scores := ViterbiScores(p, ps[k - 1].nodes, node);
    cur := node.(highestWeight := Undef);
    var i := 0;
    while i < |node.inTransitions|
      invariant 0 <= i <= |scores| == |node.inTransitions|
      invariant cur == Folded(node, k, MaxFold(scores[..i]))
    {
      cur := ScanStep(p, ps, xs, k, j, scores, i, cur);
      i := i + 1;
    }
    ScanComplete(p, k, ps[k - 1].nodes, node, cur, scores, i);
  }

  /** A scan over all the scores leaves the node the Viterbi pass defines. */
  lemma ScanComplete(p: HMMProbabilities, k: nat, prev: seq<Node>, node: Node, cur: Node, scores: seq<ExtLog>, i: nat)
    requires k >= 1 && Scorable(p, prev, node)
    requires scores == ViterbiScores(p, prev, node) && i == |scores|
    requires cur == Folded(node, k, MaxFold(scores[..i]))
    ensures cur == ViterbiNode(p, k, prev, node)
  {
    assert scores[..i] == scores;
  }

  /** A node with the outcome of a scan stored: the best weight, and the
      back-pointer to the best source if any score beat the seed. */
  function Folded(node: Node, k: nat, b: Best): Node
    requires k >= 1
  {
    node.(highestWeight := b.weight,
      highestWeightPreviousNode := if b.source.Some? then Some(NodeRef(k - 1, b.source.value)) else node.highestWeightPreviousNode)
  }

  /** The score offered by the start node of in-transition i, read through
      the arena; the node being scored matters only through its state and
      residue. */
  method ViterbiScoreOf(p: HMMProbabilities, ps: seq<Position>, xs: seq<Transition>, k: nat, j: nat, i: nat, cur: Node) returns (score: ExtLog)
    requires p.Valid() && InLinked(ps, xs, k) && j < |ps[k].nodes| && i < |ps[k - 1].nodes|
    requires Scorable(p, ps[k - 1].nodes, ps[k].nodes[j])
    requires cur.state == ps[k].nodes[j].state && cur.residue == ps[k].nodes[j].residue
    ensures score == ViterbiScores(p, ps[k - 1].nodes, ps[k].nodes[j])[i]
  {
    var node := ps[k].nodes[j];
    var src := SourceOf(ps, xs, k, j, i);
    LogProbabilityReadsOnlyStates(p, src, node, src, cur);
    score := ElnProd(ElnProd(src.highestWeight, LogProbability(p, src, cur)), LogEmissionProbability(p, cur).value);
  }

  /** One iteration of the scan: in-transition i offers its score, which
      replaces weight and back-pointer when strictly greater. */
  method ScanStep(p: HMMProbabilities, ps: seq<Position>, xs: seq<Transition>, k: nat, j: nat, ghost scores: seq<ExtLog>, i: nat, cur: Node)
      returns (next: Node)
    requires p.Valid() && InLinked(ps, xs, k) && j < |ps[k].nodes| && i < |ps[k - 1].nodes|
    requires Scorable(p, ps[k - 1].nodes, ps[k].nodes[j]) && scores == ViterbiScores(p, ps[k - 1].nodes, ps[k].nodes[j])
    requires cur == Folded(ps[k].nodes[j], k, MaxFold(scores[..i]))
    ensures next == Folded(ps[k].nodes[j], k, MaxFold(scores[..i + 1]))
  {
    var score := ViterbiScoreOf(p, ps, xs, k, j, i, cur);
    next := Relax(ps[k].nodes[j], k, scores, i, cur, score);
  }

  /** One comparison of the scan: a strictly greater score replaces weight
      and back-pointer. */
  method Relax(node: Node, k: nat, ghost scores: seq<ExtLog>, i: nat, cur: Node, score: ExtLog) returns (next: Node)
    requires k >= 1 && i < |scores| && score == scores[i] && cur == Folded(node, k, MaxFold(scores[..i]))
    ensures next == Folded(node, k, MaxFold(scores[..i + 1]))
  {
    TakeSnoc(scores, i);
    assert scores[..i + 1][..i] == scores[..i];
    next := cur;
    if Greater(score, cur.highestWeight) {
      next := cur.(highestWeight := score, highestWeightPreviousNode := Some(NodeRef(k - 1, i)));
    }
  }

  /** calculateLogForwardProbability for node j of position k >= 1 (whose
      id is k): at id 1 the first in-transition's probability times the
      emission; beyond, the elnsum over the in-transitions, in order, of the
      start node's forward probability times the transition, from the
      sentinel, times the emission. */
  method ForwardInto(p: HMMProbabilities, ps: seq<Position>, xs: seq<Transition>, k: nat, j: nat) returns (v: ExtLog)
    requires p.Valid() && InLinked(ps, xs, k) && j < |ps[k].nodes| && |ps[k - 1].nodes| >= 1
    requires Scorable(p, ps[k - 1].nodes, ps[k].nodes[j])
    ensures v == ForwardValue(p, k, ps[k - 1].nodes, ps[k].nodes[j])
  {
    var node := ps[k].nodes[j];
    if k == 1 {
      var src := SourceOf(ps, xs, k, j, 0);
      v := ElnProd(LogProbability(p, src, node), LogEmissionProbability(p, node).value);
      return;
    }
    var logAlpha := ForwardSumInto(p, ps, xs, k, j);
    v := ElnProd(logAlpha, LogEmissionProbability(p, node).value);
  }

  /** The row of position k >= 1 after the Viterbi pass. */
  ghost function ViterbiRow(p: HMMProbabilities, k: nat, prev: seq<Node>, nodes: seq<Node>): (r: seq<Node>)
    reads p
    requires k >= 1 && forall j :: 0 <= j < |nodes| ==> Scorable(p, prev, nodes[j])
    ensures |r| == |nodes| && forall j :: 0 <= j < |nodes| ==> r[j] == ViterbiNode(p, k, prev, nodes[j])
  {
    seq(|nodes|, j requires 0 <= j < |nodes| && Scorable(p, prev, nodes[j]) reads p => ViterbiNode(p, k, prev, nodes[j]))
  }

  /** The pass of calculateHighestWeightPath over the nodes of position
      k >= 1, in order.  No node of the position reads another node of the
      same position, so the row is collected and stored afterwards. */
  method ViterbiRowOf(p: HMMProbabilities, ps: seq<Position>, xs: seq<Transition>, k: nat) returns (r: seq<Node>)
    requires p.Valid() && InLinked(ps, xs, k)
    requires forall j :: 0 <= j < |ps[k].nodes| ==> Scorable(p, ps[k - 1].nodes, ps[k].nodes[j])
    ensures r == ViterbiRow(p, k, ps[k - 1].nodes, ps[k].nodes)
  {
    ghost var target := ViterbiRow(p, k, ps[k - 1].nodes, ps[k].nodes);
    r := [];
    var j := 0;
    while j < |ps[k].nodes|
      invariant 0 <= j <= |target| == |ps[k].nodes| && r == target[..j]
    {
      var n := HighestWeightInto(p, ps, xs, k, j);
      TakeSnoc(target, j);
      r := r + [n];
      j := j + 1;
    }
    TakeAll(target);
  }

  /** The Viterbi row keeps every back-pointer leading to the position before. */
  lemma ViterbiRowPointsBack(p: HMMProbabilities, ps: seq<Position>, k: nat, r: seq<Node>)
    requires PointersBack(ps) && 1 <= k < |ps| && |r| == |ps[k].nodes|
    requires forall j :: 0 <= j < |ps[k].nodes| ==> Scorable(p, ps[k - 1].nodes, ps[k].nodes[j])
    requires forall j :: 0 <= j < |r| ==> r[j] == ViterbiNode(p, k, ps[k - 1].nodes, ps[k].nodes[j])
    ensures RowPointsBack(ps, k, r)
  {
    forall j | 0 <= j < |r| && r[j].highestWeightPreviousNode.Some?
      ensures k >= 1 && r[j].highestWeightPreviousNode.value.position == k - 1
      ensures r[j].highestWeightPreviousNode.value.index < |ps[k - 1].nodes|
    {
      if r[j].highestWeight.Undef? {
        assert r[j].highestWeightPreviousNode == ps[k].nodes[j].highestWeightPreviousNode;
      }
    }
  }

  /** The row of position k >= 1 after the forward pass. */
  ghost function ForwardRow(p: HMMProbabilities, k: nat, prev: seq<Node>, nodes: seq<Node>): (r: seq<Node>)
    reads p
    requires |prev| >= 1 && forall j :: 0 <= j < |nodes| ==> Scorable(p, prev, nodes[j])
    ensures |r| == |nodes| && forall j :: 0 <= j < |nodes| ==>
      r[j] == nodes[j].(logForwardProbability := ForwardValue(p, k, prev, nodes[j]))
  {
    seq(|nodes|, j requires 0 <= j < |nodes| && Scorable(p, prev, nodes[j]) reads p =>
      nodes[j].(logForwardProbability := ForwardValue(p, k, prev, nodes[j])))
  }

  /** The forward pass over the nodes of position k >= 1, in order. */
  method ForwardRowOf(p: HMMProbabilities, ps: seq<Position>, xs: seq<Transition>, k: nat) returns (r: seq<Node>)
    requires p.Valid() && InLinked(ps, xs, k) && |ps[k - 1].nodes| >= 1
    requires forall j :: 0 <= j < |ps[k].nodes| ==> Scorable(p, ps[k - 1].nodes, ps[k].nodes[j])
    ensures r == ForwardRow(p, k, ps[k - 1].nodes, ps[k].nodes)
  {
    ghost var target := ForwardRow(p, k, ps[k - 1].nodes, ps[k].nodes);
    r := [];
    var j := 0;
    while j < |ps[k].nodes|
      invariant 0 <= j <= |target| == |ps[k].nodes| && r == target[..j]
    {
      var v := ForwardInto(p, ps, xs, k, j);
      TakeSnoc(target, j);
      r := r + [ps[k].nodes[j].(logForwardProbability := v)];
      j := j + 1;
    }
    TakeAll(target);
  }

  /** The row of position k after the backward pass. */
  ghost function BackwardRow(p: HMMProbabilities, nodes: seq<Node>, next: seq<Node>): (r: seq<Node>)
    reads p
    requires forall i :: 0 <= i < |nodes| ==> Reachable(p, nodes[i], next)
    ensures |r| == |nodes| && forall i :: 0 <= i < |nodes| ==>
      r[i] == nodes[i].(logBackwardProbability := BackwardValue(p, nodes[i], next))
  {
    seq(|nodes|, i requires 0 <= i < |nodes| && Reachable(p, nodes[i], next) reads p =>
      nodes[i].(logBackwardProbability := BackwardValue(p, nodes[i], next)))
  }

  /** The backward pass over the nodes of position k, in order. */
  method BackwardRowOf(p: HMMProbabilities, ps: seq<Position>, xs: seq<Transition>, k: nat) returns (r: seq<Node>)
    requires p.Valid() && k < |ps| && OutFrontier(ps, xs, k)
    requires forall i :: 0 <= i < |ps[k].nodes| ==> Reachable(p, ps[k].nodes[i], NextNodes(ps, k))
    ensures |r| == |ps[k].nodes| && forall i :: 0 <= i < |r| ==>
      r[i] == ps[k].nodes[i].(logBackwardProbability := BackwardValue(p, ps[k].nodes[i], NextNodes(ps, k)))
  {
    ghost var target := BackwardRow(p, ps[k].nodes, NextNodes(ps, k));
    r := [];
    var i := 0;
    while i < |ps[k].nodes|
      invariant 0 <= i <= |target| == |ps[k].nodes| && r == target[..i]
    {
      var v := BackwardInto(p, ps, xs, k, i);
      TakeSnoc(target, i);
      r := r + [ps[k].nodes[i].(logBackwardProbability := v)];
      i := i + 1;
    }
    TakeAll(target);
  }

  /** A row that keeps the back-pointers of position k keeps them leading back. */
  lemma KeptPointersPointBack(ps: seq<Position>, k: nat, r: seq<Node>)
    requires k < |ps| && |r| == |ps[k].nodes|
    requires forall j :: 0 <= j < |r| ==> r[j].highestWeightPreviousNode == ps[k].nodes[j].highestWeightPreviousNode
    ensures PointersBack(ps) ==> RowPointsBack(ps, k, r)
  {
  }

  /** Every back-pointer of a new row for position k leads to position k - 1. */
  ghost predicate RowPointsBack(ps: seq<Position>, k: nat, r: seq<Node>) {
    forall j :: 0 <= j < |r| && r[j].highestWeightPreviousNode.Some? ==>
      k >= 1 && r[j].highestWeightPreviousNode.value.position == k - 1 &&
      k - 1 < |ps| && r[j].highestWeightPreviousNode.value.index < |ps[k - 1].nodes|
  }

  /** Replacing the row of position k by one with the same skeletons keeps
      the shape, and keeps the back-pointers when the row's lead back. */
  lemma RowReplaced(ps: seq<Position>, xs: seq<Transition>, s: seq<char>, T: nat, k: nat, r: seq<Node>)
    requires Shape(ps, xs, s, T) && k < |ps| && |r| == |ps[k].nodes|
    requires forall j :: 0 <= j < |r| ==> SameSkeleton(ps[k].nodes[j], r[j])
    ensures Shape(ps[k := ps[k].(nodes := r)], xs, s, T)
    ensures PointersBack(ps) && RowPointsBack(ps, k, r) ==> PointersBack(ps[k := ps[k].(nodes := r)])
  {
    var ps' := ps[k := ps[k].(nodes := r)];
    assert SameShape(ps, ps') by {
      forall k' | 0 <= k' < |ps|
        ensures ps[k'].id == ps'[k'].id && |ps[k'].nodes| == |ps'[k'].nodes|
        ensures forall j :: 0 <= j < |ps[k'].nodes| ==> SameSkeleton(ps[k'].nodes[j], ps'[k'].nodes[j])
      {
      }
    }
    ShapeIgnoresScores(ps, ps', xs, xs, s, T);
    if PointersBack(ps) && RowPointsBack(ps, k, r) {
      forall k', j | 0 <= k' < |ps'| && 0 <= j < |ps'[k'].nodes| && ps'[k'].nodes[j].highestWeightPreviousNode.Some?
        ensures k' >= 1 && ps'[k'].nodes[j].highestWeightPreviousNode.value.position == k' - 1
        ensures ps'[k'].nodes[j].highestWeightPreviousNode.value.index < |ps'[k' - 1].nodes|
      {
        if k' != k {
          assert ps'[k'] == ps[k'];
        }
      }
    }
  }

  /** The start node of in-transition i of node j of position k. */
  method SourceOf(ps: seq<Position>, xs: seq<Transition>, k: nat, j: nat, i: nat) returns (src: Node)
    requires InLinked(ps, xs, k) && j < |ps[k].nodes| && i < |ps[k - 1].nodes|
    ensures src == ps[k - 1].nodes[i]
  {
    src := At(ps, xs[ps[k].nodes[j].inTransitions[i]].startNode);
  }

  /** The elnsum over the in-transitions of node j of position k, in order,
      of the start node's forward probability times the transition. */
  method ForwardSumInto(p: HMMProbabilities, ps: seq<Position>, xs: seq<Transition>, k: nat, j: nat) returns (logAlpha: ExtLog)
    requires p.Valid() && InLinked(ps, xs, k) && j < |ps[k].nodes|
    requires Scorable(p, ps[k - 1].nodes, ps[k].nodes[j])
    ensures logAlpha == SumAll(p.libm, ForwardTerms(p, ps[k - 1].nodes, ps[k].nodes[j]))
  {
    var node := ps[k].nodes[j];
    ghost var prev := ps[k - 1].nodes;
    ghost var terms := ForwardTerms(p, prev, node);
    logAlpha := Undef;
    var i := 0;
    while i < |node.inTransitions|
      invariant 0 <= i <= |prev| == |node.inTransitions|
      invariant logAlpha == SumAll(p.libm, terms[..i])
    {
      var src := SourceOf(ps, xs, k, j, i);
      TakeSnoc(terms, i);
      SumAllSnoc(p.libm, terms[..i], terms[i]);
      logAlpha := ElnSum(p.libm, logAlpha, ElnProd(src.logForwardProbability, LogProbability(p, src, node)));
      i := i + 1;
    }
    TakeAll(terms);
  }

  /** The nodes of the position after k; none after the last position. */
  function NextNodes(ps: seq<Position>, k: nat): (next: seq<Node>)
    ensures k + 1 < |ps| ==> next == ps[k + 1].nodes
    ensures k + 1 >= |ps| ==> next == []
  {
    if k + 1 < |ps| then ps[k + 1].nodes else []
  }

  /** Position k's out-transitions are linked to the next position, or it is
      the last position and has none. */
  ghost predicate OutFrontier(ps: seq<Position>, xs: seq<Transition>, k: nat) {
    (k + 1 < |ps| && OutLinked(ps, k) && InLinked(ps, xs, k + 1)) || (k + 1 == |ps| && OutsEmpty(ps, k))
  }

  /** calculateLogBackwardProbability for node i of position k: the elnsum
      over its out-transitions, in order, of the transition times the end
      node's emission times the end node's backward probability, from the
      sentinel. */
  method BackwardInto(p: HMMProbabilities, ps: seq<Position>, xs: seq<Transition>, k: nat, i: nat) returns (v: ExtLog)
    requires p.Valid() && k < |ps| && i < |ps[k].nodes| && OutFrontier(ps, xs, k)
    requires Reachable(p, ps[k].nodes[i], NextNodes(ps, k))
    ensures v == BackwardValue(p, ps[k].nodes[i], NextNodes(ps, k))
  {
    FrontierIndices(ps, xs, k);
    v := BackwardSumInto(p, ps, xs, k, ps[k].nodes[i], NextNodes(ps, k));
  }

  /** The loop of calculateLogBackwardProbability over the out-transitions
      of one node of position k, whose ends are the nodes `next` of position
      k + 1 in order. */
  method BackwardSumInto(p: HMMProbabilities, ps: seq<Position>, xs: seq<Transition>, k: nat, node: Node, ghost next: seq<Node>)
    returns (logBeta: ExtLog)
    requires p.Valid() && Reachable(p, node, next) && |node.outTransitions| == |next|
    requires next != [] ==> k + 1 < |ps| && ps[k + 1].nodes == next
    requires forall j :: 0 <= j < |node.outTransitions| ==>
      node.outTransitions[j] < |xs| && xs[node.outTransitions[j]].endNode == NodeRef(k + 1, j)
    ensures logBeta == BackwardValue(p, node, next)
  {
    ghost var terms := BackwardTerms(p, node, next);
    logBeta := Undef;
    var j := 0;
    while j < |node.outTransitions|
      invariant 0 <= j <= |next| == |node.outTransitions|
      invariant logBeta == SumAll(p.libm, terms[..j])
    {
      var end := EndOf(ps, xs, k, node, next, j);
      TakeSnoc(terms, j);
      SumAllSnoc(p.libm, terms[..j], terms[j]);
      logBeta := ElnSum(p.libm, logBeta,
        ElnProd(LogProbability(p, node, end), ElnProd(LogEmissionProbability(p, end).value, end.logBackwardProbability)));
      j := j + 1;
    }
    TakeAll(terms);
  }

  /** The end node of out-transition j of a node of position k. */
  method EndOf(ps: seq<Position>, xs: seq<Transition>, k: nat, node: Node, ghost next: seq<Node>, j: nat) returns (end: Node)
    requires j < |next| == |node.outTransitions| && k + 1 < |ps| && ps[k + 1].nodes == next
    requires node.outTransitions[j] < |xs| && xs[node.outTransitions[j]].endNode == NodeRef(k + 1, j)
    ensures end == next[j]
  {
    end := At(ps, xs[node.outTransitions[j]].endNode);
  }

  /** HMMPosition::calculateNodeLogConditionalProbabilities on the nodes of
      one position: first every node but a start node stores
      forward * backward and the products are elnsummed into the
      normalizer; then every node but a start node divides its product by
      the normalizer. */
  method NodeConditionalsOf(m: Libm, nodes: seq<Node>) returns (r: seq<Node>)
    ensures |r| == |nodes|
    ensures forall j :: 0 <= j < |nodes| ==> r[j] == GammaNode(m, nodes, j)
  {
    var products, normalizer := GammaProductsOf(m, nodes);
    r := GammaNormalizeOf(m, nodes, products, normalizer);
  }

  /** A node after the first loop of the pass: forward * backward stored,
      unless it is a start node. */
  function GammaProduct(n: Node): Node {
    if n.id == 0 then n else n.(logConditionalProbability := ElnProd(n.logForwardProbability, n.logBackwardProbability))
  }

  /** The first loop: store the products and elnsum them into the normalizer. */
  method GammaProductsOf(m: Libm, nodes: seq<Node>) returns (r: seq<Node>, normalizer: ExtLog)
    ensures |r| == |nodes| && normalizer == SumAll(m, GammaTerms(nodes))
    ensures forall j :: 0 <= j < |nodes| ==> r[j] == GammaProduct(nodes[j])
  {
    ghost var terms := GammaTerms(nodes);
    normalizer := Undef;
    r := nodes;
    var j := 0;
    while j < |r|
      invariant 0 <= j <= |r| == |nodes| == |terms|
      invariant forall j' :: 0 <= j' < j ==> r[j'] == GammaProduct(nodes[j'])
      invariant forall j' :: j <= j' < |nodes| ==> r[j'] == nodes[j']
      invariant normalizer == SumAll(m, terms[..j])
    {
      normalizer := AddProduct(m, nodes, terms, j, normalizer);
      r := r[j := GammaProduct(r[j])];
      j := j + 1;
    }
    assert j == |terms|;
    TakeAll(terms);
  }

  /** The normalizer after node j: node j's product elnsummed in, unless a
      start node. */
  method AddProduct(m: Libm, nodes: seq<Node>, ghost terms: seq<ExtLog>, j: nat, normalizer: ExtLog) returns (r: ExtLog)
    requires j < |nodes| && terms == GammaTerms(nodes) && normalizer == SumAll(m, terms[..j])
    ensures r == SumAll(m, terms[..j + 1])
  {
    TakeSnoc(terms, j);
    SumAllSnoc(m, terms[..j], terms[j]);
    var n := nodes[j];
    r := normalizer;
    if n.id != 0 {
      r := ElnSum(m, normalizer, ElnProd(n.logForwardProbability, n.logBackwardProbability));
    }
  }

  /** The second loop: divide every stored product by the normalizer. */
  method GammaNormalizeOf(m: Libm, nodes: seq<Node>, r0: seq<Node>, normalizer: ExtLog) returns (r: seq<Node>)
    requires |r0| == |nodes| && normalizer == SumAll(m, GammaTerms(nodes))
    requires forall j :: 0 <= j < |nodes| ==> r0[j] == GammaProduct(nodes[j])
    ensures |r| == |nodes|
    ensures forall j :: 0 <= j < |nodes| ==> r[j] == GammaNode(m, nodes, j)
  {
    r := DivideAll(r0, normalizer);
    forall j | 0 <= j < |nodes|
      ensures r[j] == GammaNode(m, nodes, j)
    {
      DividedProduct(m, nodes, j, normalizer);
    }
  }

  /** The loop of the second pass over the stored products. */
  method DivideAll(r0: seq<Node>, normalizer: ExtLog) returns (r: seq<Node>)
    ensures |r| == |r0| && forall j :: 0 <= j < |r0| ==> r[j] == Divided(r0[j], normalizer)
  {
    r := r0;
    var j := 0;
    while j < |r|
      invariant 0 <= j <= |r| == |r0|
      invariant forall j' :: 0 <= j' < j ==> r[j'] == Divided(r0[j'], normalizer)
      invariant forall j' :: j <= j' < |r0| ==> r[j'] == r0[j']
    {
      if r[j].id != 0 {
        r := r[j := r[j].(logConditionalProbability := ElnProd(r[j].logConditionalProbability, Negate(normalizer)))];
      }
      j := j + 1;
    }
  }

  /** A stored product divided by the normalizer, unless a start node. */
  function Divided(n: Node, normalizer: ExtLog): Node {
    if n.id == 0 then n else n.(logConditionalProbability := ElnProd(n.logConditionalProbability, Negate(normalizer)))
  }

  /** Both loops together give the conditional of every node. */
  lemma DividedProduct(m: Libm, nodes: seq<Node>, j: nat, normalizer: ExtLog)
    requires j < |nodes| && normalizer == SumAll(m, GammaTerms(nodes))
    ensures Divided(GammaProduct(nodes[j]), normalizer) == GammaNode(m, nodes, j)
  {
  }

  /** Out-transition j of node i of position k is a transition of the arena
      from that node to node j of the next position. */
  ghost predicate OutIndices(ps: seq<Position>, xs: seq<Transition>, k: nat) {
    k < |ps| &&
    forall i :: 0 <= i < |ps[k].nodes| ==>
      |ps[k].nodes[i].outTransitions| == |NextNodes(ps, k)| &&
      forall j :: 0 <= j < |NextNodes(ps, k)| ==>
        ps[k].nodes[i].outTransitions[j] < |xs| &&
        xs[ps[k].nodes[i].outTransitions[j]].startNode == NodeRef(k, i) &&
        xs[ps[k].nodes[i].outTransitions[j]].endNode == NodeRef(k + 1, j)
  }

  lemma FrontierIndices(ps: seq<Position>, xs: seq<Transition>, k: nat)
    requires k < |ps| && OutFrontier(ps, xs, k)
    ensures OutIndices(ps, xs, k)
  {
  }

  /** r0 with the conditional of transition outs[j] set to vs[j], for each j
      in order (an index out of range writes nothing). */
  function Written(r0: seq<Transition>, outs: seq<nat>, vs: seq<ExtLog>): (r: seq<Transition>)
    requires |outs| == |vs|
    ensures |r| == |r0|
  {
    if outs == [] then r0
    else
      var n := |outs| - 1;
      var r := Written(r0, outs[..n], vs[..n]);
      if outs[n] < |r| then r[outs[n] := r[outs[n]].(logConditionalProbability := vs[n])] else r
  }

  lemma WrittenSnoc(r0: seq<Transition>, outs: seq<nat>, vs: seq<ExtLog>, t: nat, v: ExtLog)
    requires |outs| == |vs| && t < |r0|
    ensures Written(r0, outs + [t], vs + [v]) ==
      Written(r0, outs, vs)[t := Written(r0, outs, vs)[t].(logConditionalProbability := v)]
  {
    assert (outs + [t])[..|outs|] == outs;
    assert (vs + [v])[..|vs|] == vs;
  }

  /** When outs are the out-transitions of node i of position k, one per
      successor in order, writing them changes no end, no transition leaving
      another node, and leaves vs[j] in the j-th. */
  lemma {:induction false} WrittenFacts(xs: seq<Transition>, r0: seq<Transition>, outs: seq<nat>, vs: seq<ExtLog>, k: nat, i: nat)
    requires |outs| == |vs| && SameEnds(xs, r0)
    requires forall j :: 0 <= j < |outs| ==> (outs[j] < |xs| &&
      xs[outs[j]].startNode == NodeRef(k, i) && xs[outs[j]].endNode == NodeRef(k + 1, j))
    ensures SameEnds(xs, Written(r0, outs, vs))
    ensures forall t :: 0 <= t < |xs| && xs[t].startNode != NodeRef(k, i) ==> Written(r0, outs, vs)[t] == r0[t]
    ensures forall j :: 0 <= j < |outs| ==> Written(r0, outs, vs)[outs[j]].logConditionalProbability == vs[j]
  {
    if outs != [] {
      var n := |outs| - 1;
      WrittenFacts(xs, r0, outs[..n], vs[..n], k, i);
      var r := Written(r0, outs[..n], vs[..n]);
      forall j | 0 <= j < n
        ensures outs[j] != outs[n]
      {
        assert xs[outs[j]].endNode == NodeRef(k + 1, j);
      }
    }
  }

  /** Node i of position k is `node`, whose out-transitions lead, in order,
      to the nodes `next` of position k + 1. */
  ghost predicate RowFrame(p: HMMProbabilities, ps: seq<Position>, xs: seq<Transition>, k: nat, i: nat,
                           node: Node, next: seq<Node>)
    reads p
  {
    && p.Valid() && Reachable(p, node, next) && |node.outTransitions| == |next|
    && (next != [] ==> k + 1 < |ps| && ps[k + 1].nodes == next)
    && forall j :: 0 <= j < |next| ==> (node.outTransitions[j] < |xs| &&
      xs[node.outTransitions[j]].startNode == NodeRef(k, i) && xs[node.outTransitions[j]].endNode == NodeRef(k + 1, j))
  }

  /** The first loop of calculateTransitionLogConditionalProbabilities for
      node i of position k (`node`, whose successors are `next`): each
      out-transition in order stores the node's forward probability times
      the transition, the next emission and the next backward probability,
      and that value is elnsummed into the normalizer. */
  method EpsilonRowInto(p: HMMProbabilities, ps: seq<Position>, xs: seq<Transition>, k: nat, i: nat,
                        node: Node, ghost next: seq<Node>, r0: seq<Transition>, norm0: ExtLog)
    returns (r: seq<Transition>, norm: ExtLog)
    requires RowFrame(p, ps, xs, k, i, node, next) && SameEnds(xs, r0)
    ensures SameEnds(xs, r)
    ensures norm == SumFrom(p.libm, norm0, EpsilonRow(p, node, next))
    ensures forall t :: 0 <= t < |xs| && xs[t].startNode != NodeRef(k, i) ==> r[t] == r0[t]
    ensures forall j :: 0 <= j < |next| ==>
      r[node.outTransitions[j]].logConditionalProbability == EpsilonRow(p, node, next)[j]
  {
    r, norm := EpsilonLoop(p, ps, xs, k, i, node, next, r0, norm0);
    WrittenFacts(xs, r0, node.outTransitions, EpsilonRow(p, node, next), k, i);
  }

  /** That loop, stated through Written. */
  method EpsilonLoop(p: HMMProbabilities, ps: seq<Position>, xs: seq<Transition>, k: nat, i: nat,
                     node: Node, ghost next: seq<Node>, r0: seq<Transition>, norm0: ExtLog)
    returns (r: seq<Transition>, norm: ExtLog)
    requires RowFrame(p, ps, xs, k, i, node, next) && |r0| == |xs|
    ensures r == Written(r0, node.outTransitions, EpsilonRow(p, node, next))
    ensures norm == SumFrom(p.libm, norm0, EpsilonRow(p, node, next))
  {
    ghost var row := EpsilonRow(p, node, next);
    ghost var outs := node.outTransitions;
    r, norm := r0, norm0;
    var j := 0;
    while j < |node.outTransitions|
      invariant 0 <= j <= |outs| == |row|
      invariant r == Written(r0, outs[..j], row[..j]) && norm == SumFrom(p.libm, norm0, row[..j])
    {
      r, norm := EpsilonStepInto(p, ps, xs, k, i, node, next, j, r0, norm0, r, norm);
      j := j + 1;
    }
    assert j == |row|;
    TakeAll(row);
    TakeAll(outs);
  }

  /** One iteration of that loop. */
  method EpsilonStepInto(p: HMMProbabilities, ps: seq<Position>, xs: seq<Transition>, k: nat, i: nat,
                         node: Node, ghost next: seq<Node>, j: nat, ghost r0: seq<Transition>, ghost norm0: ExtLog,
                         r: seq<Transition>, norm: ExtLog)
    returns (r': seq<Transition>, norm': ExtLog)
    requires RowFrame(p, ps, xs, k, i, node, next) && j < |next| && |r0| == |xs|
    requires r == Written(r0, node.outTransitions[..j], EpsilonRow(p, node, next)[..j])
    requires norm == SumFrom(p.libm, norm0, EpsilonRow(p, node, next)[..j])
    ensures r' == Written(r0, node.outTransitions[..j + 1], EpsilonRow(p, node, next)[..j + 1])
    ensures norm' == SumFrom(p.libm, norm0, EpsilonRow(p, node, next)[..j + 1])
  {
    ghost var row := EpsilonRow(p, node, next);
    ghost var outs := node.outTransitions;
    var t := node.outTransitions[j];
    var v := EpsilonOf(p, ps, k, node, next, xs[t], j);
    WrittenSnoc(r0, outs[..j], row[..j], t, v);
    TakeSnoc(outs, j);
    TakeSnoc(row, j);
    r' := r[t := r[t].(logConditionalProbability := v)];
    norm' := Accumulate(p.libm, norm0, norm, row[..j], v);
  }

  lemma TakeAll<T>(s: seq<T>)
    ensures s[..|s|] == s
  {
  }

  lemma TakeSnoc<T>(s: seq<T>, j: nat)
    requires j < |s|
    ensures s[..j + 1] == s[..j] + [s[j]]
  {
  }

  /** One elnsum into a running accumulation. */
  method Accumulate(m: Libm, ghost acc0: ExtLog, acc: ExtLog, ghost vs: seq<ExtLog>, v: ExtLog) returns (r: ExtLog)
    requires acc == SumFrom(m, acc0, vs)
    ensures r == SumFrom(m, acc0, vs + [v])
  {
    SumFromSnoc(m, acc0, vs, v);
    r := ElnSum(m, acc, v);
  }

  /** The value one out-transition of `node` gets, read through the
      transition's end node. */
  method EpsilonOf(p: HMMProbabilities, ps: seq<Position>, k: nat, node: Node, ghost next: seq<Node>, x: Transition, j: nat)
    returns (v: ExtLog)
    requires p.Valid() && Reachable(p, node, next) && j < |next| && k + 1 < |ps| && ps[k + 1].nodes == next
    requires x.endNode == NodeRef(k + 1, j)
    ensures v == EpsilonRow(p, node, next)[j]
  {
    var end := At(ps, x.endNode);
    v := ElnProd(node.logForwardProbability,
      ElnProd(LogProbability(p, node, end), ElnProd(Emission(p, end), end.logBackwardProbability)));
    EpsilonRowAt(p, node, next, j);
  }

  /** The second loop for node i: each out-transition's value is divided by
      the normalizer. */
  method NormalizeRow(ps: seq<Position>, xs: seq<Transition>, k: nat, i: nat, r0: seq<Transition>, norm: ExtLog)
    returns (r: seq<Transition>)
    requires OutIndices(ps, xs, k) && i < |ps[k].nodes| && SameEnds(xs, r0)
    ensures SameEnds(xs, r)
    ensures forall t :: 0 <= t < |xs| && xs[t].startNode != NodeRef(k, i) ==> r[t] == r0[t]
    ensures forall j :: 0 <= j < |NextNodes(ps, k)| ==>
      r[ps[k].nodes[i].outTransitions[j]].logConditionalProbability ==
        ElnProd(r0[ps[k].nodes[i].outTransitions[j]].logConditionalProbability, Negate(norm))
  {
    var node := ps[k].nodes[i];
    r := r0;
    var j := 0;
    while j < |node.outTransitions|
      invariant 0 <= j <= |node.outTransitions| == |NextNodes(ps, k)|
      invariant SameEnds(xs, r)
      invariant forall t :: 0 <= t < |xs| && (xs[t].startNode != NodeRef(k, i) || xs[t].endNode.index >= j) ==> r[t] == r0[t]
      invariant forall j' :: 0 <= j' < j ==>
        r[node.outTransitions[j']].logConditionalProbability ==
          ElnProd(r0[node.outTransitions[j']].logConditionalProbability, Negate(norm))
    {
      var t := node.outTransitions[j];
      r := r[t := r[t].(logConditionalProbability := ElnProd(r[t].logConditionalProbability, Negate(norm)))];
      j := j + 1;
    }
  }

  /** Transitions leaving position k from node n on, and those of every other
      position, hold in r what they hold in r0. */
  ghost predicate UntouchedFrom(xs: seq<Transition>, r0: seq<Transition>, r: seq<Transition>, k: nat, n: nat) {
    |r| == |xs| && |r0| == |xs| &&
    forall t :: 0 <= t < |xs| && (xs[t].startNode.position != k || xs[t].startNode.index >= n) ==> r[t] == r0[t]
  }

  /** The out-transitions of nodes 0 .. n-1 of position k hold their
      unnormalized conditionals. */
  ghost predicate RowsWritten(p: HMMProbabilities, ps: seq<Position>, xs: seq<Transition>, k: nat, r: seq<Transition>, n: nat)
    reads p
  {
    && OutIndices(ps, xs, k) && |r| == |xs| && n <= |ps[k].nodes|
    && AllReachable(p, ps[k].nodes, NextNodes(ps, k))
    && forall i, j :: 0 <= i < n && 0 <= j < |NextNodes(ps, k)| ==>
      r[ps[k].nodes[i].outTransitions[j]].logConditionalProbability == EpsilonRow(p, ps[k].nodes[i], NextNodes(ps, k))[j]
  }

  /** The first loop of calculateTransitionLogConditionalProbabilities: the
      nodes of position k in order, each writing its row and adding it into
      the normalizer, which starts at the sentinel. */
  method EpsilonTermsInto(p: HMMProbabilities, ps: seq<Position>, xs: seq<Transition>, k: nat)
    returns (r: seq<Transition>, norm: ExtLog)
    requires p.Valid() && OutIndices(ps, xs, k) && AllReachable(p, ps[k].nodes, NextNodes(ps, k))
    ensures SameEnds(xs, r) && UntouchedFrom(xs, xs, r, k, |ps[k].nodes|)
    ensures RowsWritten(p, ps, xs, k, r, |ps[k].nodes|)
    ensures norm == EpsilonNormalizer(p, ps[k].nodes, NextNodes(ps, k))
  {
    ghost var nodes := ps[k].nodes;
    ghost var next := NextNodes(ps, k);
    r, norm := xs, Undef;
    assert nodes[..0] == [];
    var i := 0;
    while i < |ps[k].nodes|
      invariant i <= |nodes|
      invariant SameEnds(xs, r) && UntouchedFrom(xs, xs, r, k, i) && RowsWritten(p, ps, xs, k, r, i)
      invariant AllReachable(p, nodes[..i], next) && norm == SumAll(p.libm, EpsilonTerms(p, nodes[..i], next))
    {
      r, norm := EpsilonNodeInto(p, ps, xs, k, i, r, norm);
      i := i + 1;
    }
    assert nodes[..i] == nodes;
  }

  /** One iteration of that loop: node i's row. */
  method EpsilonNodeInto(p: HMMProbabilities, ps: seq<Position>, xs: seq<Transition>, k: nat, i: nat,
                         r0: seq<Transition>, norm0: ExtLog)
    returns (r: seq<Transition>, norm: ExtLog)
    requires p.Valid() && OutIndices(ps, xs, k) && AllReachable(p, ps[k].nodes, NextNodes(ps, k)) && i < |ps[k].nodes|
    requires SameEnds(xs, r0) && UntouchedFrom(xs, xs, r0, k, i) && RowsWritten(p, ps, xs, k, r0, i)
    requires AllReachable(p, ps[k].nodes[..i], NextNodes(ps, k))
    requires norm0 == SumAll(p.libm, EpsilonTerms(p, ps[k].nodes[..i], NextNodes(ps, k)))
    ensures SameEnds(xs, r) && UntouchedFrom(xs, xs, r, k, i + 1) && RowsWritten(p, ps, xs, k, r, i + 1)
    ensures AllReachable(p, ps[k].nodes[..i + 1], NextNodes(ps, k))
    ensures norm == SumAll(p.libm, EpsilonTerms(p, ps[k].nodes[..i + 1], NextNodes(ps, k)))
  {
    var node := ps[k].nodes[i];
    ghost var next := NextNodes(ps, k);
    r, norm := EpsilonRowInto(p, ps, xs, k, i, node, next, r0, norm0);
    UntouchedStep(xs, xs, r0, r, k, i);
    RowsWrittenStep(p, ps, xs, k, i, r0, r);
    NormalizerStep(p, ps[k].nodes, next, i, norm0, norm);
  }

  lemma UntouchedStep(xs: seq<Transition>, base: seq<Transition>, r0: seq<Transition>, r: seq<Transition>, k: nat, i: nat)
    requires UntouchedFrom(xs, base, r0, k, i) && |r| == |xs|
    requires forall t :: 0 <= t < |xs| && xs[t].startNode != NodeRef(k, i) ==> r[t] == r0[t]
    ensures UntouchedFrom(xs, base, r, k, i + 1)
  {
  }

  lemma RowsWrittenStep(p: HMMProbabilities, ps: seq<Position>, xs: seq<Transition>, k: nat, i: nat,
                        r0: seq<Transition>, r: seq<Transition>)
    requires RowsWritten(p, ps, xs, k, r0, i) && i < |ps[k].nodes| && |r| == |xs|
    requires forall t :: 0 <= t < |xs| && xs[t].startNode != NodeRef(k, i) ==> r[t] == r0[t]
    requires forall j :: 0 <= j < |NextNodes(ps, k)| ==>
      r[ps[k].nodes[i].outTransitions[j]].logConditionalProbability == EpsilonRow(p, ps[k].nodes[i], NextNodes(ps, k))[j]
    ensures RowsWritten(p, ps, xs, k, r, i + 1)
  {
    forall a, j | 0 <= a < i && 0 <= j < |NextNodes(ps, k)|
      ensures r[ps[k].nodes[a].outTransitions[j]] == r0[ps[k].nodes[a].outTransitions[j]]
    {
      assert xs[ps[k].nodes[a].outTransitions[j]].startNode == NodeRef(k, a);
    }
  }

  /** Node i's row continues the accumulation of the rows before it. */
  lemma NormalizerStep(p: HMMProbabilities, nodes: seq<Node>, next: seq<Node>, i: nat, norm0: ExtLog, norm: ExtLog)
    requires AllReachable(p, nodes, next) && i < |nodes|
    requires norm0 == SumAll(p.libm, EpsilonTerms(p, nodes[..i], next))
    requires norm == SumFrom(p.libm, norm0, EpsilonRow(p, nodes[i], next))
    ensures AllReachable(p, nodes[..i + 1], next)
    ensures norm == SumAll(p.libm, EpsilonTerms(p, nodes[..i + 1], next))
  {
    EpsilonTermsSnoc(p, nodes, next, i);
    SumAllAppend(p.libm, EpsilonTerms(p, nodes[..i], next), EpsilonRow(p, nodes[i], next));
  }

  /** The out-transitions of nodes 0 .. n-1 of position k hold what they
      held in r1, divided by norm. */
  ghost predicate RowsNormalized(ps: seq<Position>, xs: seq<Transition>, k: nat, r1: seq<Transition>, r: seq<Transition>,
                                 norm: ExtLog, n: nat)
  {
    && OutIndices(ps, xs, k) && |r| == |xs| && |r1| == |xs| && n <= |ps[k].nodes|
    && forall i, j :: 0 <= i < n && 0 <= j < |NextNodes(ps, k)| ==>
      r[ps[k].nodes[i].outTransitions[j]].logConditionalProbability ==
        ElnProd(r1[ps[k].nodes[i].outTransitions[j]].logConditionalProbability, Negate(norm))
  }

  /** The second loop of calculateTransitionLogConditionalProbabilities: every
      out-transition of position k, node by node, is divided by the
      normalizer. */
  method NormalizeInto(ps: seq<Position>, xs: seq<Transition>, k: nat, r1: seq<Transition>, norm: ExtLog)
    returns (r: seq<Transition>)
    requires OutIndices(ps, xs, k) && SameEnds(xs, r1)
    ensures SameEnds(xs, r) && UntouchedFrom(xs, r1, r, k, |ps[k].nodes|)
    ensures RowsNormalized(ps, xs, k, r1, r, norm, |ps[k].nodes|)
  {
    r := r1;
    var i := 0;
    while i < |ps[k].nodes|
      invariant i <= |ps[k].nodes|
      invariant SameEnds(xs, r) && UntouchedFrom(xs, r1, r, k, i) && RowsNormalized(ps, xs, k, r1, r, norm, i)
    {
      r := NormalizeNode(ps, xs, k, i, r1, norm, r);
      i := i + 1;
    }
  }

  /** One iteration of that loop: node i's row. */
  method NormalizeNode(ps: seq<Position>, xs: seq<Transition>, k: nat, i: nat, r1: seq<Transition>, norm: ExtLog,
                       r0: seq<Transition>)
    returns (r: seq<Transition>)
    requires OutIndices(ps, xs, k) && i < |ps[k].nodes|
    requires SameEnds(xs, r0) && UntouchedFrom(xs, r1, r0, k, i) && RowsNormalized(ps, xs, k, r1, r0, norm, i)
    ensures SameEnds(xs, r) && UntouchedFrom(xs, r1, r, k, i + 1) && RowsNormalized(ps, xs, k, r1, r, norm, i + 1)
  {
    r := NormalizeRow(ps, xs, k, i, r0, norm);
    UntouchedStep(xs, r1, r0, r, k, i);
    RowsNormalizedStep(ps, xs, k, i, r1, r0, r, norm);
  }

  lemma RowsNormalizedStep(ps: seq<Position>, xs: seq<Transition>, k: nat, i: nat,
                           r1: seq<Transition>, r0: seq<Transition>, r: seq<Transition>, norm: ExtLog)
    requires RowsNormalized(ps, xs, k, r1, r0, norm, i) && UntouchedFrom(xs, r1, r0, k, i)
    requires i < |ps[k].nodes| && |r| == |xs|
    requires forall t :: 0 <= t < |xs| && xs[t].startNode != NodeRef(k, i) ==> r[t] == r0[t]
    requires forall j :: 0 <= j < |NextNodes(ps, k)| ==>
      r[ps[k].nodes[i].outTransitions[j]].logConditionalProbability ==
        ElnProd(r0[ps[k].nodes[i].outTransitions[j]].logConditionalProbability, Negate(norm))
    ensures RowsNormalized(ps, xs, k, r1, r, norm, i + 1)
  {
    forall a, j | 0 <= a <= i && 0 <= j < |NextNodes(ps, k)|
      ensures a < i ==> r[ps[k].nodes[a].outTransitions[j]] == r0[ps[k].nodes[a].outTransitions[j]]
      ensures a == i ==> r0[ps[k].nodes[a].outTransitions[j]] == r1[ps[k].nodes[a].outTransitions[j]]
    {
      assert xs[ps[k].nodes[a].outTransitions[j]].startNode == NodeRef(k, a);
    }
  }

  /** What calculateTransitionLogConditionalProbabilities leaves in the
      out-transitions of position k: each holds its unnormalized conditional
      divided by the normalizer of the position. */
  ghost predicate TransitionConditionalsHold(p: HMMProbabilities, ps: seq<Position>, xs: seq<Transition>, k: nat, r: seq<Transition>)
    reads p
  {
    && OutIndices(ps, xs, k) && |r| == |xs| && AllReachable(p, ps[k].nodes, NextNodes(ps, k))
    && forall i, j :: 0 <= i < |ps[k].nodes| && 0 <= j < |NextNodes(ps, k)| ==>
      r[ps[k].nodes[i].outTransitions[j]].logConditionalProbability ==
        ElnProd(EpsilonRow(p, ps[k].nodes[i], NextNodes(ps, k))[j], Negate(EpsilonNormalizer(p, ps[k].nodes, NextNodes(ps, k))))
  }

  /** calculateTransitionLogConditionalProbabilities over position k of the
      arena: transitions leaving other positions keep their values and no
      end changes. */
  method TransitionConditionalsOf(p: HMMProbabilities, ps: seq<Position>, xs: seq<Transition>, k: nat)
    returns (r: seq<Transition>)
    requires p.Valid() && OutIndices(ps, xs, k) && AllReachable(p, ps[k].nodes, NextNodes(ps, k))
    ensures SameEnds(xs, r) && UntouchedFrom(xs, xs, r, k, |ps[k].nodes|)
    ensures TransitionConditionalsHold(p, ps, xs, k, r)
  {
    var r1, norm := EpsilonTermsInto(p, ps, xs, k);
    r := NormalizeInto(ps, xs, k, r1, norm);
    ConditionalsCombine(p, ps, xs, k, r1, r, norm);
  }

  lemma ConditionalsCombine(p: HMMProbabilities, ps: seq<Position>, xs: seq<Transition>, k: nat,
                            r1: seq<Transition>, r: seq<Transition>, norm: ExtLog)
    requires k < |ps|
    requires RowsWritten(p, ps, xs, k, r1, |ps[k].nodes|) && RowsNormalized(ps, xs, k, r1, r, norm, |ps[k].nodes|)
    requires UntouchedFrom(xs, xs, r1, k, |ps[k].nodes|) && UntouchedFrom(xs, r1, r, k, |ps[k].nodes|)
    requires norm == EpsilonNormalizer(p, ps[k].nodes, NextNodes(ps, k))
    ensures TransitionConditionalsHold(p, ps, xs, k, r) && UntouchedFrom(xs, xs, r, k, |ps[k].nodes|)
  {
  }

  class Model {
    /** The residues the trellis is built over (FastaFile::getSequence). */
    const sequence: seq<char>
    var positions: seq<Position>
    var transitions: seq<Transition>

    /** Fully linked over the residues of the positions pushed so far. */
    ghost predicate Built()
      reads this
    {
      |positions| >= 1 && Shape(positions, transitions, sequence, |positions| - 1)
    }

    constructor (s: seq<char>)
      ensures sequence == s && positions == [] && transitions == []
    {
      sequence := s;
      positions := [];
      transitions := [];
    }

    /** Store a new row for position k: the same node skeletons, new scores. */
    method SetRow(k: nat, r: seq<Node>)
      requires Built() && k < |positions| && |r| == |positions[k].nodes|
      requires forall j :: 0 <= j < |r| ==> SameSkeleton(positions[k].nodes[j], r[j])
      modifies this
      ensures positions == old(positions)[k := old(positions[k]).(nodes := r)]
      ensures transitions == old(transitions)
      ensures Built()
      ensures PointersBack(old(positions)) && RowPointsBack(old(positions), k, r) ==> PointersBack(positions)
    {
      RowReplaced(positions, transitions, sequence, |positions| - 1, k, r);
      positions := positions[k := positions[k].(nodes := r)];
    }

    /** Overwrite the conditional probability of one transition. */
    method SetTransitionConditional(t: nat, v: ExtLog)
      requires Built() && t < |transitions|
      modifies this
      ensures transitions == old(transitions)[t := old(transitions)[t].(logConditionalProbability := v)]
      ensures positions == old(positions)
      ensures Built()
    {
      var xs := transitions;
      transitions := transitions[t := transitions[t].(logConditionalProbability := v)];
      ShapeIgnoresScores(positions, positions, xs, transitions, sequence, |positions| - 1);
    }

    // -------------------------------------------------------------------
    // Building (buildAndCalculateModel, createTransitionsFor)

    /** Push the start position (new HMMPosition()). */
    method AddStartPosition()
      requires positions == []
      modifies this
      ensures positions == [StartPosition()] && transitions == old(transitions)
      ensures Built()
    {
      positions := [StartPosition()];
    }

    /** Push a fresh position for the next residue: one node per state,
      not yet linked. */
    method AddPosition()
      requires Built() && |positions| <= |sequence|
      modifies this
      ensures |positions| == |old(positions)| + 1 && positions[..|old(positions)|] == old(positions)
      ensures var k := |old(positions)|;
        positions[k].id == k && |positions[k].nodes| == NumStates &&
        forall j :: 0 <= j < NumStates ==> positions[k].nodes[j] == NewNode(k, j, sequence[k - 1])
      ensures transitions == old(transitions)
      ensures Pending(positions, transitions, sequence, |positions| - 1)
    {
      var k := |positions|;
      var pos := NewPosition(k, sequence[k - 1], NumStates);
      var ps := positions;
      positions := positions + [pos];
      assert positions[..k] == ps;
      forall k' | 1 <= k' < k
        ensures InLinked(positions, transitions, k')
      {
        InLinkedKept(ps, positions, transitions, k');
      }
      forall k' | 0 <= k' < k - 1
        ensures OutLinked(positions, k')
      {
        assert positions[k' + 1] == ps[k' + 1];
        OutLinkedKept(ps, positions, k');
      }
      assert OutsEmpty(ps, k - 1);
    }

    /** new HMMTransition(previous, current): recorded as the last
        in-transition of the current node and the last out-transition of the
        previous node. */
    method AddTransition(prev: NodeRef, cur: NodeRef)
      requires ValidRef(positions, prev) && ValidRef(positions, cur) && prev.position != cur.position
      modifies this
      ensures transitions == old(transitions) + [NewTransition(prev, cur)]
      ensures positions == Link(old(positions), prev, cur, |old(transitions)|)
    {
      var t := |transitions|;
      transitions := transitions + [NewTransition(prev, cur)];
      var c := positions[cur.position];
      positions := positions[cur.position := c.(nodes := c.nodes[cur.index := AddInTransition(c.nodes[cur.index], t)])];
      var p := positions[prev.position];
      positions := positions[prev.position := p.(nodes := p.nodes[prev.index := AddOutTransition(p.nodes[prev.index], t)])];
    }

    /** createTransitionsFor(position k, position k - 1): for each node of
        position k in order, one transition from each node of position k - 1
        in order.  Afterwards the trellis is linked up to position k; only
        the transition lists of positions k - 1 and k change, and the new
        transitions are appended after the existing ones. */
    method CreateTransitionsFor(k: nat)
      requires Pending(positions, transitions, sequence, k)
      modifies this
      ensures Built() && |positions| == |old(positions)|
      ensures forall k' :: 0 <= k' < k - 1 ==> positions[k'] == old(positions[k'])
      ensures forall k' :: k - 1 <= k' <= k ==>
        positions[k'].id == old(positions[k'].id) && |positions[k'].nodes| == |old(positions[k'].nodes)| &&
        forall j :: 0 <= j < |positions[k'].nodes| ==>
          positions[k'].nodes[j].(inTransitions := [], outTransitions := []) == old(positions[k'].nodes[j]).(inTransitions := [], outTransitions := [])
      ensures |old(transitions)| <= |transitions|
      ensures forall t :: 0 <= t < |old(transitions)| ==> transitions[t] == old(transitions[t])
      ensures forall t :: |old(transitions)| <= t < |transitions| ==> transitions[t].logConditionalProbability == Undef
    {
      ghost var P0, X0 := positions, transitions;
      var m, n := |positions[k - 1].nodes|, |positions[k].nodes|;
      LinkStart(P0, X0, sequence, k);
      var j := 0;
      while j < n
        invariant 0 <= j <= n
        invariant LinkingState(P0, X0, positions, transitions, k, j, 0)
      {
        var i := 0;
        while i < m
          invariant 0 <= i <= m
          invariant LinkingState(P0, X0, positions, transitions, k, j, i)
        {
          LinkStep(P0, X0, positions, transitions, k, j, i);
          AddTransition(NodeRef(k - 1, i), NodeRef(k, j));
          i := i + 1;
        }
        LinkRow(P0, X0, positions, transitions, k, j);
        j := j + 1;
      }
      LinkingDone(P0, X0, positions, transitions, sequence, k);
    }

    // -------------------------------------------------------------------
    // Viterbi (calculateHighestWeightPath)

    /** calculateHighestWeightPath for position k: every node in turn gets
        its Viterbi weight and back-pointer, computed from the weights of
        position k - 1: the weight is reset to the lowest value, then every
        in-transition in order offers its score and replaces weight and
        back-pointer when strictly greater.  Position 0 (the start node, no
        in-transitions) is left as it is. */
    method CalculateHighestWeightPath(p: HMMProbabilities, k: nat)
      requires Built() && PointersBack(positions) && p.Valid() && k < |positions|
      requires k >= 1 ==> Covered(p, positions, k)
      modifies this
      ensures Built() && PointersBack(positions) && transitions == old(transitions) && |positions| == |old(positions)|
      ensures forall k' :: 0 <= k' < |positions| && k' != k ==> positions[k'] == old(positions[k'])
      ensures k == 0 ==> positions == old(positions)
      ensures positions[k].id == old(positions[k].id) && |positions[k].nodes| == |old(positions[k].nodes)|
      ensures k >= 1 ==> forall j :: 0 <= j < |positions[k].nodes| ==>
        Scorable(p, old(positions[k - 1].nodes), old(positions[k].nodes[j])) &&
        positions[k].nodes[j] == ViterbiNode(p, k, old(positions[k - 1].nodes), old(positions[k].nodes[j]))
    {
      if k == 0 {
        return;
      }
      forall j | 0 <= j < |positions[k].nodes|
        ensures Scorable(p, positions[k - 1].nodes, positions[k].nodes[j])
      {
        ScorableAt(p, positions, transitions, sequence, |positions| - 1, k, j);
      }
      assert InLinked(positions, transitions, k);
      var r := ViterbiRowOf(p, positions, transitions, k);
      ViterbiRowPointsBack(p, positions, k, r);
      SetRow(k, r);
    }

    /** HMMPosition::calculateLogForwardProbability for position k: nothing
        at the start position; otherwise every node gets its forward
        probability from the forward probabilities of position k - 1. */
    method CalculateLogForwardProbability(p: HMMProbabilities, k: nat)
      requires Built() && p.Valid() && k < |positions|
      requires k >= 1 ==> Covered(p, positions, k)
      modifies this
      ensures Built() && transitions == old(transitions) && |positions| == |old(positions)|
      ensures PointersBack(old(positions)) ==> PointersBack(positions)
      ensures forall k' :: 0 <= k' < |positions| && k' != k ==> positions[k'] == old(positions[k'])
      ensures k == 0 ==> positions == old(positions)
      ensures positions[k].id == old(positions[k].id) && |positions[k].nodes| == |old(positions[k].nodes)|
      ensures k >= 1 ==> forall j :: 0 <= j < |positions[k].nodes| ==>
        Scorable(p, old(positions[k - 1].nodes), old(positions[k].nodes[j])) &&
        positions[k].nodes[j] == old(positions[k].nodes[j]).(logForwardProbability :=
          ForwardValue(p, k, old(positions[k - 1].nodes), old(positions[k].nodes[j])))
    {
      if positions[k].id == 0 {
        return;
      }
      forall j | 0 <= j < |positions[k].nodes|
        ensures Scorable(p, positions[k - 1].nodes, positions[k].nodes[j])
      {
        ScorableAt(p, positions, transitions, sequence, |positions| - 1, k, j);
      }
      assert InLinked(positions, transitions, k);
      var r := ForwardRowOf(p, positions, transitions, k);
      KeptPointersPointBack(positions, k, r);
      SetRow(k, r);
    }

    /** HMMPosition::calculateLogBackwardProbability for position k: every
        node gets its backward probability from the backward probabilities
        of position k + 1 (the sentinel at the last position, which has no
        out-transitions). */
    method CalculateLogBackwardProbability(p: HMMProbabilities, k: nat)
      requires Built() && p.Valid() && k < |positions|
      requires k + 1 < |positions| ==> Covered(p, positions, k + 1)
      modifies this
      ensures Built() && transitions == old(transitions) && |positions| == |old(positions)|
      ensures PointersBack(old(positions)) ==> PointersBack(positions)
      ensures forall k' :: 0 <= k' < |positions| && k' != k ==> positions[k'] == old(positions[k'])
      ensures positions[k].id == old(positions[k].id) && |positions[k].nodes| == |old(positions[k].nodes)|
      ensures forall i :: 0 <= i < |positions[k].nodes| ==>
        Reachable(p, old(positions[k].nodes[i]), NextNodes(old(positions), k)) &&
        positions[k].nodes[i] == old(positions[k].nodes[i]).(logBackwardProbability :=
          BackwardValue(p, old(positions[k].nodes[i]), NextNodes(old(positions), k)))
    {
      assert OutFrontier(positions, transitions, k) &&
        forall i :: 0 <= i < |positions[k].nodes| ==> Reachable(p, positions[k].nodes[i], NextNodes(positions, k)) by {
        forall i | 0 <= i < |positions[k].nodes|
          ensures Reachable(p, positions[k].nodes[i], NextNodes(positions, k))
        {
          ReachableAt(p, positions, transitions, sequence, |positions| - 1, k, i);
        }
        ReachableAt(p, positions, transitions, sequence, |positions| - 1, k, 0);
      }
      var r := BackwardRowOf(p, positions, transitions, k);
      KeptPointersPointBack(positions, k, r);
      SetRow(k, r);
    }

    // -------------------------------------------------------------------
    // Conditionals (HMMPosition)

    /** HMMPosition::calculateNodeLogConditionalProbabilities for position k:
        every node but a start node gets its forward * backward divided by
        the position's normalizer; everything else is left as it is. */
    method CalculateNodeLogConditionalProbabilities(m: Libm, k: nat)
      requires Built() && k < |positions|
      modifies this
      ensures Built() && transitions == old(transitions) && |positions| == |old(positions)|
      ensures PointersBack(old(positions)) ==> PointersBack(positions)
      ensures forall k' :: 0 <= k' < |positions| && k' != k ==> positions[k'] == old(positions[k'])
      ensures positions[k].id == old(positions[k].id) && |positions[k].nodes| == |old(positions[k].nodes)|
      ensures forall j :: 0 <= j < |positions[k].nodes| ==> positions[k].nodes[j] == GammaNode(m, old(positions[k].nodes), j)
    {
      var r := NodeConditionalsOf(m, positions[k].nodes);
      KeptPointersPointBack(positions, k, r);
      SetRow(k, r);
    }

    /** HMMPosition::calculateTransitionLogConditionalProbabilities for
        position k: each out-transition of the position gets the forward
        probability of its start node times its own probability, the end
        node's emission and the end node's backward probability, divided by
        the elnsum of those values over all out-transitions of the position.
        Transitions leaving other positions, and all nodes, are left as they
        are. */
    method CalculateTransitionLogConditionalProbabilities(p: HMMProbabilities, k: nat)
      requires Built() && p.Valid() && k < |positions|
      requires k + 1 < |positions| ==> Covered(p, positions, k + 1)
      modifies this
      ensures Built() && positions == old(positions) && SameEnds(old(transitions), transitions)
      ensures UntouchedFrom(old(transitions), old(transitions), transitions, k, |positions[k].nodes|)
      ensures TransitionConditionalsHold(p, positions, old(transitions), k, transitions)
    {
      ghost var ps, xs := positions, transitions;
      assert OutIndices(ps, xs, k) && AllReachable(p, ps[k].nodes, NextNodes(ps, k)) by {
        forall i | 0 <= i < |ps[k].nodes|
          ensures Reachable(p, ps[k].nodes[i], NextNodes(ps, k)) && OutFrontier(ps, xs, k)
        {
          ReachableAt(p, ps, xs, sequence, |ps| - 1, k, i);
        }
        ReachableAt(p, ps, xs, sequence, |ps| - 1, k, 0);
        FrontierIndices(ps, xs, k);
      }
      var r := TransitionConditionalsOf(p, positions, transitions, k);
      assert Shape(ps, r, sequence, |ps| - 1) by {
        ShapeIgnoresScores(ps, ps, xs, r, sequence, |ps| - 1);
      }
      transitions := r;
      assert TransitionConditionalsHold(p, ps, xs, k, r);
    }
  }
}
