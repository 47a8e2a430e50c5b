/** The pieces of the HMM trellis: nodes, transitions and positions.

    The C++ objects refer to one another through raw pointers.  The model keeps
    them in an arena instead: a node lives in the `nodes` vector of its
    position and is referred to by a `NodeRef` (position index, index within
    the position); a transition lives in one global sequence and is referred
    to by its index there.  Both ends of a transition record that index, as
    both C++ nodes record the same pointer. */
module Trellis {
  import opened Outcomes
  import opened ExtendedLog
  import opened Probabilities

  /** HMMNode::startNodeChar: the residue of the start node. */
  const StartNodeChar: char := '&'

  /** HiddenMarkovModel::numStates: one non-coding and one coding state. */
  const NumStates: nat := 2

  /** Where a node lives: the position, and the index in that position's nodes. */
  datatype NodeRef = NodeRef(position: nat, index: nat)

  /** HMMNode.  The back-pointer `highestWeightPreviousNode` is `None` for the
      C++ null pointer. */
  datatype Node = Node(
    id: int,
    state: int,
    residue: char,
    inTransitions: seq<nat>,
    outTransitions: seq<nat>,
    highestWeight: ExtLog,
    highestWeightPreviousNode: Option<NodeRef>,
    logForwardProbability: ExtLog,
    logBackwardProbability: ExtLog,
    logConditionalProbability: ExtLog)

  /** HMMTransition; `model` is not stored, the table is passed where needed. */
  datatype Transition = Transition(startNode: NodeRef, endNode: NodeRef, logConditionalProbability: ExtLog)

  /** HMMPosition. */
  datatype Position = Position(id: int, nodes: seq<Node>)

  // ---------------------------------------------------------------------
  // HMMNode

  /** HMMNode(): the start node.  Its weight and its three log probabilities
      are 0 (log 1), its back-pointer is null and it has no transitions yet. */
  function StartNode(): (n: Node)
    ensures n.id == 0 && n.state == -1 && n.residue == StartNodeChar
    ensures n.highestWeight == Fin(0.0) && n.highestWeightPreviousNode == None
    ensures n.logForwardProbability == Fin(0.0) && n.logBackwardProbability == Fin(0.0)
    ensures n.logConditionalProbability == Fin(0.0)
    ensures n.inTransitions == [] && n.outTransitions == []
  {
    Node(0, -1, StartNodeChar, [], [], Fin(0.0), None, Fin(0.0), Fin(0.0), Fin(0.0))
  }

  /** HMMNode(id, state, residue, model): a node for one state at one position.
      The C++ constructor leaves the weight and the log probabilities
      indeterminate; the model starts them at the sentinel. */
  function NewNode(id: int, state: int, residue: char): (n: Node)
    ensures n.id == id && n.state == state && n.residue == residue
    ensures n.highestWeightPreviousNode == None
    ensures n.inTransitions == [] && n.outTransitions == []
  {
    Node(id, state, residue, [], [], Undef, None, Undef, Undef, Undef)
  }

  /** The structural fields of two nodes agree; only scores may differ. */
  predicate SameSkeleton(a: Node, b: Node) {
    a.id == b.id && a.state == b.state && a.residue == b.residue &&
    a.inTransitions == b.inTransitions && a.outTransitions == b.outTransitions
  }

  /** addInTransition: appends to the in-transitions, nothing else changes. */
  function AddInTransition(n: Node, t: nat): (r: Node)
    ensures r.inTransitions == n.inTransitions + [t]
    ensures |r.inTransitions| == |n.inTransitions| + 1
    ensures r.outTransitions == n.outTransitions
    ensures r.(inTransitions := n.inTransitions) == n
  {
    n.(inTransitions := n.inTransitions + [t])
  }

  /** addOutTransition: appends to the out-transitions, nothing else changes. */
  function AddOutTransition(n: Node, t: nat): (r: Node)
    ensures r.outTransitions == n.outTransitions + [t]
    ensures |r.outTransitions| == |n.outTransitions| + 1
    ensures r.inTransitions == n.inTransitions
    ensures r.(outTransitions := n.outTransitions) == n
  {
    n.(outTransitions := n.outTransitions + [t])
  }

  /** The table has an emission entry for this node's state and residue. */
  ghost predicate HasEmission(p: HMMProbabilities, n: Node)
    reads p
  {
    (n.state, n.residue) in p.emission
  }

  /** logEmissionProbability: the current table's log emission for the node's
      state and residue, failing (map::at) when the table has no such entry. */
  function LogEmissionProbability(p: HMMProbabilities, n: Node): (r: Result<ExtLog>)
    reads p
    requires p.Valid()
    ensures r.Ok? <==> HasEmission(p, n)
    ensures r.Ok? ==> r.value == Log(p.libm, p.emission[(n.state, n.residue)])
    ensures r.Err? ==> r.error == MissingEntry
  {
    p.LogEmissionProbability(n.state, n.residue)
  }

  // ---------------------------------------------------------------------
  // HMMTransition

  /** HMMTransition(start, end, model): stores its two ends.  The C++
      constructor leaves the conditional probability indeterminate; the model
      starts it at the sentinel. */
  function NewTransition(start: NodeRef, end: NodeRef): (t: Transition)
    ensures t.startNode == start && t.endNode == end
  {
    Transition(start, end, Undef)
  }

  /** The states a transition between these two nodes looks up are within
      the table: the end state always, the start state unless the start node
      is the start node. */
  predicate Linkable(start: Node, end: Node) {
    0 <= end.state < MaxStates && (start.residue != StartNodeChar ==> 0 <= start.state < MaxStates)
  }

  /** logProbability: leaving a node whose residue is the start character is
      initiation into the end node's state; any other transition is looked up
      by the two states.  Only the start residue, the two states and the
      table are read. */
  function LogProbability(p: HMMProbabilities, start: Node, end: Node): (r: ExtLog)
    reads p
    requires p.Valid() && Linkable(start, end)
    ensures start.residue == StartNodeChar ==> r == Log(p.libm, p.initiation[end.state])
    ensures start.residue != StartNodeChar ==> r == Log(p.libm, p.transition[start.state][end.state])
  {
    if start.residue == StartNodeChar then p.LogInitiationProbability(end.state)
    else p.LogTransitionProbability(start.state, end.state)
  }

  /** Two transitions whose ends agree on the start residue and the two
      states have the same log probability, whatever their scores. */
  lemma LogProbabilityReadsOnlyStates(p: HMMProbabilities, a: Node, b: Node, a': Node, b': Node)
    requires p.Valid() && Linkable(a, b)
    requires a'.residue == a.residue && a'.state == a.state && b'.state == b.state
    ensures Linkable(a', b') && LogProbability(p, a', b') == LogProbability(p, a, b)
  {
  }

  // ---------------------------------------------------------------------
  // HMMPosition

  /** HMMPosition(): position 0, holding the start node alone. */
  function StartPosition(): (pos: Position)
    ensures pos.id == 0 && |pos.nodes| == 1 && pos.nodes[0] == StartNode()
  {
    Position(0, [StartNode()])
  }

  /** HMMPosition(id, residue, numStates, model): one node per state, in state
      order, all at this position and carrying its residue. */
  method NewPosition(id: int, residue: char, numStates: nat) returns (pos: Position)
    ensures pos.id == id && |pos.nodes| == numStates
    ensures forall j :: 0 <= j < numStates ==> pos.nodes[j] == NewNode(id, j, residue)
  {
    var nodes: seq<Node> := [];
    var state := 0;
    while state < numStates
      invariant 0 <= state <= numStates && |nodes| == state
      invariant forall j :: 0 <= j < state ==> nodes[j] == NewNode(id, j, residue)
    {
      nodes := nodes + [NewNode(id, state, residue)];
      state := state + 1;
    }
    pos := Position(id, nodes);
  }

  /** The index highestScoringNode settles on: the first node, replaced by
      every later node whose weight is strictly greater; `None` (null) only
      when there are no nodes. */
  function FirstHighest(nodes: seq<Node>): (r: Option<nat>)
    ensures r.None? <==> |nodes| == 0
    ensures r.Some? ==> r.value < |nodes|
    ensures r.Some? ==> forall j :: 0 <= j < |nodes| ==>
      !Greater(nodes[j].highestWeight, nodes[r.value].highestWeight)
    ensures r.Some? ==> forall j :: 0 <= j < r.value ==>
      Greater(nodes[r.value].highestWeight, nodes[j].highestWeight)
  {
    if |nodes| == 0 then None
    else
      var b := FirstHighest(nodes[..|nodes| - 1]);
      if b.None? then Some(0)
      else if Greater(nodes[|nodes| - 1].highestWeight, nodes[b.value].highestWeight) then Some(|nodes| - 1)
      else b
  }

  /** highestScoringNode: the node of greatest weight, the first of them on
      a tie (the test is a strict `>`). */
  method HighestScoringNode(pos: Position) returns (r: Option<nat>)
    ensures r == FirstHighest(pos.nodes)
  {
    r := None;
    var i := 0;
    while i < |pos.nodes|
      invariant 0 <= i <= |pos.nodes|
      invariant r == FirstHighest(pos.nodes[..i])
    {
      assert pos.nodes[..i + 1][..i] == pos.nodes[..i];
      if r.None? {
        r := Some(i);
      } else if Greater(pos.nodes[i].highestWeight, pos.nodes[r.value].highestWeight) {
        r := Some(i);
      }
      i := i + 1;
    }
    assert pos.nodes[..i] == pos.nodes;
  }
}
