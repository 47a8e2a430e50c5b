/** The backward walk along the Viterbi back-pointers, over the arena of
    positions.  Both gatherViterbiResults and pathStatesResultsString start at
    the highest-scoring node of the last position and follow
    highestWeightPreviousNode until they reach a node whose residue is the
    start character. */
module Walk {
  import opened Outcomes
  import opened Trellis
  import opened Counting
  import opened Segments

  predicate ValidRef(model: seq<Position>, r: NodeRef) {
    r.position < |model| && r.index < |model[r.position].nodes|
  }

  function At(model: seq<Position>, r: NodeRef): Node
    requires ValidRef(model, r)
  {
    model[r.position].nodes[r.index]
  }

  /** Every back-pointer leads to a node of the position just before; nodes
      of position 0 have none. */
  ghost predicate PointersBack(model: seq<Position>) {
    forall k, j :: 0 <= k < |model| && 0 <= j < |model[k].nodes| && model[k].nodes[j].highestWeightPreviousNode.Some? ==>
      k >= 1 && model[k].nodes[j].highestWeightPreviousNode.value.position == k - 1 &&
      model[k].nodes[j].highestWeightPreviousNode.value.index < |model[k - 1].nodes|
  }

  /** The nodes the walk visits from `r`, in order, before it reaches a start
      residue; a null back-pointer on the way is a failure. */
  function WalkFrom(model: seq<Position>, r: NodeRef): (res: Result<seq<NodeRef>>)
    requires PointersBack(model) && ValidRef(model, r)
    ensures res.Err? ==> res.error == NullBackPointer
    ensures res.Ok? ==> |res.value| <= r.position
    ensures res.Ok? ==> forall i :: 0 <= i < |res.value| ==>
      res.value[i].position == r.position - i && ValidRef(model, res.value[i]) &&
      At(model, res.value[i]).residue != StartNodeChar
    decreases r.position
  {
    var n := At(model, r);
    if n.residue == StartNodeChar then Ok([])
    else if n.highestWeightPreviousNode.None? then Err(NullBackPointer)
    else
      var rest := WalkFrom(model, n.highestWeightPreviousNode.value);
      if rest.Err? then rest else Ok([r] + rest.value)
  }

  /** Unless a residue of the sequence is the start character itself, a
      successful walk visits exactly one node at every position from r's down
      to 1. */
  lemma {:induction false} WalkVisitsEveryPosition(model: seq<Position>, r: NodeRef)
    requires PointersBack(model) && ValidRef(model, r)
    requires forall k, j :: 1 <= k <= r.position && 0 <= j < |model[k].nodes| ==>
      model[k].nodes[j].residue != StartNodeChar
    ensures WalkFrom(model, r).Ok? ==> |WalkFrom(model, r).value| == r.position
    decreases r.position
  {
    var n := At(model, r);
    if n.residue != StartNodeChar && n.highestWeightPreviousNode.Some? {
      WalkVisitsEveryPosition(model, n.highestWeightPreviousNode.value);
    }
  }

  /** The visited nodes' ids and states. */
  function StepsOf(model: seq<Position>, v: seq<NodeRef>): (w: seq<Step>)
    requires forall i :: 0 <= i < |v| ==> ValidRef(model, v[i])
    ensures |w| == |v|
    ensures forall i :: 0 <= i < |v| ==> w[i] == Step(At(model, v[i]).id, At(model, v[i]).state)
  {
    if v == [] then []
    else StepsOf(model, v[..|v| - 1]) + [Step(At(model, v[|v| - 1]).id, At(model, v[|v| - 1]).state)]
  }

  /** Every node carries its position's index as id. */
  ghost predicate IdsArePositions(model: seq<Position>) {
    forall k, j :: 0 <= k < |model| && 0 <= j < |model[k].nodes| ==> model[k].nodes[j].id == k
  }

  /** So the visited ids step down one at a time from the walk's start. */
  lemma WalkDescends(model: seq<Position>, r: NodeRef)
    requires PointersBack(model) && ValidRef(model, r) && IdsArePositions(model)
    requires WalkFrom(model, r).Ok?
    ensures Descending(StepsOf(model, WalkFrom(model, r).value), r.position)
  {
  }

  /** The states along the path in positional order (pathStatesResultsString
      writes them while walking and then reverses the text). */
  function PathStates(model: seq<Position>, v: seq<NodeRef>): (ps: seq<int>)
    requires forall i :: 0 <= i < |v| ==> ValidRef(model, v[i])
  {
    Reverse(States(StepsOf(model, v)))
  }

  /** For a walk from the last position T that visits every position,
      entry i of the path states is the state of the node visited at
      position i + 1. */
  lemma PathStatesArePositional(model: seq<Position>, r: NodeRef)
    requires PointersBack(model) && ValidRef(model, r)
    requires WalkFrom(model, r).Ok? && |WalkFrom(model, r).value| == r.position
    ensures var v := WalkFrom(model, r).value;
      |PathStates(model, v)| == r.position &&
      forall i :: 0 <= i < r.position ==>
        v[r.position - 1 - i].position == i + 1 &&
        PathStates(model, v)[i] == At(model, v[r.position - 1 - i]).state
  {
    PositionalStates(model, WalkFrom(model, r).value, r.position);
  }

  lemma PositionalStates(model: seq<Position>, v: seq<NodeRef>, top: nat)
    requires |v| == top
    requires forall i :: 0 <= i < |v| ==> ValidRef(model, v[i]) && v[i].position == top - i
    ensures |PathStates(model, v)| == top
    ensures forall i :: 0 <= i < top ==>
      v[top - 1 - i].position == i + 1 && PathStates(model, v)[i] == At(model, v[top - 1 - i]).state
  {
    var ss := States(StepsOf(model, v));
    var path := PathStates(model, v);
    assert path == Reverse(ss) && |ss| == top;
    forall i | 0 <= i < top
      ensures v[top - 1 - i].position == i + 1
      ensures path[i] == At(model, v[top - 1 - i]).state
    {
      var k := top - 1 - i;
      assert path[i] == ss[k];
      assert ss[k] == StepsOf(model, v)[k].state;
    }
  }
}
