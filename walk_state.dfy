/** What the loop of gatherViterbiResults keeps true while it walks: the
    part of the walk already done, and the counts and segments gathered from
    it. */
module WalkState {
  import opened Outcomes
  import opened Trellis
  import opened Counting
  import opened Segments
  import opened Walk
  import opened ViterbiResults

  /** The walk from `start` is the nodes already visited followed by the
      walk from `cur`. */
  function Prepend(visited: seq<NodeRef>, rest: Result<seq<NodeRef>>): Result<seq<NodeRef>> {
    if rest.Err? then rest else Ok(visited + rest.value)
  }

  /** The counts gathered from the visited states ws. */
  ghost predicate CountsHold(res: HMMViterbiResults, ws: seq<int>)
    reads res`stateCounts, res`segmentCounts, res`transitionCounts
  {
    && res.Shaped()
    && (forall s :: 0 <= s < res.numStates ==>
          res.stateCounts[s] == Count(ws, s) && res.segmentCounts[s] == RunStarts(ws, s))
    && (forall a, b :: 0 <= a < res.numStates && 0 <= b < res.numStates ==>
          res.transitionCounts[a][b] == PairCount(ws, a, b))
  }

  /** The segment state after the runs so far: none yet, or the state of
      the open run in previousState, its top position in `second`, and the
      closed runs grouped by state in the segments map. */
  ghost predicate SegmentsHold(res: HMMViterbiResults, runs: seq<Run>, previousState: int, second: int)
    reads res`segments
  {
    && (runs == [] ==> previousState == -1 && second == -1 && res.segments == map[])
    && (runs != [] ==>
          && previousState == runs[|runs| - 1].state
          && second == runs[|runs| - 1].last && second != -1
          && res.segments == Group(runs[..|runs| - 1]))
  }

  /** Every node the walk can visit is in one of the results' states. */
  ghost predicate StatesInRange(model: seq<Position>, n: nat) {
    forall k, j :: 0 <= k < |model| && 0 <= j < |model[k].nodes| && model[k].nodes[j].residue != StartNodeChar ==>
      0 <= model[k].nodes[j].state < n
  }

  /** The walk from `start` has visited the nodes `visited`, whose ids and
      states are `w`, states `ws` and runs `runs`, and is now at `cur`. */
  ghost predicate Walked(model: seq<Position>, start: NodeRef, visited: seq<NodeRef>, cur: NodeRef,
                         w: seq<Step>, ws: seq<int>, runs: seq<Run>, n: nat)
  {
    && PointersBack(model) && IdsArePositions(model) && StatesInRange(model, n)
    && ValidRef(model, start) && ValidRef(model, cur) && cur.position == start.position - |visited|
    && (forall i :: 0 <= i < |visited| ==> ValidRef(model, visited[i]) && visited[i].position == start.position - i)
    && WalkFrom(model, start) == Prepend(visited, WalkFrom(model, cur))
    && w == StepsOf(model, visited) && ws == States(w) && runs == Runs(w)
    && InRange(ws, n)
  }
}
