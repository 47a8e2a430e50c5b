/** The backward walk of gatherViterbiResults: from the end of the highest
    scoring path, follow the back-pointers down to the start node, counting
    states, runs and adjacent pairs into an HMMViterbiResults and pushing
    one (first, last) segment per maximal run of a state. */
module Gathering {
  import opened Outcomes
  import opened Trellis
  import opened Counting
  import opened Segments
  import opened Walk
  import opened ViterbiResults
  import opened Probabilities
  import opened WalkState

  lemma StepsSnoc(model: seq<Position>, v: seq<NodeRef>, r: NodeRef)
    requires forall i :: 0 <= i < |v| ==> ValidRef(model, v[i])
    requires ValidRef(model, r)
    ensures StepsOf(model, v + [r]) == StepsOf(model, v) + [Step(At(model, r).id, At(model, r).state)]
  {
    assert (v + [r])[..|v|] == v;
  }

  lemma StatesSnoc(w: seq<Step>, x: Step)
    ensures States(w + [x]) == States(w) + [x.state]
  {
    assert (w + [x])[..|w|] == w;
  }

  /** One step of Runs: a step in the state of the open run extends it down
      to its id, any other step opens a new run. */
  function RunsNext(runs: seq<Run>, x: Step): seq<Run> {
    if runs != [] && runs[|runs| - 1].state == x.state then runs[..|runs| - 1] + [runs[|runs| - 1].(first := x.id)]
    else runs + [Run(x.state, x.id, x.id)]
  }

  lemma RunsSnoc(w: seq<Step>, x: Step)
    ensures Runs(w + [x]) == RunsNext(Runs(w), x)
  {
    assert (w + [x])[..|w|] == w;
  }

  /** One round of the loop for the visited node x: count its state, open a
      new segment (pushing the previous one) when the state changes, and
      count the pair it forms with the node visited before it. */
  method Visit(res: HMMViterbiResults, ghost ws: seq<int>, ghost runs: seq<Run>, x: Step, previousState: int, seg: (int, int))
    returns (previousState': int, seg': (int, int))
    requires CountsHold(res, ws) && SegmentsHold(res, runs, previousState, seg.1)
    requires 0 <= x.state < res.numStates && x.id >= 0
    requires ws == [] <==> runs == []
    requires runs != [] ==> runs[|runs| - 1].first == x.id + 1 && ws[|ws| - 1] == runs[|runs| - 1].state
    requires InRange(ws, res.numStates)
    modifies res
    ensures CountsHold(res, ws + [x.state]) && SegmentsHold(res, RunsNext(runs, x), previousState', seg'.1)
    ensures res.probabilities == old(res.probabilities)
  {
    var currentState := x.state;
    CountState(res, ws, currentState);
    if currentState != previousState {
      seg' := PushSegment(res, runs, x, previousState, seg);
      CountRunStart(res, ws, currentState);
    } else {
      seg' := seg;
      KeepRunStarts(res, ws, currentState);
    }
    if previousState >= 0 {
      CountPair(res, ws, currentState, previousState);
    } else {
      KeepPairs(res, ws, currentState);
    }
    previousState' := currentState;
  }

  /** A change of state: the open segment gets its first position and is
      pushed under the state before, and a new segment opens at x. */
  method PushSegment(res: HMMViterbiResults, ghost runs: seq<Run>, x: Step, previousState: int, seg: (int, int))
    returns (seg': (int, int))
    requires SegmentsHold(res, runs, previousState, seg.1) && x.state != previousState && x.id >= 0
    requires runs != [] ==> runs[|runs| - 1].first == x.id + 1
    modifies res
    ensures SegmentsHold(res, RunsNext(runs, x), x.state, seg'.1)
    ensures res.stateCounts == old(res.stateCounts) && res.segmentCounts == old(res.segmentCounts)
    ensures res.transitionCounts == old(res.transitionCounts) && res.probabilities == old(res.probabilities)
  {
    seg' := (x.id + 1, seg.1);
    if seg'.1 != -1 {
      assert runs != [];
      ghost var init, last := runs[..|runs| - 1], runs[|runs| - 1];
      assert last.state == previousState && (last.first, last.last) == seg';
      res.segments := AddSegment(res.segments, previousState, seg');
      assert res.segments == Group(runs) by {
        assert runs == init + [last];
        GroupSnoc(init, last);
      }
    }
    seg' := (x.id, x.id);
    ghost var next := Run(x.state, x.id, x.id);
    assert RunsNext(runs, x) == runs + [next];
    assert (runs + [next])[..|runs|] == runs;
  }

  /** results->stateCounts[currentState]++ */
  method CountState(res: HMMViterbiResults, ghost ws: seq<int>, s: int)
    requires res.Shaped() && 0 <= s < res.numStates
    requires forall t :: 0 <= t < res.numStates ==> res.stateCounts[t] == Count(ws, t)
    modifies res
    ensures res.Shaped()
    ensures forall t :: 0 <= t < res.numStates ==> res.stateCounts[t] == Count(ws + [s], t)
    ensures res.segmentCounts == old(res.segmentCounts) && res.transitionCounts == old(res.transitionCounts)
    ensures res.segments == old(res.segments) && res.probabilities == old(res.probabilities)
  {
    assert (ws + [s])[..|ws|] == ws;
    res.stateCounts := res.stateCounts[s := res.stateCounts[s] + 1];
  }

  /** results->segmentCounts[currentState]++, when the state differs from the
      one visited before. */
  method CountRunStart(res: HMMViterbiResults, ghost ws: seq<int>, s: int)
    requires res.Shaped() && 0 <= s < res.numStates && (ws == [] || ws[|ws| - 1] != s)
    requires forall t :: 0 <= t < res.numStates ==> res.segmentCounts[t] == RunStarts(ws, t)
    modifies res
    ensures res.Shaped()
    ensures forall t :: 0 <= t < res.numStates ==> res.segmentCounts[t] == RunStarts(ws + [s], t)
    ensures res.stateCounts == old(res.stateCounts) && res.transitionCounts == old(res.transitionCounts)
    ensures res.segments == old(res.segments) && res.probabilities == old(res.probabilities)
  {
    assert (ws + [s])[..|ws|] == ws;
    res.segmentCounts := res.segmentCounts[s := res.segmentCounts[s] + 1];
  }

  /** A step in the state of the step before starts no run. */
  lemma KeepRunStarts(res: HMMViterbiResults, ws: seq<int>, s: int)
    requires res.Shaped() && ws != [] && ws[|ws| - 1] == s
    requires forall t :: 0 <= t < res.numStates ==> res.segmentCounts[t] == RunStarts(ws, t)
    ensures forall t :: 0 <= t < res.numStates ==> res.segmentCounts[t] == RunStarts(ws + [s], t)
  {
    assert (ws + [s])[..|ws|] == ws;
  }

  /** results->transitionCounts[currentState][previousState]++, from the
      second visited node on. */
  method CountPair(res: HMMViterbiResults, ghost ws: seq<int>, a: int, b: int)
    requires res.Shaped() && 0 <= a < res.numStates && 0 <= b < res.numStates
    requires ws != [] && ws[|ws| - 1] == b
    requires forall a', b' :: 0 <= a' < res.numStates && 0 <= b' < res.numStates ==>
      res.transitionCounts[a'][b'] == PairCount(ws, a', b')
    modifies res
    ensures res.Shaped()
    ensures forall a', b' :: 0 <= a' < res.numStates && 0 <= b' < res.numStates ==>
      res.transitionCounts[a'][b'] == PairCount(ws + [a], a', b')
    ensures res.stateCounts == old(res.stateCounts) && res.segmentCounts == old(res.segmentCounts)
    ensures res.segments == old(res.segments) && res.probabilities == old(res.probabilities)
  {
    assert (ws + [a])[..|ws|] == ws;
    res.transitionCounts := res.transitionCounts[a := res.transitionCounts[a][b := res.transitionCounts[a][b] + 1]];
  }

  /** The first visited node forms no pair. */
  lemma KeepPairs(res: HMMViterbiResults, ws: seq<int>, a: int)
    requires res.Shaped() && ws == []
    requires forall a', b' :: 0 <= a' < res.numStates && 0 <= b' < res.numStates ==>
      res.transitionCounts[a'][b'] == PairCount(ws, a', b')
    ensures forall a', b' :: 0 <= a' < res.numStates && 0 <= b' < res.numStates ==>
      res.transitionCounts[a'][b'] == PairCount(ws + [a], a', b')
  {
  }

  /** After the walk the last segment is pushed with 1 as its first position:
      the segments map is then the pushed runs grouped by state. */
  lemma LastSegmentPushed(res: HMMViterbiResults, w: seq<Step>, previousState: int, second: int)
    requires SegmentsHold(res, Runs(w), previousState, second)
    ensures AddSegment(res.segments, previousState, (1, second)) == Group(Pushes(w))
  {
    if w == [] {
      assert Pushes(w) == [] + [Run(-1, 1, -1)];
      GroupSnoc([], Run(-1, 1, -1));
    } else {
      var runs := Runs(w);
      GroupSnoc(runs[..|runs| - 1], runs[|runs| - 1].(first := 1));
    }
  }

  /** One step of the walk: the node `cur` joins the visited ones and the
      walk goes on from its back-pointer. */
  lemma WalkAdvance(model: seq<Position>, start: NodeRef, visited: seq<NodeRef>, cur: NodeRef)
    requires PointersBack(model) && ValidRef(model, start) && ValidRef(model, cur)
    requires WalkFrom(model, start) == Prepend(visited, WalkFrom(model, cur))
    requires At(model, cur).residue != StartNodeChar && At(model, cur).highestWeightPreviousNode.Some?
    ensures WalkFrom(model, start) ==
      Prepend(visited + [cur], WalkFrom(model, At(model, cur).highestWeightPreviousNode.value))
  {
    var rest := WalkFrom(model, At(model, cur).highestWeightPreviousNode.value);
    WalkUnfolds(model, cur);
    PrependTwice(visited, [cur], rest);
  }

  /** The walk from a node that is not the start node and has a back-pointer
      is that node followed by the walk from its back-pointer. */
  lemma WalkUnfolds(model: seq<Position>, cur: NodeRef)
    requires PointersBack(model) && ValidRef(model, cur)
    requires At(model, cur).residue != StartNodeChar && At(model, cur).highestWeightPreviousNode.Some?
    ensures WalkFrom(model, cur) == Prepend([cur], WalkFrom(model, At(model, cur).highestWeightPreviousNode.value))
  {
  }

  lemma PrependTwice(a: seq<NodeRef>, b: seq<NodeRef>, rest: Result<seq<NodeRef>>)
    ensures Prepend(a, Prepend(b, rest)) == Prepend(a + b, rest)
  {
    if rest.Ok? {
      assert a + (b + rest.value) == (a + b) + rest.value;
    }
  }

  /** The loop of gatherViterbiResults from the node `start`, into freshly
      constructed results; a null back-pointer on the way fails.  On success
      the results hold the counts of the visited states and the segments of
      the pushed runs, grouped by state. */
  method WalkPath(model: seq<Position>, start: NodeRef, res: HMMViterbiResults) returns (r: Result<()>)
    requires PointersBack(model) && IdsArePositions(model) && ValidRef(model, start)
    requires StatesInRange(model, res.numStates) && CountsHold(res, []) && SegmentsHold(res, [], -1, -1)
    modifies res
    ensures r.Err? <==> WalkFrom(model, start).Err?
    ensures r.Err? ==> r.error == NullBackPointer
    ensures res.probabilities == old(res.probabilities)
    ensures r.Ok? ==> var w := StepsOf(model, WalkFrom(model, start).value);
      CountsHold(res, States(w)) && res.segments == Group(Pushes(w)) && InRange(States(w), res.numStates)
  {
    var cur := start;
    ghost var visited: seq<NodeRef> := [];
    ghost var w: seq<Step> := [];
    ghost var ws: seq<int> := [];
    ghost var runs: seq<Run> := [];
    var previousState := -1;
    var currentSegment := (-1, -1);
    WalkedStart(model, start, res.numStates);
    while At(model, cur).residue != StartNodeChar
      invariant Walked(model, start, visited, cur, w, ws, runs, res.numStates)
      invariant CountsHold(res, ws) && SegmentsHold(res, runs, previousState, currentSegment.1)
      invariant res.probabilities == old(res.probabilities)
      decreases cur.position
    {
      var node := At(model, cur);
      if node.highestWeightPreviousNode.None? {
        WalkedFails(model, start, visited, cur, w, ws, runs, res.numStates);
        return Err(NullBackPointer);
      }
      cur, previousState, currentSegment, visited, w, ws, runs :=
        Advance(model, start, res, cur, previousState, currentSegment, visited, w, ws, runs);
    }
    WalkedEnds(model, start, visited, cur, w, ws, runs, res.numStates);
    LastSegmentPushed(res, w, previousState, currentSegment.1);
    currentSegment := (1, currentSegment.1);
    res.segments := AddSegment(res.segments, previousState, currentSegment);
    assert CountsHold(res, ws) && InRange(ws, res.numStates) && res.segments == Group(Pushes(w));
    r := Ok(());
  }

  /** One round of the loop of gatherViterbiResults at the node `cur`, which
      has a back-pointer: visit it and move to the node it points to. */
  method Advance(model: seq<Position>, ghost start: NodeRef, res: HMMViterbiResults, cur: NodeRef,
                 previousState: int, seg: (int, int),
                 ghost visited: seq<NodeRef>, ghost w: seq<Step>, ghost ws: seq<int>, ghost runs: seq<Run>)
    returns (cur': NodeRef, previousState': int, seg': (int, int),
             ghost visited': seq<NodeRef>, ghost w': seq<Step>, ghost ws': seq<int>, ghost runs': seq<Run>)
    requires Walked(model, start, visited, cur, w, ws, runs, res.numStates)
    requires CountsHold(res, ws) && SegmentsHold(res, runs, previousState, seg.1)
    requires At(model, cur).residue != StartNodeChar && At(model, cur).highestWeightPreviousNode.Some?
    modifies res
    ensures Walked(model, start, visited', cur', w', ws', runs', res.numStates)
    ensures CountsHold(res, ws') && SegmentsHold(res, runs', previousState', seg'.1)
    ensures res.probabilities == old(res.probabilities)
    ensures cur'.position < cur.position
  {
    var node := At(model, cur);
    var x := Step(node.id, node.state);
    WalkedStep(model, start, visited, cur, w, ws, runs, res.numStates);
    previousState', seg' := Visit(res, ws, runs, x, previousState, seg);
    visited', w', ws', runs' := visited + [cur], w + [x], ws + [x.state], RunsNext(runs, x);
    cur' := node.highestWeightPreviousNode.value;
  }

  lemma WalkedStart(model: seq<Position>, start: NodeRef, n: nat)
    requires PointersBack(model) && IdsArePositions(model) && StatesInRange(model, n) && ValidRef(model, start)
    ensures Walked(model, start, [], start, [], [], [], n)
  {
    assert WalkFrom(model, start).Ok? ==> [] + WalkFrom(model, start).value == WalkFrom(model, start).value;
  }

  /** A node without a back-pointer ends the walk in failure. */
  lemma WalkedFails(model: seq<Position>, start: NodeRef, visited: seq<NodeRef>, cur: NodeRef,
                    w: seq<Step>, ws: seq<int>, runs: seq<Run>, n: nat)
    requires Walked(model, start, visited, cur, w, ws, runs, n)
    requires At(model, cur).residue != StartNodeChar && At(model, cur).highestWeightPreviousNode.None?
    ensures WalkFrom(model, start).Err?
  {
  }

  /** Reaching the start residue ends the walk with exactly the visited nodes. */
  lemma WalkedEnds(model: seq<Position>, start: NodeRef, visited: seq<NodeRef>, cur: NodeRef,
                   w: seq<Step>, ws: seq<int>, runs: seq<Run>, n: nat)
    requires Walked(model, start, visited, cur, w, ws, runs, n) && At(model, cur).residue == StartNodeChar
    ensures WalkFrom(model, start) == Ok(visited)
    ensures w == StepsOf(model, WalkFrom(model, start).value) && ws == States(w) && runs == Runs(w)
  {
    assert visited + [] == visited;
  }

  /** One round of the walk: what Visit needs of the node `cur`, and the
      walk state after it. */
  lemma WalkedStep(model: seq<Position>, start: NodeRef, visited: seq<NodeRef>, cur: NodeRef,
                   w: seq<Step>, ws: seq<int>, runs: seq<Run>, n: nat)
    requires Walked(model, start, visited, cur, w, ws, runs, n)
    requires At(model, cur).residue != StartNodeChar && At(model, cur).highestWeightPreviousNode.Some?
    ensures var x := Step(At(model, cur).id, At(model, cur).state);
      && 0 <= x.state < n && x.id >= 0
      && (ws == [] <==> runs == [])
      && (runs != [] ==> runs[|runs| - 1].first == x.id + 1 && ws[|ws| - 1] == runs[|runs| - 1].state)
      && Walked(model, start, visited + [cur], At(model, cur).highestWeightPreviousNode.value,
                w + [x], ws + [x.state], RunsNext(runs, x), n)
  {
    var node := At(model, cur);
    var x := Step(node.id, node.state);
    assert x.id == cur.position;
    if visited != [] {
      assert w[|w| - 1].id == At(model, visited[|visited| - 1]).id;
    }
    WalkedNext(model, start, visited, cur, w, ws, runs, n);
  }

  lemma WalkedNext(model: seq<Position>, start: NodeRef, visited: seq<NodeRef>, cur: NodeRef,
                   w: seq<Step>, ws: seq<int>, runs: seq<Run>, n: nat)
    requires Walked(model, start, visited, cur, w, ws, runs, n)
    requires At(model, cur).residue != StartNodeChar && At(model, cur).highestWeightPreviousNode.Some?
    ensures var x := Step(At(model, cur).id, At(model, cur).state);
      Walked(model, start, visited + [cur], At(model, cur).highestWeightPreviousNode.value,
             w + [x], ws + [x.state], RunsNext(runs, x), n)
  {
    var node := At(model, cur);
    var x := Step(node.id, node.state);
    var next := node.highestWeightPreviousNode.value;
    var visited' := visited + [cur];
    assert ValidRef(model, next) && next.position == start.position - |visited'|;
    assert WalkFrom(model, start) == Prepend(visited', WalkFrom(model, next)) by {
      WalkAdvance(model, start, visited, cur);
    }
    assert StepsOf(model, visited') == w + [x] by {
      StepsSnoc(model, visited, cur);
    }
    assert States(w + [x]) == ws + [x.state] by {
      StatesSnoc(w, x);
    }
    assert Runs(w + [x]) == RunsNext(runs, x) by {
      RunsSnoc(w, x);
    }
    assert forall i :: 0 <= i < |visited'| ==> ValidRef(model, visited'[i]) && visited'[i].position == start.position - i by {
      VisitedSnoc(model, start, visited, cur);
    }
    assert InRange(ws + [x.state], n) by {
      InRangeSnoc(ws, x.state, n);
    }
    WalkedIntro(model, start, visited', next, w + [x], ws + [x.state], RunsNext(runs, x), n);
  }

  /** Walked, assembled from its parts. */
  lemma WalkedIntro(model: seq<Position>, start: NodeRef, visited: seq<NodeRef>, cur: NodeRef,
                    w: seq<Step>, ws: seq<int>, runs: seq<Run>, n: nat)
    requires PointersBack(model) && IdsArePositions(model) && StatesInRange(model, n)
    requires ValidRef(model, start) && ValidRef(model, cur) && cur.position == start.position - |visited|
    requires forall i :: 0 <= i < |visited| ==> ValidRef(model, visited[i]) && visited[i].position == start.position - i
    requires WalkFrom(model, start) == Prepend(visited, WalkFrom(model, cur))
    requires w == StepsOf(model, visited) && ws == States(w) && runs == Runs(w)
    requires InRange(ws, n)
    ensures Walked(model, start, visited, cur, w, ws, runs, n)
  {
  }

  lemma VisitedSnoc(model: seq<Position>, start: NodeRef, visited: seq<NodeRef>, cur: NodeRef)
    requires ValidRef(model, cur) && cur.position == start.position - |visited|
    requires forall i :: 0 <= i < |visited| ==> ValidRef(model, visited[i]) && visited[i].position == start.position - i
    ensures forall i :: 0 <= i < |visited + [cur]| ==>
      ValidRef(model, (visited + [cur])[i]) && (visited + [cur])[i].position == start.position - i
  {
  }

  lemma InRangeSnoc(ws: seq<int>, x: int, n: nat)
    requires InRange(ws, n) && 0 <= x < n
    ensures InRange(ws + [x], n)
  {
  }

  /** For a walk from position T that reaches position 1: the state counts
      add up to T, the pair counts to T - 1, there is one segment per run
      of a state, and the segments tile 1 .. T from the top down. */
  lemma FullWalkSummary(w: seq<Step>, n: nat, stateCounts: seq<int>, segmentCounts: seq<int>, transitionCounts: seq<seq<int>>)
    requires w != [] && Descending(w, |w|) && InRange(States(w), n)
    requires |stateCounts| == n && |segmentCounts| == n && |transitionCounts| == n
    requires forall a :: 0 <= a < n ==> |transitionCounts[a]| == n
    requires forall s :: 0 <= s < n ==>
      stateCounts[s] == Count(States(w), s) && segmentCounts[s] == RunStarts(States(w), s)
    requires forall a, b :: 0 <= a < n && 0 <= b < n ==> transitionCounts[a][b] == PairCount(States(w), a, b)
    ensures Total(stateCounts) == |w| && Total2(transitionCounts) == |w| - 1
    ensures forall s :: 0 <= s < n ==> segmentCounts[s] == CountRuns(Pushes(w), s)
    ensures Tiles(Pushes(w), |w|, 1)
  {
    CountsAddUp(States(w), n, stateCounts);
    PairCountsAddUp(States(w), n, transitionCounts);
    PushesOfFullWalk(w);
    forall s | 0 <= s < n
      ensures segmentCounts[s] == CountRuns(Pushes(w), s)
    {
      RunsCountStarts(w, s);
    }
  }

  /** The results one iteration of Viterbi training gathers from the walk
      w over a trellis scored with the table prev: its iteration number, the
      counts of the walk's states, runs and pairs, its segments, and a table
      with the previous initiation (states from 1 on) and emissions and the
      transition ratios among states from 1 on; state 0 keeps the empty
      table's zeros. */
  ghost predicate Gathered(res: HMMViterbiResults, iteration: int, w: seq<Step>, prev: HMMProbabilities)
    reads res, res.probabilities, prev
  {
    var ws := States(w);
    && res.iteration == iteration && res.numStates == NumStates
    && CountsHold(res, ws) && res.segments == Group(Pushes(w)) && InRange(ws, NumStates)
    && prev.Valid() && (forall s :: 1 <= s < NumStates ==> Count(ws, s) > 0)
    && res.probabilities.Valid() && res.probabilities.libm == prev.libm
    && res.probabilities.emission == prev.emission
    && (forall s :: 0 <= s < MaxStates ==>
          res.probabilities.initiation[s] == if 1 <= s < NumStates then prev.initiation[s] else 0.0)
    && (forall i, j :: 0 <= i < MaxStates && 0 <= j < MaxStates ==>
          res.probabilities.transition[i][j] ==
            if 1 <= i < NumStates && 1 <= j < NumStates
            then PairCount(ws, i, j) as real / Count(ws, i) as real
            else 0.0)
  }
}
