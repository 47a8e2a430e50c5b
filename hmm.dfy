/** HiddenMarkovModel: the trellis over the residues of a FASTA sequence, the
    current probability table, and the drivers that build the trellis, run
    the passes over it position by position, walk the Viterbi path and
    re-estimate the table. */
module HiddenMarkov {
  import opened Outcomes
  import opened ExtendedLog
  import opened Probabilities
  import opened Trellis
  import opened Passes
  import opened Walk
  import opened Arena
  import opened Scores
  import opened ViterbiResults
  import opened Counting
  import opened Segments
  import opened Gathering
  import opened WalkState
  import opened Posterior
  import opened BaumWelch
  import opened Fasta

  /** The table has, for every residue of s, the emission of every state. */
  predicate Covers(p: HMMProbabilities, s: seq<char>)
    reads p
  {
    forall i, j :: 0 <= i < |s| && 0 <= j < NumStates ==> (j, s[i]) in p.emission
  }

  /** In a trellis over s, every position from 1 on is covered when s is. */
  lemma CoveredAt(p: HMMProbabilities, ps: seq<Position>, xs: seq<Transition>, s: seq<char>, T: nat, k: nat)
    requires Shape(ps, xs, s, T) && Covers(p, s) && 1 <= k <= T
    ensures Covered(p, ps, k)
  {
    forall j | 0 <= j < |ps[k].nodes|
      ensures HasEmission(p, ps[k].nodes[j])
    {
      assert ps[k].nodes[j].state == j && ps[k].nodes[j].residue == s[k - 1];
    }
  }

  /** A pushed position of fresh nodes adds no back-pointer. */
  lemma PointersBackPushed(ps: seq<Position>, ps': seq<Position>)
    requires PointersBack(ps) && |ps'| == |ps| + 1 && ps'[..|ps|] == ps
    requires forall j :: 0 <= j < |ps'[|ps|].nodes| ==> ps'[|ps|].nodes[j].highestWeightPreviousNode.None?
    ensures PointersBack(ps')
  {
    forall k | 0 <= k < |ps|
      ensures ps'[k] == ps[k]
    {
      assert ps'[..|ps|][k] == ps'[k];
    }
  }

  /** Pushing a position keeps the recurrences below it. */
  lemma ScoredPushed(p: HMMProbabilities, ps: seq<Position>, ps': seq<Position>, viterbi: bool)
    requires Scored(p, ps, viterbi, |ps|) && |ps'| == |ps| + 1 && ps'[..|ps|] == ps
    ensures Scored(p, ps', viterbi, |ps|)
  {
    forall k | 0 <= k < |ps|
      ensures ps'[k] == ps[k]
    {
      assert ps'[..|ps|][k] == ps'[k];
    }
    forall k | 1 <= k < |ps|
      ensures if viterbi then ViterbiHolds(p, ps', k) else ForwardHolds(p, ps', k)
    {
      if viterbi {
        ViterbiHoldsUnchanged(p, ps, ps', k);
      } else {
        assert ps'[k] == ps[k] && ps'[k - 1] == ps[k - 1];
        assert ForwardHolds(p, ps, k);
      }
    }
  }

  /** A pass that rewrites the scores of position k keeps the shape. */
  lemma PassKeepsShape(P0: seq<Position>, ps: seq<Position>, ps': seq<Position>, k: nat)
    requires SameShape(P0, ps) && |ps'| == |ps| && k < |ps|
    requires forall k' :: 0 <= k' < |ps| && k' != k ==> ps'[k'] == ps[k']
    requires ps'[k].id == ps[k].id && |ps'[k].nodes| == |ps[k].nodes|
    requires forall j :: 0 <= j < |ps[k].nodes| ==> SameSkeleton(ps[k].nodes[j], ps'[k].nodes[j])
    ensures SameShape(P0, ps')
  {
    forall k' | 0 <= k' < |P0|
      ensures P0[k'].id == ps'[k'].id && |P0[k'].nodes| == |ps'[k'].nodes|
      ensures forall j :: 0 <= j < |P0[k'].nodes| ==> SameSkeleton(P0[k'].nodes[j], ps'[k'].nodes[j])
    {
      if k' == k {
        forall j | 0 <= j < |P0[k'].nodes|
          ensures SameSkeleton(P0[k'].nodes[j], ps'[k'].nodes[j])
        {
          assert SameSkeleton(P0[k'].nodes[j], ps[k'].nodes[j]);
          assert SameSkeleton(ps[k].nodes[j], ps'[k].nodes[j]);
        }
      } else {
        assert ps'[k'] == ps[k'];
      }
    }
  }

  /** The node both backward walks start from: the first highest-scoring
      node of the last position. */
  function ViterbiEnd(ps: seq<Position>): (r: NodeRef)
    requires |ps| >= 1 && |ps[|ps| - 1].nodes| >= 1
    ensures ValidRef(ps, r) && r.position == |ps| - 1
    ensures r.index == FirstHighest(ps[|ps| - 1].nodes).value
  {
    NodeRef(|ps| - 1, FirstHighest(ps[|ps| - 1].nodes).value)
  }

  /** What the walks need of the trellis: back-pointers that lead one
      position down, ids that are positions, states that are the model's,
      and a node at the last position. */
  ghost predicate Walkable(ps: seq<Position>) {
    && |ps| >= 1 && |ps[|ps| - 1].nodes| >= 1
    && PointersBack(ps) && IdsArePositions(ps) && StatesInRange(ps, NumStates)
  }

  /** `res` is what one iteration of Viterbi training records: `ps` is a
      trellis built on the residues `s` and scored by the Viterbi pass with
      the table `prev`, and `res` holds the results gathered from the walk
      back from the best node of its last position, with the table
      calculated from them. */
  ghost predicate TrainedOn(res: HMMViterbiResults, iteration: int, prev: HMMProbabilities, s: seq<char>, ps: seq<Position>)
    reads res, res.probabilities, prev
  {
    && |ps| == |s| + 1 && NodesShaped(ps, s, |s|)
    && Scored(prev, ps, true, |ps|) && Walkable(ps)
    && var walk := WalkFrom(ps, ViterbiEnd(ps));
       walk.Ok? && Gathered(res, iteration, StepsOf(ps, walk.value), prev)
  }

  /** `rs` is what a run of Viterbi training records, one result per
      iteration: result i comes from iteration i + 1 on the trellis `ts[i]`,
      scored with the table the previous iteration adopted (`p0` for the
      first). */
  ghost predicate TrainedHistory(rs: seq<HMMViterbiResults>, p0: HMMProbabilities, s: seq<char>, ts: seq<seq<Position>>)
    reads set r | r in rs, set r | r in rs :: r.probabilities, p0
  {
    && |ts| == |rs|
    && forall i {:trigger TrellisOf(ts, i)} :: 0 <= i < |rs| ==>
         TrainedOn(rs[i], i + 1, if i == 0 then p0 else rs[i - 1].probabilities, s, TrellisOf(ts, i))
  }

  /** The table a run of Viterbi training leaves current: that of its
      last result, or `p0` when it has none. */
  ghost function LastTable(rs: seq<HMMViterbiResults>, p0: HMMProbabilities): (p: HMMProbabilities)
    reads set r | r in rs
    ensures rs == [] ==> p == p0
    ensures rs != [] ==> p == rs[|rs| - 1].probabilities
  {
    if rs == [] then p0 else rs[|rs| - 1].probabilities
  }

  /** The trellis iteration i + 1 of a run was scored on. */
  ghost function TrellisOf(ts: seq<seq<Position>>, i: int): seq<Position>
    requires 0 <= i < |ts|
  {
    ts[i]
  }

  /** Lengthening a history keeps what it says about its first results. */
  lemma HistoryPrefix(rs: seq<HMMViterbiResults>, p0: HMMProbabilities, s: seq<char>, ts: seq<seq<Position>>,
                      rs': seq<HMMViterbiResults>, ts': seq<seq<Position>>)
    requires TrainedHistory(rs, p0, s, ts) == true
    requires |rs| <= |rs'| && |rs| <= |ts'| && rs'[..|rs|] == rs && ts'[..|rs|] == ts
    ensures forall i {:trigger TrellisOf(ts', i)} :: 0 <= i < |rs| ==>
              TrainedOn(rs'[i], i + 1, if i == 0 then p0 else rs'[i - 1].probabilities, s, TrellisOf(ts', i)) == true
  {
    forall i | 0 <= i < |rs|
      ensures TrainedOn(rs'[i], i + 1, if i == 0 then p0 else rs'[i - 1].probabilities, s, TrellisOf(ts', i)) == true
    {
      assert rs'[i] == rs[i] && TrellisOf(ts', i) == TrellisOf(ts, i);
      assert i > 0 ==> rs'[i - 1] == rs[i - 1];
      assert TrainedOn(rs[i], i + 1, if i == 0 then p0 else rs[i - 1].probabilities, s, TrellisOf(ts, i)) == true;
    }
  }

  /** A further iteration, scored with the table the last one adopted,
      extends the history. */
  lemma HistorySnoc(rs: seq<HMMViterbiResults>, p0: HMMProbabilities, s: seq<char>, ts: seq<seq<Position>>,
                    prev: HMMProbabilities, iteration: int, res: HMMViterbiResults, ps: seq<Position>)
    requires TrainedHistory(rs, p0, s, ts) == true
    requires prev == LastTable(rs, p0)
    requires iteration == |rs| + 1 && TrainedOn(res, iteration, prev, s, ps) == true
    ensures TrainedHistory(rs + [res], p0, s, ts + [ps])
  {
    var rs', ts' := rs + [res], ts + [ps];
    assert rs'[..|rs|] == rs && ts'[..|rs|] == ts;
    HistoryPrefix(rs, p0, s, ts, rs', ts');
    assert rs'[|rs|] == res && TrellisOf(ts', |rs|) == ps;
    assert rs != [] ==> rs'[|rs| - 1] == rs[|rs| - 1];
  }

  /** No node after the start position carries the start residue, so the
      walks only stop at position 0. */
  ghost predicate NoStartResidues(ps: seq<Position>) {
    forall k, j :: 1 <= k < |ps| && 0 <= j < |ps[k].nodes| ==> ps[k].nodes[j].residue != StartNodeChar
  }

  /** A built trellis is walkable; over a sequence without the start
      character it has no start residue after position 0. */
  lemma BuiltWalkable(ps: seq<Position>, xs: seq<Transition>, s: seq<char>, T: nat)
    requires Shape(ps, xs, s, T) && PointersBack(ps)
    ensures Walkable(ps) && |ps| == T + 1
    ensures StartNodeChar !in s ==> NoStartResidues(ps)
  {
    assert StartShaped(ps[0].nodes[0]);
    assert |ps[T].nodes| >= 1;
    forall k, j | 1 <= k <= T && 0 <= j < |ps[k].nodes| && StartNodeChar !in s
      ensures ps[k].nodes[j].residue != StartNodeChar
    {
      assert ps[k].nodes[j].residue == s[k - 1];
    }
  }

  /** The character `ss << state` writes for a one-digit state. */
  function Digit(state: int): (c: char)
    requires 0 <= state < 10
    ensures '0' <= c <= '9' && c as int - '0' as int == state
  {
    ('0' as int + state) as char
  }

  /** gatherViterbiResults over the trellis ps, scored with the table prev:
      walk back from the end of the best path into fresh results, then
      re-estimate their table from prev.  The walk fails on a null
      back-pointer; the re-estimation fails when a state from 1 on never
      occurs on the path.  A path that covers every position makes the state
      counts add up to the number of residues, the pair counts to one less,
      and the segments tile positions 1 .. T. */
  method GatherFrom(ps: seq<Position>, iteration: int, prev: HMMProbabilities) returns (r: Result<HMMViterbiResults>)
    requires Walkable(ps) && prev.Valid() && NumStates <= MaxStates
    ensures r.Ok? ==> fresh(r.value) && fresh(r.value.probabilities)
    ensures var walk := WalkFrom(ps, ViterbiEnd(ps));
      walk.Err? ==> r == Err(NullBackPointer)
    ensures var walk := WalkFrom(ps, ViterbiEnd(ps));
      walk.Ok? ==> var ws := States(StepsOf(ps, walk.value));
        (r.Err? <==> exists s :: 1 <= s < NumStates && Count(ws, s) == 0) &&
        (r.Err? ==> r.error == ZeroStateCount)
    ensures r.Ok? ==> var walk := WalkFrom(ps, ViterbiEnd(ps));
      walk.Ok? && Gathered(r.value, iteration, StepsOf(ps, walk.value), prev)
  {
    var results, walked := WalkBest(ps, iteration, prev.libm);
    if walked.Err? {
      return Err(walked.error);
    }
    ghost var w := StepsOf(ps, WalkFrom(ps, ViterbiEnd(ps)).value);
    var calculated := Reestimate(results, iteration, prev, w);
    if calculated.Err? {
      return Err(calculated.error);
    }
    assert Gathered(results, iteration, w, prev);
    r := Ok(results);
  }

  /** results->calculateProbabilities(prev) on freshly walked results. */
  method Reestimate(results: HMMViterbiResults, iteration: int, prev: HMMProbabilities, ghost w: seq<Step>)
    returns (calculated: Result<()>)
    requires results.iteration == iteration && results.numStates == NumStates && NumStates <= MaxStates
    requires CountsHold(results, States(w)) && results.segments == Group(Pushes(w)) && InRange(States(w), NumStates)
    requires prev.Valid() && results.probabilities.Valid() && results.probabilities.libm == prev.libm
    requires results.probabilities != prev
    requires results.probabilities.initiation == seq(MaxStates, _ => 0.0)
    requires results.probabilities.transition == seq(MaxStates, _ => seq(MaxStates, _ => 0.0))
    modifies results.probabilities
    ensures calculated.Err? <==> exists s :: 1 <= s < NumStates && Count(States(w), s) == 0
    ensures calculated.Err? ==> calculated.error == ZeroStateCount
    ensures calculated.Ok? ==> Gathered(results, iteration, w, prev) && w != []
  {
    ghost var init0 := results.probabilities.initiation;
    ghost var trans0 := results.probabilities.transition;
    calculated := results.CalculateProbabilities(prev);
    assert (calculated.Err? <==> exists s :: 1 <= s < NumStates && Count(States(w), s) == 0) &&
      (calculated.Ok? ==> w != []) by {
      NonZeroCounts(results, States(w));
      assert |States(w)| == |w|;
    }
    if calculated.Ok? {
      GatheredHolds(results, iteration, w, prev);
    }
  }

  /** The first part of gatherViterbiResults: fresh results, and the walk
      from the end of the best path into them. */
  method WalkBest(ps: seq<Position>, iteration: int, m: Libm) returns (results: HMMViterbiResults, walked: Result<()>)
    requires Walkable(ps)
    ensures fresh(results) && fresh(results.probabilities)
    ensures results.iteration == iteration && results.numStates == NumStates
    ensures results.probabilities.Valid() && results.probabilities.libm == m
    ensures results.probabilities.initiation == seq(MaxStates, _ => 0.0)
    ensures results.probabilities.transition == seq(MaxStates, _ => seq(MaxStates, _ => 0.0))
    ensures results.probabilities.emission == map[]
    ensures walked.Err? <==> WalkFrom(ps, ViterbiEnd(ps)).Err?
    ensures walked.Err? ==> walked.error == NullBackPointer
    ensures walked.Ok? ==> var w := StepsOf(ps, WalkFrom(ps, ViterbiEnd(ps)).value);
      CountsHold(results, States(w)) && results.segments == Group(Pushes(w)) && InRange(States(w), NumStates)
  {
    results := new HMMViterbiResults(iteration, NumStates, m);
    var highest := HighestScoringNode(ps[|ps| - 1]);
    var start := NodeRef(|ps| - 1, highest.value);
    assert start == ViterbiEnd(ps);
    walked := WalkPath(ps, start, results);
  }

  /** A walk that covers every position: the counts add up and the
      segments tile positions 1 .. T. */
  lemma FullWalk(ps: seq<Position>, res: HMMViterbiResults, w: seq<Step>)
    requires Walkable(ps) && NoStartResidues(ps)
    requires WalkFrom(ps, ViterbiEnd(ps)).Ok? && w == StepsOf(ps, WalkFrom(ps, ViterbiEnd(ps)).value)
    requires CountsHold(res, States(w)) && res.numStates == NumStates && InRange(States(w), NumStates)
    requires Count(States(w), 1) > 0
    ensures |w| == |ps| - 1 && Total(res.stateCounts) == |w| && Total2(res.transitionCounts) == |w| - 1
    ensures Tiles(Pushes(w), |w|, 1)
  {
    FullWalkSteps(ps);
    HeldSummary(w, res);
  }

  /** The counts held for a walk that descends to position 1 add up. */
  lemma HeldSummary(w: seq<Step>, res: HMMViterbiResults)
    requires w != [] && Descending(w, |w|)
    requires CountsHold(res, States(w)) && res.numStates == NumStates && InRange(States(w), NumStates)
    ensures Total(res.stateCounts) == |w| && Total2(res.transitionCounts) == |w| - 1
    ensures Tiles(Pushes(w), |w|, 1)
  {
    var stateCounts, segmentCounts, transitionCounts := res.stateCounts, res.segmentCounts, res.transitionCounts;
    FullWalkSummary(w, NumStates, stateCounts, segmentCounts, transitionCounts);
  }

  /** The steps of a walk that covers every position descend from T to 1. */
  lemma FullWalkSteps(ps: seq<Position>)
    requires Walkable(ps) && NoStartResidues(ps)
    requires WalkFrom(ps, ViterbiEnd(ps)).Ok?
    ensures var w := StepsOf(ps, WalkFrom(ps, ViterbiEnd(ps)).value);
      |w| == |ps| - 1 && Descending(w, |w|)
  {
    var start := ViterbiEnd(ps);
    WalkVisitsEveryPosition(ps, start);
    WalkDescends(ps, start);
  }

  /** The re-estimation fails exactly when a state from 1 on is missing from the walk. */
  lemma NonZeroCounts(res: HMMViterbiResults, ws: seq<int>)
    requires CountsHold(res, ws) && res.numStates == NumStates
    ensures res.CountsNonZero() <==> forall s :: 1 <= s < NumStates ==> Count(ws, s) > 0
    ensures !res.CountsNonZero() <==> exists s :: 1 <= s < NumStates && Count(ws, s) == 0
    ensures res.CountsNonZero() ==> ws != []
  {
    if res.CountsNonZero() {
      assert res.stateCounts[1] != 0;
    } else {
      var s :| 1 <= s < res.numStates && res.stateCounts[s] == 0;
      assert Count(ws, s) == 0;
    }
  }

  /** The facts the walk and the re-estimation establish make up Gathered. */
  lemma GatheredHolds(res: HMMViterbiResults, iteration: int, w: seq<Step>, prev: HMMProbabilities)
    requires res.iteration == iteration && res.numStates == NumStates && NumStates <= MaxStates
    requires CountsHold(res, States(w)) && res.segments == Group(Pushes(w)) && res.CountsNonZero()
    requires InRange(States(w), NumStates)
    requires prev.Valid() && res.probabilities.Valid() && res.probabilities.libm == prev.libm
    requires res.probabilities.emission == prev.emission
    requires forall s :: 0 <= s < MaxStates ==>
      res.probabilities.initiation[s] == if 1 <= s < NumStates then prev.initiation[s] else 0.0
    requires forall i, j :: 0 <= i < MaxStates && 0 <= j < MaxStates ==>
      res.probabilities.transition[i][j] ==
        if 1 <= i < NumStates && 1 <= j < NumStates
        then res.transitionCounts[i][j] as real / res.stateCounts[i] as real
        else 0.0
    ensures Gathered(res, iteration, w, prev)
  {
  }

  /** pathStatesResultsString over the trellis ps: the states of the best
      path, one digit per visited position, lowest position first (the walk
      writes them from the last position down and the text is then
      reversed).  A path that covers every position gives one digit per
      residue, digit i being the state chosen at position i + 1. */
  method PathStatesFrom(ps: seq<Position>) returns (r: Result<string>)
    requires Walkable(ps) && NumStates <= 10
    ensures var walk := WalkFrom(ps, ViterbiEnd(ps));
      (r.Err? <==> walk.Err?) && (r.Err? ==> r.error == NullBackPointer)
    ensures r.Ok? ==> var v := WalkFrom(ps, ViterbiEnd(ps)).value;
      |r.value| == |v| &&
      forall i :: 0 <= i < |v| ==>
        (0 <= PathStates(ps, v)[i] < NumStates && r.value[i] == Digit(PathStates(ps, v)[i]))
    ensures r.Ok? && NoStartResidues(ps) ==>
      var v := WalkFrom(ps, ViterbiEnd(ps)).value;
      |r.value| == |ps| - 1 &&
      forall i :: 0 <= i < |ps| - 1 ==>
        (v[|ps| - 2 - i].position == i + 1 && r.value[i] == Digit(At(ps, v[|ps| - 2 - i]).state))
  {
    var highest := HighestScoringNode(ps[|ps| - 1]);
    var start := NodeRef(|ps| - 1, highest.value);
    assert start == ViterbiEnd(ps);
    var text := DigitsWalk(ps, start);
    if text.Err? {
      return Err(text.error);
    }
    r := Ok(Reverse(text.value));
    ghost var v := WalkFrom(ps, start).value;
    ReversedDigits(text.value, States(StepsOf(ps, v)));
    if NoStartResidues(ps) {
      WalkVisitsEveryPosition(ps, start);
      PathStatesArePositional(ps, start);
    }
  }

  /** text holds one digit per state of ws, in the same order. */
  ghost predicate DigitsOf(text: string, ws: seq<int>) {
    |text| == |ws| && forall i :: 0 <= i < |ws| ==> 0 <= ws[i] < NumStates <= 10 && text[i] == Digit(ws[i])
  }

  lemma DigitsSnoc(text: string, ws: seq<int>, state: int)
    requires DigitsOf(text, ws) && 0 <= state < NumStates <= 10
    ensures DigitsOf(text + [Digit(state)], ws + [state])
  {
  }

  /** Reversing the text reverses the states it spells. */
  lemma ReversedDigits(text: string, ws: seq<int>)
    requires DigitsOf(text, ws)
    ensures DigitsOf(Reverse(text), Reverse(ws))
  {
    forall i | 0 <= i < |ws|
      ensures 0 <= Reverse(ws)[i] < NumStates && Reverse(text)[i] == Digit(Reverse(ws)[i])
    {
      assert Reverse(text)[i] == text[|ws| - 1 - i];
    }
  }

  /** The loop of pathStatesResultsString: the walk from `start`, writing
      the digit of each visited node's state. */
  method DigitsWalk(ps: seq<Position>, start: NodeRef) returns (r: Result<string>)
    requires Walkable(ps) && ValidRef(ps, start) && NumStates <= 10
    ensures (r.Err? <==> WalkFrom(ps, start).Err?) && (r.Err? ==> r.error == NullBackPointer)
    ensures r.Ok? ==> DigitsOf(r.value, States(StepsOf(ps, WalkFrom(ps, start).value)))
  {
    var cur := start;
    ghost var visited: seq<NodeRef> := [];
    ghost var w: seq<Step> := [];
    ghost var ws: seq<int> := [];
    ghost var runs: seq<Run> := [];
    var text: string := [];
    WalkedStart(ps, start, NumStates);
    while At(ps, cur).residue != StartNodeChar
      invariant Walked(ps, start, visited, cur, w, ws, runs, NumStates)
      invariant DigitsOf(text, ws)
      decreases cur.position
    {
      var node := At(ps, cur);
      if node.highestWeightPreviousNode.None? {
        WalkedFails(ps, start, visited, cur, w, ws, runs, NumStates);
        return Err(NullBackPointer);
      }
      var x := Step(node.id, node.state);
      WalkedStep(ps, start, visited, cur, w, ws, runs, NumStates);
      DigitsSnoc(text, ws, node.state);
      text := text + [Digit(node.state)];
      visited, w, ws, runs := visited + [cur], w + [x], ws + [x.state], RunsNext(runs, x);
      cur := node.highestWeightPreviousNode.value;
    }
    WalkedEnds(ps, start, visited, cur, w, ws, runs, NumStates);
    r := Ok(text);
  }

  class HiddenMarkovModel {
    /** The positions and transitions (the C++ `model` vector). */
    const model: Model
    var probabilities: HMMProbabilities
    var modelBuilt: bool
    var viterbiResults: seq<HMMViterbiResults>

    /** Before the first build the trellis is empty; afterwards it holds one
        position per residue after the start position, fully linked, and
        every back-pointer leads to the position before. */
    ghost predicate Valid()
      reads this, model, probabilities
    {
      && probabilities.Valid()
      && (modelBuilt ==> model.Built() && |model.positions| == |model.sequence| + 1 && PointersBack(model.positions))
      && (!modelBuilt ==> model.positions == [])
    }

    /** HiddenMarkovModel(fastaFile): nothing built yet, and the table is the
        initialProbabilities preset. */
    constructor (s: seq<char>, m: Libm)
      ensures Valid() && fresh(model) && fresh(probabilities)
      ensures model.sequence == s && !modelBuilt && viterbiResults == []
      ensures probabilities.libm == m && probabilities.emission == InitialEmission() && probabilities.Stochastic(2)
    {
      model := new Model(s);
      var p := InitialProbabilities(m);
      probabilities := p;
      modelBuilt := false;
      viterbiResults := [];
    }

    // -------------------------------------------------------------------
    // buildAndCalculateModel

    /** One round of the first build: push the position of the next residue,
        link it to the position before, and run the Viterbi or the forward
        pass on it. */
    method ExtendModel(p: HMMProbabilities, viterbi: bool)
      requires model.Built() && |model.positions| <= |model.sequence| && PointersBack(model.positions)
      requires p.Valid() && Covers(p, model.sequence)
      requires Scored(p, model.positions, viterbi, |model.positions|)
      modifies model
      ensures model.Built() && |model.positions| == |old(model.positions)| + 1 && PointersBack(model.positions)
      ensures Scored(p, model.positions, viterbi, |model.positions|)
    {
      var k := |model.positions|;
      ghost var P0 := model.positions;
      model.AddPosition();
      ghost var P1 := model.positions;
      assert PointersBack(P1) && Scored(p, P1, viterbi, k) by {
        PointersBackPushed(P0, P1);
        ScoredPushed(p, P0, P1, viterbi);
      }
      model.CreateTransitionsFor(k);
      ghost var P2 := model.positions;
      assert PointersBack(P2) && Scored(p, P2, viterbi, k) by {
        assert ScoresKept(P1, P2) by {
          forall k' | 0 <= k' < |P1|
            ensures P1[k'].id == P2[k'].id && |P1[k'].nodes| == |P2[k'].nodes|
            ensures forall j :: 0 <= j < |P1[k'].nodes| ==> SameScores(P1[k'].nodes[j], P2[k'].nodes[j])
          {
          }
        }
        ScoredKept(p, P1, P2, viterbi, k);
        PointersBackKept(P1, P2);
      }
      RecalculateAt(p, viterbi, k, P2);
    }

    /** The rebuild of an already built model: the Viterbi or the forward
        pass at every position in order, with the current table; the
        positions, nodes and transitions stay as they are. */
    method Recalculate(p: HMMProbabilities, viterbi: bool)
      requires model.Built() && PointersBack(model.positions) && p.Valid() && Covers(p, model.sequence)
      modifies model
      ensures model.Built() && PointersBack(model.positions)
      ensures SameShape(old(model.positions), model.positions) && model.transitions == old(model.transitions)
      ensures Scored(p, model.positions, viterbi, |model.positions|)
    {
      ghost var P0 := model.positions;
      var k := 0;
      while k < |model.positions|
        invariant 0 <= k <= |model.positions| && model.Built() && PointersBack(model.positions)
        invariant SameShape(P0, model.positions) && model.transitions == old(model.transitions)
        invariant Scored(p, model.positions, viterbi, k)
      {
        RecalculateAt(p, viterbi, k, P0);
        k := k + 1;
      }
    }

    method RecalculateAt(p: HMMProbabilities, viterbi: bool, k: nat, ghost P0: seq<Position>)
      requires model.Built() && PointersBack(model.positions) && p.Valid() && Covers(p, model.sequence)
      requires k < |model.positions| && SameShape(P0, model.positions)
      requires Scored(p, model.positions, viterbi, k)
      modifies model
      ensures model.Built() && PointersBack(model.positions) && |model.positions| == |old(model.positions)|
      ensures SameShape(P0, model.positions) && model.transitions == old(model.transitions)
      ensures Scored(p, model.positions, viterbi, k + 1)
    {
      ghost var P1 := model.positions;
      if k >= 1 {
        CoveredAt(p, P1, model.transitions, model.sequence, |P1| - 1, k);
      }
      if viterbi {
        model.CalculateHighestWeightPath(p, k);
        if k >= 1 {
          forall j | 0 <= j < |P1[k].nodes|
            ensures SameSkeleton(P1[k].nodes[j], model.positions[k].nodes[j])
          {
            ViterbiNodeHolds(p, k, P1[k - 1].nodes, P1[k].nodes[j]);
          }
          ViterbiPassScored(p, P1, model.positions, k);
        }
      } else {
        model.CalculateLogForwardProbability(p, k);
        if k >= 1 {
          ForwardPassScored(p, P1, model.positions, k);
        }
      }
      PassKeepsShape(P0, P1, model.positions, k);
    }

    /** buildAndCalculateModel(calculateForward).  The first call builds the
        trellis: the start position, then for each residue in order a
        position of one node per state, linked to the position before and
        scored by the Viterbi pass (or the forward pass when
        calculateForward).  Later calls only rescore every position with the
        current table: the shape of the trellis stays as it is.  Either way
        the recurrence then holds at every position.  A residue without an
        emission entry for some state (a map::at failure in the C++ passes)
        is reported before anything changes. */
    method BuildAndCalculateModel(calculateForward: bool) returns (r: Result<()>)
      requires Valid()
      modifies this, model
      ensures Valid() && probabilities == old(probabilities) && viterbiResults == old(viterbiResults)
      ensures r.Err? <==> !Covers(probabilities, model.sequence)
      ensures r.Err? ==> (r.error == MissingEntry && modelBuilt == old(modelBuilt) &&
        model.positions == old(model.positions) && model.transitions == old(model.transitions))
      ensures r.Ok? ==> modelBuilt && |model.positions| == |model.sequence| + 1
      ensures r.Ok? ==> Scored(probabilities, model.positions, !calculateForward, |model.positions|)
      ensures old(modelBuilt) ==> SameShape(old(model.positions), model.positions) && model.transitions == old(model.transitions)
    {
      if !Covers(probabilities, model.sequence) {
        return Err(MissingEntry);
      }
      if modelBuilt {
        Recalculate(probabilities, !calculateForward);
      } else {
        model.AddStartPosition();
        var seqPos := 0;
        while seqPos < |model.sequence|
          modifies model
          invariant 0 <= seqPos <= |model.sequence| && |model.positions| == seqPos + 1
          invariant model.Built() && PointersBack(model.positions)
          invariant Scored(probabilities, model.positions, !calculateForward, |model.positions|)
        {
          ExtendModel(probabilities, !calculateForward);
          seqPos := seqPos + 1;
        }
        modelBuilt := true;
      }
      r := Ok(());
    }


    // -------------------------------------------------------------------
    // calculateLogBackwardProbabilities

    /** calculateLogBackwardProbabilities: every node of the last position
        gets backward probability log 1; then the positions from the one
        before the last down to 1, in that order, each compute their backward
        probabilities from the position after them.  Only backward
        probabilities change, and position 0 is left alone unless it is the
        last position.  A residue after the first without an emission entry
        for some state (a map::at failure in the C++ pass) is reported
        before anything changes. */
    method CalculateLogBackwardProbabilities() returns (r: Result<()>)
      requires Valid() && modelBuilt
      modifies model
      ensures Valid() && model.transitions == old(model.transitions)
      ensures r.Err? <==> !CoversAfterFirst(probabilities, model.sequence)
      ensures r.Err? ==> r.error == MissingEntry && model.positions == old(model.positions)
      ensures OnlyBackwardDiffers(old(model.positions), model.positions)
      ensures r.Ok? ==> BackwardFrom(probabilities, model.positions, 1)
      ensures |model.sequence| >= 1 ==> model.positions[0] == old(model.positions[0])
    {
      if !CoversAfterFirst(probabilities, model.sequence) {
        return Err(MissingEntry);
      }
      ghost var P0 := model.positions;
      SeedBackward();
      var positionId := |model.positions| - 2;
      while positionId >= 1
        invariant -1 <= positionId <= |model.positions| - 2
        invariant |model.positions| >= 2 ==> positionId >= 0
        invariant Valid() && model.transitions == old(model.transitions)
        invariant OnlyBackwardDiffers(P0, model.positions)
        invariant BackwardFrom(probabilities, model.positions, positionId + 1)
        invariant forall k :: 0 <= k <= positionId ==> model.positions[k] == P0[k]
        decreases positionId
      {
        BackwardStep(positionId, P0);
        positionId := positionId - 1;
      }
      r := Ok(());
    }

    /** The first loop: backward probability log 1 on every node of the last
        position. */
    method SeedBackward()
      requires Valid() && modelBuilt
      modifies model
      ensures Valid() && model.transitions == old(model.transitions)
      ensures OnlyBackwardDiffers(old(model.positions), model.positions) && Seeded(model.positions)
      ensures forall k :: 0 <= k < |model.positions| - 1 ==> model.positions[k] == old(model.positions[k])
    {
      var last := |model.positions| - 1;
      var nodes := model.positions[last].nodes;
      var row: seq<Node> := [];
      var i := 0;
      while i < |nodes|
        invariant 0 <= i <= |nodes| && |row| == i
        invariant forall j :: 0 <= j < i ==> row[j] == nodes[j].(logBackwardProbability := Fin(0.0))
      {
        row := row + [nodes[i].(logBackwardProbability := Fin(0.0))];
        i := i + 1;
      }
      KeptPointersPointBack(model.positions, last, row);
      ghost var P1 := model.positions;
      model.SetRow(last, row);
      OnlyBackwardStep(P1, P1, model.positions, last) by {
        assert OnlyBackwardDiffers(P1, P1) by {
          forall k | 0 <= k < |P1|
            ensures forall j :: 0 <= j < |P1[k].nodes| ==>
              P1[k].nodes[j] == P1[k].nodes[j].(logBackwardProbability := P1[k].nodes[j].logBackwardProbability)
          {
          }
        }
      }
      assert forall n :: n in model.positions[last].nodes ==> n.logBackwardProbability == Fin(0.0);
    }

    /** One round of the second loop: the backward pass at position k, after
        every later position has been processed. */
    method BackwardStep(k: nat, ghost P0: seq<Position>)
      requires Valid() && modelBuilt && CoversAfterFirst(probabilities, model.sequence)
      requires 1 <= k && k + 1 < |model.positions|
      requires OnlyBackwardDiffers(P0, model.positions) && BackwardFrom(probabilities, model.positions, k + 1)
      requires forall k' :: 0 <= k' <= k ==> model.positions[k'] == P0[k']
      modifies model
      ensures Valid() && model.transitions == old(model.transitions)
      ensures OnlyBackwardDiffers(P0, model.positions) && BackwardFrom(probabilities, model.positions, k)
      ensures forall k' :: 0 <= k' < k ==> model.positions[k'] == P0[k']
    {
      CoveredLater(probabilities, model.positions, model.transitions, model.sequence, |model.positions| - 1, k + 1);
      ghost var P1 := model.positions;
      model.CalculateLogBackwardProbability(probabilities, k);
      BackwardPassStep(probabilities, P1, model.positions, k);
      OnlyBackwardStep(P0, P1, model.positions, k);
    }

    // -------------------------------------------------------------------
    // calculateLogConditionalProbabilities

    /** calculateLogConditionalProbabilities: every position in order, except
        the start position, first gets its node conditionals and then the
        conditionals of its out-transitions (the last position has none).
        Each position's values are those computed from the forward and
        backward probabilities in place before the pass: node conditionals
        change nothing the later positions read.  Position 0 and the
        transitions leaving it are left alone, and no transition changes its
        ends.  A residue after the first without an emission entry for some
        state (a map::at failure in the C++ pass) is reported before
        anything changes. */
    method CalculateLogConditionalProbabilities() returns (r: Result<()>)
      requires Valid() && modelBuilt
      modifies model
      ensures Valid()
      ensures r.Err? <==> !CoversAfterFirst(probabilities, model.sequence)
      ensures r.Err? ==>
        r.error == MissingEntry && model.positions == old(model.positions) && model.transitions == old(model.transitions)
      ensures r.Ok? ==> ConditionalsDone(probabilities.libm, probabilities, old(model.positions), old(model.transitions),
        model.positions, model.transitions, |model.positions|)
    {
      if !CoversAfterFirst(probabilities, model.sequence) {
        return Err(MissingEntry);
      }
      ghost var P0, X0 := model.positions, model.transitions;
      var k := 0;
      while k < |model.positions|
        invariant 0 <= k <= |model.positions| && Valid()
        invariant ConditionalsDone(probabilities.libm, probabilities, P0, X0, model.positions, model.transitions, k)
      {
        ConditionalsAt(k, P0, X0);
        k := k + 1;
      }
      r := Ok(());
    }

    /** One round of calculateLogConditionalProbabilities: the position with
        id 0 is skipped; any other position gets its node conditionals, then
        (its id is never the number of positions) its transition
        conditionals. */
    method ConditionalsAt(k: nat, ghost P0: seq<Position>, ghost X0: seq<Transition>)
      requires Valid() && modelBuilt && CoversAfterFirst(probabilities, model.sequence) && k < |model.positions|
      requires ConditionalsDone(probabilities.libm, probabilities, P0, X0, model.positions, model.transitions, k)
      modifies model
      ensures Valid()
      ensures ConditionalsDone(probabilities.libm, probabilities, P0, X0, model.positions, model.transitions, k + 1)
    {
      if model.positions[k].id == 0 {
        ConditionalsStart(probabilities.libm, probabilities, P0, X0, model.positions, model.transitions);
        return;
      }
      ghost var P1, X1 := model.positions, model.transitions;
      model.CalculateNodeLogConditionalProbabilities(probabilities.libm, k);
      ghost var P2 := model.positions;
      if model.positions[k].id != |model.positions| {
        if k + 1 < |model.positions| {
          CoveredLater(probabilities, model.positions, model.transitions, model.sequence, |model.positions| - 1, k + 1);
        }
        model.CalculateTransitionLogConditionalProbabilities(probabilities, k);
        ConditionalsStep(probabilities.libm, probabilities, P0, X0, P1, X1, P2, model.transitions, k);
      } else {
        assert false;
      }
    }

    // -------------------------------------------------------------------
    // Baum-Welch re-estimation

    /** calculateBaumWelchEmissionProbabilities: for every state and every
        base, the sum of the conditionals of the state's nodes with that base
        over the sum of the conditionals of all the state's nodes, positions
        1 to T.  A residue other than A, C, G or T has no numerator to add to
        (a map::at failure in the C++ pass, raised while summing), so the
        pass is reported before any entry changes.  Otherwise every state's
        emission of every base is replaced by its re-estimate and every other
        entry is kept. */
    method CalculateBaumWelchEmissionProbabilities() returns (r: Result<()>)
      requires Valid() && modelBuilt
      modifies probabilities
      ensures Valid()
      ensures r.Err? <==> exists i :: 0 <= i < |model.sequence| && model.sequence[i] !in Bases
      ensures r.Err? ==> r.error == MissingEntry && probabilities.emission == old(probabilities.emission)
      ensures r.Ok? ==>
        forall key :: key in probabilities.emission <==> key in old(probabilities.emission) || Reestimated(key)
      ensures r.Ok? ==>
        forall key :: key in probabilities.emission ==>
          probabilities.emission[key] ==
            if Reestimated(key) then EmissionEstimate(probabilities.libm, model.positions, key.0, key.1)
            else old(probabilities.emission)[key]
      ensures probabilities.initiation == old(probabilities.initiation)
      ensures probabilities.transition == old(probabilities.transition)
    {
      ghost var T := |model.sequence|;
      assert StatesCounted(model.positions) && (ResiduesKnown(VisitedNodes(model.positions, |model.positions|)) <==>
        forall i :: 0 <= i < T ==> model.sequence[i] in Bases) by {
        ShapedPaired(model.positions, model.sequence, T);
        BuiltStatesCounted(model.positions, model.sequence, T);
        BuiltResiduesKnown(model.positions, model.sequence, T, T + 1);
      }
      var sums := EmissionSums(probabilities.libm, model.positions);
      if sums.Err? {
        return Err(MissingEntry);
      }
      WriteEmissionEstimates(sums.value.0, sums.value.1);
      r := Ok(());
    }

    /** The setter loop of calculateBaumWelchEmissionProbabilities, from the
        summed numerators and denominators: each state's emission of each base
        becomes its re-estimate. */
    method WriteEmissionEstimates(numerators: seq<map<char, ExtLog>>, denominators: seq<ExtLog>)
      requires Valid() && modelBuilt
      requires SumsHold(probabilities.libm, numerators, denominators, VisitedNodes(model.positions, |model.positions|))
      modifies probabilities
      ensures Valid()
      ensures forall key :: key in probabilities.emission <==> key in old(probabilities.emission) || Reestimated(key)
      ensures forall key :: key in probabilities.emission ==>
        probabilities.emission[key] ==
          if Reestimated(key) then EmissionEstimate(probabilities.libm, model.positions, key.0, key.1)
          else old(probabilities.emission)[key]
      ensures probabilities.initiation == old(probabilities.initiation)
      ensures probabilities.transition == old(probabilities.transition)
    {
      ghost var e0, i0, t0 := probabilities.emission, probabilities.initiation, probabilities.transition;
      ghost var m, ps := probabilities.libm, model.positions;
      ghost var est := (key: (int, char)) => EmissionEstimate(m, ps, key.0, key.1);
      for state := 0 to NumStates
        invariant Valid()
        invariant EmissionWritten(est, e0, probabilities.emission, state * 4)
        invariant probabilities.initiation == i0 && probabilities.transition == t0
      {
        for idx := 0 to 4
          invariant Valid()
          invariant EmissionWritten(est, e0, probabilities.emission, state * 4 + idx)
          invariant probabilities.initiation == i0 && probabilities.transition == t0
        {
          var residue := Residues[idx];
          EmissionWriteStep(est, e0, probabilities.emission, state, idx);
          assert StateSums(probabilities.libm, numerators[state], denominators[state], VisitedNodes(model.positions, |model.positions|), state);
          probabilities.SetEmissionProbability(state, residue,
            Eexp(probabilities.libm, ElnProd(numerators[state][residue], Negate(denominators[state]))));
        }
      }
      EmissionAllWritten(est, e0, probabilities.emission);
    }

    /** calculateBaumWelchInitiationProbabilities: the new initiation of each
        state is the conditional of that state's node at position 1, the
        first residue; nothing else in the table changes. */
    method CalculateBaumWelchInitiationProbabilities()
      requires Valid() && modelBuilt && |model.sequence| >= 1
      modifies probabilities
      ensures Valid()
      ensures |model.positions[1].nodes| == NumStates
      ensures forall st :: 0 <= st < MaxStates ==>
        probabilities.initiation[st] ==
          if st < NumStates then Eexp(probabilities.libm, model.positions[1].nodes[st].logConditionalProbability)
          else old(probabilities.initiation[st])
      ensures probabilities.emission == old(probabilities.emission)
      ensures probabilities.transition == old(probabilities.transition)
    {
      var firstPosition := model.positions[1];
      assert |firstPosition.nodes| == NumStates;
      assert forall j :: 0 <= j < NumStates ==> firstPosition.nodes[j].state == j;
      ghost var e0, i0, t0 := probabilities.emission, probabilities.initiation, probabilities.transition;
      for j := 0 to |firstPosition.nodes|
        invariant Valid()
        invariant forall st :: 0 <= st < MaxStates ==>
          probabilities.initiation[st] ==
            if st < j then Eexp(probabilities.libm, firstPosition.nodes[st].logConditionalProbability) else i0[st]
        invariant probabilities.emission == e0 && probabilities.transition == t0
      {
        var node := firstPosition.nodes[j];
        probabilities.SetInitiationProbability(node.state, Eexp(probabilities.libm, node.logConditionalProbability));
      }
    }

    /** calculateBaumWelchTransitionProbabilities: for every pair of states,
        the sum of the conditionals of the transitions from the first to the
        second over the sum of the conditionals of their start nodes, taken
        over the out-transitions of positions 1 to T; nothing else in the
        table changes. */
    method CalculateBaumWelchTransitionProbabilities()
      requires Valid() && modelBuilt
      modifies probabilities
      ensures Valid() && Counted(model.positions, model.transitions)
      ensures forall a, b :: 0 <= a < MaxStates && 0 <= b < MaxStates ==>
        probabilities.transition[a][b] ==
          if a < NumStates && b < NumStates then TransitionEstimate(probabilities.libm, model.positions, model.transitions, a, b)
          else old(probabilities.transition[a][b])
      ensures probabilities.emission == old(probabilities.emission)
      ensures probabilities.initiation == old(probabilities.initiation)
    {
      ShapedLinked(model.positions, model.transitions, model.sequence, |model.sequence|);
      LinkedCounted(model.positions, model.transitions, model.sequence, |model.sequence|);
      var numerators, denominators := TransitionSums(probabilities.libm, model.positions, model.transitions);
      ghost var e0, i0, t0 := probabilities.emission, probabilities.initiation, probabilities.transition;
      for i := 0 to NumStates
        invariant Valid()
        invariant TransitionWritten(probabilities.libm, model.positions, model.transitions, t0, probabilities.transition, i * NumStates)
        invariant probabilities.emission == e0 && probabilities.initiation == i0
      {
        for j := 0 to NumStates
          invariant Valid()
          invariant TransitionWritten(probabilities.libm, model.positions, model.transitions, t0, probabilities.transition, i * NumStates + j)
          invariant probabilities.emission == e0 && probabilities.initiation == i0
        {
          assert CellSums(probabilities.libm, numerators[i][j], denominators[i][j],
            TransitionEvents(model.positions, model.transitions, |model.positions|), i, j);
          TransitionWriteStep(probabilities.libm, model.positions, model.transitions, t0, probabilities.transition, i, j);
          probabilities.SetTransitionProbability(i, j,
            Eexp(probabilities.libm, ElnProd(numerators[i][j], Negate(denominators[i][j]))));
        }
      }
      TransitionAllWritten(probabilities.libm, model.positions, model.transitions, t0, probabilities.transition);
    }

    // -------------------------------------------------------------------
    // The Viterbi walk and Viterbi training

    /** gatherViterbiResults(iteration), over the model's trellis and the
        current table; see GatherFrom. */
    method GatherViterbiResults(iteration: int) returns (r: Result<HMMViterbiResults>)
      requires Valid() && modelBuilt
      ensures r.Ok? ==> fresh(r.value) && fresh(r.value.probabilities)
      ensures r.Ok? ==> r.value.iteration == iteration && r.value.probabilities.Valid()
      ensures Walkable(model.positions)
      ensures var walk := WalkFrom(model.positions, ViterbiEnd(model.positions));
        walk.Err? ==> r == Err(NullBackPointer)
      ensures var walk := WalkFrom(model.positions, ViterbiEnd(model.positions));
        walk.Ok? ==> var ws := States(StepsOf(model.positions, walk.value));
          (r.Err? <==> exists s :: 1 <= s < NumStates && Count(ws, s) == 0)
      ensures r.Ok? ==> var walk := WalkFrom(model.positions, ViterbiEnd(model.positions));
        walk.Ok? && Gathered(r.value, iteration, StepsOf(model.positions, walk.value), probabilities)
      ensures r.Ok? && StartNodeChar !in model.sequence ==>
        var T := |model.sequence|;
        Total(r.value.stateCounts) == T && Total2(r.value.transitionCounts) == T - 1
    {
      BuiltWalkable(model.positions, model.transitions, model.sequence, |model.positions| - 1);
      r := GatherFrom(model.positions, iteration, probabilities);
      if r.Ok? && StartNodeChar !in model.sequence {
        FullWalk(model.positions, r.value, StepsOf(model.positions, WalkFrom(model.positions, ViterbiEnd(model.positions)).value));
      }
    }

    /** pathStatesResultsString, over the model's trellis; see PathStatesFrom. */
    method PathStatesResultsString() returns (r: Result<string>)
      requires Valid() && modelBuilt
      ensures Walkable(model.positions)
      ensures var walk := WalkFrom(model.positions, ViterbiEnd(model.positions));
        (r.Err? <==> walk.Err?)
      ensures r.Ok? ==> var v := WalkFrom(model.positions, ViterbiEnd(model.positions)).value;
        |r.value| == |v| && forall i :: 0 <= i < |v| ==>
          (0 <= PathStates(model.positions, v)[i] < NumStates && r.value[i] == Digit(PathStates(model.positions, v)[i]))
      ensures r.Ok? && StartNodeChar !in model.sequence ==> |r.value| == |model.sequence|
    {
      BuiltWalkable(model.positions, model.transitions, model.sequence, |model.positions| - 1);
      r := PathStatesFrom(model.positions);
    }

    /** viterbiTraining(numIterations): each iteration rescores the trellis
        with the Viterbi pass, gathers the results of the best path, records
        them, and makes their table the current one.  The first failure
        stops the training. */
    method ViterbiTraining(numIterations: int) returns (r: Result<()>, ghost history: seq<HMMViterbiResults>, ghost trellises: seq<seq<Position>>)
      requires Valid()
      modifies this, model
      ensures Valid() && viterbiResults == old(viterbiResults) + history
      ensures r.Ok? ==> |history| == (if numIterations > 0 then numIterations else 0)
      ensures r.Err? ==> |history| < numIterations
      ensures probabilities == if history == [] then old(probabilities) else history[|history| - 1].probabilities
      ensures TrainedHistory(history, old(probabilities), model.sequence, trellises)
    {
      history, trellises := [], [];
      ghost var p0 := probabilities;
      var iteration := 1;
      while iteration <= numIterations
        invariant Valid() && 1 <= iteration <= (if numIterations > 0 then numIterations else 0) + 1
        invariant viterbiResults == old(viterbiResults) + history && |history| == iteration - 1
        invariant probabilities == if history == [] then p0 else history[|history| - 1].probabilities
        invariant TrainedHistory(history, p0, model.sequence, trellises)
      {
        label Before:
        var step := TrainingStep(iteration, p0, history, trellises);
        if step.Err? {
          assert TrainedHistory(history, p0, model.sequence, trellises) ==
                 old@Before(TrainedHistory(history, p0, model.sequence, trellises));
          r := Err(step.error);
          return;
        }
        assert viterbiResults == old(viterbiResults) + (history + [step.value]);
        history, trellises := history + [step.value], trellises + [model.positions];
        iteration := iteration + 1;
      }
      r := Ok(());
    }

    /** An iteration of viterbiTraining seen from its loop: the run so far
        (`history`, on the trellises `trellises`, starting from the table
        `p0`) is extended by the results the iteration records. */
    method TrainingStep(iteration: int, ghost p0: HMMProbabilities, ghost history: seq<HMMViterbiResults>,
                        ghost trellises: seq<seq<Position>>) returns (r: Result<HMMViterbiResults>)
      requires Valid() && iteration == |history| + 1
      requires probabilities == if history == [] then p0 else history[|history| - 1].probabilities
      requires TrainedHistory(history, p0, model.sequence, trellises)
      modifies this, model
      ensures Valid()
      ensures r.Err? ==> viterbiResults == old(viterbiResults) && probabilities == old(probabilities)
      ensures r.Ok? ==> viterbiResults == old(viterbiResults) + [r.value] && probabilities == r.value.probabilities
      ensures r.Ok? ==> TrainedHistory(history + [r.value], p0, model.sequence, trellises + [model.positions]) == true
    {
      ghost var prev := probabilities;
      label Before:
      r := TrainingIteration(iteration);
      assert TrainedHistory(history, p0, model.sequence, trellises) ==
             old@Before(TrainedHistory(history, p0, model.sequence, trellises));
      assert LastTable(history, p0) == old@Before(LastTable(history, p0));
      if r.Ok? {
        HistorySnoc(history, p0, model.sequence, trellises, prev, iteration, r.value, model.positions);
      }
    }

    /** One iteration of viterbiTraining: rescore with the Viterbi pass,
        gather the results, record them and make their table the current
        one; the recorded results are returned.  A failure changes neither
        the results nor the table. */
    method TrainingIteration(iteration: int) returns (r: Result<HMMViterbiResults>)
      requires Valid()
      modifies this, model
      ensures Valid()
      ensures r.Err? ==> viterbiResults == old(viterbiResults) && probabilities == old(probabilities)
      ensures r.Ok? ==> viterbiResults == old(viterbiResults) + [r.value] && probabilities == r.value.probabilities
      ensures r.Ok? ==> TrainedOn(r.value, iteration, old(probabilities), model.sequence, model.positions)
    {
      r := BuildAndGather(iteration);
      if r.Ok? {
        Record(r.value, iteration);
      }
    }

    /** The last step of an iteration: the results just gathered are
        appended to the recorded ones and their table is adopted. */
    method Record(res: HMMViterbiResults, ghost iteration: int)
      requires Valid() && res.probabilities.Valid()
      requires TrainedOn(res, iteration, probabilities, model.sequence, model.positions)
      modifies this
      ensures Valid()
      ensures viterbiResults == old(viterbiResults) + [res] && probabilities == res.probabilities
      ensures TrainedOn(res, iteration, old(probabilities), model.sequence, model.positions) ==
              old(TrainedOn(res, iteration, probabilities, model.sequence, model.positions))
    {
      viterbiResults := viterbiResults + [res];
      probabilities := res.probabilities;
    }

    /** The first two steps of an iteration: rescore the trellis with the
        Viterbi pass and gather the results of its best path.  The table and
        the recorded results are left as they are. */
    method BuildAndGather(iteration: int) returns (r: Result<HMMViterbiResults>)
      requires Valid()
      modifies this, model
      ensures Valid() && probabilities == old(probabilities) && viterbiResults == old(viterbiResults)
      ensures r.Ok? ==> r.value.iteration == iteration && r.value.probabilities.Valid()
      ensures r.Ok? ==> TrainedOn(r.value, iteration, probabilities, model.sequence, model.positions)
    {
      var built := BuildAndCalculateModel(false);
      if built.Err? {
        return Err(built.error);
      }
      label Built:
      r := GatherViterbiResults(iteration);
      assert model.Built();
      assert Scored(probabilities, model.positions, true, |model.positions|) ==
             old@Built(Scored(probabilities, model.positions, true, |model.positions|));
    }
  }
}
