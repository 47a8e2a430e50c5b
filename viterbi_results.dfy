/** HMMViterbiResults: what one iteration of Viterbi training gathered from
    the Viterbi path (state, transition and segment counts, the segments
    themselves) and the probability table re-estimated from those counts. */
module ViterbiResults {
  import opened Outcomes
  import opened ExtendedLog
  import opened Probabilities
  import opened Counting

  /** Counts as ratios: entry j is counts[j] / total, in floating point. */
  function Ratios(counts: seq<int>, total: int): (r: seq<real>)
    requires total > 0
    ensures |r| == |counts|
    ensures forall j :: 0 <= j < |counts| ==> r[j] == counts[j] as real / total as real
  {
    if counts == [] then []
    else Ratios(counts[..|counts| - 1], total) + [counts[|counts| - 1] as real / total as real]
  }

  /** Ratios of counts that add up to at most their denominator add up to at
      most one, and each lies in [0, 1]. */
  lemma {:induction false} RatiosBounded(counts: seq<int>, total: int)
    requires total > 0 && forall j :: 0 <= j < |counts| ==> counts[j] >= 0
    requires Total(counts) <= total
    ensures Sum(Ratios(counts, total)) <= 1.0
    ensures forall j :: 0 <= j < |counts| ==> 0.0 <= Ratios(counts, total)[j] <= 1.0
  {
    RatiosSum(counts, total);
    FractionAtMostOne(Total(counts), total);
    forall j | 0 <= j < |counts|
      ensures 0.0 <= Ratios(counts, total)[j] <= 1.0
    {
      NonNegativeEntryBounded(counts, j);
      FractionAtMostOne(counts[j], total);
    }
  }

  lemma FractionAtMostOne(a: int, t: int)
    requires 0 < t && a <= t
    ensures a as real / t as real <= 1.0
    ensures a >= 0 ==> 0.0 <= a as real / t as real
  {
    var q := a as real / t as real;
    assert q * t as real == a as real;
  }

  lemma {:induction false} RatiosSum(counts: seq<int>, total: int)
    requires total > 0
    ensures Sum(Ratios(counts, total)) == Total(counts) as real / total as real
  {
    if counts != [] {
      var init := counts[..|counts| - 1];
      RatiosSum(init, total);
      var r := Ratios(counts, total);
      assert r[..|r| - 1] == Ratios(init, total);
      AddFractions(Total(init) as real, counts[|counts| - 1] as real, total as real);
    }
  }

  lemma AddFractions(a: real, b: real, t: real)
    requires t > 0.0
    ensures a / t + b / t == (a + b) / t
  {
  }

  /** An entry of a non-negative vector is at most its total. */
  lemma {:induction false} NonNegativeEntryBounded(counts: seq<int>, j: nat)
    requires j < |counts| && forall i :: 0 <= i < |counts| ==> counts[i] >= 0
    ensures 0 <= counts[j] <= Total(counts)
  {
    var init := counts[..|counts| - 1];
    TotalNonNegative(init);
    if j < |counts| - 1 {
      NonNegativeEntryBounded(init, j);
    }
  }

  lemma {:induction false} TotalNonNegative(counts: seq<int>)
    requires forall i :: 0 <= i < |counts| ==> counts[i] >= 0
    ensures Total(counts) >= 0
  {
    if counts != [] {
      TotalNonNegative(counts[..|counts| - 1]);
    }
  }

  /** Dropping the first entry of a non-negative vector does not raise its total. */
  lemma TotalOfTail(counts: seq<int>)
    requires |counts| > 0 && forall i :: 0 <= i < |counts| ==> counts[i] >= 0
    ensures Total(counts[1..]) <= Total(counts)
  {
    TotalSplit(counts);
  }

  lemma {:induction false} TotalSplit(counts: seq<int>)
    requires |counts| > 0
    ensures Total(counts) == counts[0] + Total(counts[1..])
  {
    if |counts| > 1 {
      var init := counts[..|counts| - 1];
      TotalSplit(init);
      assert init[1..] == counts[1..][..|counts| - 2];
    } else {
      assert counts[1..] == [];
      assert counts[..0] == [];
    }
  }

  class HMMViterbiResults {
    const iteration: int
    const numStates: nat
    var probabilities: HMMProbabilities
    var stateCounts: seq<int>
    var segmentCounts: seq<int>
    var transitionCounts: seq<seq<int>>
    var segments: map<int, seq<(int, int)>>

    /** The vectors are shaped for numStates states. */
    ghost predicate Shaped()
      reads this`stateCounts, this`segmentCounts, this`transitionCounts
    {
      && |stateCounts| == numStates && |segmentCounts| == numStates
      && |transitionCounts| == numStates
      && (forall i :: 0 <= i < numStates ==> |transitionCounts[i]| == numStates)
    }

    /** HMMViterbiResults(iteration, numStates): all counts zero, no segments,
        and an empty probability table.  (The C++ constructor calls a
        HMMProbabilities(int) constructor whose definition is not part of this
        model; it is taken to be the empty table.  segmentCounts is not sized
        by the C++ constructor although the walk indexes it; here it is sized
        like stateCounts.) */
    constructor (anIteration: int, numberOfStates: nat, m: Libm)
      ensures iteration == anIteration && numStates == numberOfStates && Shaped()
      ensures fresh(probabilities) && probabilities.Valid() && probabilities.libm == m
      ensures probabilities.initiation == seq(MaxStates, _ => 0.0)
      ensures probabilities.transition == seq(MaxStates, _ => seq(MaxStates, _ => 0.0))
      ensures probabilities.emission == map[]
      ensures forall i :: 0 <= i < numStates ==> stateCounts[i] == 0 && segmentCounts[i] == 0
      ensures forall i, j :: 0 <= i < numStates && 0 <= j < numStates ==> transitionCounts[i][j] == 0
      ensures segments == map[]
    {
      iteration := anIteration;
      numStates := numberOfStates;
      probabilities := new HMMProbabilities(m);
      var counts: seq<int> := [];
      var pairs: seq<seq<int>> := [];
      var i := 0;
      while i < numberOfStates
        invariant 0 <= i <= numberOfStates && |counts| == i && |pairs| == i
        invariant forall a :: 0 <= a < i ==> counts[a] == 0
        invariant forall a :: 0 <= a < i ==> |pairs[a]| == numberOfStates
        invariant forall a, b :: 0 <= a < i && 0 <= b < numberOfStates ==> pairs[a][b] == 0
      {
        counts := counts + [0];
        var row: seq<int> := [];
        var j := 0;
        while j < numberOfStates
          invariant 0 <= j <= numberOfStates && |row| == j
          invariant forall b :: 0 <= b < j ==> row[b] == 0
        {
          row := row + [0];
          j := j + 1;
        }
        pairs := pairs + [row];
        i := i + 1;
      }
      stateCounts := counts;
      segmentCounts := counts;
      transitionCounts := pairs;
      segments := map[];
    }

    /** No state from 1 on has a zero count, so the count ratios are defined. */
    ghost predicate CountsNonZero()
      reads this
      requires Shaped()
    {
      forall i :: 1 <= i < numStates ==> stateCounts[i] != 0
    }

    /** calculateProbabilities: the initiation probabilities of states 1 ..
        numStates-1 are copied from the previous table, the emission
        probabilities are held at the previous table's, and the transition
        probabilities among states 1 .. numStates-1 become count ratios
        transitionCounts[i][j] / stateCounts[i].  Initiation and transition
        entries of state 0 are not written.  A state whose count is zero (a
        division by zero, which yields NaN in the C++ code) fails instead,
        before anything is written. */
    method CalculateProbabilities(previous: HMMProbabilities) returns (r: Result<()>)
      requires Shaped() && numStates <= MaxStates
      requires previous.Valid() && probabilities.Valid() && previous != probabilities
      requires previous.libm == probabilities.libm
      modifies probabilities
      ensures probabilities.Valid() && probabilities.libm == old(probabilities.libm)
      ensures r.Err? <==> !CountsNonZero()
      ensures r.Err? ==> r.error == ZeroStateCount
      ensures r.Err? ==> probabilities.initiation == old(probabilities.initiation) &&
                         probabilities.transition == old(probabilities.transition) &&
                         probabilities.emission == old(probabilities.emission)
      ensures r.Ok? ==> forall s :: 0 <= s < MaxStates ==>
        probabilities.initiation[s] == if 1 <= s < numStates then previous.initiation[s] else old(probabilities.initiation[s])
      ensures r.Ok? ==> forall i, j :: 0 <= i < MaxStates && 0 <= j < MaxStates ==>
        probabilities.transition[i][j] ==
          if 1 <= i < numStates && 1 <= j < numStates
          then transitionCounts[i][j] as real / stateCounts[i] as real
          else old(probabilities.transition[i][j])
      ensures r.Ok? ==> probabilities.emission == previous.emission
    {
      var ok := CountsAllNonZero();
      if !ok {
        return Err(ZeroStateCount);
      }
      CopyInitiation(previous);
      probabilities.HoldEmission(previous);
      var first := 1;
      while first < numStates
        invariant 1 <= first <= numStates || numStates == 0
        invariant probabilities.Valid() && probabilities.libm == old(probabilities.libm)
        invariant forall s :: 0 <= s < MaxStates ==>
          probabilities.initiation[s] == if 1 <= s < numStates then previous.initiation[s] else old(probabilities.initiation[s])
        invariant forall i, j :: 0 <= i < MaxStates && 0 <= j < MaxStates ==>
          probabilities.transition[i][j] ==
            if 1 <= i < first && 1 <= j < numStates
            then transitionCounts[i][j] as real / stateCounts[i] as real
            else old(probabilities.transition[i][j])
        invariant probabilities.emission == previous.emission
      {
        TransitionRow(first);
        first := first + 1;
      }
      r := Ok(());
    }

    /** The first loop: whether no state from 1 on has a zero count. */
    method CountsAllNonZero() returns (b: bool)
      requires Shaped()
      ensures b <==> CountsNonZero()
    {
      var z := 1;
      while z < numStates
        invariant 1 <= z <= numStates || numStates == 0
        invariant forall i :: 1 <= i < z && i < numStates ==> stateCounts[i] != 0
      {
        if stateCounts[z] == 0 {
          return false;
        }
        z := z + 1;
      }
      return true;
    }

    /** The initiation loop: states 1 .. numStates-1 take the previous table's
        initiation probabilities. */
    method CopyInitiation(previous: HMMProbabilities)
      requires Shaped() && numStates <= MaxStates
      requires previous.Valid() && probabilities.Valid() && previous != probabilities
      modifies probabilities
      ensures probabilities.Valid() && probabilities.libm == old(probabilities.libm)
      ensures forall s :: 0 <= s < MaxStates ==>
        probabilities.initiation[s] == if 1 <= s < numStates then previous.initiation[s] else old(probabilities.initiation[s])
      ensures probabilities.transition == old(probabilities.transition)
      ensures probabilities.emission == old(probabilities.emission)
    {
      var p := probabilities;
      var state := 1;
      while state < numStates
        invariant 1 <= state <= numStates || numStates == 0
        invariant p.Valid()
        invariant forall s :: 0 <= s < MaxStates ==>
          p.initiation[s] == if 1 <= s < state && s < numStates then previous.initiation[s] else old(p.initiation[s])
        invariant p.transition == old(p.transition) && p.emission == old(p.emission)
      {
        p.SetInitiationProbability(state, previous.InitiationProbability(state));
        state := state + 1;
      }
    }

    /** One round of the outer transition loop: row `first` among states
        1 .. numStates-1 becomes the count ratios of state `first`. */
    method TransitionRow(first: nat)
      requires Shaped() && numStates <= MaxStates && 1 <= first < numStates && CountsNonZero()
      requires probabilities.Valid()
      modifies probabilities
      ensures probabilities.Valid() && probabilities.libm == old(probabilities.libm)
      ensures forall i, j :: 0 <= i < MaxStates && 0 <= j < MaxStates ==>
        probabilities.transition[i][j] ==
          if i == first && 1 <= j < numStates
          then transitionCounts[i][j] as real / stateCounts[i] as real
          else old(probabilities.transition[i][j])
      ensures probabilities.initiation == old(probabilities.initiation)
      ensures probabilities.emission == old(probabilities.emission)
    {
      var p := probabilities;
      var second := 1;
      while second < numStates
        invariant 1 <= second <= numStates
        invariant p.Valid()
        invariant forall i, j :: 0 <= i < MaxStates && 0 <= j < MaxStates ==>
          p.transition[i][j] ==
            if i == first && 1 <= j < second
            then transitionCounts[i][j] as real / stateCounts[i] as real
            else old(p.transition[i][j])
        invariant p.initiation == old(p.initiation) && p.emission == old(p.emission)
      {
        p.SetTransitionProbability(first, second,
          transitionCounts[first][second] as real / stateCounts[first] as real);
        second := second + 1;
      }
    }
  }

  /** With counts gathered from a walk over states ws, every transition
      probability re-estimated for state i lies in [0, 1] and together they
      add up to at most one: row i of the pair counts adds up to at most the
      count of i. */
  lemma ReestimatedRowBounded(ws: seq<int>, n: nat, stateCounts: seq<int>, row: seq<int>, i: int)
    requires InRange(ws, n) && |ws| > 0 && |stateCounts| == n && |row| == n && 1 <= i < n
    requires forall s :: 0 <= s < n ==> stateCounts[s] == Count(ws, s)
    requires forall b :: 0 <= b < n ==> row[b] == PairCount(ws, i, b)
    requires stateCounts[i] > 0
    ensures Sum(Ratios(row[1..], stateCounts[i])) <= 1.0
    ensures forall j :: 1 <= j < n ==> 0.0 <= row[j] as real / stateCounts[i] as real <= 1.0
  {
    PairRowBounded(ws, n, i, row);
    TotalOfTail(row);
    RatiosBounded(row[1..], stateCounts[i]);
    forall j | 1 <= j < n
      ensures 0.0 <= row[j] as real / stateCounts[i] as real <= 1.0
    {
      assert row[1..][j - 1] == row[j];
    }
  }
}
