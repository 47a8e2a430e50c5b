/** What the whole-trellis drivers of HiddenMarkovModel leave behind, stated
    position by position on values: the Viterbi recurrence, the forward
    recurrence and the backward recurrence, each holding at every position
    the driver visits.  Each recurrence reads only the scores of the nodes
    (never their transition lists), so rebuilding the lists leaves it
    intact. */
module Scores {
  import opened Outcomes
  import opened ExtendedLog
  import opened Probabilities
  import opened Trellis
  import opened Passes
  import opened Walk

  /** Two nodes that agree on everything but their transition lists. */
  predicate SameScores(a: Node, b: Node) {
    a.(inTransitions := [], outTransitions := []) == b.(inTransitions := [], outTransitions := [])
  }

  /** Two trellises whose nodes agree on everything but transition lists. */
  ghost predicate ScoresKept(ps: seq<Position>, ps': seq<Position>) {
    |ps| == |ps'| &&
    forall k :: 0 <= k < |ps| ==>
      ps[k].id == ps'[k].id && |ps[k].nodes| == |ps'[k].nodes| &&
      forall j :: 0 <= j < |ps[k].nodes| ==> SameScores(ps[k].nodes[j], ps'[k].nodes[j])
  }

  // ---------------------------------------------------------------------
  // Viterbi

  /** Node n of position k >= 1 holds the best score offered by the previous
      position's nodes, and points back to the first node offering it
      (when any score beats the seed). */
  ghost predicate ViterbiAt(p: HMMProbabilities, prev: seq<Node>, k: nat, n: Node)
    reads p
  {
    && k >= 1 && Scorable(p, prev, n)
    && var b := MaxFold(ViterbiScores(p, prev, n));
       n.highestWeight == b.weight &&
       (b.source.Some? ==> n.highestWeightPreviousNode == Some(NodeRef(k - 1, b.source.value)))
  }

  ghost predicate ViterbiHolds(p: HMMProbabilities, ps: seq<Position>, k: nat)
    reads p
  {
    1 <= k < |ps| && forall j :: 0 <= j < |ps[k].nodes| ==> ViterbiAt(p, ps[k - 1].nodes, k, ps[k].nodes[j])
  }

  /** The scores offered to a node depend on the previous nodes' weights,
      residues and states and on the node's own state and residue only. */
  lemma ViterbiScoresAgree(p: HMMProbabilities, prev: seq<Node>, prev': seq<Node>, n: Node, n': Node)
    requires Scorable(p, prev, n) && |prev'| == |prev| && n'.state == n.state && n'.residue == n.residue
    requires forall i :: 0 <= i < |prev| ==>
      prev'[i].highestWeight == prev[i].highestWeight && prev'[i].state == prev[i].state && prev'[i].residue == prev[i].residue
    ensures Scorable(p, prev', n') && ViterbiScores(p, prev', n') == ViterbiScores(p, prev, n)
  {
    forall i | 0 <= i < |prev|
      ensures Linkable(prev'[i], n') && LogProbability(p, prev'[i], n') == LogProbability(p, prev[i], n)
    {
      LogProbabilityReadsOnlyStates(p, prev[i], n, prev'[i], n');
    }
    assert Scorable(p, prev', n');
  }

  /** The Viterbi pass establishes the recurrence at the node it rewrites. */
  lemma ViterbiNodeHolds(p: HMMProbabilities, k: nat, prev: seq<Node>, n: Node)
    requires k >= 1 && Scorable(p, prev, n)
    ensures ViterbiAt(p, prev, k, ViterbiNode(p, k, prev, n))
    ensures SameSkeleton(n, ViterbiNode(p, k, prev, n))
  {
    var r := ViterbiNode(p, k, prev, n);
    assert r.state == n.state && r.residue == n.residue;
    ViterbiScoresAgree(p, prev, prev, n, r);
  }

  lemma ViterbiAtKept(p: HMMProbabilities, prev: seq<Node>, prev': seq<Node>, k: nat, n: Node, n': Node)
    requires ViterbiAt(p, prev, k, n) && |prev'| == |prev| && SameScores(n, n')
    requires forall i :: 0 <= i < |prev| ==> SameScores(prev[i], prev'[i])
    ensures ViterbiAt(p, prev', k, n')
  {
    forall i | 0 <= i < |prev|
      ensures prev'[i].highestWeight == prev[i].highestWeight && prev'[i].state == prev[i].state && prev'[i].residue == prev[i].residue
    {
      assert SameScores(prev[i], prev'[i]);
    }
    ViterbiScoresAgree(p, prev, prev', n, n');
  }

  lemma ViterbiHoldsKept(p: HMMProbabilities, ps: seq<Position>, ps': seq<Position>, k: nat)
    requires ViterbiHolds(p, ps, k) && ScoresKept(ps, ps')
    ensures ViterbiHolds(p, ps', k)
  {
    forall j | 0 <= j < |ps'[k].nodes|
      ensures ViterbiAt(p, ps'[k - 1].nodes, k, ps'[k].nodes[j])
    {
      ViterbiAtKept(p, ps[k - 1].nodes, ps'[k - 1].nodes, k, ps[k].nodes[j], ps'[k].nodes[j]);
    }
  }

  // ---------------------------------------------------------------------
  // Forward

  /** Node n of position k >= 1 holds its forward probability computed from
      the previous position's forward probabilities. */
  ghost predicate ForwardAt(p: HMMProbabilities, prev: seq<Node>, k: nat, n: Node)
    reads p
  {
    k >= 1 && |prev| >= 1 && Scorable(p, prev, n) && n.logForwardProbability == ForwardValue(p, k, prev, n)
  }

  ghost predicate ForwardHolds(p: HMMProbabilities, ps: seq<Position>, k: nat)
    reads p
  {
    1 <= k < |ps| && forall j :: 0 <= j < |ps[k].nodes| ==> ForwardAt(p, ps[k - 1].nodes, k, ps[k].nodes[j])
  }

  /** The forward value of a node depends on the previous nodes' forward
      probabilities, residues and states and on the node's own state and
      residue only. */
  lemma ForwardValueAgrees(p: HMMProbabilities, k: nat, prev: seq<Node>, prev': seq<Node>, n: Node, n': Node)
    requires k >= 1 && |prev| >= 1 && Scorable(p, prev, n) && |prev'| == |prev|
    requires n'.state == n.state && n'.residue == n.residue
    requires forall i :: 0 <= i < |prev| ==>
      prev'[i].logForwardProbability == prev[i].logForwardProbability &&
      prev'[i].state == prev[i].state && prev'[i].residue == prev[i].residue
    ensures Scorable(p, prev', n') && ForwardValue(p, k, prev', n') == ForwardValue(p, k, prev, n)
  {
    forall i | 0 <= i < |prev|
      ensures Linkable(prev'[i], n') && LogProbability(p, prev'[i], n') == LogProbability(p, prev[i], n)
    {
      LogProbabilityReadsOnlyStates(p, prev[i], n, prev'[i], n');
    }
    assert Scorable(p, prev', n');
    assert ForwardTerms(p, prev', n') == ForwardTerms(p, prev, n);
  }

  lemma ForwardNodeHolds(p: HMMProbabilities, k: nat, prev: seq<Node>, n: Node)
    requires k >= 1 && |prev| >= 1 && Scorable(p, prev, n)
    ensures ForwardAt(p, prev, k, n.(logForwardProbability := ForwardValue(p, k, prev, n)))
  {
    ForwardValueAgrees(p, k, prev, prev, n, n.(logForwardProbability := ForwardValue(p, k, prev, n)));
  }

  lemma ForwardHoldsKept(p: HMMProbabilities, ps: seq<Position>, ps': seq<Position>, k: nat)
    requires ForwardHolds(p, ps, k) && ScoresKept(ps, ps')
    ensures ForwardHolds(p, ps', k)
  {
    forall j | 0 <= j < |ps'[k].nodes|
      ensures ForwardAt(p, ps'[k - 1].nodes, k, ps'[k].nodes[j])
    {
      var prev, prev' := ps[k - 1].nodes, ps'[k - 1].nodes;
      forall i | 0 <= i < |prev|
        ensures prev'[i].logForwardProbability == prev[i].logForwardProbability &&
          prev'[i].state == prev[i].state && prev'[i].residue == prev[i].residue
      {
        assert SameScores(prev[i], prev'[i]);
      }
      assert SameScores(ps[k].nodes[j], ps'[k].nodes[j]);
      ForwardValueAgrees(p, k, prev, prev', ps[k].nodes[j], ps'[k].nodes[j]);
    }
  }

  /** The recurrence the build leaves at every position from 1 on: the
      Viterbi recurrence, or the forward recurrence. */
  ghost predicate Scored(p: HMMProbabilities, ps: seq<Position>, viterbi: bool, upto: nat)
    reads p
  {
    forall k :: 1 <= k < upto && k < |ps| ==> if viterbi then ViterbiHolds(p, ps, k) else ForwardHolds(p, ps, k)
  }

  lemma ScoredKept(p: HMMProbabilities, ps: seq<Position>, ps': seq<Position>, viterbi: bool, upto: nat)
    requires Scored(p, ps, viterbi, upto) && ScoresKept(ps, ps')
    ensures Scored(p, ps', viterbi, upto)
  {
    forall k | 1 <= k < upto && k < |ps'|
      ensures if viterbi then ViterbiHolds(p, ps', k) else ForwardHolds(p, ps', k)
    {
      if viterbi {
        ViterbiHoldsKept(p, ps, ps', k);
      } else {
        ForwardHoldsKept(p, ps, ps', k);
      }
    }
  }

  lemma PointersBackKept(ps: seq<Position>, ps': seq<Position>)
    requires PointersBack(ps) && ScoresKept(ps, ps')
    ensures PointersBack(ps')
  {
    forall k, j | 0 <= k < |ps'| && 0 <= j < |ps'[k].nodes|
      ensures ps'[k].nodes[j].highestWeightPreviousNode == ps[k].nodes[j].highestWeightPreviousNode
    {
      assert SameScores(ps[k].nodes[j], ps'[k].nodes[j]);
    }
  }

  /** A Viterbi pass at position k on top of a trellis scored below k leaves
      it scored up to and including k. */
  lemma ViterbiPassScored(p: HMMProbabilities, ps: seq<Position>, ps': seq<Position>, k: nat)
    requires 1 <= k < |ps| && |ps'| == |ps| && Scored(p, ps, true, k)
    requires forall k' :: 0 <= k' < |ps| && k' != k ==> ps'[k'] == ps[k']
    requires |ps'[k].nodes| == |ps[k].nodes|
    requires forall j :: 0 <= j < |ps[k].nodes| ==>
      Scorable(p, ps[k - 1].nodes, ps[k].nodes[j]) && ps'[k].nodes[j] == ViterbiNode(p, k, ps[k - 1].nodes, ps[k].nodes[j])
    ensures Scored(p, ps', true, k + 1)
  {
    assert ViterbiHolds(p, ps', k) by {
      assert ps'[k - 1] == ps[k - 1];
      forall j | 0 <= j < |ps'[k].nodes|
        ensures ViterbiAt(p, ps'[k - 1].nodes, k, ps'[k].nodes[j])
      {
        ViterbiNodeHolds(p, k, ps[k - 1].nodes, ps[k].nodes[j]);
      }
    }
    forall k' | 1 <= k' < k
      ensures ViterbiHolds(p, ps', k')
    {
      ViterbiHoldsUnchanged(p, ps, ps', k');
    }
  }

  lemma ViterbiHoldsUnchanged(p: HMMProbabilities, ps: seq<Position>, ps': seq<Position>, k: nat)
    requires ViterbiHolds(p, ps, k) && k < |ps'| && ps'[k] == ps[k] && ps'[k - 1] == ps[k - 1]
    ensures ViterbiHolds(p, ps', k)
  {
  }

  /** The same for a forward pass. */
  lemma ForwardPassScored(p: HMMProbabilities, ps: seq<Position>, ps': seq<Position>, k: nat)
    requires 1 <= k < |ps| && |ps'| == |ps| && Scored(p, ps, false, k) && |ps[k - 1].nodes| >= 1
    requires forall k' :: 0 <= k' < |ps| && k' != k ==> ps'[k'] == ps[k']
    requires |ps'[k].nodes| == |ps[k].nodes|
    requires forall j :: 0 <= j < |ps[k].nodes| ==>
      Scorable(p, ps[k - 1].nodes, ps[k].nodes[j]) &&
      ps'[k].nodes[j] == ps[k].nodes[j].(logForwardProbability := ForwardValue(p, k, ps[k - 1].nodes, ps[k].nodes[j]))
    ensures Scored(p, ps', false, k + 1)
  {
    assert ForwardHolds(p, ps', k) by {
      assert ps'[k - 1] == ps[k - 1];
      forall j | 0 <= j < |ps'[k].nodes|
        ensures ForwardAt(p, ps'[k - 1].nodes, k, ps'[k].nodes[j])
      {
        ForwardNodeHolds(p, k, ps[k - 1].nodes, ps[k].nodes[j]);
      }
    }
    forall k' | 1 <= k' < k
      ensures ForwardHolds(p, ps', k')
    {
      ForwardHoldsUnchanged(p, ps, ps', k');
    }
  }

  lemma ForwardHoldsUnchanged(p: HMMProbabilities, ps: seq<Position>, ps': seq<Position>, k: nat)
    requires ForwardHolds(p, ps, k) && k < |ps'| && ps'[k] == ps[k] && ps'[k - 1] == ps[k - 1]
    ensures ForwardHolds(p, ps', k)
  {
  }
}
