/** What the drivers of the backward pass and of the posterior (conditional)
    pass leave in the whole trellis, stated on values: the recurrence each
    position holds afterwards, and how the per-position results combine. */
module Posterior {
  import opened Outcomes
  import opened ExtendedLog
  import opened Probabilities
  import opened Trellis
  import opened Passes
  import opened Arena

  /** The table has, for every residue of s after the first, the emission of
      every state: what the backward and conditional passes look up (they
      read the emissions of positions 2 .. T only). */
  predicate CoversAfterFirst(p: HMMProbabilities, s: seq<char>)
    reads p
  {
    forall i, j :: 1 <= i < |s| && 0 <= j < NumStates ==> (j, s[i]) in p.emission
  }

  /** In a trellis over s, every position from 2 on is covered. */
  lemma CoveredLater(p: HMMProbabilities, ps: seq<Position>, xs: seq<Transition>, s: seq<char>, T: nat, k: nat)
    requires Shape(ps, xs, s, T) && CoversAfterFirst(p, s) && 2 <= k <= T
    ensures Covered(p, ps, k)
  {
    forall j | 0 <= j < |ps[k].nodes|
      ensures HasEmission(p, ps[k].nodes[j])
    {
      assert ps[k].nodes[j].state == j && ps[k].nodes[j].residue == s[k - 1];
    }
  }

  /** Two trellises that differ at most in the scores of their nodes:
      positions, ids, states, residues and transition lists agree. */
  ghost predicate OnlyScoresDiffer(ps: seq<Position>, ps': seq<Position>) {
    |ps| == |ps'| &&
    forall k :: 0 <= k < |ps| ==>
      ps[k].id == ps'[k].id && |ps[k].nodes| == |ps'[k].nodes| &&
      forall j :: 0 <= j < |ps[k].nodes| ==> SameSkeleton(ps[k].nodes[j], ps'[k].nodes[j])
  }

  // ---------------------------------------------------------------------
  // Backward (calculateLogBackwardProbabilities)

  /** Two trellises that differ at most in the backward probabilities of
      their nodes. */
  ghost predicate OnlyBackwardDiffers(ps: seq<Position>, ps': seq<Position>) {
    |ps| == |ps'| &&
    forall k :: 0 <= k < |ps| ==>
      ps[k].id == ps'[k].id && |ps[k].nodes| == |ps'[k].nodes| &&
      forall j :: 0 <= j < |ps[k].nodes| ==>
        ps'[k].nodes[j] == ps[k].nodes[j].(logBackwardProbability := ps'[k].nodes[j].logBackwardProbability)
  }

  /** Node n holds its backward probability computed from the nodes after it. */
  ghost predicate BackwardAt(p: HMMProbabilities, n: Node, next: seq<Node>)
    reads p
  {
    Reachable(p, n, next) && n.logBackwardProbability == BackwardValue(p, n, next)
  }

  ghost predicate BackwardHolds(p: HMMProbabilities, ps: seq<Position>, k: nat)
    reads p
  {
    k < |ps| && forall i :: 0 <= i < |ps[k].nodes| ==> BackwardAt(p, ps[k].nodes[i], NextNodes(ps, k))
  }

  /** Every node of the last position has backward probability log 1. */
  ghost predicate Seeded(ps: seq<Position>) {
    |ps| >= 1 && forall n :: n in ps[|ps| - 1].nodes ==> n.logBackwardProbability == Fin(0.0)
  }

  /** The state the backward driver is in once it has processed every
      position from the last one down to `from`: the last position is seeded
      and every position from max(from, 1) up to the one before the last
      holds the backward recurrence over the position after it. */
  ghost predicate BackwardFrom(p: HMMProbabilities, ps: seq<Position>, from: nat)
    reads p
  {
    Seeded(ps) && forall k :: 1 <= k && from <= k < |ps| - 1 ==> BackwardHolds(p, ps, k)
  }

  /** The backward value of a node reads its state and residue and the nodes
      after it, never its own scores. */
  lemma BackwardValueAgrees(p: HMMProbabilities, n: Node, n': Node, next: seq<Node>)
    requires Reachable(p, n, next) && n'.state == n.state && n'.residue == n.residue
    ensures Reachable(p, n', next) && BackwardValue(p, n', next) == BackwardValue(p, n, next)
  {
    forall j | 0 <= j < |next|
      ensures Linkable(n', next[j]) && LogProbability(p, n', next[j]) == LogProbability(p, n, next[j])
    {
      LogProbabilityReadsOnlyStates(p, n, next[j], n', next[j]);
    }
    assert BackwardTerms(p, n', next) == BackwardTerms(p, n, next);
  }

  /** The backward pass at position k, run after every later position has
      been processed, extends the processed range down to k. */
  lemma BackwardPassStep(p: HMMProbabilities, ps: seq<Position>, ps': seq<Position>, k: nat)
    requires 1 <= k && k + 1 < |ps| && |ps'| == |ps| && BackwardFrom(p, ps, k + 1)
    requires forall k' :: 0 <= k' < |ps| && k' != k ==> ps'[k'] == ps[k']
    requires |ps'[k].nodes| == |ps[k].nodes|
    requires forall i :: 0 <= i < |ps[k].nodes| ==>
      Reachable(p, ps[k].nodes[i], NextNodes(ps, k)) &&
      ps'[k].nodes[i] == ps[k].nodes[i].(logBackwardProbability := BackwardValue(p, ps[k].nodes[i], NextNodes(ps, k)))
    ensures BackwardFrom(p, ps', k)
  {
    assert ps'[|ps| - 1] == ps[|ps| - 1];
    assert NextNodes(ps', k) == NextNodes(ps, k);
    forall i | 0 <= i < |ps'[k].nodes|
      ensures BackwardAt(p, ps'[k].nodes[i], NextNodes(ps', k))
    {
      BackwardValueAgrees(p, ps[k].nodes[i], ps'[k].nodes[i], NextNodes(ps, k));
    }
    forall k' | k < k' < |ps| - 1
      ensures BackwardHolds(p, ps', k')
    {
      assert ps'[k'] == ps[k'] && ps'[k' + 1] == ps[k' + 1];
      assert BackwardHolds(p, ps, k');
    }
  }

  /** Changing only the backward probabilities of position k keeps a trellis
      within backward changes of P0. */
  lemma OnlyBackwardStep(P0: seq<Position>, ps: seq<Position>, ps': seq<Position>, k: nat)
    requires OnlyBackwardDiffers(P0, ps) && |ps'| == |ps| && k < |ps|
    requires forall k' :: 0 <= k' < |ps| && k' != k ==> ps'[k'] == ps[k']
    requires ps'[k].id == ps[k].id && |ps'[k].nodes| == |ps[k].nodes|
    requires forall i :: 0 <= i < |ps[k].nodes| ==>
      ps'[k].nodes[i] == ps[k].nodes[i].(logBackwardProbability := ps'[k].nodes[i].logBackwardProbability)
    ensures OnlyBackwardDiffers(P0, ps')
  {
    forall k' | 0 <= k' < |P0|
      ensures P0[k'].id == ps'[k'].id && |P0[k'].nodes| == |ps'[k'].nodes|
      ensures forall j :: 0 <= j < |P0[k'].nodes| ==>
        ps'[k'].nodes[j] == P0[k'].nodes[j].(logBackwardProbability := ps'[k'].nodes[j].logBackwardProbability)
    {
      if k' == k {
        forall j | 0 <= j < |P0[k'].nodes|
          ensures ps'[k'].nodes[j] == P0[k'].nodes[j].(logBackwardProbability := ps'[k'].nodes[j].logBackwardProbability)
        {
          assert ps[k'].nodes[j] == P0[k'].nodes[j].(logBackwardProbability := ps[k'].nodes[j].logBackwardProbability);
        }
      } else {
        assert ps'[k'] == ps[k'];
      }
    }
  }

  /** With a backward pass done, every node of a position before the last
      has the sentinel as backward probability exactly when every term of its
      sum is the sentinel; in particular all successors having the sentinel
      makes it the sentinel. */
  lemma BackwardSentinel(p: HMMProbabilities, ps: seq<Position>, k: nat, i: nat)
    requires BackwardHolds(p, ps, k) && i < |ps[k].nodes|
    ensures ps[k].nodes[i].logBackwardProbability.Undef? <==>
      forall j :: 0 <= j < |NextNodes(ps, k)| ==> BackwardTerms(p, ps[k].nodes[i], NextNodes(ps, k))[j].Undef?
  {
    var n, next := ps[k].nodes[i], NextNodes(ps, k);
    assert BackwardAt(p, n, next);
    assert n.logBackwardProbability == SumAll(p.libm, BackwardTerms(p, n, next));
  }

  // ---------------------------------------------------------------------
  // Conditionals (calculateLogConditionalProbabilities)

  /** Nodes that agree on what a transition conditional reads of its start
      node: state, residue and forward probability. */
  ghost predicate SameForward(nodes: seq<Node>, nodes': seq<Node>) {
    |nodes'| == |nodes| &&
    forall i :: 0 <= i < |nodes| ==>
      nodes'[i].state == nodes[i].state && nodes'[i].residue == nodes[i].residue &&
      nodes'[i].logForwardProbability == nodes[i].logForwardProbability
  }

  /** The unnormalized conditionals of a node's out-transitions read its
      state, residue and forward probability only. */
  lemma EpsilonRowAgrees(p: HMMProbabilities, n: Node, n': Node, next: seq<Node>)
    requires Reachable(p, n, next)
    requires n'.state == n.state && n'.residue == n.residue && n'.logForwardProbability == n.logForwardProbability
    ensures Reachable(p, n', next) && EpsilonRow(p, n', next) == EpsilonRow(p, n, next)
  {
    forall j | 0 <= j < |next|
      ensures Linkable(n', next[j]) && LogProbability(p, n', next[j]) == LogProbability(p, n, next[j])
    {
      LogProbabilityReadsOnlyStates(p, n, next[j], n', next[j]);
    }
    assert BackwardTerms(p, n', next) == BackwardTerms(p, n, next);
  }

  /** The same for all the out-transitions of a position, and so for its
      normalizer. */
  lemma {:induction false} EpsilonTermsAgree(p: HMMProbabilities, nodes: seq<Node>, nodes': seq<Node>, next: seq<Node>)
    requires AllReachable(p, nodes, next) && SameForward(nodes, nodes')
    ensures AllReachable(p, nodes', next) && EpsilonTerms(p, nodes', next) == EpsilonTerms(p, nodes, next)
    ensures EpsilonNormalizer(p, nodes', next) == EpsilonNormalizer(p, nodes, next)
  {
    forall i | 0 <= i < |nodes'|
      ensures Reachable(p, nodes'[i], next) && EpsilonRow(p, nodes'[i], next) == EpsilonRow(p, nodes[i], next)
    {
      EpsilonRowAgrees(p, nodes[i], nodes'[i], next);
    }
    if |nodes| > 0 {
      var n := |nodes| - 1;
      EpsilonTermsAgree(p, nodes[..n], nodes'[..n], next);
    }
  }

  /** The transition conditionals of position k, computed on a trellis ps
      whose position k may already hold new node conditionals, are those of
      the trellis P0 they were computed from. */
  lemma ConditionalsTransfer(p: HMMProbabilities, P0: seq<Position>, X0: seq<Transition>,
                             ps: seq<Position>, xs: seq<Transition>, k: nat, r: seq<Transition>)
    requires k < |ps| && |ps| == |P0| && SameEnds(X0, xs)
    requires k + 1 < |ps| ==> ps[k + 1] == P0[k + 1]
    requires SameForward(P0[k].nodes, ps[k].nodes) && SameOuts(P0[k].nodes, ps[k].nodes)
    requires TransitionConditionalsHold(p, ps, xs, k, r)
    ensures TransitionConditionalsHold(p, P0, X0, k, r)
  {
    var next := NextNodes(ps, k);
    assert NextNodes(P0, k) == next;
    OutIndicesTransfer(P0, X0, ps, xs, k);
    ReachableTransfer(p, P0[k].nodes, ps[k].nodes, next);
    EpsilonTermsAgree(p, P0[k].nodes, ps[k].nodes, next);
    assert NormalizedIn(p, ps[k].nodes, next, r);
    ValuesTransfer(p, P0[k].nodes, ps[k].nodes, next, r);
  }

  /** Nodes with the same out-transition lists. */
  ghost predicate SameOuts(nodes: seq<Node>, nodes': seq<Node>) {
    |nodes'| == |nodes| && forall i :: 0 <= i < |nodes| ==> nodes'[i].outTransitions == nodes[i].outTransitions
  }

  lemma OutIndicesTransfer(P0: seq<Position>, X0: seq<Transition>, ps: seq<Position>, xs: seq<Transition>, k: nat)
    requires OutIndices(ps, xs, k) && SameEnds(X0, xs) && |P0| == |ps|
    requires k + 1 < |ps| ==> |ps[k + 1].nodes| == |P0[k + 1].nodes|
    requires SameOuts(P0[k].nodes, ps[k].nodes)
    ensures OutIndices(P0, X0, k)
  {
    assert |NextNodes(P0, k)| == |NextNodes(ps, k)|;
  }

  lemma ReachableTransfer(p: HMMProbabilities, nodes: seq<Node>, nodes': seq<Node>, next: seq<Node>)
    requires AllReachable(p, nodes', next) && SameForward(nodes, nodes')
    ensures AllReachable(p, nodes, next)
  {
    forall i | 0 <= i < |nodes|
      ensures Reachable(p, nodes[i], next)
    {
      assert Reachable(p, nodes'[i], next);
    }
  }

  /** Every out-transition of `nodes` is an index into r whose conditional is
      the node's epsilon term over the position's normalizer. */
  ghost predicate NormalizedIn(p: HMMProbabilities, nodes: seq<Node>, next: seq<Node>, r: seq<Transition>)
    reads p
  {
    && AllReachable(p, nodes, next)
    && (forall i :: 0 <= i < |nodes| ==>
          |nodes[i].outTransitions| == |next| && forall j :: 0 <= j < |next| ==> nodes[i].outTransitions[j] < |r|)
    && forall i, j :: 0 <= i < |nodes| && 0 <= j < |next| ==>
         r[nodes[i].outTransitions[j]].logConditionalProbability ==
           ElnProd(EpsilonRow(p, nodes[i], next)[j], Negate(EpsilonNormalizer(p, nodes, next)))
  }

  lemma ValuesTransfer(p: HMMProbabilities, nodes: seq<Node>, nodes': seq<Node>, next: seq<Node>, r: seq<Transition>)
    requires NormalizedIn(p, nodes', next, r) && AllReachable(p, nodes, next)
    requires SameForward(nodes, nodes') && SameOuts(nodes, nodes')
    requires EpsilonNormalizer(p, nodes', next) == EpsilonNormalizer(p, nodes, next)
    ensures NormalizedIn(p, nodes, next, r)
  {
    forall i, j | 0 <= i < |nodes| && 0 <= j < |next|
      ensures r[nodes[i].outTransitions[j]].logConditionalProbability ==
        ElnProd(EpsilonRow(p, nodes[i], next)[j], Negate(EpsilonNormalizer(p, nodes, next)))
    {
      ValueTransfer(p, nodes[i], nodes'[i], next, Negate(EpsilonNormalizer(p, nodes, next)), r, j);
    }
  }

  lemma ValueTransfer(p: HMMProbabilities, n: Node, n': Node, next: seq<Node>, norm: ExtLog, r: seq<Transition>, j: nat)
    requires Reachable(p, n, next) && Reachable(p, n', next) && j < |next|
    requires n'.state == n.state && n'.residue == n.residue && n'.logForwardProbability == n.logForwardProbability
    requires n'.outTransitions == n.outTransitions && j < |n.outTransitions| && n.outTransitions[j] < |r|
    requires r[n'.outTransitions[j]].logConditionalProbability == ElnProd(EpsilonRow(p, n', next)[j], norm)
    ensures r[n.outTransitions[j]].logConditionalProbability == ElnProd(EpsilonRow(p, n, next)[j], norm)
  {
    EpsilonRowAgrees(p, n, n', next);
  }

  /** Writing transitions that leave other positions keeps the conditionals
      of position k. */
  lemma ConditionalsKept(p: HMMProbabilities, P0: seq<Position>, X0: seq<Transition>, k: nat, r: seq<Transition>, r': seq<Transition>)
    requires TransitionConditionalsHold(p, P0, X0, k, r) && |r'| == |r|
    requires forall t :: 0 <= t < |X0| && X0[t].startNode.position == k ==> r'[t] == r[t]
    ensures TransitionConditionalsHold(p, P0, X0, k, r')
  {
    forall i, j | 0 <= i < |P0[k].nodes| && 0 <= j < |NextNodes(P0, k)|
      ensures r'[P0[k].nodes[i].outTransitions[j]] == r[P0[k].nodes[i].outTransitions[j]]
    {
      assert X0[P0[k].nodes[i].outTransitions[j]].startNode == NodeRef(k, i);
    }
  }

  /** The state the conditional driver is in once it has processed the
      positions before k: position 0 (the start position, which it skips) and
      every position from k on are as in P0; every position from 1 to k - 1
      holds the node conditionals computed from P0, and its out-transitions
      the transition conditionals computed from P0; transitions leaving
      position 0 or a position from k on are as in X0, and no transition
      changes its ends. */
  ghost predicate ConditionalsDone(m: Libm, p: HMMProbabilities, P0: seq<Position>, X0: seq<Transition>,
                                   ps: seq<Position>, xs: seq<Transition>, k: nat)
    reads p
  {
    && |ps| == |P0| >= 1 && SameEnds(X0, xs) && ps[0] == P0[0]
    && (forall k' :: k <= k' < |ps| ==> ps[k'] == P0[k'])
    && (forall k' :: 1 <= k' < k && k' < |ps| ==>
          ps[k'].id == P0[k'].id && |ps[k'].nodes| == |P0[k'].nodes| &&
          forall j :: 0 <= j < |ps[k'].nodes| ==> ps[k'].nodes[j] == GammaNode(m, P0[k'].nodes, j))
    && (forall k' :: 1 <= k' < k && k' < |ps| ==> TransitionConditionalsHold(p, P0, X0, k', xs))
    && (forall t :: 0 <= t < |X0| && (X0[t].startNode.position == 0 || X0[t].startNode.position >= k) ==> xs[t] == X0[t])
  }

  /** The start position is skipped. */
  lemma ConditionalsStart(m: Libm, p: HMMProbabilities, P0: seq<Position>, X0: seq<Transition>,
                          ps: seq<Position>, xs: seq<Transition>)
    requires ConditionalsDone(m, p, P0, X0, ps, xs, 0)
    ensures ConditionalsDone(m, p, P0, X0, ps, xs, 1)
  {
  }

  /** The node conditionals and then the transition conditionals of position
      k >= 1 extend the processed range to k. */
  lemma ConditionalsStep(m: Libm, p: HMMProbabilities, P0: seq<Position>, X0: seq<Transition>,
                         P1: seq<Position>, X1: seq<Transition>, P2: seq<Position>, X2: seq<Transition>, k: nat)
    requires 1 <= k < |P1| && ConditionalsDone(m, p, P0, X0, P1, X1, k)
    requires |P2| == |P1| && forall k' :: 0 <= k' < |P1| && k' != k ==> P2[k'] == P1[k']
    requires P2[k].id == P1[k].id && |P2[k].nodes| == |P1[k].nodes|
    requires forall j :: 0 <= j < |P2[k].nodes| ==> P2[k].nodes[j] == GammaNode(m, P1[k].nodes, j)
    requires SameEnds(X1, X2) && UntouchedFrom(X1, X1, X2, k, |P2[k].nodes|)
    requires TransitionConditionalsHold(p, P2, X1, k, X2)
    ensures ConditionalsDone(m, p, P0, X0, P2, X2, k + 1)
  {
    assert P1[k] == P0[k];
    GammaKeepsForward(m, P0[k].nodes, P2[k].nodes);
    if k + 1 < |P2| {
      assert P2[k + 1] == P1[k + 1];
    }
    ConditionalsTransfer(p, P0, X0, P2, X1, k, X2);
    TransitionsStep(p, P0, X0, X1, X2, k);
    PositionsStep(m, P0, P1, P2, k);
  }

  /** Node conditionals change nothing a transition conditional reads. */
  lemma GammaKeepsForward(m: Libm, nodes: seq<Node>, nodes': seq<Node>)
    requires |nodes'| == |nodes| && forall j :: 0 <= j < |nodes'| ==> nodes'[j] == GammaNode(m, nodes, j)
    ensures SameForward(nodes, nodes') && SameOuts(nodes, nodes')
  {
  }

  /** The transitions part of one round of the conditional driver. */
  lemma TransitionsStep(p: HMMProbabilities, P0: seq<Position>, X0: seq<Transition>, X1: seq<Transition>, X2: seq<Transition>, k: nat)
    requires 1 <= k < |P0| && SameEnds(X0, X1) && SameEnds(X1, X2) && UntouchedFrom(X1, X1, X2, k, |P0[k].nodes|)
    requires forall k' :: 1 <= k' < k && k' < |P0| ==> TransitionConditionalsHold(p, P0, X0, k', X1)
    requires forall t :: 0 <= t < |X0| && (X0[t].startNode.position == 0 || X0[t].startNode.position >= k) ==> X1[t] == X0[t]
    ensures SameEnds(X0, X2)
    ensures forall k' :: 1 <= k' < k && k' < |P0| ==> TransitionConditionalsHold(p, P0, X0, k', X2)
    ensures forall t :: 0 <= t < |X0| && (X0[t].startNode.position == 0 || X0[t].startNode.position >= k + 1) ==> X2[t] == X0[t]
  {
    forall k' | 1 <= k' < k && k' < |P0|
      ensures TransitionConditionalsHold(p, P0, X0, k', X2)
    {
      ConditionalsKept(p, P0, X0, k', X1, X2);
    }
    forall t | 0 <= t < |X0| && (X0[t].startNode.position == 0 || X0[t].startNode.position >= k + 1)
      ensures X2[t] == X0[t]
    {
      assert X1[t].startNode == X0[t].startNode;
    }
  }

  /** The positions part of one round of the conditional driver. */
  lemma PositionsStep(m: Libm, P0: seq<Position>, P1: seq<Position>, P2: seq<Position>, k: nat)
    requires 1 <= k < |P1| == |P0| && P1[0] == P0[0]
    requires forall k' :: k <= k' < |P1| ==> P1[k'] == P0[k']
    requires forall k' :: 1 <= k' < k ==>
      P1[k'].id == P0[k'].id && |P1[k'].nodes| == |P0[k'].nodes| &&
      forall j :: 0 <= j < |P1[k'].nodes| ==> P1[k'].nodes[j] == GammaNode(m, P0[k'].nodes, j)
    requires |P2| == |P1| && forall k' :: 0 <= k' < |P1| && k' != k ==> P2[k'] == P1[k']
    requires P2[k].id == P1[k].id && |P2[k].nodes| == |P1[k].nodes|
    requires forall j :: 0 <= j < |P2[k].nodes| ==> P2[k].nodes[j] == GammaNode(m, P1[k].nodes, j)
    ensures P2[0] == P0[0] && forall k' :: k + 1 <= k' < |P2| ==> P2[k'] == P0[k']
    ensures forall k' :: 1 <= k' < k + 1 && k' < |P2| ==>
      P2[k'].id == P0[k'].id && |P2[k'].nodes| == |P0[k'].nodes| &&
      forall j :: 0 <= j < |P2[k'].nodes| ==> P2[k'].nodes[j] == GammaNode(m, P0[k'].nodes, j)
  {
    forall k' | 1 <= k' < k + 1 && k' < |P2|
      ensures P2[k'].id == P0[k'].id && |P2[k'].nodes| == |P0[k'].nodes|
      ensures forall j :: 0 <= j < |P2[k'].nodes| ==> P2[k'].nodes[j] == GammaNode(m, P0[k'].nodes, j)
    {
      if k' < k {
        assert P2[k'] == P1[k'];
      } else {
        assert P1[k] == P0[k];
      }
    }
  }
}
