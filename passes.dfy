/** What each per-position pass of the trellis computes, stated on values.

    A pass at position k reads the nodes of one neighbouring position (k - 1
    for the Viterbi and forward passes, k + 1 for the backward pass) and the
    probability table.  The functions below take exactly those values; the
    imperative passes in HiddenMarkovModel are proved to store what these
    functions return.  Every accumulation of the C++ code starts from the
    sentinel and elnsums its terms in loop order, which is `SumAll` over the
    terms listed in that order. */
module Passes {
  import opened Outcomes
  import opened ExtendedLog
  import opened Probabilities
  import opened Trellis

  /** The nodes of the previous position can all be linked into node `n`, and
      the table has the emission `n` needs. */
  ghost predicate Scorable(p: HMMProbabilities, prev: seq<Node>, n: Node)
    reads p
  {
    p.Valid() && HasEmission(p, n) && forall i :: 0 <= i < |prev| ==> Linkable(prev[i], n)
  }

  /** Node `n` can be linked into every node of the next position, and the
      table has the emissions of all of them. */
  ghost predicate Reachable(p: HMMProbabilities, n: Node, next: seq<Node>)
    reads p
  {
    p.Valid() && forall j :: 0 <= j < |next| ==> Linkable(n, next[j]) && HasEmission(p, next[j])
  }

  /** The log emission of a node whose entry exists. */
  function Emission(p: HMMProbabilities, n: Node): (e: ExtLog)
    reads p
    requires p.Valid() && HasEmission(p, n)
    ensures e == Log(p.libm, p.emission[(n.state, n.residue)])
  {
    LogEmissionProbability(p, n).value
  }

  // ---------------------------------------------------------------------
  // Viterbi (calculateHighestWeightPath)

  /** The score offered by each previous node: its weight plus the transition
      plus the emission.  A sentinel anywhere makes the score the sentinel,
      which never wins a comparison. */
  function ViterbiScores(p: HMMProbabilities, prev: seq<Node>, n: Node): (r: seq<ExtLog>)
    reads p
    requires Scorable(p, prev, n)
    ensures |r| == |prev|
    ensures forall i :: 0 <= i < |prev| ==>
      r[i] == ElnProd(ElnProd(prev[i].highestWeight, LogProbability(p, prev[i], n)), Emission(p, n))
  {
    if |prev| == 0 then []
    else
      var last := prev[|prev| - 1];
      ViterbiScores(p, prev[..|prev| - 1], n)
        + [ElnProd(ElnProd(last.highestWeight, LogProbability(p, last, n)), Emission(p, n))]
  }

  /** The outcome of a scan for the best score: the best weight and the index
      of the source that produced it, if any score beat the seed. */
  datatype Best = Best(weight: ExtLog, source: Option<nat>)

  /** The scan of calculateHighestWeightPath over the scores in order, from
      the lowest seed, replacing the best only on a strictly greater score.
      The result is the greatest score and the FIRST index that attains it;
      no source at all when every score is the sentinel. */
  function MaxFold(scores: seq<ExtLog>): (b: Best)
    ensures b.source.None? <==> forall i :: 0 <= i < |scores| ==> scores[i].Undef?
    ensures b.source.None? ==> b.weight == Undef
    ensures b.source.Some? ==>
      b.source.value < |scores| && b.weight == scores[b.source.value] && b.weight.Fin?
    ensures forall i :: 0 <= i < |scores| ==> !Greater(scores[i], b.weight)
    ensures b.source.Some? ==> forall i :: 0 <= i < b.source.value ==> Greater(b.weight, scores[i])
  {
    if |scores| == 0 then Best(Undef, None)
    else
      var b := MaxFold(scores[..|scores| - 1]);
      var x := scores[|scores| - 1];
      if Greater(x, b.weight) then Best(x, Some(|scores| - 1)) else b
  }

  /** The node after the Viterbi pass at position k >= 1: its weight is the
      best score over the previous position's nodes and its back-pointer is
      the first node that attains it.  If no score beats the seed the weight
      is the seed and the back-pointer keeps whatever it held before (the C++
      code resets the weight but not the pointer).  Nothing else changes. */
  function ViterbiNode(p: HMMProbabilities, k: nat, prev: seq<Node>, n: Node): (r: Node)
    reads p
    requires k >= 1 && Scorable(p, prev, n)
    ensures r.highestWeight == MaxFold(ViterbiScores(p, prev, n)).weight
    ensures forall i :: 0 <= i < |prev| ==> !Greater(ViterbiScores(p, prev, n)[i], r.highestWeight)
    ensures r.highestWeight.Fin? ==>
      exists i :: 0 <= i < |prev| && r.highestWeightPreviousNode == Some(NodeRef(k - 1, i)) &&
        ViterbiScores(p, prev, n)[i] == r.highestWeight &&
        forall i' :: 0 <= i' < i ==> Greater(r.highestWeight, ViterbiScores(p, prev, n)[i'])
    ensures r.highestWeight.Undef? ==> r.highestWeightPreviousNode == n.highestWeightPreviousNode
    ensures r.(highestWeight := n.highestWeight, highestWeightPreviousNode := n.highestWeightPreviousNode) == n
  {
    var b := MaxFold(ViterbiScores(p, prev, n));
    n.(highestWeight := b.weight,
       highestWeightPreviousNode := if b.source.Some? then Some(NodeRef(k - 1, b.source.value)) else n.highestWeightPreviousNode)
  }

  /** With a strictly positive table every score is finite as soon as the
      previous weights are, so every node gets a back-pointer. */
  lemma ViterbiPointsBackWhenPositive(p: HMMProbabilities, k: nat, prev: seq<Node>, n: Node)
    requires k >= 1 && Scorable(p, prev, n) && |prev| > 0
    requires forall i :: 0 <= i < |prev| ==> prev[i].highestWeight.Fin? && LogProbability(p, prev[i], n).Fin?
    requires Emission(p, n).Fin?
    ensures ViterbiNode(p, k, prev, n).highestWeight.Fin?
    ensures ViterbiNode(p, k, prev, n).highestWeightPreviousNode.Some?
  {
    var scores := ViterbiScores(p, prev, n);
    assert scores[0].Fin?;
  }

  // ---------------------------------------------------------------------
  // Forward (calculateLogForwardProbability)

  /** For each previous node: its forward probability times the transition. */
  function ForwardTerms(p: HMMProbabilities, prev: seq<Node>, n: Node): (r: seq<ExtLog>)
    reads p
    requires Scorable(p, prev, n)
    ensures |r| == |prev|
    ensures forall i :: 0 <= i < |prev| ==>
      r[i] == ElnProd(prev[i].logForwardProbability, LogProbability(p, prev[i], n))
  {
    if |prev| == 0 then []
    else
      var last := prev[|prev| - 1];
      ForwardTerms(p, prev[..|prev| - 1], n)
        + [ElnProd(last.logForwardProbability, LogProbability(p, last, n))]
  }

  /** The forward probability of node `n` at a position with id k >= 1.  At
      id 1 only the first in-transition (from the start node) is used, times
      the emission; beyond, the elnsum of all forward terms, times the
      emission. */
  function ForwardValue(p: HMMProbabilities, k: int, prev: seq<Node>, n: Node): (r: ExtLog)
    reads p
    requires Scorable(p, prev, n) && (k == 1 ==> |prev| >= 1)
    ensures Emission(p, n).Undef? ==> r.Undef?
    ensures k == 1 ==> r == ElnProd(LogProbability(p, prev[0], n), Emission(p, n))
    ensures k != 1 && (forall i :: 0 <= i < |prev| ==> prev[i].logForwardProbability.Undef?) ==> r.Undef?
  {
    if k == 1 then ElnProd(LogProbability(p, prev[0], n), Emission(p, n))
    else ElnProd(SumAll(p.libm, ForwardTerms(p, prev, n)), Emission(p, n))
  }

  // ---------------------------------------------------------------------
  // Backward (calculateLogBackwardProbability)

  /** For each next node j: the transition to it, its emission and its
      backward probability, multiplied. */
  function BackwardTerms(p: HMMProbabilities, n: Node, next: seq<Node>): (r: seq<ExtLog>)
    reads p
    requires Reachable(p, n, next)
    ensures |r| == |next|
    ensures forall j :: 0 <= j < |next| ==>
      r[j] == ElnProd(LogProbability(p, n, next[j]), ElnProd(Emission(p, next[j]), next[j].logBackwardProbability))
  {
    if |next| == 0 then []
    else
      var last := next[|next| - 1];
      BackwardTerms(p, n, next[..|next| - 1])
        + [ElnProd(LogProbability(p, n, last), ElnProd(Emission(p, last), last.logBackwardProbability))]
  }

  /** The backward probability of node `n`: the elnsum of its backward terms.
      A node with nothing after it gets the sentinel, and so does a node all
      of whose successors have the sentinel as backward probability. */
  function BackwardValue(p: HMMProbabilities, n: Node, next: seq<Node>): (r: ExtLog)
    reads p
    requires Reachable(p, n, next)
    ensures next == [] ==> r == Undef
    ensures (forall j :: 0 <= j < |next| ==> next[j].logBackwardProbability.Undef?) ==> r == Undef
    ensures |next| == 1 ==> r == BackwardTerms(p, n, next)[0]
  {
    SumAll(p.libm, BackwardTerms(p, n, next))
  }

  // ---------------------------------------------------------------------
  // Node conditionals (calculateNodeLogConditionalProbabilities)

  /** forward * backward of each node, the sentinel for a start node (id 0),
      which the pass skips: elnsum with the sentinel changes nothing. */
  function GammaTerms(nodes: seq<Node>): (r: seq<ExtLog>)
    ensures |r| == |nodes|
    ensures forall j :: 0 <= j < |nodes| ==>
      r[j] == if nodes[j].id == 0 then Undef
              else ElnProd(nodes[j].logForwardProbability, nodes[j].logBackwardProbability)
  {
    if |nodes| == 0 then []
    else
      var last := nodes[|nodes| - 1];
      GammaTerms(nodes[..|nodes| - 1])
        + [if last.id == 0 then Undef else ElnProd(last.logForwardProbability, last.logBackwardProbability)]
  }

  /** The log conditional probability of node j of a position: its
      forward * backward, divided by the position's normalizer (the elnsum of
      all those products).  Start nodes are left as they are. */
  function GammaNode(m: Libm, nodes: seq<Node>, j: nat): (r: Node)
    requires j < |nodes|
    ensures nodes[j].id == 0 ==> r == nodes[j]
    ensures nodes[j].id != 0 ==>
      r == nodes[j].(logConditionalProbability := ElnProd(GammaTerms(nodes)[j], Negate(SumAll(m, GammaTerms(nodes)))))
    ensures r.logConditionalProbability.Undef? <==>
      (nodes[j].id != 0 && (nodes[j].logForwardProbability.Undef? || nodes[j].logBackwardProbability.Undef?)) ||
      (nodes[j].id == 0 && nodes[j].logConditionalProbability.Undef?)
  {
    var terms := GammaTerms(nodes);
    if nodes[j].id == 0 then nodes[j]
    else nodes[j].(logConditionalProbability := ElnProd(terms[j], Negate(SumAll(m, terms))))
  }

  // ---------------------------------------------------------------------
  // Transition conditionals (calculateTransitionLogConditionalProbabilities)

  /** Every term multiplied by x. */
  function Scale(x: ExtLog, ts: seq<ExtLog>): (r: seq<ExtLog>)
    ensures |r| == |ts|
  {
    if |ts| == 0 then [] else Scale(x, ts[..|ts| - 1]) + [ElnProd(x, ts[|ts| - 1])]
  }

  lemma {:induction false} ScaleAt(x: ExtLog, ts: seq<ExtLog>, j: nat)
    requires j < |ts|
    ensures Scale(x, ts)[j] == ElnProd(x, ts[j])
  {
    if j < |ts| - 1 {
      ScaleAt(x, ts[..|ts| - 1], j);
    }
  }

  /** The unnormalized conditional of each out-transition of node n: its
      forward probability times the backward term of the transition. */
  function EpsilonRow(p: HMMProbabilities, n: Node, next: seq<Node>): (r: seq<ExtLog>)
    reads p
    requires Reachable(p, n, next)
    ensures |r| == |next|
  {
    Scale(n.logForwardProbability, BackwardTerms(p, n, next))
  }

  /** Entry j: forward * transition * emission * backward of the j-th successor. */
  lemma EpsilonRowAt(p: HMMProbabilities, n: Node, next: seq<Node>, j: nat)
    requires Reachable(p, n, next) && j < |next|
    ensures EpsilonRow(p, n, next)[j] == ElnProd(n.logForwardProbability,
      ElnProd(LogProbability(p, n, next[j]), ElnProd(Emission(p, next[j]), next[j].logBackwardProbability)))
  {
    ScaleAt(n.logForwardProbability, BackwardTerms(p, n, next), j);
  }

  /** Every node of a position can be linked into every node of the next. */
  ghost predicate AllReachable(p: HMMProbabilities, nodes: seq<Node>, next: seq<Node>)
    reads p
  {
    forall i :: 0 <= i < |nodes| ==> Reachable(p, nodes[i], next)
  }

  /** The unnormalized conditionals of all out-transitions of a position, node
      by node and, within a node, in out-transition order. */
  function EpsilonTerms(p: HMMProbabilities, nodes: seq<Node>, next: seq<Node>): (r: seq<ExtLog>)
    reads p
    requires AllReachable(p, nodes, next)
    ensures next == [] ==> r == []
  {
    if |nodes| == 0 then []
    else EpsilonTerms(p, nodes[..|nodes| - 1], next) + EpsilonRow(p, nodes[|nodes| - 1], next)
  }

  /** One more node adds its row at the end. */
  lemma EpsilonTermsSnoc(p: HMMProbabilities, nodes: seq<Node>, next: seq<Node>, i: nat)
    requires i < |nodes| && AllReachable(p, nodes, next)
    ensures AllReachable(p, nodes[..i], next) && AllReachable(p, nodes[..i + 1], next)
    ensures EpsilonTerms(p, nodes[..i + 1], next) == EpsilonTerms(p, nodes[..i], next) + EpsilonRow(p, nodes[i], next)
  {
    assert nodes[..i + 1][..i] == nodes[..i];
  }

  /** The normalizer of a position's transition conditionals. */
  function EpsilonNormalizer(p: HMMProbabilities, nodes: seq<Node>, next: seq<Node>): (r: ExtLog)
    reads p
    requires AllReachable(p, nodes, next)
    ensures next == [] ==> r == Undef
  {
    SumAll(p.libm, EpsilonTerms(p, nodes, next))
  }
}
