/** The Baum-Welch re-estimation of the model's table from the conditional
    probabilities of the trellis: emission probabilities from the node
    conditionals, initiation probabilities from the first residue's nodes,
    and transition probabilities from the transition conditionals.  Each
    ratio is formed in log space, numerator times the negated denominator,
    and the sums start from the sentinel (the C++ quiet NaN). */
module BaumWelch {
  import opened Outcomes
  import opened ExtendedLog
  import opened Probabilities
  import opened Trellis
  import opened Arena
  import opened Passes
  import opened Fasta

  /** The residues an emission numerator is kept for. */
  const Bases: set<char> := {'A', 'C', 'G', 'T'}

  /** The same residues, in the order of the keys of a std::map<char, ...>. */
  const Residues: string := "ACGT"

  /** The ratio of two log-space sums, as a probability: the sentinel, and so
      probability 0, when either sum is the sentinel. */
  function Ratio(m: Libm, numerator: seq<ExtLog>, denominator: seq<ExtLog>): (r: real)
    ensures r >= 0.0
    ensures r == 0.0 <==>
      (forall i :: 0 <= i < |numerator| ==> numerator[i].Undef?) ||
      (forall i :: 0 <= i < |denominator| ==> denominator[i].Undef?)
  {
    Eexp(m, ElnProd(SumAll(m, numerator), Negate(SumAll(m, denominator))))
  }

  // ---------------------------------------------------------------------
  // Emission (calculateBaumWelchEmissionProbabilities)

  /** The nodes the emission pass visits among the first upto positions, in
      order: every node of every position whose id is not 0. */
  function VisitedNodes(ps: seq<Position>, upto: nat): seq<Node>
    requires upto <= |ps|
  {
    if upto == 0 then []
    else VisitedNodes(ps, upto - 1) + (if ps[upto - 1].id == 0 then [] else ps[upto - 1].nodes)
  }

  /** The conditionals of the nodes in the given state, in order: the terms
      of that state's denominator. */
  function StateTerms(nodes: seq<Node>, state: int): seq<ExtLog> {
    if nodes == [] then []
    else
      var last := nodes[|nodes| - 1];
      StateTerms(nodes[..|nodes| - 1], state) + (if last.state == state then [last.logConditionalProbability] else [])
  }

  /** The conditionals of the nodes in the given state with the given residue,
      in order: the terms of that state's numerator for the residue. */
  function EmissionTerms(nodes: seq<Node>, state: int, residue: char): seq<ExtLog> {
    if nodes == [] then []
    else
      var last := nodes[|nodes| - 1];
      EmissionTerms(nodes[..|nodes| - 1], state, residue)
        + (if last.state == state && last.residue == residue then [last.logConditionalProbability] else [])
  }

  /** The re-estimated probability that the state emits the residue. */
  function EmissionEstimate(m: Libm, ps: seq<Position>, state: int, residue: char): real {
    Ratio(m, EmissionTerms(VisitedNodes(ps, |ps|), state, residue), StateTerms(VisitedNodes(ps, |ps|), state))
  }

  /** Every visited node's residue is one of the four bases. */
  ghost predicate ResiduesKnown(nodes: seq<Node>) {
    forall n :: n in nodes ==> n.residue in Bases
  }

  /** Every visited node's state indexes the numerators. */
  ghost predicate StatesCounted(ps: seq<Position>) {
    forall k, n :: 0 <= k < |ps| && ps[k].id != 0 && n in ps[k].nodes ==> 0 <= n.state < NumStates
  }

  /** Every node of a position whose id is not 0 is visited. */
  lemma {:induction false} VisitedContains(ps: seq<Position>, k: nat, upto: nat, n: Node)
    requires k < upto <= |ps| && ps[k].id != 0 && n in ps[k].nodes
    ensures n in VisitedNodes(ps, upto)
  {
    if upto > k + 1 {
      VisitedContains(ps, k, upto - 1, n);
    }
  }

  lemma StateTermsSnoc(nodes: seq<Node>, n: Node, state: int)
    ensures StateTerms(nodes + [n], state) ==
      StateTerms(nodes, state) + (if n.state == state then [n.logConditionalProbability] else [])
  {
    assert (nodes + [n])[..|nodes + [n]| - 1] == nodes;
  }

  lemma EmissionTermsSnoc(nodes: seq<Node>, n: Node, state: int, residue: char)
    ensures EmissionTerms(nodes + [n], state, residue) ==
      EmissionTerms(nodes, state, residue) + (if n.state == state && n.residue == residue then [n.logConditionalProbability] else [])
  {
    assert (nodes + [n])[..|nodes + [n]| - 1] == nodes;
  }

  lemma {:induction false} StateTermsAppend(a: seq<Node>, b: seq<Node>, state: int)
    ensures StateTerms(a + b, state) == StateTerms(a, state) + StateTerms(b, state)
  {
    if b == [] {
      assert a + b == a;
    } else {
      var b0 := b[..|b| - 1];
      assert a + b == (a + b0) + [b[|b| - 1]];
      StateTermsAppend(a, b0, state);
      StateTermsSnoc(a + b0, b[|b| - 1], state);
      StateTermsSnoc(b0, b[|b| - 1], state);
      assert b == b0 + [b[|b| - 1]];
    }
  }

  lemma {:induction false} EmissionTermsAppend(a: seq<Node>, b: seq<Node>, state: int, residue: char)
    ensures EmissionTerms(a + b, state, residue) == EmissionTerms(a, state, residue) + EmissionTerms(b, state, residue)
  {
    if b == [] {
      assert a + b == a;
    } else {
      var b0 := b[..|b| - 1];
      assert a + b == (a + b0) + [b[|b| - 1]];
      EmissionTermsAppend(a, b0, state, residue);
      EmissionTermsSnoc(a + b0, b[|b| - 1], state, residue);
      EmissionTermsSnoc(b0, b[|b| - 1], state, residue);
      assert b == b0 + [b[|b| - 1]];
    }
  }

  /** With every residue a base, the four numerators of a state split its
      denominator: each of the state's terms lands in exactly one of them. */
  lemma {:induction false} EmissionSplitsState(nodes: seq<Node>, state: int)
    requires ResiduesKnown(nodes)
    ensures |EmissionTerms(nodes, state, 'A')| + |EmissionTerms(nodes, state, 'C')|
          + |EmissionTerms(nodes, state, 'G')| + |EmissionTerms(nodes, state, 'T')| == |StateTerms(nodes, state)|
  {
    if nodes != [] {
      assert nodes[|nodes| - 1] in nodes;
      assert ResiduesKnown(nodes[..|nodes| - 1]) by {
        forall n | n in nodes[..|nodes| - 1] ensures n.residue in Bases {
          assert n in nodes;
        }
      }
      EmissionSplitsState(nodes[..|nodes| - 1], state);
    }
  }

  /** A state whose numerator for a residue has no term other than the
      sentinel (it never emitted the residue with positive weight) gets
      probability 0, and so does a state with no weight at all. */
  lemma EmissionEstimateZero(m: Libm, ps: seq<Position>, state: int, residue: char)
    ensures EmissionEstimate(m, ps, state, residue) == 0.0 <==>
      (forall x :: x in EmissionTerms(VisitedNodes(ps, |ps|), state, residue) ==> x.Undef?) ||
      (forall x :: x in StateTerms(VisitedNodes(ps, |ps|), state) ==> x.Undef?)
  {
    var num := EmissionTerms(VisitedNodes(ps, |ps|), state, residue);
    var den := StateTerms(VisitedNodes(ps, |ps|), state);
    assert (forall x :: x in num ==> x.Undef?) <==> (forall i :: 0 <= i < |num| ==> num[i].Undef?);
    assert (forall x :: x in den ==> x.Undef?) <==> (forall i :: 0 <= i < |den| ==> den[i].Undef?);
  }

  /** Two nodes, in states 0 and 1, both on residue c: a position after the
      start. */
  ghost predicate PairOn(nodes: seq<Node>, c: char) {
    && |nodes| == 2
    && nodes[0].state == 0 && nodes[1].state == 1
    && nodes[0].residue == c && nodes[1].residue == c
  }

  /** The node layout of a trellis built on the first T residues of s: the
      start position (id 0) and then a pair of nodes per residue. */
  ghost predicate Paired(ps: seq<Position>, s: seq<char>, T: nat) {
    && |ps| == T + 1 && T <= |s|
    && (forall k :: 0 <= k <= T ==> ps[k].id == k)
    && forall k :: 1 <= k <= T ==> PairOn(ps[k].nodes, s[k - 1])
  }

  lemma ShapedPaired(ps: seq<Position>, s: seq<char>, T: nat)
    requires NodesShaped(ps, s, T) && |ps| == T + 1
    ensures Paired(ps, s, T)
  {
    forall k | 1 <= k <= T ensures PairOn(ps[k].nodes, s[k - 1]) {
      assert ps[k].nodes[0].state == 0 && ps[k].nodes[1].state == 1;
    }
  }

  lemma StateTermsPair(v: seq<Node>, nodes: seq<Node>, c: char, state: nat)
    requires PairOn(nodes, c) && state < NumStates
    ensures StateTerms(v + nodes, state) == StateTerms(v, state) + [nodes[state].logConditionalProbability]
  {
    assert v + nodes == (v + [nodes[0]]) + [nodes[1]];
    StateTermsSnoc(v + [nodes[0]], nodes[1], state);
    StateTermsSnoc(v, nodes[0], state);
  }

  lemma EmissionTermsPair(v: seq<Node>, nodes: seq<Node>, c: char, state: nat, residue: char)
    requires PairOn(nodes, c) && state < NumStates
    ensures EmissionTerms(v + nodes, state, residue) ==
      EmissionTerms(v, state, residue) + (if c == residue then [nodes[state].logConditionalProbability] else [])
  {
    assert v + nodes == (v + [nodes[0]]) + [nodes[1]];
    EmissionTermsSnoc(v + [nodes[0]], nodes[1], state, residue);
    EmissionTermsSnoc(v, nodes[0], state, residue);
  }

  /** The conditionals of the node in the given state at positions
      1 .. upto - 1, in order. */
  ghost function NodeColumn(ps: seq<Position>, s: seq<char>, T: nat, state: nat, upto: nat): (r: seq<ExtLog>)
    requires Paired(ps, s, T) && state < NumStates && 1 <= upto <= T + 1
    ensures |r| == upto - 1
  {
    if upto == 1 then []
    else
      assert PairOn(ps[upto - 1].nodes, s[upto - 2]);
      NodeColumn(ps, s, T, state, upto - 1) + [ps[upto - 1].nodes[state].logConditionalProbability]
  }

  /** Entry k - 1 of a node column is the conditional of the node at position k. */
  lemma {:induction false} NodeColumnAt(ps: seq<Position>, s: seq<char>, T: nat, state: nat, upto: nat, k: nat)
    requires Paired(ps, s, T) && state < NumStates && 1 <= k < upto <= T + 1
    ensures PairOn(ps[k].nodes, s[k - 1])
    ensures NodeColumn(ps, s, T, state, upto)[k - 1] == ps[k].nodes[state].logConditionalProbability
  {
    if k < upto - 1 {
      NodeColumnAt(ps, s, T, state, upto - 1, k);
    }
  }

  /** Over a trellis built on s, a state's denominator has one term per
      residue, the conditional of that state's node at each position after
      the start, in order. */
  lemma {:induction false} BuiltStateTerms(ps: seq<Position>, s: seq<char>, T: nat, state: nat, upto: nat)
    requires Paired(ps, s, T) && state < NumStates && 1 <= upto <= T + 1
    ensures StateTerms(VisitedNodes(ps, upto), state) == NodeColumn(ps, s, T, state, upto)
  {
    if upto == 1 {
      assert VisitedNodes(ps, 0) == [];
    } else {
      BuiltStateTerms(ps, s, T, state, upto - 1);
      assert ps[upto - 1].id == upto - 1;
      StateTermsPair(VisitedNodes(ps, upto - 1), ps[upto - 1].nodes, s[upto - 2], state);
    }
  }

  /** Over a trellis built on s, a state's numerator for a base has one term
      per occurrence of the base in s: as many as countBases counts. */
  lemma {:induction false} BuiltEmissionCount(ps: seq<Position>, s: seq<char>, T: nat, state: nat, residue: char, upto: nat)
    requires Paired(ps, s, T) && state < NumStates && 1 <= upto <= T + 1
    requires residue in Bases
    ensures |EmissionTerms(VisitedNodes(ps, upto), state, residue)| == Tally(s[..upto - 1], BaseSlot(residue))
  {
    if upto == 1 {
      assert VisitedNodes(ps, 0) == [];
    } else {
      BuiltEmissionCount(ps, s, T, state, residue, upto - 1);
      var k := upto - 1;
      EmissionTermsPair(VisitedNodes(ps, k), ps[k].nodes, s[k - 1], state, residue);
      assert s[..k][..k - 1] == s[..k - 1];
      assert BaseSlot(s[k - 1]) == BaseSlot(residue) <==> s[k - 1] == residue;
    }
  }

  /** Over a trellis built on s, the visited residues are all bases exactly
      when s is made of bases only. */
  lemma {:induction false} BuiltResiduesKnown(ps: seq<Position>, s: seq<char>, T: nat, upto: nat)
    requires Paired(ps, s, T) && 1 <= upto <= T + 1
    ensures ResiduesKnown(VisitedNodes(ps, upto)) <==> forall i :: 0 <= i < upto - 1 ==> s[i] in Bases
  {
    if upto == 1 {
      assert VisitedNodes(ps, 0) == [];
    } else {
      BuiltResiduesKnown(ps, s, T, upto - 1);
      var k := upto - 1;
      KnownPair(VisitedNodes(ps, k), ps[k].nodes, s[k - 1]);
    }
  }

  lemma KnownPair(v: seq<Node>, nodes: seq<Node>, c: char)
    requires PairOn(nodes, c)
    ensures ResiduesKnown(v + nodes) <==> ResiduesKnown(v) && c in Bases
  {
    assert nodes[0] in v + nodes;
    if ResiduesKnown(v) && c in Bases {
      forall n | n in v + nodes ensures n.residue in Bases {
        if n !in v {
          assert n in nodes;
        }
      }
    }
    if ResiduesKnown(v + nodes) {
      forall n | n in v ensures n.residue in Bases {
        assert n in v + nodes;
      }
    }
  }

  /** Over a trellis built on s every visited state indexes the numerators. */
  lemma BuiltStatesCounted(ps: seq<Position>, s: seq<char>, T: nat)
    requires Paired(ps, s, T)
    ensures StatesCounted(ps)
  {
    forall k, n | 0 <= k < |ps| && ps[k].id != 0 && n in ps[k].nodes ensures 0 <= n.state < NumStates {
      assert PairOn(ps[k].nodes, s[k - 1]);
    }
  }

  /** The emission pass's accumulation: for each state the numerator of each
      base and the denominator.  A visited residue that is not a base has no
      numerator (a map::at failure) and is reported as a missing entry. */
  method EmissionSums(m: Libm, ps: seq<Position>) returns (r: Result<(seq<map<char, ExtLog>>, seq<ExtLog>)>)
    requires StatesCounted(ps)
    ensures r.Err? <==> !ResiduesKnown(VisitedNodes(ps, |ps|))
    ensures r.Err? ==> r.error == MissingEntry
    ensures r.Ok? ==> SumsHold(m, r.value.0, r.value.1, VisitedNodes(ps, |ps|))
  {
    var numerators, denominators := InitialSums(m);
    ghost var seen: seq<Node> := [];
    var k := 0;
    while k < |ps|
      invariant 0 <= k <= |ps| && seen == VisitedNodes(ps, k)
      invariant SumsHold(m, numerators, denominators, seen) && ResiduesKnown(seen)
    {
      if ps[k].id != 0 {
        assert forall n :: n in ps[k].nodes ==> 0 <= n.state < NumStates;
        var sums := AddPosition(m, numerators, denominators, seen, ps[k].nodes);
        if sums.Err? {
          ghost var n :| n in ps[k].nodes && n.residue !in Bases;
          VisitedContains(ps, k, |ps|, n);
          return Err(MissingEntry);
        }
        numerators, denominators := sums.value.0, sums.value.1;
        seen := seen + ps[k].nodes;
      } else {
        assert VisitedNodes(ps, k + 1) == seen + [];
      }
      k := k + 1;
    }
    return Ok((numerators, denominators));
  }

  /** Every numerator and denominator starts at the sentinel. */
  method InitialSums(m: Libm) returns (numerators: seq<map<char, ExtLog>>, denominators: seq<ExtLog>)
    ensures SumsHold(m, numerators, denominators, [])
  {
    numerators := [];
    denominators := [];
    for i := 0 to NumStates
      invariant |numerators| == i && |denominators| == i
      invariant forall st :: 0 <= st < i ==> StateSums(m, numerators[st], denominators[st], [], st)
    {
      numerators := numerators + [map['A' := Undef, 'C' := Undef, 'G' := Undef, 'T' := Undef]];
      denominators := denominators + [Undef];
    }
  }

  /** The inner loop of the emission pass over the nodes of one position. */
  method AddPosition(m: Libm, numerators: seq<map<char, ExtLog>>, denominators: seq<ExtLog>, ghost seen: seq<Node>, nodes: seq<Node>)
    returns (r: Result<(seq<map<char, ExtLog>>, seq<ExtLog>)>)
    requires SumsHold(m, numerators, denominators, seen) && ResiduesKnown(seen)
    requires forall n :: n in nodes ==> 0 <= n.state < NumStates
    ensures r.Err? <==> !ResiduesKnown(nodes)
    ensures r.Err? ==> r.error == MissingEntry
    ensures r.Ok? ==> SumsHold(m, r.value.0, r.value.1, seen + nodes) && ResiduesKnown(seen + nodes)
  {
    var nums, dens := numerators, denominators;
    var i := 0;
    assert seen + nodes[..0] == seen;
    while i < |nodes|
      invariant 0 <= i <= |nodes| && ResiduesKnown(nodes[..i])
      invariant SumsHold(m, nums, dens, seen + nodes[..i])
    {
      var node := nodes[i];
      assert node in nodes;
      assert nodes[..i + 1] == nodes[..i] + [node];
      if node.residue !in nums[node.state] {
        return Err(MissingEntry);
      }
      assert seen + nodes[..i + 1] == (seen + nodes[..i]) + [node];
      nums, dens := AddNode(m, nums, dens, seen + nodes[..i], node);
      i := i + 1;
    }
    assert nodes[..i] == nodes;
    KnownJoin(seen, nodes);
    return Ok((nums, dens));
  }

  lemma KnownJoin(a: seq<Node>, b: seq<Node>)
    requires ResiduesKnown(a) && ResiduesKnown(b)
    ensures ResiduesKnown(a + b)
  {
    forall n | n in a + b ensures n.residue in Bases {
      if n !in a {
        assert n in b;
      }
    }
  }

  /** The accumulators hold the sums of the terms of the nodes seen so far. */
  ghost predicate SumsHold(m: Libm, numerators: seq<map<char, ExtLog>>, denominators: seq<ExtLog>, seen: seq<Node>) {
    && |numerators| == NumStates && |denominators| == NumStates
    && forall state :: 0 <= state < NumStates ==> StateSums(m, numerators[state], denominators[state], seen, state)
  }

  /** One state's numerators and denominator hold the sums of its terms. */
  ghost predicate StateSums(m: Libm, numerator: map<char, ExtLog>, denominator: ExtLog, seen: seq<Node>, state: int) {
    && numerator.Keys == Bases
    && denominator == SumAll(m, StateTerms(seen, state))
    && forall c :: c in Bases ==> numerator[c] == SumAll(m, EmissionTerms(seen, state, c))
  }

  /** A node of another state leaves a state's sums as they are. */
  lemma OtherStateSums(m: Libm, numerator: map<char, ExtLog>, denominator: ExtLog, seen: seq<Node>, state: int, node: Node)
    requires StateSums(m, numerator, denominator, seen, state) && node.state != state
    ensures StateSums(m, numerator, denominator, seen + [node], state)
  {
    StateTermsSnoc(seen, node, state);
    assert StateTerms(seen, state) + [] == StateTerms(seen, state);
    forall c | c in Bases ensures EmissionTerms(seen + [node], state, c) == EmissionTerms(seen, state, c) {
      EmissionTermsSnoc(seen, node, state, c);
      assert EmissionTerms(seen, state, c) + [] == EmissionTerms(seen, state, c);
    }
  }

  /** A node of the state adds its conditional to the denominator and to the
      numerator of its residue. */
  lemma SameStateSums(m: Libm, numerator: map<char, ExtLog>, denominator: ExtLog, seen: seq<Node>, node: Node)
    requires StateSums(m, numerator, denominator, seen, node.state) && node.residue in Bases
    ensures StateSums(m,
      numerator[node.residue := ElnSum(m, numerator[node.residue], node.logConditionalProbability)],
      ElnSum(m, denominator, node.logConditionalProbability), seen + [node], node.state)
  {
    var x := node.logConditionalProbability;
    assert ElnSum(m, denominator, x) == SumAll(m, StateTerms(seen + [node], node.state)) by {
      StateTermsSnoc(seen, node, node.state);
      SumAllSnoc(m, StateTerms(seen, node.state), x);
    }
    var numerator' := numerator[node.residue := ElnSum(m, numerator[node.residue], x)];
    assert numerator'.Keys == Bases;
    forall c | c in Bases ensures numerator'[c] == SumAll(m, EmissionTerms(seen + [node], node.state, c)) {
      NumeratorSum(m, numerator, seen, node, c);
    }
  }

  lemma NumeratorSum(m: Libm, numerator: map<char, ExtLog>, seen: seq<Node>, node: Node, c: char)
    requires numerator.Keys == Bases && node.residue in Bases && c in Bases
    requires numerator[c] == SumAll(m, EmissionTerms(seen, node.state, c))
    requires numerator[node.residue] == SumAll(m, EmissionTerms(seen, node.state, node.residue))
    ensures numerator[node.residue := ElnSum(m, numerator[node.residue], node.logConditionalProbability)][c] ==
      SumAll(m, EmissionTerms(seen + [node], node.state, c))
  {
    EmissionTermsSnoc(seen, node, node.state, c);
    if c == node.residue {
      SumAllSnoc(m, EmissionTerms(seen, node.state, c), node.logConditionalProbability);
    } else {
      assert EmissionTerms(seen, node.state, c) + [] == EmissionTerms(seen, node.state, c);
    }
  }

  /** Adds one node's conditional to its state's denominator and to the
      numerator of its state and residue. */
  method AddNode(m: Libm, numerators: seq<map<char, ExtLog>>, denominators: seq<ExtLog>, ghost seen: seq<Node>, node: Node)
    returns (numerators': seq<map<char, ExtLog>>, denominators': seq<ExtLog>)
    requires SumsHold(m, numerators, denominators, seen) && 0 <= node.state < NumStates && node.residue in Bases
    ensures SumsHold(m, numerators', denominators', seen + [node])
  {
    var st := node.state;
    SameStateSums(m, numerators[st], denominators[st], seen, node);
    numerators' := numerators[st := numerators[st][node.residue := ElnSum(m, numerators[st][node.residue], node.logConditionalProbability)]];
    denominators' := denominators[st := ElnSum(m, denominators[st], node.logConditionalProbability)];
    forall state | 0 <= state < NumStates && state != st
      ensures StateSums(m, numerators'[state], denominators'[state], seen + [node], state)
    {
      OtherStateSums(m, numerators[state], denominators[state], seen, state, node);
    }
  }

  // ---------------------------------------------------------------------
  // Transition (calculateBaumWelchTransitionProbabilities)

  /** What one out-transition adds to the sums: the states it leads from and
      to, its conditional (numerator) and its start node's conditional
      (denominator). */
  datatype Event = Event(from: int, to: int, numerator: ExtLog, denominator: ExtLog)

  /** A node reference that names an existing node. */
  ghost predicate InRef(ps: seq<Position>, r: NodeRef) {
    r.position < |ps| && r.index < |ps[r.position].nodes|
  }

  function StateAt(ps: seq<Position>, r: NodeRef): int
    requires InRef(ps, r)
  {
    ps[r.position].nodes[r.index].state
  }

  /** Transition t exists, both its ends exist, and their states index the
      sums. */
  ghost predicate Countable(ps: seq<Position>, xs: seq<Transition>, t: nat) {
    && t < |xs| && InRef(ps, xs[t].startNode) && InRef(ps, xs[t].endNode)
    && 0 <= StateAt(ps, xs[t].startNode) < NumStates && 0 <= StateAt(ps, xs[t].endNode) < NumStates
  }

  /** Every out-transition the pass reads is countable: those of the nodes of
      every position whose id is neither 0 nor the number of positions. */
  ghost predicate Counted(ps: seq<Position>, xs: seq<Transition>) {
    forall k, n, t :: 0 <= k < |ps| && ps[k].id != 0 && ps[k].id != |ps| && n in ps[k].nodes && t in n.outTransitions ==>
      Countable(ps, xs, t)
  }

  function EventOf(ps: seq<Position>, xs: seq<Transition>, t: nat, denominator: ExtLog): Event
    requires Countable(ps, xs, t)
  {
    Event(StateAt(ps, xs[t].startNode), StateAt(ps, xs[t].endNode), xs[t].logConditionalProbability, denominator)
  }

  /** The events of a node's out-transitions, in order. */
  function OutEvents(ps: seq<Position>, xs: seq<Transition>, outs: seq<nat>, denominator: ExtLog): seq<Event>
    requires forall t :: t in outs ==> Countable(ps, xs, t)
  {
    if outs == [] then []
    else OutEvents(ps, xs, outs[..|outs| - 1], denominator) + [EventOf(ps, xs, outs[|outs| - 1], denominator)]
  }

  /** The events of the nodes of a position, node by node. */
  function NodeEvents(ps: seq<Position>, xs: seq<Transition>, nodes: seq<Node>): seq<Event>
    requires forall n, t :: n in nodes && t in n.outTransitions ==> Countable(ps, xs, t)
  {
    if nodes == [] then []
    else
      var last := nodes[|nodes| - 1];
      assert forall n :: n in nodes[..|nodes| - 1] ==> n in nodes;
      NodeEvents(ps, xs, nodes[..|nodes| - 1]) + OutEvents(ps, xs, last.outTransitions, last.logConditionalProbability)
  }

  /** Whether the pass skips a position: the start position (id 0) and one
      whose id is the number of positions. */
  predicate Skipped(ps: seq<Position>, k: nat)
    requires k < |ps|
  {
    ps[k].id == 0 || ps[k].id == |ps|
  }

  /** The events of the first upto positions, in the order the pass meets
      them. */
  function TransitionEvents(ps: seq<Position>, xs: seq<Transition>, upto: nat): seq<Event>
    requires upto <= |ps| && Counted(ps, xs)
  {
    if upto == 0 then []
    else if Skipped(ps, upto - 1) then TransitionEvents(ps, xs, upto - 1)
    else TransitionEvents(ps, xs, upto - 1) + NodeEvents(ps, xs, ps[upto - 1].nodes)
  }

  /** The terms of the numerator of the transition from state a to state b. */
  function NumeratorTerms(es: seq<Event>, a: int, b: int): seq<ExtLog> {
    if es == [] then []
    else
      var e := es[|es| - 1];
      NumeratorTerms(es[..|es| - 1], a, b) + (if e.from == a && e.to == b then [e.numerator] else [])
  }

  /** The terms of the denominator of the transition from state a to state b. */
  function DenominatorTerms(es: seq<Event>, a: int, b: int): seq<ExtLog> {
    if es == [] then []
    else
      var e := es[|es| - 1];
      DenominatorTerms(es[..|es| - 1], a, b) + (if e.from == a && e.to == b then [e.denominator] else [])
  }

  /** The re-estimated probability of the transition from state a to state b. */
  function TransitionEstimate(m: Libm, ps: seq<Position>, xs: seq<Transition>, a: int, b: int): real
    requires Counted(ps, xs)
  {
    var es := TransitionEvents(ps, xs, |ps|);
    Ratio(m, NumeratorTerms(es, a, b), DenominatorTerms(es, a, b))
  }

  lemma TermsSnoc(es: seq<Event>, e: Event, a: int, b: int)
    ensures NumeratorTerms(es + [e], a, b) == NumeratorTerms(es, a, b) + (if e.from == a && e.to == b then [e.numerator] else [])
    ensures DenominatorTerms(es + [e], a, b) == DenominatorTerms(es, a, b) + (if e.from == a && e.to == b then [e.denominator] else [])
  {
    assert (es + [e])[..|es + [e]| - 1] == es;
  }

  lemma {:induction false} TermsAppend(es: seq<Event>, fs: seq<Event>, a: int, b: int)
    ensures NumeratorTerms(es + fs, a, b) == NumeratorTerms(es, a, b) + NumeratorTerms(fs, a, b)
    ensures DenominatorTerms(es + fs, a, b) == DenominatorTerms(es, a, b) + DenominatorTerms(fs, a, b)
  {
    if fs == [] {
      assert es + fs == es;
    } else {
      var f0 := fs[..|fs| - 1];
      var f := fs[|fs| - 1];
      assert es + fs == (es + f0) + [f];
      assert fs == f0 + [f];
      TermsAppend(es, f0, a, b);
      TermsSnoc(es + f0, f, a, b);
      TermsSnoc(f0, f, a, b);
    }
  }

  /** The sums of the numerator and the denominator of one pair of states. */
  ghost predicate CellSums(m: Libm, numerator: ExtLog, denominator: ExtLog, es: seq<Event>, a: int, b: int) {
    numerator == SumAll(m, NumeratorTerms(es, a, b)) && denominator == SumAll(m, DenominatorTerms(es, a, b))
  }

  /** The accumulators hold the sums of the events met so far. */
  ghost predicate PairSums(m: Libm, numerators: seq<seq<ExtLog>>, denominators: seq<seq<ExtLog>>, es: seq<Event>) {
    && |numerators| == NumStates && |denominators| == NumStates
    && (forall a :: 0 <= a < NumStates ==> |numerators[a]| == NumStates && |denominators[a]| == NumStates)
    && forall a, b :: 0 <= a < NumStates && 0 <= b < NumStates ==>
      CellSums(m, numerators[a][b], denominators[a][b], es, a, b)
  }

  /** An event adds to the sums of its own pair of states only. */
  lemma CellStep(m: Libm, numerator: ExtLog, denominator: ExtLog, es: seq<Event>, e: Event, a: int, b: int)
    requires CellSums(m, numerator, denominator, es, a, b)
    ensures e.from == a && e.to == b ==>
      CellSums(m, ElnSum(m, numerator, e.numerator), ElnSum(m, denominator, e.denominator), es + [e], a, b)
    ensures !(e.from == a && e.to == b) ==> CellSums(m, numerator, denominator, es + [e], a, b)
  {
    TermsSnoc(es, e, a, b);
    if e.from == a && e.to == b {
      SumAllSnoc(m, NumeratorTerms(es, a, b), e.numerator);
      SumAllSnoc(m, DenominatorTerms(es, a, b), e.denominator);
    } else {
      assert NumeratorTerms(es, a, b) + [] == NumeratorTerms(es, a, b);
      assert DenominatorTerms(es, a, b) + [] == DenominatorTerms(es, a, b);
    }
  }

  /** Every numerator and denominator starts at the sentinel. */
  method InitialPairSums(m: Libm) returns (numerators: seq<seq<ExtLog>>, denominators: seq<seq<ExtLog>>)
    ensures PairSums(m, numerators, denominators, [])
  {
    numerators := [];
    denominators := [];
    for i := 0 to NumStates
      invariant |numerators| == i && |denominators| == i
      invariant forall a :: 0 <= a < i ==> numerators[a] == [Undef, Undef] && denominators[a] == [Undef, Undef]
    {
      numerators := numerators + [[Undef, Undef]];
      denominators := denominators + [[Undef, Undef]];
    }
  }

  /** Adds one out-transition to the sums of its pair of states. */
  method AddEvent(m: Libm, numerators: seq<seq<ExtLog>>, denominators: seq<seq<ExtLog>>, ghost es: seq<Event>, e: Event)
    returns (numerators': seq<seq<ExtLog>>, denominators': seq<seq<ExtLog>>)
    requires PairSums(m, numerators, denominators, es) && 0 <= e.from < NumStates && 0 <= e.to < NumStates
    ensures PairSums(m, numerators', denominators', es + [e])
  {
    var a, b := e.from, e.to;
    numerators' := numerators[a := numerators[a][b := ElnSum(m, numerators[a][b], e.numerator)]];
    denominators' := denominators[a := denominators[a][b := ElnSum(m, denominators[a][b], e.denominator)]];
    forall a', b' | 0 <= a' < NumStates && 0 <= b' < NumStates
      ensures CellSums(m, numerators'[a'][b'], denominators'[a'][b'], es + [e], a', b')
    {
      CellStep(m, numerators[a'][b'], denominators[a'][b'], es, e, a', b');
    }
  }

  /** The innermost loop: a node's out-transitions. */
  method AddOuts(m: Libm, numerators: seq<seq<ExtLog>>, denominators: seq<seq<ExtLog>>, ghost es: seq<Event>,
                 ps: seq<Position>, xs: seq<Transition>, node: Node)
    returns (numerators': seq<seq<ExtLog>>, denominators': seq<seq<ExtLog>>)
    requires PairSums(m, numerators, denominators, es)
    requires forall t :: t in node.outTransitions ==> Countable(ps, xs, t)
    ensures PairSums(m, numerators', denominators',
      es + OutEvents(ps, xs, node.outTransitions, node.logConditionalProbability))
  {
    var outs := node.outTransitions;
    var d := node.logConditionalProbability;
    numerators', denominators' := numerators, denominators;
    var j := 0;
    ghost var done := es;
    assert OutEvents(ps, xs, outs[..0], d) == [];
    assert es + [] == es;
    while j < |outs|
      invariant 0 <= j <= |outs|
      invariant done == es + OutEvents(ps, xs, outs[..j], d)
      invariant PairSums(m, numerators', denominators', done)
    {
      var t := outs[j];
      assert t in outs;
      var e := Event(StateAt(ps, xs[t].startNode), StateAt(ps, xs[t].endNode), xs[t].logConditionalProbability, d);
      OutEventsSnoc(ps, xs, outs, j, d);
      numerators', denominators' := AddEvent(m, numerators', denominators', done, e);
      assert done + [e] == es + OutEvents(ps, xs, outs[..j + 1], d);
      done := done + [e];
      j := j + 1;
    }
    assert outs[..j] == outs;
  }

  lemma OutEventsSnoc(ps: seq<Position>, xs: seq<Transition>, outs: seq<nat>, j: nat, d: ExtLog)
    requires j < |outs| && forall t :: t in outs ==> Countable(ps, xs, t)
    ensures forall t :: t in outs[..j] ==> Countable(ps, xs, t)
    ensures forall t :: t in outs[..j + 1] ==> Countable(ps, xs, t)
    ensures OutEvents(ps, xs, outs[..j + 1], d) == OutEvents(ps, xs, outs[..j], d) + [EventOf(ps, xs, outs[j], d)]
  {
    assert outs[..j + 1][..j] == outs[..j];
    assert outs[j] in outs;
  }

  /** The loop over the nodes of one position. */
  method AddNodes(m: Libm, numerators: seq<seq<ExtLog>>, denominators: seq<seq<ExtLog>>, ghost es: seq<Event>,
                  ps: seq<Position>, xs: seq<Transition>, nodes: seq<Node>)
    returns (numerators': seq<seq<ExtLog>>, denominators': seq<seq<ExtLog>>)
    requires PairSums(m, numerators, denominators, es)
    requires forall n, t :: n in nodes && t in n.outTransitions ==> Countable(ps, xs, t)
    ensures PairSums(m, numerators', denominators', es + NodeEvents(ps, xs, nodes))
  {
    numerators', denominators' := numerators, denominators;
    var i := 0;
    assert es + NodeEvents(ps, xs, nodes[..0]) == es;
    while i < |nodes|
      invariant 0 <= i <= |nodes|
      invariant forall n :: n in nodes[..i] ==> n in nodes
      invariant PairSums(m, numerators', denominators', es + NodeEvents(ps, xs, nodes[..i]))
    {
      var node := nodes[i];
      assert node in nodes;
      assert nodes[..i + 1][..i] == nodes[..i];
      assert forall n :: n in nodes[..i + 1] ==> n in nodes;
      assert es + NodeEvents(ps, xs, nodes[..i + 1])
          == (es + NodeEvents(ps, xs, nodes[..i])) + OutEvents(ps, xs, node.outTransitions, node.logConditionalProbability);
      numerators', denominators' := AddOuts(m, numerators', denominators', es + NodeEvents(ps, xs, nodes[..i]), ps, xs, node);
      i := i + 1;
    }
    assert nodes[..i] == nodes;
  }

  /** The accumulation of the transition pass: for each pair of states the
      sum of the conditionals of the transitions between them and the sum of
      the conditionals of their start nodes. */
  method TransitionSums(m: Libm, ps: seq<Position>, xs: seq<Transition>) returns (numerators: seq<seq<ExtLog>>, denominators: seq<seq<ExtLog>>)
    requires Counted(ps, xs)
    ensures PairSums(m, numerators, denominators, TransitionEvents(ps, xs, |ps|))
  {
    numerators, denominators := InitialPairSums(m);
    var numPositions := |ps|;
    var k := 0;
    while k < |ps|
      invariant 0 <= k <= |ps|
      invariant PairSums(m, numerators, denominators, TransitionEvents(ps, xs, k))
    {
      if ps[k].id == 0 || ps[k].id == numPositions {
        k := k + 1;
        continue;
      }
      numerators, denominators := AddNodes(m, numerators, denominators, TransitionEvents(ps, xs, k), ps, xs, ps[k].nodes);
      k := k + 1;
    }
  }

  // ---------------------------------------------------------------------
  // The transition sums over a built trellis

  /** Out-transition j of node i of position k leads from that node to node j
      of position k + 1. */
  ghost predicate LinkedOut(ps: seq<Position>, xs: seq<Transition>, k: nat, i: nat, j: nat) {
    && k + 1 < |ps| && i < |ps[k].nodes| && j < |ps[k].nodes[i].outTransitions|
    && ps[k].nodes[i].outTransitions[j] < |xs|
    && xs[ps[k].nodes[i].outTransitions[j]].startNode == NodeRef(k, i)
    && xs[ps[k].nodes[i].outTransitions[j]].endNode == NodeRef(k + 1, j)
  }

  /** Position k, not the last, of a linked trellis: every node has one
      out-transition per node of the next position, linked in order. */
  ghost predicate LinkedPair(ps: seq<Position>, xs: seq<Transition>, k: nat) {
    && 1 <= k && k + 1 < |ps| && |ps[k].nodes| == NumStates && |ps[k + 1].nodes| == NumStates
    && (forall i :: 0 <= i < NumStates ==> |ps[k].nodes[i].outTransitions| == NumStates)
    && forall i, j :: 0 <= i < NumStates && 0 <= j < NumStates ==> LinkedOut(ps, xs, k, i, j)
  }

  /** The layout of a trellis built and linked over the first T residues. */
  ghost predicate Linked(ps: seq<Position>, xs: seq<Transition>, s: seq<char>, T: nat) {
    && Paired(ps, s, T)
    && (forall k :: 1 <= k < T ==> LinkedPair(ps, xs, k))
    && forall n :: n in ps[T].nodes ==> n.outTransitions == []
  }

  lemma ShapedLinkedPair(ps: seq<Position>, xs: seq<Transition>, s: seq<char>, T: nat, k: nat)
    requires Shape(ps, xs, s, T) && 1 <= k < T
    ensures LinkedPair(ps, xs, k)
  {
    assert OutLinked(ps, k) && InLinked(ps, xs, k + 1);
    forall i, j | 0 <= i < NumStates && 0 <= j < NumStates ensures LinkedOut(ps, xs, k, i, j) {
      assert ps[k].nodes[i].outTransitions[j] == ps[k + 1].nodes[j].inTransitions[i];
    }
  }

  /** Over a trellis with the shape buildAndCalculateModel gives it. */
  lemma ShapedLinked(ps: seq<Position>, xs: seq<Transition>, s: seq<char>, T: nat)
    requires Shape(ps, xs, s, T)
    ensures Linked(ps, xs, s, T)
  {
    ShapedPaired(ps, s, T);
    forall k | 1 <= k < T ensures LinkedPair(ps, xs, k) {
      ShapedLinkedPair(ps, xs, s, T, k);
    }
    assert OutsEmpty(ps, T);
    forall n | n in ps[T].nodes ensures n.outTransitions == [] {
      var i :| 0 <= i < |ps[T].nodes| && ps[T].nodes[i] == n;
    }
  }

  /** In a linked trellis every transition the pass reads is countable. */
  lemma LinkedCounted(ps: seq<Position>, xs: seq<Transition>, s: seq<char>, T: nat)
    requires Linked(ps, xs, s, T)
    ensures Counted(ps, xs)
  {
    forall k, n, t | 0 <= k < |ps| && ps[k].id != 0 && ps[k].id != |ps| && n in ps[k].nodes && t in n.outTransitions
      ensures Countable(ps, xs, t)
    {
      assert ps[k].id == k;
      if k < T {
        OutCountable(ps, xs, s, T, k, n, t);
      }
    }
  }

  lemma OutCountable(ps: seq<Position>, xs: seq<Transition>, s: seq<char>, T: nat, k: nat, n: Node, t: nat)
    requires Linked(ps, xs, s, T) && 1 <= k < T && n in ps[k].nodes && t in n.outTransitions
    ensures Countable(ps, xs, t)
  {
    assert LinkedPair(ps, xs, k) && PairOn(ps[k].nodes, s[k - 1]) && PairOn(ps[k + 1].nodes, s[k]);
    var i :| 0 <= i < |ps[k].nodes| && ps[k].nodes[i] == n;
    var j :| 0 <= j < |n.outTransitions| && n.outTransitions[j] == t;
    assert LinkedOut(ps, xs, k, i, j);
  }

  /** The event of out-transition j of node i of position k. */
  ghost function CellEvent(ps: seq<Position>, xs: seq<Transition>, k: nat, i: nat, j: nat): Event
    requires LinkedOut(ps, xs, k, i, j)
  {
    Event(i, j, xs[ps[k].nodes[i].outTransitions[j]].logConditionalProbability, ps[k].nodes[i].logConditionalProbability)
  }

  /** The events of one node of position k, not the last, of a linked trellis. */
  lemma LinkedNodeEvents(ps: seq<Position>, xs: seq<Transition>, s: seq<char>, T: nat, k: nat, i: nat)
    requires Linked(ps, xs, s, T) && 1 <= k < T && i < NumStates
    ensures LinkedOut(ps, xs, k, i, 0) && LinkedOut(ps, xs, k, i, 1)
    ensures forall t :: t in ps[k].nodes[i].outTransitions ==> Countable(ps, xs, t)
    ensures OutEvents(ps, xs, ps[k].nodes[i].outTransitions, ps[k].nodes[i].logConditionalProbability)
      == [CellEvent(ps, xs, k, i, 0), CellEvent(ps, xs, k, i, 1)]
  {
    assert LinkedPair(ps, xs, k) && PairOn(ps[k].nodes, s[k - 1]) && PairOn(ps[k + 1].nodes, s[k]);
    assert LinkedOut(ps, xs, k, i, 0) && LinkedOut(ps, xs, k, i, 1);
    var n := ps[k].nodes[i];
    assert n in ps[k].nodes;
    var outs := n.outTransitions;
    forall t | t in outs ensures Countable(ps, xs, t) {
      OutCountable(ps, xs, s, T, k, n, t);
    }
    var c := n.logConditionalProbability;
    assert outs[..1] == [outs[0]] && outs[..1][..0] == [] && outs[..2] == outs;
    assert forall t :: t in outs[..1] ==> t in outs;
    assert OutEvents(ps, xs, outs[..1], c) == [EventOf(ps, xs, outs[0], c)];
    assert OutEvents(ps, xs, outs, c) == OutEvents(ps, xs, outs[..1], c) + [EventOf(ps, xs, outs[1], c)];
    assert EventOf(ps, xs, outs[0], c) == CellEvent(ps, xs, k, i, 0);
    assert EventOf(ps, xs, outs[1], c) == CellEvent(ps, xs, k, i, 1);
  }

  /** The events of position k, not the last, of a linked trellis: one per
      pair of states, in the order (0, 0), (0, 1), (1, 0), (1, 1). */
  lemma LinkedPositionEvents(ps: seq<Position>, xs: seq<Transition>, s: seq<char>, T: nat, k: nat)
    requires Linked(ps, xs, s, T) && Counted(ps, xs) && 1 <= k < T
    ensures ps[k].id != 0 && ps[k].id != |ps|
    ensures forall n, t :: n in ps[k].nodes && t in n.outTransitions ==> Countable(ps, xs, t)
    ensures LinkedPair(ps, xs, k)
    ensures NodeEvents(ps, xs, ps[k].nodes) == [
      CellEvent(ps, xs, k, 0, 0), CellEvent(ps, xs, k, 0, 1), CellEvent(ps, xs, k, 1, 0), CellEvent(ps, xs, k, 1, 1)]
  {
    assert ps[k].id == k;
    var nodes := ps[k].nodes;
    assert LinkedPair(ps, xs, k) && PairOn(nodes, s[k - 1]);
    forall n, t | n in nodes && t in n.outTransitions ensures Countable(ps, xs, t) {
      OutCountable(ps, xs, s, T, k, n, t);
    }
    LinkedNodeEvents(ps, xs, s, T, k, 0);
    LinkedNodeEvents(ps, xs, s, T, k, 1);
    assert nodes[..1] == [nodes[0]] && nodes[..1][..0] == [] && nodes[..2] == nodes;
    assert forall n :: n in nodes[..1] ==> n in nodes;
    var o0 := OutEvents(ps, xs, nodes[0].outTransitions, nodes[0].logConditionalProbability);
    var o1 := OutEvents(ps, xs, nodes[1].outTransitions, nodes[1].logConditionalProbability);
    assert NodeEvents(ps, xs, nodes[..1]) == [] + o0;
    assert NodeEvents(ps, xs, nodes) == NodeEvents(ps, xs, nodes[..1]) + o1;
  }

  /** Of the four events of a position, exactly the one of the pair (a, b)
      adds to that pair's sums. */
  lemma FourEvents(e00: Event, e01: Event, e10: Event, e11: Event, a: nat, b: nat)
    requires e00.from == 0 && e00.to == 0 && e01.from == 0 && e01.to == 1
    requires e10.from == 1 && e10.to == 0 && e11.from == 1 && e11.to == 1
    requires a < NumStates && b < NumStates
    ensures var e := if a == 0 then (if b == 0 then e00 else e01) else (if b == 0 then e10 else e11);
      NumeratorTerms([e00, e01, e10, e11], a, b) == [e.numerator] &&
      DenominatorTerms([e00, e01, e10, e11], a, b) == [e.denominator]
  {
    TermsSnoc([e00, e01, e10], e11, a, b);
    TermsSnoc([e00, e01], e10, a, b);
    TermsSnoc([e00], e01, a, b);
    TermsSnoc([], e00, a, b);
    assert [e00, e01, e10, e11] == [e00, e01, e10] + [e11];
    assert [e00, e01, e10] == [e00, e01] + [e10];
    assert [e00, e01] == [e00] + [e01];
    assert [e00] == [] + [e00];
  }

  /** A position's four events add one term to each pair's sums. */
  lemma AppendFour(es: seq<Event>, e00: Event, e01: Event, e10: Event, e11: Event, a: nat, b: nat)
    requires e00.from == 0 && e00.to == 0 && e01.from == 0 && e01.to == 1
    requires e10.from == 1 && e10.to == 0 && e11.from == 1 && e11.to == 1
    requires a < NumStates && b < NumStates
    ensures var e := if a == 0 then (if b == 0 then e00 else e01) else (if b == 0 then e10 else e11);
      NumeratorTerms(es + [e00, e01, e10, e11], a, b) == NumeratorTerms(es, a, b) + [e.numerator] &&
      DenominatorTerms(es + [e00, e01, e10, e11], a, b) == DenominatorTerms(es, a, b) + [e.denominator]
  {
    TermsAppend(es, [e00, e01, e10, e11], a, b);
    FourEvents(e00, e01, e10, e11, a, b);
  }

  /** The conditional of the transition from node a of position k to node b
      of position k + 1. */
  ghost function TransitionConditional(ps: seq<Position>, xs: seq<Transition>, s: seq<char>, T: nat, k: nat, a: nat, b: nat): ExtLog
    requires Linked(ps, xs, s, T) && 1 <= k < T && a < NumStates && b < NumStates
  {
    assert LinkedPair(ps, xs, k) && LinkedOut(ps, xs, k, a, b);
    xs[ps[k].nodes[a].outTransitions[b]].logConditionalProbability
  }

  /** The conditionals of the transitions from node a to node b of the next
      position, at positions 1 .. upto - 1, in order. */
  ghost function TransitionColumn(ps: seq<Position>, xs: seq<Transition>, s: seq<char>, T: nat, a: nat, b: nat, upto: nat): (r: seq<ExtLog>)
    requires Linked(ps, xs, s, T) && a < NumStates && b < NumStates && 1 <= upto <= T
    ensures |r| == upto - 1
  {
    if upto == 1 then []
    else TransitionColumn(ps, xs, s, T, a, b, upto - 1) + [TransitionConditional(ps, xs, s, T, upto - 1, a, b)]
  }

  /** Entry k - 1 of a transition column is the conditional of the transition
      leaving position k. */
  lemma {:induction false} TransitionColumnAt(ps: seq<Position>, xs: seq<Transition>, s: seq<char>, T: nat, a: nat, b: nat, upto: nat, k: nat)
    requires Linked(ps, xs, s, T) && a < NumStates && b < NumStates && 1 <= k < upto <= T
    ensures TransitionColumn(ps, xs, s, T, a, b, upto)[k - 1] == TransitionConditional(ps, xs, s, T, k, a, b)
  {
    if k < upto - 1 {
      TransitionColumnAt(ps, xs, s, T, a, b, upto - 1, k);
    }
  }

  /** Over a linked trellis, the sums of a pair of states (a, b) take one
      term from each position but the start and the last: the conditional of
      the transition from node a to node b of the next position, and the
      conditional of node a. */
  lemma {:induction false} LinkedTerms(ps: seq<Position>, xs: seq<Transition>, s: seq<char>, T: nat, a: nat, b: nat, upto: nat)
    requires Linked(ps, xs, s, T) && Counted(ps, xs) && a < NumStates && b < NumStates && 1 <= upto <= T
    ensures NumeratorTerms(TransitionEvents(ps, xs, upto), a, b) == TransitionColumn(ps, xs, s, T, a, b, upto)
    ensures DenominatorTerms(TransitionEvents(ps, xs, upto), a, b) == NodeColumn(ps, s, T, a, upto)
  {
    if upto == 1 {
      assert ps[0].id == 0;
      assert TransitionEvents(ps, xs, 1) == [];
    } else {
      LinkedTerms(ps, xs, s, T, a, b, upto - 1);
      LinkedTermsStep(ps, xs, s, T, a, b, upto - 1);
    }
  }

  /** Position k, not the last, adds one term to the sums of every pair. */
  lemma LinkedTermsStep(ps: seq<Position>, xs: seq<Transition>, s: seq<char>, T: nat, a: nat, b: nat, k: nat)
    requires Linked(ps, xs, s, T) && Counted(ps, xs) && a < NumStates && b < NumStates && 1 <= k < T
    ensures |ps[k].nodes| == NumStates
    ensures NumeratorTerms(TransitionEvents(ps, xs, k + 1), a, b) ==
      NumeratorTerms(TransitionEvents(ps, xs, k), a, b) + [TransitionConditional(ps, xs, s, T, k, a, b)]
    ensures DenominatorTerms(TransitionEvents(ps, xs, k + 1), a, b) ==
      DenominatorTerms(TransitionEvents(ps, xs, k), a, b) + [ps[k].nodes[a].logConditionalProbability]
  {
    LinkedPositionEvents(ps, xs, s, T, k);
    var es := TransitionEvents(ps, xs, k);
    assert TransitionEvents(ps, xs, k + 1) == es + NodeEvents(ps, xs, ps[k].nodes);
    AppendFour(es, CellEvent(ps, xs, k, 0, 0), CellEvent(ps, xs, k, 0, 1), CellEvent(ps, xs, k, 1, 0), CellEvent(ps, xs, k, 1, 1), a, b);
  }

  /** Nodes without out-transitions add no events. */
  lemma {:induction false} NoOutsNoEvents(ps: seq<Position>, xs: seq<Transition>, nodes: seq<Node>)
    requires forall n :: n in nodes ==> n.outTransitions == []
    ensures NodeEvents(ps, xs, nodes) == []
  {
    if nodes != [] {
      assert forall n :: n in nodes[..|nodes| - 1] ==> n in nodes;
      NoOutsNoEvents(ps, xs, nodes[..|nodes| - 1]);
      assert nodes[|nodes| - 1] in nodes;
    }
  }

  /** Over a trellis built on T >= 1 residues the re-estimated transition from
      state a to state b sums, over the positions 1 .. T - 1, the conditionals
      of the transitions from node a to node b of the next position, divided
      by the sum of the conditionals of node a over the same positions. */
  lemma TransitionTermsBuilt(ps: seq<Position>, xs: seq<Transition>, s: seq<char>, T: nat, a: nat, b: nat)
    requires Shape(ps, xs, s, T) && T >= 1 && a < NumStates && b < NumStates
    ensures Linked(ps, xs, s, T) && Counted(ps, xs)
    ensures NumeratorTerms(TransitionEvents(ps, xs, |ps|), a, b) == TransitionColumn(ps, xs, s, T, a, b, T)
    ensures DenominatorTerms(TransitionEvents(ps, xs, |ps|), a, b) == NodeColumn(ps, s, T, a, T)
  {
    ShapedLinked(ps, xs, s, T);
    LinkedCounted(ps, xs, s, T);
    LinkedTerms(ps, xs, s, T, a, b, T);
    assert ps[T].id == T;
    NoOutsNoEvents(ps, xs, ps[T].nodes);
    assert TransitionEvents(ps, xs, |ps|) == TransitionEvents(ps, xs, T) + [];
    assert TransitionEvents(ps, xs, T) + [] == TransitionEvents(ps, xs, T);
  }

  /** The C++ pass keeps a denominator per pair of states, but every pair
      leaving the same state sums the same terms, and they are the terms of
      that state's emission denominator but the last position's. */
  lemma TransitionDenominatorShared(ps: seq<Position>, xs: seq<Transition>, s: seq<char>, T: nat, a: nat, b: nat, b': nat)
    requires Shape(ps, xs, s, T) && T >= 1 && a < NumStates && b < NumStates && b' < NumStates
    ensures Counted(ps, xs)
    ensures DenominatorTerms(TransitionEvents(ps, xs, |ps|), a, b) == DenominatorTerms(TransitionEvents(ps, xs, |ps|), a, b')
    ensures StateTerms(VisitedNodes(ps, |ps|), a) ==
      DenominatorTerms(TransitionEvents(ps, xs, |ps|), a, b) + [ps[T].nodes[a].logConditionalProbability]
  {
    assert Paired(ps, s, T) && Counted(ps, xs) &&
      DenominatorTerms(TransitionEvents(ps, xs, |ps|), a, b) == NodeColumn(ps, s, T, a, T) by {
      TransitionTermsBuilt(ps, xs, s, T, a, b);
    }
    assert DenominatorTerms(TransitionEvents(ps, xs, |ps|), a, b') == NodeColumn(ps, s, T, a, T) by {
      TransitionTermsBuilt(ps, xs, s, T, a, b');
    }
    assert StateTerms(VisitedNodes(ps, |ps|), a) == NodeColumn(ps, s, T, a, T + 1) by {
      BuiltStateTerms(ps, s, T, a, T + 1);
    }
  }

  /** With no residue the trellis has no transitions to count and every
      re-estimated transition probability is 0. */
  lemma TransitionEstimateEmpty(m: Libm, ps: seq<Position>, xs: seq<Transition>, s: seq<char>, a: nat, b: nat)
    requires Shape(ps, xs, s, 0)
    ensures Counted(ps, xs) && TransitionEstimate(m, ps, xs, a, b) == 0.0
  {
    ShapedLinked(ps, xs, s, 0);
    LinkedCounted(ps, xs, s, 0);
    assert ps[0].id == 0;
    assert TransitionEvents(ps, xs, |ps|) == [];
  }

  // ---------------------------------------------------------------------
  // Writing the re-estimated emissions into the table

  /** The emission entries the pass writes: every state with every base. */
  predicate Reestimated(key: (int, char)) {
    0 <= key.0 < NumStates && key.1 in Bases
  }

  /** The order the pass writes them in: state by state, each state's bases
      in the order of Residues. */
  function Slot(key: (int, char)): int {
    key.0 * 4 + BaseSlot(key.1)
  }

  /** The emission table e is e0 with the first count entries of the pass
      written, each with its value under est. */
  ghost predicate EmissionWritten(est: ((int, char)) -> real, e0: map<(int, char), real>, e: map<(int, char), real>, count: int) {
    && (forall key :: key in e <==> key in e0 || (Reestimated(key) && Slot(key) < count))
    && forall key :: key in e ==>
      e[key] == if Reestimated(key) && Slot(key) < count then est(key) else e0[key]
  }

  /** A re-estimated key is fixed by its slot. */
  lemma SlotKey(key: (int, char), state: nat, idx: nat)
    requires Reestimated(key) && idx < 4 && Slot(key) == state * 4 + idx
    ensures key == (state, Residues[idx])
  {
    assert BaseSlot(key.1) < 4 && "ACGT"[BaseSlot(key.1)] == key.1;
  }

  /** Writing the entry of state `state` and the base at index idx of
      Residues extends the written entries by one. */
  lemma EmissionWriteStep(est: ((int, char)) -> real, e0: map<(int, char), real>, e: map<(int, char), real>, state: nat, idx: nat)
    requires state < NumStates && idx < 4 && EmissionWritten(est, e0, e, state * 4 + idx)
    ensures Reestimated((state, Residues[idx])) && Slot((state, Residues[idx])) == state * 4 + idx
    ensures EmissionWritten(est, e0, e[(state, Residues[idx]) := est((state, Residues[idx]))], state * 4 + idx + 1)
  {
    var key0 := (state, Residues[idx]);
    var c := state * 4 + idx;
    var e' := e[key0 := est(key0)];
    assert BaseSlot(Residues[idx]) == idx;
    forall key ensures key in e' <==> key in e0 || (Reestimated(key) && Slot(key) < c + 1) {
      if Reestimated(key) && Slot(key) == c {
        SlotKey(key, state, idx);
      }
    }
    forall key | key in e'
      ensures e'[key] == if Reestimated(key) && Slot(key) < c + 1 then est(key) else e0[key]
    {
      if key != key0 && Reestimated(key) && Slot(key) == c {
        SlotKey(key, state, idx);
      }
    }
  }

  /** Once the pass has written all its entries, every state's emission of
      every base is its re-estimate. */
  lemma EmissionAllWritten(est: ((int, char)) -> real, e0: map<(int, char), real>, e: map<(int, char), real>)
    requires EmissionWritten(est, e0, e, NumStates * 4)
    ensures forall key :: key in e <==> key in e0 || Reestimated(key)
    ensures forall key :: key in e ==> e[key] == if Reestimated(key) then est(key) else e0[key]
  {
    forall key | Reestimated(key) ensures Slot(key) < NumStates * 4 {
      assert BaseSlot(key.1) < 4;
    }
  }

  // ---------------------------------------------------------------------
  // Writing the re-estimated transitions into the table

  /** The transition table t is t0 with the first count cells of the pass
      written, row by row over the pairs of states. */
  ghost predicate TransitionWritten(m: Libm, ps: seq<Position>, xs: seq<Transition>, t0: seq<seq<real>>, t: seq<seq<real>>, count: int)
    requires Counted(ps, xs)
  {
    && |t| == |t0| == MaxStates
    && (forall a :: 0 <= a < MaxStates ==> |t[a]| == |t0[a]| == MaxStates)
    && forall a, b :: 0 <= a < MaxStates && 0 <= b < MaxStates ==>
      t[a][b] == if a < NumStates && b < NumStates && a * NumStates + b < count then TransitionEstimate(m, ps, xs, a, b) else t0[a][b]
  }

  /** Writing the cell of states i and j extends the written cells by one. */
  lemma TransitionWriteStep(m: Libm, ps: seq<Position>, xs: seq<Transition>, t0: seq<seq<real>>, t: seq<seq<real>>, i: nat, j: nat)
    requires Counted(ps, xs) && i < NumStates && j < NumStates
    requires TransitionWritten(m, ps, xs, t0, t, i * NumStates + j)
    ensures TransitionWritten(m, ps, xs, t0, t[i := t[i][j := TransitionEstimate(m, ps, xs, i, j)]], i * NumStates + j + 1)
  {
  }

  /** Once every cell is written, the pairs of states hold their re-estimates. */
  lemma TransitionAllWritten(m: Libm, ps: seq<Position>, xs: seq<Transition>, t0: seq<seq<real>>, t: seq<seq<real>>)
    requires Counted(ps, xs) && TransitionWritten(m, ps, xs, t0, t, NumStates * NumStates)
    ensures forall a, b :: 0 <= a < MaxStates && 0 <= b < MaxStates ==>
      t[a][b] == if a < NumStates && b < NumStates then TransitionEstimate(m, ps, xs, a, b) else t0[a][b]
  {
  }

  // ---------------------------------------------------------------------
  // Initiation

  /** The re-estimated initiation of a state, the exponential of the
      conditional its node at the first residue gets from the conditional
      pass, is never negative, and it is 0 exactly when that node's forward
      or backward probability is the sentinel. */
  lemma InitiationEstimate(m: Libm, nodes: seq<Node>, j: nat)
    requires j < |nodes| && nodes[j].id != 0
    ensures Eexp(m, GammaNode(m, nodes, j).logConditionalProbability) >= 0.0
    ensures Eexp(m, GammaNode(m, nodes, j).logConditionalProbability) == 0.0 <==>
      nodes[j].logForwardProbability.Undef? || nodes[j].logBackwardProbability.Undef?
  {
  }
}
