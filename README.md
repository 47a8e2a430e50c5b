# Hidden Markov model gene detection, modelled in Dafny

This project models the core of a two-state hidden Markov model gene
detector written in C++. The detector reads a DNA sequence from a FASTA file
and builds a trellis over it. The trellis has a start position (id 0) holding
a single start node. After it comes one position per residue, each holding one
node per state. Transitions link every node of a position to every node of
the next position. The detector then trains the model in one of two ways:

- **Viterbi training** scores the trellis with the highest weight path. It
  walks that path back from the best node of the last position. It counts
  states, state runs ("segments") and state-to-state transitions. Then it
  re-estimates the transition table from those counts.
- **Baum-Welch re-estimation** fills in forward and backward
  log-probabilities. It normalises them into node and transition posteriors
  ("conditional probabilities"). Then it re-estimates the emission,
  initiation and transition tables from those posteriors.

All probability arithmetic is done in the extended-logarithm algebra
`eexp`/`eln`/`elnsum`/`elnprod`. In that algebra NaN stands for log 0.

The Dafny modules follow the C++ classes:

- `ExtendedLog` models `MathUtilities`. Log values are `ExtLog = Undef | Fin(r)`, where `Undef` is the NaN sentinel. The C library's `log` and `exp` are a `Libm` parameter.
- `Probabilities` models `HMMProbabilities`. It is a class whose setters update the probability tables and their log tables together, and it also holds the two built-in starting tables.
- `Trellis` models `HMMNode`, `HMMTransition` and `HMMPosition`. Nodes, transitions and positions are values. Pointers between them are `NodeRef`/transition indices into an arena.
- `Arena` models the trellis as the class `Model`, which owns the sequence, the positions and the transitions. Its methods are the per-position passes and `createTransitionsFor`. Each pass is proved to store what a specification function in `Passes` computes.
- `Passes`, `Scores` and `Posterior` hold those specification functions: Viterbi, forward, backward, gamma and epsilon. They also hold the invariants the drivers keep.
- `Walk`, `Segments`, `Counting`, `WalkState` and `Gathering` model the backward walk of `gatherViterbiResults` and `pathStatesResultsString`. They cover what the walk visits, the segment map it builds and the counts it gathers; `WalkState` holds the predicates that describe a walk part-way through.
- `ViterbiResults` models `HMMViterbiResults`: the count tables and `calculateProbabilities`.
- `BaumWelch` holds the sums and estimates of the three Baum-Welch re-estimators.
- `Fasta` models `FastaFile`.
- `HiddenMarkov` models `HiddenMarkovModel`: building and rescoring the trellis, the backward and posterior drivers, the re-estimators, gathering Viterbi results, the path string and Viterbi training.

For the emission table of `HMMViterbiResults::calculateProbabilities` the model
follows the function's documentation (HMMViterbiResults.cpp:123-126), not its code.
The documentation says emissions are held steady, and the model keeps them. The code
(HMMViterbiResults.cpp:137-144) overwrites the emission of every state 1 and up with
`emissionCounts / stateCounts`. `emissionCounts` is only ever zeroed (HMMViterbiResults.cpp:54),
so as written that code would set all those emissions to zero. Transitions are
re-estimated for states 1 and up, as the code does.

## Model

| member | source | states |
|---|---|---|
| ExtendedLog.Eexp | MathUtilities.cpp:38-44 | eexp is never negative; it is 0 exactly on the sentinel and exp(x) on a finite x |
| ExtendedLog.Eln | MathUtilities.cpp:50-59 | eln fails with NegativeInput exactly on a negative input; it yields the sentinel exactly on 0 and log(a) on a positive a |
| ExtendedLog.ElnSum | MathUtilities.cpp:65-77 | a sentinel operand yields the other operand; the result is the sentinel only when both are; two finite operands give max + log(1 + exp(min - max)) |
| ExtendedLog.ElnProd | MathUtilities.cpp:83-92 | the product is the sentinel exactly when either factor is; otherwise the logs add |
| ExtendedLog.Negate | HMMPosition.cpp:177-181 | negating a normaliser keeps the sentinel and flips the sign of a finite value |
| ExtendedLog.SumAll | HMMPosition.cpp:86-96 | an accumulation from the sentinel is the sentinel exactly when every term is; a single term sums to itself |
| ExtendedLog.ElnSumCommutative | MathUtilities.cpp:65-77 | elnsum does not depend on the order of its operands |
| ExtendedLog.ElnSumSentinelIdentity | MathUtilities.cpp:66-71 | the sentinel is the identity of elnsum |
| ExtendedLog.ElnProdCommutative | MathUtilities.cpp:83-92 | elnprod does not depend on the order of its operands |
| ExtendedLog.ElnProdAssociative | MathUtilities.cpp:83-92 | nested elnprods regroup freely |
| ExtendedLog.ElnProdAbsorbing | MathUtilities.cpp:83-92 | the sentinel absorbs every elnprod |
| ExtendedLog.ElnProdUnit | MathUtilities.cpp:83-92 | log 1 = 0 is the unit of elnprod |
| ExtendedLog.EexpOfEln | MathUtilities.cpp:38-59 | when exp undoes log, eexp(eln(a)) == a for every a >= 0, including 0 through the sentinel |
| ExtendedLog.SumAllSnoc | HMMPosition.cpp:86-96 | one more loop iteration elnsums one more term onto the running total |
| ExtendedLog.SumAllAppend | HMMPosition.cpp:153-167 | an accumulation over two runs of terms continues the first run's total through the second |
| ExtendedLog.SumAllSkipsSentinels | HMMPosition.cpp:153-167 | trailing sentinel terms leave an accumulation unchanged |
| Probabilities.Log | HMMProbabilities.cpp:148-151 | the log stored beside a probability is finite exactly when the probability is positive, and agrees with eln on every non-negative value |
| Probabilities.HMMProbabilities.constructor | HMMProbabilities.cpp:20-21 | a new table is valid, with zero initiation and transition rows and no emissions |
| Probabilities.HMMProbabilities.EmissionProbability | HMMProbabilities.cpp:101-103 | the lookup succeeds exactly when the (state, residue) entry exists, and returns it; otherwise MissingEntry (map::at throws) |
| Probabilities.HMMProbabilities.LogEmissionProbability | HMMProbabilities.cpp:123-125 | the log lookup succeeds exactly when the plain lookup does, and returns the log of that probability |
| Probabilities.HMMProbabilities.LogInitiationProbability | HMMProbabilities.cpp:130-132 | the log initiation of a state is the log of its initiation probability |
| Probabilities.HMMProbabilities.LogTransitionProbability | HMMProbabilities.cpp:138-140 | the log transition between two states is the log of their transition probability |
| Probabilities.HMMProbabilities.SetEmissionProbability | HMMProbabilities.cpp:148-151 | sets one emission entry and its log together; every other entry and table is unchanged; the table stays valid |
| Probabilities.HMMProbabilities.SetInitiationProbability | HMMProbabilities.cpp:159-162 | sets one initiation entry and its log together; nothing else changes |
| Probabilities.HMMProbabilities.SetTransitionProbability | HMMProbabilities.cpp:171-174 | sets one transition cell and its log together; nothing else changes |
| Probabilities.HMMProbabilities.HoldEmission | HMMViterbiResults.cpp:123-126 | the new table takes over the previous emission table (both probability and log) and keeps its own initiation and transition tables |
| Probabilities.TwoStatesStochastic | HMMProbabilities.cpp:35-61 | a valid table whose two-state initiation row, transition rows and emission rows each sum to one is stochastic |
| Probabilities.InitialEmission | HMMProbabilities.cpp:50-57 | both emission rows of the built-in starting table sum to one |
| Probabilities.TestEmission | HMMProbabilities.cpp:83-90 | both emission rows of the test table sum to one, with A = T and C = G in each |
| Probabilities.InitialProbabilities | HMMProbabilities.cpp:35-61 | the starting table holds the source's constants and is stochastic over two states |
| Probabilities.TestProbabilities | HMMProbabilities.cpp:68-93 | the test table holds the source's constants and is stochastic over two states |
| Trellis.StartNode | HMMNode.cpp:33-43 | the start node has id 0, state -1, the start residue, log-probabilities 0 (probability 1), no back-pointer and no transitions |
| Trellis.NewNode | HMMNode.cpp:45-51 | a new node carries its id, state and residue, with no back-pointer and no transitions |
| Trellis.AddInTransition | HMMNode.cpp:67-69 | appends one in-transition; nothing else about the node changes |
| Trellis.AddOutTransition | HMMNode.cpp:76-78 | appends one out-transition; nothing else about the node changes |
| Trellis.LogEmissionProbability | HMMNode.cpp:84-86 | a node's log emission exists exactly when the table has its (state, residue) entry, and is that entry's log |
| Trellis.NewTransition | HMMTransition.cpp:22-26 | a transition links the given start node to the given end node |
| Trellis.LogProbability | HMMTransition.cpp:40-45 | leaving a start-residue node is the initiation into the end state; any other transition is the table entry for the two states |
| Trellis.LogProbabilityReadsOnlyStates | HMMTransition.cpp:40-45 | a transition's log probability depends only on the start residue and the two states |
| Trellis.StartPosition | HMMPosition.cpp:10-15 | the start position has id 0 and exactly the start node |
| Trellis.NewPosition | HMMPosition.cpp:17-23 | a new position has the given id and one fresh node per state, node j in state j, all with the position's residue |
| Trellis.FirstHighest | HMMPosition.cpp:37-49 | the highest scoring node exists exactly for a non-empty position; no node outweighs it and every earlier node weighs strictly less |
| Trellis.HighestScoringNode | HMMPosition.cpp:37-49 | the scan over the nodes returns the first node of greatest weight |
| Passes.ViterbiScores | HiddenMarkovModel.cpp:572-577 | each previous node offers its weight plus the transition plus the emission |
| Passes.MaxFold | HiddenMarkovModel.cpp:565-584 | the scan keeps the greatest score and the first index attaining it; it finds no source exactly when every score is the sentinel |
| Passes.ViterbiNode | HiddenMarkovModel.cpp:563-586 | a rescored node's weight beats no offered score; a finite weight points back to the first previous node offering it; with no winning score the back-pointer is kept; nothing else changes |
| Passes.ViterbiPointsBackWhenPositive | HiddenMarkovModel.cpp:563-586 | with finite previous weights, transitions and emission, every rescored node gets a back-pointer |
| Passes.ForwardTerms | HMMPosition.cpp:87-96 | each in-transition contributes its start node's forward probability times the transition |
| Passes.ForwardValue | HMMPosition.cpp:66-103 | at position 1 the forward value is the initiation times the emission; a zero emission or all-sentinel predecessors give the sentinel |
| Passes.BackwardTerms | HMMPosition.cpp:124-136 | each out-transition contributes the transition times the end node's emission times its backward value |
| Passes.BackwardValue | HMMPosition.cpp:120-139 | no successors or all-sentinel successors give the sentinel; one successor gives its single term |
| Passes.GammaTerms | HMMPosition.cpp:160-164 | each node's unnormalised posterior is its forward value times its backward value |
| Passes.GammaNode | HMMPosition.cpp:149-184 | start nodes are untouched; any other node's posterior is its term divided by the position's total, the sentinel exactly when its term or the total is |
| Passes.EpsilonRowAt | HMMPosition.cpp:194-204 | each out-transition's unnormalised posterior is forward times transition times next emission times next backward |
| Passes.EpsilonTerms | HMMPosition.cpp:190-208 | a position without successors contributes no transition terms |
| Passes.EpsilonNormalizer | HMMPosition.cpp:190-208 | a position without successors has the sentinel as its transition normaliser |
| Scores.ViterbiScoresAgree | HiddenMarkovModel.cpp:572-577 | the offered scores read only the previous weights, the states and the residue |
| Scores.ViterbiNodeHolds | HiddenMarkovModel.cpp:563-586 | a rescored node satisfies the Viterbi recurrence and keeps its id, state, residue and links |
| Scores.ViterbiHoldsKept | HiddenMarkovModel.cpp:563-586 | rescoring that changes no weight keeps the Viterbi recurrence of a position |
| Scores.ForwardValueAgrees | HMMPosition.cpp:85-102 | the forward value reads only the previous forward values, the states and the residue |
| Scores.ForwardHoldsKept | HMMPosition.cpp:66-103 | changes that keep every forward value keep the forward recurrence of a position |
| Scores.ScoredKept | HiddenMarkovModel.cpp:330-337 | linking the next position keeps every recurrence already established |
| Scores.PointersBackKept | HiddenMarkovModel.cpp:330-337 | linking keeps every back-pointer leading to the position before |
| Scores.ViterbiPassScored | HiddenMarkovModel.cpp:309-315 | storing the Viterbi row of position k extends the scored prefix to k + 1 |
| Scores.ForwardPassScored | HiddenMarkovModel.cpp:309-315 | storing the forward row of position k extends the scored prefix to k + 1 |
| Arena.ShapeIgnoresScores | HiddenMarkovModel.cpp:306-315 | rescoring a built trellis keeps its shape |
| Arena.LinkingDone | HiddenMarkovModel.cpp:530-544 | once every node pair is linked, the new position is fully linked in and out |
| Arena.Link | HiddenMarkovModel.cpp:537-541 | a new transition is appended to the end node's in-list and the start node's out-list, and nothing else changes |
| Arena.PointersBackSet | HiddenMarkovModel.cpp:580-583 | a back-pointer set to a node of the previous position keeps every back-pointer leading backwards |
| Arena.TransitionConditionalsOf | HMMPosition.cpp:186-221 | every out-transition of position k gets its epsilon term divided by the position's normaliser; transitions leaving other positions are unchanged |
| Arena.ConditionalsCombine | HMMPosition.cpp:186-221 | the accumulation loop and the normalising loop together produce the normalised transition posteriors |
| Arena.Model.constructor | HiddenMarkovModel.cpp:84-88 | a new trellis holds the sequence and no positions or transitions |
| Arena.Model.SetRow | HMMPosition.cpp:85-102 | replacing the nodes of one position in place keeps the shape and every other position |
| Arena.Model.SetTransitionConditional | HMMPosition.cpp:214-218 | writing one transition posterior changes only that transition |
| Arena.Model.AddStartPosition | HiddenMarkovModel.cpp:320-322 | the first position pushed is the start position |
| Arena.Model.AddPosition | HiddenMarkovModel.cpp:328-340 | pushes position k with one new node per state on residue k, awaiting its transitions |
| Arena.Model.AddTransition | HiddenMarkovModel.cpp:537-541 | appends the transition and records it in both end nodes |
| Arena.Model.CreateTransitionsFor | HiddenMarkovModel.cpp:530-544 | links every node of the previous position to every node of the new one; earlier transitions and positions and all scores are untouched; new transitions start at the sentinel |
| Arena.Model.CalculateHighestWeightPath | HiddenMarkovModel.cpp:563-586 | every node of position k becomes its Viterbi node; the start position and every other position are unchanged |
| Arena.Model.CalculateLogForwardProbability | HMMPosition.cpp:66-103 | every node of position k gets its forward value; position 0 and every other position are unchanged |
| Arena.Model.CalculateLogBackwardProbability | HMMPosition.cpp:120-139 | every node of position k gets its backward value over the next position; nothing else changes |
| Arena.Model.CalculateNodeLogConditionalProbabilities | HMMPosition.cpp:149-184 | every node of position k gets its normalised node posterior; nothing else changes |
| Arena.Model.CalculateTransitionLogConditionalProbabilities | HMMPosition.cpp:186-221 | every out-transition of position k gets its normalised transition posterior; positions and links are unchanged |
| Posterior.BackwardValueAgrees | HMMPosition.cpp:122-137 | the backward value reads only the node's state and residue and the next position |
| Posterior.BackwardPassStep | HiddenMarkovModel.cpp:368-371 | a backward pass at position k, given the positions after it, extends the backward recurrence down to k |
| Posterior.BackwardSentinel | HMMPosition.cpp:120-139 | a node's backward value is the sentinel exactly when every term over its successors is |
| Posterior.EpsilonTermsAgree | HMMPosition.cpp:190-208 | transition posteriors read only forward values, states, residues and links, so the node posterior pass does not disturb them |
| Posterior.ConditionalsTransfer | HiddenMarkovModel.cpp:390-395 | transition posteriors computed after the node pass equal those over the trellis before it |
| Posterior.ConditionalsStart | HiddenMarkovModel.cpp:385-388 | the start position is skipped |
| Posterior.ConditionalsStep | HiddenMarkovModel.cpp:385-396 | one position's node and transition passes extend the finished prefix by one |
| Posterior.GammaKeepsForward | HMMPosition.cpp:149-184 | the node posterior pass keeps forward values and out-links |
| Walk.WalkFrom | HiddenMarkovModel.cpp:620-650 | the backward walk fails with NullBackPointer on a missing pointer; otherwise it visits at most as many nodes as the start position's index, at strictly decreasing positions |
| Walk.WalkVisitsEveryPosition | HiddenMarkovModel.cpp:618-650 | when no node past the start carries the start residue, a finished walk visits every position once |
| Walk.WalkDescends | HiddenMarkovModel.cpp:618-650 | the walk's node ids count down by one from the starting position |
| Walk.PathStatesArePositional | HiddenMarkovModel.cpp:236-248 | after reversal, character i of the path string is the state visited at position i + 1 |
| Segments.States | HiddenMarkovModel.cpp:621-624 | the states seen by the walk, in walk order |
| Segments.Runs | HiddenMarkovModel.cpp:627-640 | the runs of equal states in walk order; the last run holds the last state seen and starts at its id |
| Segments.RunsTile | HiddenMarkovModel.cpp:627-654 | the segments of a descending walk tile its positions without gap or overlap |
| Segments.RunsCountStarts | HiddenMarkovModel.cpp:627-640 | the number of segments of a state equals the number of times the walk enters that state |
| Segments.PushesOfFullWalk | HiddenMarkovModel.cpp:652-654 | with the last segment closed at 1, the pushed segments of a full walk tile 1..T |
| Segments.Filter | HiddenMarkovModel.cpp:632-633 | the segments pushed for a state are as many as its runs |
| Segments.AddSegment | HiddenMarkovModel.cpp:632-633 | pushing a segment appends it to its state's list, creating the list if absent, and leaves other states alone |
| Segments.Group | HiddenMarkovModel.cpp:632-654 | the segment map holds a key exactly for the states with a segment, each with its segments in walk order |
| Segments.GroupSnoc | HiddenMarkovModel.cpp:632-633 | pushing one more segment is one AddSegment on the map |
| Counting.Count | HiddenMarkovModel.cpp:624 | a state count never exceeds the walk length |
| Counting.PairCount | HiddenMarkovModel.cpp:643-645 | a non-empty walk has fewer transition counts than steps |
| Counting.RunStarts | HiddenMarkovModel.cpp:627-639 | a state is entered no more often than it is seen |
| Counting.CountsAddUp | HiddenMarkovModel.cpp:621-624 | the state counts add up to the walk length |
| Counting.PairCountsAddUp | HiddenMarkovModel.cpp:643-645 | the transition counts add up to the walk length minus one |
| Counting.PairRowAddsUp | HiddenMarkovModel.cpp:643-645 | a row of transition counts adds up to its state's count, less one if the walk's first step is in that state |
| Counting.PairRowBounded | HiddenMarkovModel.cpp:643-645 | every cell, and the sum of a row of transition counts, is at most that row's state count |
| Counting.PairCountBounded | HiddenMarkovModel.cpp:643-645 | a transition count is at most its first state's count |
| Counting.PairCountIsForward | HiddenMarkovModel.cpp:643-645 | counting [current][previous] on the backward walk counts forward transitions of the path |
| Counting.CountReverse | HiddenMarkovModel.cpp:621-624 | state counts do not depend on the walk's direction |
| Gathering.Visit | HiddenMarkovModel.cpp:620-650 | one loop iteration adds the node to the counts, runs and segments |
| Gathering.PushSegment | HiddenMarkovModel.cpp:627-636 | a state change closes the previous segment and opens a new one; the counts are unchanged |
| Gathering.CountState | HiddenMarkovModel.cpp:624 | the state counts become those of the walk one step longer; nothing else changes |
| Gathering.CountRunStart | HiddenMarkovModel.cpp:639 | entering a state adds one to its segment count; nothing else changes |
| Gathering.CountPair | HiddenMarkovModel.cpp:643-645 | the transition counts become those of the walk one step longer; nothing else changes |
| Gathering.LastSegmentPushed | HiddenMarkovModel.cpp:652-654 | closing the last segment at 1 and pushing it gives the segment map of all pushed segments |
| Gathering.WalkPath | HiddenMarkovModel.cpp:618-654 | the walk loop fails exactly when the walk does; on success the counts and segments are those of the walked states |
| Gathering.Advance | HiddenMarkovModel.cpp:621-649 | one round of the walk loop keeps the counts and the segment map equal to those of the nodes walked so far, leaves the probability table alone, and steps to a strictly earlier position |
| Gathering.FullWalkSummary | HiddenMarkovModel.cpp:618-654 | for a walk over all positions, the state counts sum to its length, the transition counts to its length minus one, and the segments tile it |
| ViterbiResults.Ratios | HMMViterbiResults.cpp:149-150 | each re-estimated probability is a count divided by its state count |
| ViterbiResults.RatiosBounded | HMMViterbiResults.cpp:147-153 | ratios of non-negative counts whose total is at most the divisor are each in [0, 1] and sum to at most 1 |
| ViterbiResults.ReestimatedRowBounded | HMMViterbiResults.cpp:147-153 | every re-estimated transition of a state with a non-zero count is a probability, and the row sums to at most one |
| ViterbiResults.HMMViterbiResults.constructor | HMMViterbiResults.cpp:35-58 | new results hold the iteration, zero counts for every state, no segments and a fresh empty table |
| ViterbiResults.HMMViterbiResults.CalculateProbabilities | HMMViterbiResults.cpp:129-154 | initiation of states 1 and up is copied; transitions between states 1 and up are count ratios; emissions are held; a zero state count is reported instead of dividing by it |
| ViterbiResults.HMMViterbiResults.CopyInitiation | HMMViterbiResults.cpp:131-134 | the initiation of states 1 and up is copied from the previous table; nothing else changes |
| ViterbiResults.HMMViterbiResults.TransitionRow | HMMViterbiResults.cpp:148-152 | one row of transitions from a state becomes the count ratios; other rows and tables are unchanged |
| BaumWelch.Ratio | HiddenMarkovModel.cpp:445-451 | a re-estimated probability is non-negative and is 0 exactly when its numerator or its denominator sums to the sentinel |
| BaumWelch.EmissionSplitsState | HiddenMarkovModel.cpp:423-437 | each state's posteriors split across the four residues |
| BaumWelch.EmissionEstimateZero | HiddenMarkovModel.cpp:442-454 | an emission estimate is 0 exactly when all its numerator terms or all its denominator terms are the sentinel |
| BaumWelch.BuiltStateTerms | HiddenMarkovModel.cpp:418-437 | the denominator of a state collects that state's node posterior at every residue position |
| BaumWelch.BuiltEmissionCount | HiddenMarkovModel.cpp:423-429 | the numerator of (state, residue) has one term per occurrence of the residue in the sequence |
| BaumWelch.BuiltResiduesKnown | HiddenMarkovModel.cpp:425-429 | the summing loop finds every residue in the numerator map exactly when the sequence holds only A, C, G and T |
| BaumWelch.EmissionSums | HiddenMarkovModel.cpp:403-438 | the summing loop fails with MissingEntry exactly on an unknown residue; otherwise numerators and denominators are the sums of their terms in loop order |
| BaumWelch.TransitionSums | HiddenMarkovModel.cpp:469-502 | each numerator and denominator cell is the sum of its transition and node posteriors in loop order |
| BaumWelch.LinkedCounted | HiddenMarkovModel.cpp:486-489 | every transition the summing loop reads has both states in range |
| BaumWelch.TransitionTermsBuilt | HiddenMarkovModel.cpp:480-502 | on a built trellis the (a, b) numerator collects the a-to-b transition posteriors and the denominator the node posteriors of state a at every position before the last |
| BaumWelch.TransitionDenominatorShared | HiddenMarkovModel.cpp:495-499 | every cell of a row has the same denominator, the state's node posteriors without the last position |
| BaumWelch.TransitionEstimateEmpty | HiddenMarkovModel.cpp:465-518 | over an empty sequence every transition estimate is 0 |
| BaumWelch.InitiationEstimate | HiddenMarkovModel.cpp:457-463 | a re-estimated initiation is non-negative and 0 exactly when the node's forward or backward value is the sentinel |
| Fasta.FindLastOf | FastaFile.cpp:157 | the last index holding the character, or none exactly when it does not occur |
| Fasta.Complement | FastaFile.cpp:222-236 | a base's complement is a different base; any other character is its own complement |
| Fasta.ComplementInvolution | FastaFile.cpp:222-236 | complementing twice gives back the character |
| Fasta.ReverseComplementInvolution | FastaFile.cpp:207-218 | the reverse complement of the reverse complement is the sequence |
| Fasta.BaseSlot | FastaFile.cpp:248-263 | A, C, G, T land in slots 0..3 in that order and every other character in slot 4 |
| Fasta.TallyTotal | FastaFile.cpp:248-263 | the five base counts add up to the sequence length |
| Fasta.TallyOtherZero | FastaFile.cpp:248-263 | a pure ACGT sequence counts nothing in the other slot |
| Fasta.TallyReverseComplement | FastaFile.cpp:207-218 | the reverse complement has as many A as the sequence has T, as many C as G, and the same number of other characters |
| Fasta.OpenedFile | FastaFile.cpp:181 | path + "/" + name gives back the caller's file name, with "./" prefixed to a bare name |
| Fasta.FastaFile.constructor | FastaFile.cpp:51-55 | a new file holds the sequence, splits the name into path and file, and for DNA holds the reverse complement |
| Fasta.FastaFile.ParseFileName | FastaFile.cpp:154-167 | everything before the last slash is the path and everything after it the name; with no slash the path is "." |
| Fasta.FastaFile.CreateReverseComplement | FastaFile.cpp:207-218 | the reverse complement is the sequence read backwards with each base complemented |
| Fasta.FastaFile.CountBases | FastaFile.cpp:248-263 | each of the five slots gains the number of its characters in the sequence |
| HiddenMarkov.BuiltWalkable | HiddenMarkovModel.cpp:316-348 | a built trellis has one position per residue after the start and can be walked back; over a sequence without the start character only position 0 holds start residues |
| HiddenMarkov.ViterbiEnd | HiddenMarkovModel.cpp:614-615 | the walk starts at the first highest scoring node of the last position |
| HiddenMarkov.Digit | HiddenMarkovModel.cpp:242 | a state is written as its decimal digit |
| HiddenMarkov.GatherFrom | HiddenMarkovModel.cpp:610-661 | gathering fails exactly when the walk does or a state from 1 up is never visited; otherwise the results hold the walk's counts, its segments and the re-estimated table |
| HiddenMarkov.Reestimate | HiddenMarkovModel.cpp:656-657 | re-estimation fails exactly when a state from 1 up was never visited; otherwise the results are complete |
| HiddenMarkov.WalkBest | HiddenMarkovModel.cpp:611-654 | the walk fails exactly when a back-pointer is missing; otherwise fresh results hold the counts and segments of the walked states |
| HiddenMarkov.FullWalk | HiddenMarkovModel.cpp:618-654 | a walk over a built trellis has one step per residue; the state counts sum to its length, the transition counts to its length minus one, and the segments tile it |
| HiddenMarkov.FullWalkSteps | HiddenMarkovModel.cpp:618-650 | a walk over a built trellis has one step per residue, with ids counting down |
| HiddenMarkov.NonZeroCounts | HMMViterbiResults.cpp:147-153 | every divisor is non-zero exactly when each state from 1 up was visited |
| HiddenMarkov.GatheredHolds | HiddenMarkovModel.cpp:610-661 | counts, segments and re-estimated tables that match the walk make complete results |
| HiddenMarkov.PathStatesFrom | HiddenMarkovModel.cpp:236-248 | the path string fails exactly when the walk does; otherwise it has one digit per visited node, and over a full walk digit i is the state of position i + 1 |
| HiddenMarkov.ReversedDigits | HiddenMarkovModel.cpp:246-247 | reversing the string reverses the states it spells |
| HiddenMarkov.DigitsWalk | HiddenMarkovModel.cpp:239-244 | the walk loop writes one digit per visited node, in walk order |
| HiddenMarkov.HiddenMarkovModel.constructor | HiddenMarkovModel.cpp:84-88 | a new model holds the sequence, is not built, has no results and starts from the stochastic starting table |
| HiddenMarkov.HiddenMarkovModel.ExtendModel | HiddenMarkovModel.cpp:326-345 | one loop iteration pushes, links and scores the next position and keeps every earlier score |
| HiddenMarkov.HiddenMarkovModel.Recalculate | HiddenMarkovModel.cpp:306-315 | rescoring a built trellis keeps its shape and transitions and leaves every position scored |
| HiddenMarkov.HiddenMarkovModel.BuildAndCalculateModel | HiddenMarkovModel.cpp:304-349 | building fails exactly when an emission is missing; otherwise the trellis has one position per residue after the start, every position is scored, and a rebuild keeps the shape |
| HiddenMarkov.HiddenMarkovModel.CalculateLogBackwardProbabilities | HiddenMarkovModel.cpp:358-372 | the last position is seeded with 0 and every position from the last but one down to 1 gets its backward values; only backward values change |
| HiddenMarkov.HiddenMarkovModel.SeedBackward | HiddenMarkovModel.cpp:362-365 | every node of the last position gets backward value 0; nothing else changes |
| HiddenMarkov.HiddenMarkovModel.BackwardStep | HiddenMarkovModel.cpp:368-371 | one loop iteration extends the backward recurrence down to position k |
| HiddenMarkov.HiddenMarkovModel.CalculateLogConditionalProbabilities | HiddenMarkovModel.cpp:382-397 | every position after the start gets its node posteriors and the posteriors of its out-transitions |
| HiddenMarkov.HiddenMarkovModel.ConditionalsAt | HiddenMarkovModel.cpp:385-396 | one loop iteration finishes one more position |
| HiddenMarkov.HiddenMarkovModel.CalculateBaumWelchEmissionProbabilities | HiddenMarkovModel.cpp:399-455 | fails with MissingEntry, tables unchanged, exactly when the sequence holds a character other than A, C, G, T; otherwise every (state, base) entry becomes its estimate and all else is kept |
| HiddenMarkov.HiddenMarkovModel.WriteEmissionEstimates | HiddenMarkovModel.cpp:439-454 | from sums that match the visited nodes, every (state, base) emission entry becomes its re-estimate, every other entry is kept, and the initiation and transition tables do not change |
| HiddenMarkov.HiddenMarkovModel.CalculateBaumWelchInitiationProbabilities | HiddenMarkovModel.cpp:457-463 | the initiation of each state becomes the posterior of its node at position 1; all else is kept |
| HiddenMarkov.HiddenMarkovModel.CalculateBaumWelchTransitionProbabilities | HiddenMarkovModel.cpp:465-518 | every transition between the two states becomes its estimate; the other cells and tables are kept |
| HiddenMarkov.HiddenMarkovModel.GatherViterbiResults | HiddenMarkovModel.cpp:610-661 | gathering fails exactly when the walk does or a state from 1 up is never visited; over a sequence without the start character the state counts sum to its length and the transition counts to its length minus one |
| HiddenMarkov.HiddenMarkovModel.PathStatesResultsString | HiddenMarkovModel.cpp:236-248 | the path string has one digit per visited node in sequence order, and over a sequence without the start character one per residue |
| HiddenMarkov.HiddenMarkovModel.ViterbiTraining | HiddenMarkovModel.cpp:115-129 | appends one result per iteration, numbered from 1; on success all iterations ran; the table in use is the last result's; result i was gathered from the Viterbi walk of trellis i scored with the table in use before it (the starting table for the first) |
| HiddenMarkov.HiddenMarkovModel.TrainingIteration | HiddenMarkovModel.cpp:117-128 | one iteration either fails and changes neither results nor table, or appends one result, gathered from the Viterbi walk of the trellis scored with the previous table, and adopts its table |
| HiddenMarkov.HiddenMarkovModel.TrainingStep | HiddenMarkovModel.cpp:117-128 | one loop iteration extends the training history by the new result and its trellis, each result tied to the table before it |
| HiddenMarkov.HiddenMarkovModel.BuildAndGather | HiddenMarkovModel.cpp:119-122 | builds and scores the trellis, then gathers results numbered by the iteration from its Viterbi walk under the unchanged table |
| HiddenMarkov.HiddenMarkovModel.Record | HiddenMarkovModel.cpp:123-127 | appends the results and adopts their table; their tie to the table they were gathered with still holds |
| HiddenMarkov.LastTable | HiddenMarkovModel.cpp:125-127 | the table in use after a training history: the starting table when empty, else the last result's |
| HiddenMarkov.HistoryPrefix | HiddenMarkovModel.cpp:117-128 | a longer history that starts with a trained one keeps every earlier result tied to its trellis and previous table |
| HiddenMarkov.HistorySnoc | HiddenMarkovModel.cpp:117-128 | a trained history extended by a result gathered under its last table is still a trained history |

## Left out

- Floating point. Probabilities are `real`, and `log`/`exp` are an uninterpreted `Libm` parameter. `long double` rounding, `-inf` and the `-DBL_MAX` seed are not modelled numerically. The Viterbi seed and every NaN or `-inf` score are the sentinel, and a sentinel never wins a strict comparison. A score offered by a previous node still at the seed is the sentinel in the model; in the C++ `-DBL_MAX` plus a log probability rounds back to `-DBL_MAX`, so it cannot beat the seed under the strict `>` either, and both pick the same winner.
- Probabilities.Log: the C++ setters store `log(value)`. `log(0)` is `-inf` there and is modelled as the sentinel, which is what `eln(0)` gives.
- ViterbiResults.HMMViterbiResults.CalculateProbabilities: a state from 1 up with a zero count makes the C++ divide by zero and store NaN or infinity. The model reports `ZeroStateCount` and writes no transition.
- ViterbiResults.HMMViterbiResults.CalculateProbabilities: the emission-count re-estimation (HMMViterbiResults.cpp:137-144) is not modelled. The results hold the previous emission table, as the method's comment says emissions are held steady.
- HiddenMarkov.HiddenMarkovModel.BuildAndCalculateModel: a missing emission entry makes the C++ throw from `map::at` partway through a pass. The model checks the table first and reports `MissingEntry` before changing anything.
- HiddenMarkov.HiddenMarkovModel.CalculateLogBackwardProbabilities: the same early check; the C++ throws partway through the pass.
- HiddenMarkov.HiddenMarkovModel.CalculateLogConditionalProbabilities: the same early check; the C++ throws partway through the pass.
- HiddenMarkov.HiddenMarkovModel.CalculateBaumWelchInitiationProbabilities: requires a non-empty sequence, because `model[1]` does not exist otherwise.
- ViterbiResults.HMMViterbiResults.constructor: the model sizes `segmentCounts` with one zero per state. The C++ constructor (HMMViterbiResults.cpp:35-58) never sizes `segmentCounts`, so `results->segmentCounts[currentState]++` (HiddenMarkovModel.cpp:639) indexes an empty vector, which is undefined behaviour.
- HiddenMarkov.HiddenMarkovModel.ViterbiTraining: stops at the first failing iteration, where the C++ throws or carries on with NaN.
- `baumWelchTraining` (HiddenMarkovModel.cpp:139-169) and `logLikelihood` (HMMPosition.cpp:223-243) are not modelled. They drive the re-estimators to convergence with floating-point comparisons. The three re-estimators and the passes they use are modelled.
- `FastaFile::populate` (file reading) is I/O. The sequence is a constructor parameter of `FastaFile`, `Model` and `HiddenMarkovModel`.
- Console output and the report builders other than `pathStatesResultsString` produce text for the user: the other `*ResultsString` methods and the `driver.cpp` entry point. They are not modelled.
- Pointers between nodes, positions and transitions are arena indices. Aliasing and memory ownership (`new`/`delete`) are not modelled.
- `HMMProbabilities` tables that the C++ leaves indeterminate start at 0 and the sentinel.
- `isNaN` is the `Undef?` test; it has no contract of its own.
