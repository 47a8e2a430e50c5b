/** HMMProbabilities: the initiation, transition and emission probabilities of
    the hidden Markov model, each kept beside its logarithm.  The C++ class
    holds the initiation and transition values in fixed arrays of 12 and 12x12
    entries and the emission values in nested maps keyed by state and residue;
    its setters overwrite one entry and its log twin in place.  The nested
    emission maps are modelled as one map keyed by (state, residue): a lookup
    succeeds exactly when both levels of the nested lookup would. */
module Probabilities {
  import opened Outcomes
  import opened ExtendedLog

  /** Capacity of the fixed initiation/transition arrays. */
  const MaxStates: nat := 12

  /** The C library `log` applied by the setters: finite on positive values;
      NaN (the sentinel) on negative values; on 0 the C result is -infinity,
      which the model folds into the sentinel (both stand for log 0). */
  function Log(m: Libm, v: real): (r: ExtLog)
    ensures r.Fin? <==> v > 0.0
    ensures v >= 0.0 ==> Eln(m, v) == Ok(r)
  {
    if v > 0.0 then Fin(m.log(v)) else Undef
  }

  /** Sum of a sequence of probabilities. */
  function Sum(xs: seq<real>): real {
    if xs == [] then 0.0 else Sum(xs[..|xs| - 1]) + xs[|xs| - 1]
  }

  class HMMProbabilities {
    const libm: Libm
    var initiation: seq<real>
    var logInitiation: seq<ExtLog>
    var transition: seq<seq<real>>
    var logTransition: seq<seq<ExtLog>>
    var emission: map<(int, char), real>
    var logEmission: map<(int, char), ExtLog>

    /** Shape of the tables, and every log entry is the log of its probability. */
    ghost predicate Valid()
      reads this
    {
      && |initiation| == MaxStates && |logInitiation| == MaxStates
      && |transition| == MaxStates && |logTransition| == MaxStates
      && (forall i :: 0 <= i < MaxStates ==> |transition[i]| == MaxStates && |logTransition[i]| == MaxStates)
      && (forall i :: 0 <= i < MaxStates ==> logInitiation[i] == Log(libm, initiation[i]))
      && (forall i, j :: 0 <= i < MaxStates && 0 <= j < MaxStates ==>
            logTransition[i][j] == Log(libm, transition[i][j]))
      && emission.Keys == logEmission.Keys
      && (forall key :: key in emission ==> logEmission[key] == Log(libm, emission[key]))
    }

    /** HMMProbabilities(): an empty table.  The C++ arrays start out
        indeterminate; the model starts them at probability 0 (log sentinel). */
    constructor (m: Libm)
      ensures Valid() && libm == m
      ensures initiation == seq(MaxStates, _ => 0.0)
      ensures transition == seq(MaxStates, _ => seq(MaxStates, _ => 0.0))
      ensures emission == map[] && logEmission == map[]
    {
      libm := m;
      initiation := seq(MaxStates, _ => 0.0);
      logInitiation := seq(MaxStates, _ => Undef);
      transition := seq(MaxStates, _ => seq(MaxStates, _ => 0.0));
      logTransition := seq(MaxStates, _ => seq(MaxStates, _ => Undef));
      emission := map[];
      logEmission := map[];
    }

    // -------------------------------------------------------------------
    // Getters

    /** emissionProbability: map::at twice, failing on an entry never set. */
    function EmissionProbability(state: int, residue: char): (r: Result<real>)
      reads this
      ensures r.Ok? <==> (state, residue) in emission
      ensures r.Ok? ==> r.value == emission[(state, residue)]
      ensures r.Err? ==> r.error == MissingEntry
    {
      if (state, residue) in emission then Ok(emission[(state, residue)])
      else Err(MissingEntry)
    }

    /** logEmissionProbability: the same lookup in the log table. */
    function LogEmissionProbability(state: int, residue: char): (r: Result<ExtLog>)
      reads this
      requires Valid()
      ensures r.Ok? <==> EmissionProbability(state, residue).Ok?
      ensures r.Ok? ==> r.value == Log(libm, EmissionProbability(state, residue).value)
      ensures r.Err? ==> r.error == MissingEntry
    {
      if (state, residue) in logEmission then Ok(logEmission[(state, residue)])
      else Err(MissingEntry)
    }

    function InitiationProbability(state: int): real
      reads this
      requires Valid() && 0 <= state < MaxStates
    {
      initiation[state]
    }

    function LogInitiationProbability(state: int): (r: ExtLog)
      reads this
      requires Valid() && 0 <= state < MaxStates
      ensures r == Log(libm, InitiationProbability(state))
    {
      logInitiation[state]
    }

    function TransitionProbability(begin: int, end: int): real
      reads this
      requires Valid() && 0 <= begin < MaxStates && 0 <= end < MaxStates
    {
      transition[begin][end]
    }

    function LogTransitionProbability(begin: int, end: int): (r: ExtLog)
      reads this
      requires Valid() && 0 <= begin < MaxStates && 0 <= end < MaxStates
      ensures r == Log(libm, TransitionProbability(begin, end))
    {
      logTransition[begin][end]
    }

    // -------------------------------------------------------------------
    // Setters: each overwrites one entry and its log twin, nothing else.

    method SetEmissionProbability(state: int, residue: char, value: real)
      requires Valid()
      modifies this
      ensures Valid()
      ensures EmissionProbability(state, residue) == Ok(value)
      ensures LogEmissionProbability(state, residue) == Ok(Log(libm, value))
      ensures emission == old(emission)[(state, residue) := value]
      ensures logEmission == old(logEmission)[(state, residue) := Log(libm, value)]
      ensures initiation == old(initiation) && logInitiation == old(logInitiation)
      ensures transition == old(transition) && logTransition == old(logTransition)
    {
      emission := emission[(state, residue) := value];
      logEmission := logEmission[(state, residue) := Log(libm, value)];
    }

    /** The emission table of `from`, entry for entry, with its logs. */
    method HoldEmission(from: HMMProbabilities)
      requires Valid() && from.Valid() && from.libm == libm
      modifies this
      ensures Valid()
      ensures forall state, residue :: EmissionProbability(state, residue) == from.EmissionProbability(state, residue)
      ensures emission == from.emission && logEmission == from.logEmission
      ensures initiation == old(initiation) && logInitiation == old(logInitiation)
      ensures transition == old(transition) && logTransition == old(logTransition)
    {
      emission := from.emission;
      logEmission := from.logEmission;
    }

    method SetInitiationProbability(state: int, value: real)
      requires Valid() && 0 <= state < MaxStates
      modifies this
      ensures Valid()
      ensures InitiationProbability(state) == value
      ensures LogInitiationProbability(state) == Log(libm, value)
      ensures initiation == old(initiation)[state := value]
      ensures logInitiation == old(logInitiation)[state := Log(libm, value)]
      ensures transition == old(transition) && logTransition == old(logTransition)
      ensures emission == old(emission) && logEmission == old(logEmission)
    {
      initiation := initiation[state := value];
      logInitiation := logInitiation[state := Log(libm, value)];
    }

    method SetTransitionProbability(begin: int, end: int, value: real)
      requires Valid() && 0 <= begin < MaxStates && 0 <= end < MaxStates
      modifies this
      ensures Valid()
      ensures TransitionProbability(begin, end) == value
      ensures LogTransitionProbability(begin, end) == Log(libm, value)
      ensures transition == old(transition)[begin := old(transition)[begin][end := value]]
      ensures logTransition == old(logTransition)[begin := old(logTransition)[begin][end := Log(libm, value)]]
      ensures initiation == old(initiation) && logInitiation == old(logInitiation)
      ensures emission == old(emission) && logEmission == old(logEmission)
    {
      transition := transition[begin := transition[begin][end := value]];
      logTransition := logTransition[begin := logTransition[begin][end := Log(libm, value)]];
    }

    // -------------------------------------------------------------------
    // Stochastic tables

    /** The first n states form a probability model: initiation sums to 1,
        every transition row sums to 1, and every state's A/C/G/T emissions
        are all set and sum to 1. */
    ghost predicate Stochastic(n: nat)
      reads this
      requires Valid() && n <= MaxStates
    {
      && Sum(initiation[..n]) == 1.0
      && (forall i :: 0 <= i < n ==> Sum(transition[i][..n]) == 1.0)
      && EmissionRowsSumToOne(emission, n)
    }
  }

  /** Every one of the first n states has all four nucleotide emissions set,
      and they add up to one. */
  ghost predicate EmissionRowsSumToOne(e: map<(int, char), real>, n: nat) {
    forall s :: 0 <= s < n ==>
      (s, 'A') in e && (s, 'C') in e && (s, 'G') in e && (s, 'T') in e &&
      e[(s, 'A')] + e[(s, 'C')] + e[(s, 'G')] + e[(s, 'T')] == 1.0
  }

  /** Sum of the first two entries of a sequence. */
  lemma SumTwo(xs: seq<real>)
    requires |xs| >= 2
    ensures Sum(xs[..2]) == xs[0] + xs[1]
  {
    var two := xs[..2];
    assert two[..1] == [xs[0]];
    assert [xs[0]][..0] == [];
    assert Sum([xs[0]]) == xs[0];
    assert Sum(two) == Sum(two[..1]) + two[1];
  }

  /** A two-state table whose rows add up to one is stochastic. */
  lemma TwoStatesStochastic(p: HMMProbabilities)
    requires p.Valid()
    requires p.initiation[0] + p.initiation[1] == 1.0
    requires p.transition[0][0] + p.transition[0][1] == 1.0
    requires p.transition[1][0] + p.transition[1][1] == 1.0
    requires EmissionRowsSumToOne(p.emission, 2)
    ensures p.Stochastic(2)
  {
    SumTwo(p.initiation);
    SumTwo(p.transition[0]);
    SumTwo(p.transition[1]);
  }

  /** Emission table of the training preset: state 0 (non-coding) is AT-rich,
      state 1 (coding) is GC-rich. */
  function InitialEmission(): (e: map<(int, char), real>)
    ensures EmissionRowsSumToOne(e, 2)
  {
    map[(0, 'A') := 0.291, (0, 'T') := 0.291, (0, 'C') := 0.209, (0, 'G') := 0.209,
        (1, 'A') := 0.169, (1, 'T') := 0.169, (1, 'C') := 0.331, (1, 'G') := 0.331]
  }

  /** Emission table of the toy preset: within each state A and T are equally
      likely, and so are C and G. */
  function TestEmission(): (e: map<(int, char), real>)
    ensures EmissionRowsSumToOne(e, 2)
    ensures forall s :: 0 <= s < 2 ==> e[(s, 'A')] == e[(s, 'T')] && e[(s, 'C')] == e[(s, 'G')]
  {
    map[(0, 'A') := 0.2, (0, 'T') := 0.2, (0, 'C') := 0.3, (0, 'G') := 0.3,
        (1, 'A') := 0.3, (1, 'T') := 0.3, (1, 'C') := 0.2, (1, 'G') := 0.2]
  }

  /** initialProbabilities: the preset used to start training. */
  method InitialProbabilities(m: Libm) returns (p: HMMProbabilities)
    ensures fresh(p) && p.Valid() && p.libm == m
    ensures p.initiation[0] == 0.996 && p.initiation[1] == 0.004
    ensures p.transition[0][0] == 0.999 && p.transition[0][1] == 0.001
    ensures p.transition[1][0] == 0.01 && p.transition[1][1] == 0.99
    ensures p.emission == InitialEmission()
    ensures p.Stochastic(2)
  {
    p := new HMMProbabilities(m);
    p.SetInitiationProbability(0, 0.996);
    p.SetInitiationProbability(1, 0.004);
    p.SetTransitionProbability(0, 0, 0.999);
    p.SetTransitionProbability(0, 1, 0.001);
    p.SetTransitionProbability(1, 0, 0.01);
    p.SetTransitionProbability(1, 1, 0.99);
    p.SetEmissionProbability(0, 'A', 0.291);
    p.SetEmissionProbability(0, 'T', 0.291);
    p.SetEmissionProbability(0, 'C', 0.209);
    p.SetEmissionProbability(0, 'G', 0.209);
    p.SetEmissionProbability(1, 'A', 0.169);
    p.SetEmissionProbability(1, 'T', 0.169);
    p.SetEmissionProbability(1, 'C', 0.331);
    p.SetEmissionProbability(1, 'G', 0.331);
    assert p.emission == InitialEmission();
    TwoStatesStochastic(p);
  }

  /** testProbabilities: the preset of the classic toy Viterbi example. */
  method TestProbabilities(m: Libm) returns (p: HMMProbabilities)
    ensures fresh(p) && p.Valid() && p.libm == m
    ensures p.initiation[0] == 0.5 && p.initiation[1] == 0.5
    ensures p.transition[0][0] == 0.5 && p.transition[0][1] == 0.5
    ensures p.transition[1][0] == 0.4 && p.transition[1][1] == 0.6
    ensures p.emission == TestEmission()
    ensures p.Stochastic(2)
  {
    p := new HMMProbabilities(m);
    p.SetInitiationProbability(0, 0.5);
    p.SetInitiationProbability(1, 0.5);
    p.SetTransitionProbability(0, 0, 0.5);
    p.SetTransitionProbability(0, 1, 0.5);
    p.SetTransitionProbability(1, 0, 0.4);
    p.SetTransitionProbability(1, 1, 0.6);
    p.SetEmissionProbability(0, 'A', 0.2);
    p.SetEmissionProbability(0, 'T', 0.2);
    p.SetEmissionProbability(0, 'C', 0.3);
    p.SetEmissionProbability(0, 'G', 0.3);
    p.SetEmissionProbability(1, 'A', 0.3);
    p.SetEmissionProbability(1, 'T', 0.3);
    p.SetEmissionProbability(1, 'C', 0.2);
    p.SetEmissionProbability(1, 'G', 0.2);
    assert p.emission == TestEmission();
    TwoStatesStochastic(p);
  }
}
