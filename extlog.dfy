/** The extended-logarithm algebra of MathUtilities: log-domain arithmetic in
    which a distinguished sentinel (NaN in the C++ code) stands for log(0).
    The natural logarithm and exponential of the C library are not computed:
    they are the two fields of a `Libm` record that every caller passes in, so
    nothing below depends on their numeric values beyond their signatures. */
module ExtendedLog {
  import opened Outcomes

  type Positive = r: real | r > 0.0 witness 1.0

  /** log and exp of the C math library, uninterpreted; exp is always positive
      and log is only ever applied to positive arguments. */
  datatype Libm = Libm(log: Positive -> real, exp: real -> Positive)

  /** An extended logarithm: the sentinel `Undef` (log 0) or a finite log value. */
  datatype ExtLog = Undef | Fin(r: real)

  /** isNaN: the sentinel test. */
  predicate IsNaN(x: ExtLog) {
    x.Undef?
  }

  /** eexp: exp extended so that the sentinel maps to probability 0. */
  function Eexp(m: Libm, x: ExtLog): (p: real)
    ensures p >= 0.0
    ensures p == 0.0 <==> IsNaN(x)
    ensures x.Fin? ==> p == m.exp(x.r)
  {
    if IsNaN(x) then 0.0 else m.exp(x.r)
  }

  /** eln: log extended so that 0 maps to the sentinel; a negative argument
      is the out_of_range failure. */
  function Eln(m: Libm, a: real): (r: Result<ExtLog>)
    ensures r.Err? <==> a < 0.0
    ensures r.Err? ==> r.error == NegativeInput
    ensures r == Ok(Undef) <==> a == 0.0
    ensures a > 0.0 ==> r.Ok? && r.value.Fin? && r.value.r == m.log(a)
  {
    if a == 0.0 then Ok(Undef)
    else if a > 0.0 then Ok(Fin(m.log(a)))
    else Err(NegativeInput)
  }

  /** elnsum: the extended log of e^x + e^y.  A sentinel operand yields the
      other operand; two finite operands are combined by the shift-and-add
      identity max + log(1 + exp(min - max)). */
  function ElnSum(m: Libm, x: ExtLog, y: ExtLog): (r: ExtLog)
    ensures IsNaN(x) ==> r == y
    ensures IsNaN(y) ==> r == x
    ensures r.Undef? <==> x.Undef? && y.Undef?
    ensures x.Fin? && y.Fin? ==>
      var big := if x.r > y.r then x.r else y.r;
      var small := if x.r > y.r then y.r else x.r;
      r == Fin(big + m.log(1.0 + m.exp(small - big)))
  {
    if IsNaN(x) || IsNaN(y) then
      if IsNaN(x) then y else x
    else if x.r > y.r then
      Fin(x.r + m.log(1.0 + m.exp(y.r - x.r)))
    else
      Fin(y.r + m.log(1.0 + m.exp(x.r - y.r)))
  }

  /** elnprod: the extended log of e^x * e^y; the sentinel absorbs. */
  function ElnProd(x: ExtLog, y: ExtLog): (r: ExtLog)
    ensures r.Undef? <==> IsNaN(x) || IsNaN(y)
    ensures r.Fin? ==> r.r == x.r + y.r
  {
    if IsNaN(x) then x
    else if IsNaN(y) then y
    else Fin(x.r + y.r)
  }

  /** Unary minus of a long double: the negation of NaN is NaN. */
  function Negate(x: ExtLog): (r: ExtLog)
    ensures r.Undef? <==> x.Undef?
    ensures r.Fin? ==> r.r == -x.r
  {
    if IsNaN(x) then x else Fin(-x.r)
  }

  /** Strict `>` on two values of which the right one may be the sentinel
      standing for the lowest value (-DBL_MAX in the Viterbi seed): a sentinel
      on the left is never greater (every comparison with NaN is false). */
  predicate Greater(a: ExtLog, b: ExtLog) {
    a.Fin? && (b.Undef? || a.r > b.r)
  }

  /** The accumulation loop used by every pass of the engine:
      start from the sentinel and elnsum the terms in order. */
  function SumAll(m: Libm, xs: seq<ExtLog>): (r: ExtLog)
    ensures r.Undef? <==> forall i :: 0 <= i < |xs| ==> xs[i].Undef?
    ensures |xs| == 1 ==> r == xs[0]
  {
    if |xs| == 0 then Undef
    else ElnSum(m, SumAll(m, xs[..|xs| - 1]), xs[|xs| - 1])
  }

  // ---------------------------------------------------------------------
  // Algebraic laws

  lemma ElnSumCommutative(m: Libm, x: ExtLog, y: ExtLog)
    ensures ElnSum(m, x, y) == ElnSum(m, y, x)
  {
    if x.Fin? && y.Fin? && x.r == y.r {
      assert y.r - x.r == x.r - y.r;
    }
  }

  lemma ElnSumSentinelIdentity(m: Libm, x: ExtLog)
    ensures ElnSum(m, Undef, x) == x && ElnSum(m, x, Undef) == x
    ensures ElnSum(m, Undef, Undef) == Undef
  {
  }

  lemma ElnProdCommutative(x: ExtLog, y: ExtLog)
    ensures ElnProd(x, y) == ElnProd(y, x)
  {
  }

  lemma ElnProdAssociative(x: ExtLog, y: ExtLog, z: ExtLog)
    ensures ElnProd(ElnProd(x, y), z) == ElnProd(x, ElnProd(y, z))
  {
  }

  lemma ElnProdAbsorbing(x: ExtLog)
    ensures ElnProd(Undef, x) == Undef && ElnProd(x, Undef) == Undef
  {
  }

  /** Fin(0) (log 1) is the unit of elnprod. */
  lemma ElnProdUnit(x: ExtLog)
    ensures ElnProd(Fin(0.0), x) == x && ElnProd(x, Fin(0.0)) == x
  {
  }

  /** When exp undoes log, eexp undoes eln on every non-negative probability. */
  ghost predicate ExpUndoesLog(m: Libm) {
    forall a: Positive :: m.exp(m.log(a)) == a
  }

  lemma EexpOfEln(m: Libm, a: real)
    requires ExpUndoesLog(m)
    requires a >= 0.0
    ensures Eln(m, a).Ok? && Eexp(m, Eln(m, a).value) == a
  {
    if a > 0.0 {
      var pa: Positive := a;
      assert m.exp(m.log(pa)) == pa;
    }
  }

  /** Appending a term to an accumulation is one more elnsum. */
  lemma SumAllSnoc(m: Libm, xs: seq<ExtLog>, x: ExtLog)
    ensures SumAll(m, xs + [x]) == ElnSum(m, SumAll(m, xs), x)
  {
    assert (xs + [x])[..|xs|] == xs;
  }

  /** The accumulation continued from `acc` instead of the sentinel: how the
      normalizer of a position grows node after node. */
  function SumFrom(m: Libm, acc: ExtLog, xs: seq<ExtLog>): ExtLog {
    if xs == [] then acc else ElnSum(m, SumFrom(m, acc, xs[..|xs| - 1]), xs[|xs| - 1])
  }

  lemma SumFromSnoc(m: Libm, acc: ExtLog, xs: seq<ExtLog>, x: ExtLog)
    ensures SumFrom(m, acc, xs + [x]) == ElnSum(m, SumFrom(m, acc, xs), x)
  {
    assert (xs + [x])[..|xs|] == xs;
  }

  /** Accumulating xs and then ys is continuing the accumulation of xs by ys. */
  lemma {:induction false} SumAllAppend(m: Libm, xs: seq<ExtLog>, ys: seq<ExtLog>)
    ensures SumAll(m, xs + ys) == SumFrom(m, SumAll(m, xs), ys)
  {
    if ys == [] {
      assert xs + ys == xs;
    } else {
      var init := ys[..|ys| - 1];
      SumAllAppend(m, xs, init);
      assert xs + ys == (xs + init) + [ys[|ys| - 1]];
      SumAllSnoc(m, xs + init, ys[|ys| - 1]);
    }
  }

  /** Sentinel terms contribute nothing to an accumulation. */
  lemma {:induction false} SumAllSkipsSentinels(m: Libm, xs: seq<ExtLog>, ys: seq<ExtLog>)
    requires forall i :: 0 <= i < |ys| ==> ys[i].Undef?
    ensures SumAll(m, xs + ys) == SumAll(m, xs)
  {
    if ys != [] {
      var init := ys[..|ys| - 1];
      assert (xs + ys)[..|xs + ys| - 1] == xs + init;
      SumAllSkipsSentinels(m, xs, init);
    } else {
      assert xs + ys == xs;
    }
  }
}
