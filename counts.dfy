/** Counting over the sequence of states visited by the Viterbi walk.

    The walk visits the last position first, so a state sequence `ws` here is
    in walk order: ws[0] is the state at the last position, ws[i] the state
    one position before ws[i - 1]. */
module Counting {
  import opened Outcomes

  /** How often state s occurs. */
  function Count(ws: seq<int>, s: int): (c: nat)
    ensures c <= |ws|
  {
    if ws == [] then 0
    else Count(ws[..|ws| - 1], s) + (if ws[|ws| - 1] == s then 1 else 0)
  }

  /** How often state a is immediately followed, one walk step later, by
      state b: the number of i >= 1 with ws[i] == a and ws[i - 1] == b. */
  function PairCount(ws: seq<int>, a: int, b: int): (c: nat)
    ensures |ws| > 0 ==> c < |ws|
  {
    if |ws| <= 1 then 0
    else PairCount(ws[..|ws| - 1], a, b) + (if ws[|ws| - 1] == a && ws[|ws| - 2] == b then 1 else 0)
  }

  /** How many maximal runs of state s there are: the number of i with
      ws[i] == s where i is 0 or ws[i - 1] differs. */
  function RunStarts(ws: seq<int>, s: int): (c: nat)
    ensures c <= Count(ws, s)
  {
    if ws == [] then 0
    else
      RunStarts(ws[..|ws| - 1], s)
        + (if ws[|ws| - 1] == s && (|ws| == 1 || ws[|ws| - 2] != s) then 1 else 0)
  }

  /** Every state is one of 0 .. n-1. */
  predicate InRange(ws: seq<int>, n: nat) {
    forall i :: 0 <= i < |ws| ==> 0 <= ws[i] < n
  }

  /** Sum of a vector of counts. */
  function Total(xs: seq<int>): int {
    if xs == [] then 0 else Total(xs[..|xs| - 1]) + xs[|xs| - 1]
  }

  /** Sum of a matrix of counts. */
  function Total2(xss: seq<seq<int>>): int {
    if xss == [] then 0 else Total2(xss[..|xss| - 1]) + Total(xss[|xss| - 1])
  }

  /** Incrementing one entry adds one to the total. */
  lemma {:induction false} TotalIncrement(xs: seq<int>, i: nat)
    requires i < |xs|
    ensures Total(xs[i := xs[i] + 1]) == Total(xs) + 1
  {
    var ys := xs[i := xs[i] + 1];
    var n := |xs| - 1;
    if i < n {
      assert ys[..n] == xs[..n][i := xs[i] + 1];
      TotalIncrement(xs[..n], i);
    } else {
      assert ys[..n] == xs[..n];
    }
  }

  lemma {:induction false} Total2Increment(xss: seq<seq<int>>, a: nat, b: nat)
    requires a < |xss| && b < |xss[a]|
    ensures Total2(xss[a := xss[a][b := xss[a][b] + 1]]) == Total2(xss) + 1
  {
    var yss := xss[a := xss[a][b := xss[a][b] + 1]];
    var n := |xss| - 1;
    if a < n {
      assert yss[..n] == xss[..n][a := xss[a][b := xss[a][b] + 1]];
      Total2Increment(xss[..n], a, b);
    } else {
      assert yss[..n] == xss[..n];
      TotalIncrement(xss[a], b);
    }
  }

  /** The zero vector and the zero matrix count nothing. */
  lemma {:induction false} TotalZero(xs: seq<int>)
    requires forall i :: 0 <= i < |xs| ==> xs[i] == 0
    ensures Total(xs) == 0
  {
    if xs != [] {
      TotalZero(xs[..|xs| - 1]);
    }
  }

  lemma {:induction false} Total2Zero(xss: seq<seq<int>>)
    requires forall a, b :: 0 <= a < |xss| && 0 <= b < |xss[a]| ==> xss[a][b] == 0
    ensures Total2(xss) == 0
  {
    if xss != [] {
      Total2Zero(xss[..|xss| - 1]);
      TotalZero(xss[|xss| - 1]);
    }
  }

  /** A vector holding the count of every state adds up to the number of
      states visited. */
  lemma {:induction false} CountsAddUp(ws: seq<int>, n: nat, xs: seq<int>)
    requires InRange(ws, n) && |xs| == n
    requires forall s :: 0 <= s < n ==> xs[s] == Count(ws, s)
    ensures Total(xs) == |ws|
  {
    if ws == [] {
      TotalZero(xs);
    } else {
      var init := ws[..|ws| - 1];
      var x := ws[|ws| - 1];
      var ys := xs[x := xs[x] - 1];
      forall s | 0 <= s < n
        ensures ys[s] == Count(init, s)
      {
      }
      assert xs == ys[x := ys[x] + 1];
      TotalIncrement(ys, x);
      CountsAddUp(init, n, ys);
    }
  }

  /** A matrix holding every pair count adds up to one less than the number
      of states visited: one pair per step after the first. */
  lemma {:induction false} PairCountsAddUp(ws: seq<int>, n: nat, xss: seq<seq<int>>)
    requires InRange(ws, n) && |ws| > 0 && |xss| == n
    requires forall a :: 0 <= a < n ==> |xss[a]| == n
    requires forall a, b :: 0 <= a < n && 0 <= b < n ==> xss[a][b] == PairCount(ws, a, b)
    ensures Total2(xss) == |ws| - 1
  {
    if |ws| == 1 {
      Total2Zero(xss);
    } else {
      var init := ws[..|ws| - 1];
      var a, b := ws[|ws| - 1], ws[|ws| - 2];
      var yss := xss[a := xss[a][b := xss[a][b] - 1]];
      forall a', b' | 0 <= a' < n && 0 <= b' < n
        ensures yss[a'][b'] == PairCount(init, a', b')
      {
        assert init[|init| - 1] == b;
      }
      assert yss[a][b := yss[a][b] + 1] == xss[a];
      assert xss == yss[a := yss[a][b := yss[a][b] + 1]];
      Total2Increment(yss, a, b);
      PairCountsAddUp(init, n, yss);
    }
  }

  /** Row a of the pair counts adds up to the number of visits to a after the
      first step: every visit but the first is paired with its predecessor. */
  lemma {:induction false} PairRowAddsUp(ws: seq<int>, n: nat, a: int, row: seq<int>)
    requires InRange(ws, n) && |ws| > 0 && |row| == n
    requires forall b :: 0 <= b < n ==> row[b] == PairCount(ws, a, b)
    ensures Total(row) == Count(ws, a) - (if ws[0] == a then 1 else 0)
  {
    if |ws| == 1 {
      TotalZero(row);
    } else {
      var init := ws[..|ws| - 1];
      var x, b := ws[|ws| - 1], ws[|ws| - 2];
      assert init[0] == ws[0];
      if x == a {
        var r := row[b := row[b] - 1];
        forall b' | 0 <= b' < n
          ensures r[b'] == PairCount(init, a, b')
        {
          assert init[|init| - 1] == b;
        }
        assert row == r[b := r[b] + 1];
        TotalIncrement(r, b);
        PairRowAddsUp(init, n, a, r);
      } else {
        forall b' | 0 <= b' < n
          ensures row[b'] == PairCount(init, a, b')
        {
        }
        PairRowAddsUp(init, n, a, row);
      }
    }
  }

  /** Hence no row of pair counts exceeds the count of its state. */
  lemma PairRowBounded(ws: seq<int>, n: nat, a: int, row: seq<int>)
    requires InRange(ws, n) && |ws| > 0 && |row| == n
    requires forall b :: 0 <= b < n ==> row[b] == PairCount(ws, a, b)
    ensures Total(row) <= Count(ws, a)
    ensures forall b :: 0 <= b < n ==> 0 <= row[b] <= Count(ws, a)
  {
    PairRowAddsUp(ws, n, a, row);
    forall b | 0 <= b < n
      ensures row[b] <= Count(ws, a)
    {
      PairCountBounded(ws, a, b);
    }
  }

  /** a can follow b no more often than a occurs at all. */
  lemma {:induction false} PairCountBounded(ws: seq<int>, a: int, b: int)
    ensures PairCount(ws, a, b) <= Count(ws, a)
  {
    if |ws| > 1 {
      PairCountBounded(ws[..|ws| - 1], a, b);
    }
  }

  // ---------------------------------------------------------------------
  // Walk order and positional order

  /** In positional order: how often state a at one position is followed by
      state b at the next. */
  function ForwardPairCount(ps: seq<int>, a: int, b: int): nat {
    if |ps| <= 1 then 0
    else (if ps[0] == a && ps[1] == b then 1 else 0) + ForwardPairCount(ps[1..], a, b)
  }

  /** The walk's pair count of (a, b) is the number of positions in state a
      whose next position is in state b. */
  lemma {:induction false} PairCountIsForward(ws: seq<int>, a: int, b: int)
    ensures PairCount(ws, a, b) == ForwardPairCount(Reverse(ws), a, b)
  {
    if |ws| > 1 {
      var init := ws[..|ws| - 1];
      var r := Reverse(ws);
      assert r[1..] == Reverse(init);
      PairCountIsForward(init, a, b);
    }
  }

  /** Counting does not depend on the order. */
  lemma {:induction false} CountReverse(ws: seq<int>, s: int)
    ensures Count(Reverse(ws), s) == Count(ws, s)
  {
    if ws != [] {
      var init := ws[..|ws| - 1];
      var r := Reverse(ws);
      CountReverse(init, s);
      CountCons(ws[|ws| - 1], Reverse(init), s);
      assert r == [ws[|ws| - 1]] + Reverse(init);
    }
  }

  lemma {:induction false} CountCons(x: int, ws: seq<int>, s: int)
    ensures Count([x] + ws, s) == Count(ws, s) + (if x == s then 1 else 0)
  {
    if ws != [] {
      var init := ws[..|ws| - 1];
      assert ([x] + ws)[..|ws|] == [x] + init;
      CountCons(x, init, s);
    } else {
      assert [x] + ws == [x];
      assert [x][..0] == [];
    }
  }
}
