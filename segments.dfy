/** Segments of the Viterbi path: maximal runs of one state.

    The walk lists the visited nodes from the last position down, so a run is
    met highest position first; it is reported as the pair (first, last) of
    its lowest and highest position ids. */
module Segments {
  import opened Counting

  /** One step of the walk: the visited node's position id and state. */
  datatype Step = Step(id: int, state: int)

  /** A maximal run of one state, from position `first` up to position `last`. */
  datatype Run = Run(state: int, first: int, last: int)

  function States(w: seq<Step>): (ws: seq<int>)
    ensures |ws| == |w|
    ensures forall i :: 0 <= i < |w| ==> ws[i] == w[i].state
  {
    if w == [] then [] else States(w[..|w| - 1]) + [w[|w| - 1].state]
  }

  /** The maximal runs of the walk, in walk order: a step in the same state as
      the step before extends the current run down to its id, any other step
      opens a new run. */
  function Runs(w: seq<Step>): (r: seq<Run>)
    ensures |r| <= |w|
    ensures w == [] <==> r == []
    ensures w != [] ==> r[|r| - 1].state == w[|w| - 1].state && r[|r| - 1].first == w[|w| - 1].id
  {
    if w == [] then []
    else
      var r := Runs(w[..|w| - 1]);
      var x := w[|w| - 1];
      if r != [] && r[|r| - 1].state == x.state then r[..|r| - 1] + [r[|r| - 1].(first := x.id)]
      else r + [Run(x.state, x.id, x.id)]
  }

  /** The walk steps down one position at a time from position `top`. */
  predicate Descending(w: seq<Step>, top: int) {
    forall i :: 0 <= i < |w| ==> w[i].id == top - i
  }

  /** The runs tile the positions the walk visited: the first run ends at the
      top, each run ends just below where the previous one begins, none is
      empty, the last begins at the lowest visited position, and two
      consecutive runs are in different states. */
  predicate Tiles(r: seq<Run>, top: int, bottom: int) {
    && r != []
    && r[0].last == top
    && r[|r| - 1].first == bottom
    && (forall i :: 0 <= i < |r| ==> r[i].first <= r[i].last)
    && (forall i :: 0 <= i < |r| - 1 ==> r[i + 1].last == r[i].first - 1)
    && (forall i :: 0 <= i < |r| - 1 ==> r[i + 1].state != r[i].state)
  }

  lemma {:induction false} RunsTile(w: seq<Step>, top: int)
    requires w != [] && Descending(w, top)
    ensures Tiles(Runs(w), top, top - |w| + 1)
  {
    var init := w[..|w| - 1];
    var x := w[|w| - 1];
    if init == [] {
      assert Runs(w) == [Run(x.state, x.id, x.id)];
    } else {
      RunsTile(init, top);
      var r := Runs(init);
      var n := |r|;
      assert Runs(w) == if r[n - 1].state == x.state then r[..n - 1] + [r[n - 1].(first := x.id)]
                        else r + [Run(x.state, x.id, x.id)];
      assert r[n - 1].first == top - |init| + 1;
      if r[n - 1].state == x.state {
        ExtendLastTiles(r, top, top - |init| + 1, x.id);
      } else {
        OpenRunTiles(r, top, top - |init| + 1, x);
      }
    }
  }

  lemma ExtendLastTiles(r: seq<Run>, top: int, bottom: int, id: int)
    requires Tiles(r, top, bottom) && id <= bottom
    ensures Tiles(r[..|r| - 1] + [r[|r| - 1].(first := id)], top, id)
  {
    var r' := r[..|r| - 1] + [r[|r| - 1].(first := id)];
    assert forall i :: 0 <= i < |r| - 1 ==> r'[i] == r[i];
    assert r'[|r| - 1].last == r[|r| - 1].last && r'[|r| - 1].state == r[|r| - 1].state;
  }

  lemma OpenRunTiles(r: seq<Run>, top: int, bottom: int, x: Step)
    requires Tiles(r, top, bottom) && x.id == bottom - 1 && x.state != r[|r| - 1].state
    ensures Tiles(r + [Run(x.state, x.id, x.id)], top, x.id)
  {
    var r' := r + [Run(x.state, x.id, x.id)];
    assert forall i :: 0 <= i < |r| ==> r'[i] == r[i];
  }

  /** How many of the runs are runs of state s. */
  function CountRuns(r: seq<Run>, s: int): nat {
    if r == [] then 0 else CountRuns(r[..|r| - 1], s) + (if r[|r| - 1].state == s then 1 else 0)
  }

  lemma CountRunsLastChanged(r: seq<Run>, x: Run, s: int)
    requires r != [] && x.state == r[|r| - 1].state
    ensures CountRuns(r[..|r| - 1] + [x], s) == CountRuns(r, s)
  {
    assert (r[..|r| - 1] + [x])[..|r| - 1] == r[..|r| - 1];
  }

  /** The number of runs of s is the number of places where a run of s starts. */
  lemma {:induction false} RunsCountStarts(w: seq<Step>, s: int)
    ensures CountRuns(Runs(w), s) == RunStarts(States(w), s)
  {
    if w != [] {
      var init := w[..|w| - 1];
      var x := w[|w| - 1];
      RunsCountStarts(init, s);
      var r := Runs(init);
      var ws := States(w);
      assert ws[..|w| - 1] == States(init);
      assert RunStarts(ws, s) == RunStarts(States(init), s)
        + (if x.state == s && (|w| == 1 || ws[|w| - 2] != s) then 1 else 0);
      if r != [] && r[|r| - 1].state == x.state {
        assert Runs(w) == r[..|r| - 1] + [r[|r| - 1].(first := x.id)];
        CountRunsLastChanged(r, r[|r| - 1].(first := x.id), s);
        assert ws[|w| - 2] == init[|init| - 1].state == x.state;
      } else {
        var r' := r + [Run(x.state, x.id, x.id)];
        assert Runs(w) == r';
        assert r'[..|r|] == r;
        assert CountRuns(r', s) == CountRuns(r, s) + (if x.state == s then 1 else 0);
        if |w| > 1 {
          assert ws[|w| - 2] == init[|init| - 1].state;
        }
      }
    }
  }

  /** The segments that gatherViterbiResults pushes: the runs, except that
      the last is given 1 as its first position; an empty walk pushes the
      single pair (1, -1) under state -1. */
  function Pushes(w: seq<Step>): (r: seq<Run>)
    ensures r != []
  {
    if w == [] then [Run(-1, 1, -1)]
    else
      var runs := Runs(w);
      runs[..|runs| - 1] + [runs[|runs| - 1].(first := 1)]
  }

  /** A walk that goes all the way down to position 1 pushes exactly its runs. */
  lemma PushesOfFullWalk(w: seq<Step>)
    requires w != [] && Descending(w, |w|)
    ensures Pushes(w) == Runs(w)
    ensures Tiles(Pushes(w), |w|, 1)
  {
    RunsTile(w, |w|);
    var runs := Runs(w);
    assert runs[|runs| - 1].(first := 1) == runs[|runs| - 1];
  }

  /** The (first, last) pairs of the runs of state s, in order. */
  function Filter(r: seq<Run>, s: int): (ps: seq<(int, int)>)
    ensures |ps| == CountRuns(r, s)
  {
    if r == [] then []
    else
      var x := r[|r| - 1];
      Filter(r[..|r| - 1], s) + (if x.state == s then [(x.first, x.last)] else [])
  }

  /** segments[state].push_back(segment), where a missing key starts out as
      the empty vector (std::map::operator[]). */
  function AddSegment(segments: map<int, seq<(int, int)>>, state: int, segment: (int, int)): (r: map<int, seq<(int, int)>>)
    ensures r.Keys == segments.Keys + {state}
    ensures r[state] == (if state in segments then segments[state] else []) + [segment]
    ensures forall s :: s in segments && s != state ==> r[s] == segments[s]
  {
    segments[state := (if state in segments then segments[state] else []) + [segment]]
  }

  /** The map built by pushing the runs in order: each state that has runs is
      a key, holding the pairs of its runs in order. */
  function Group(r: seq<Run>): (g: map<int, seq<(int, int)>>)
    ensures forall s :: s in g <==> Filter(r, s) != []
    ensures forall s :: s in g ==> g[s] == Filter(r, s)
  {
    if r == [] then map[]
    else
      var x := r[|r| - 1];
      AddSegment(Group(r[..|r| - 1]), x.state, (x.first, x.last))
  }

  lemma GroupSnoc(r: seq<Run>, x: Run)
    ensures Group(r + [x]) == AddSegment(Group(r), x.state, (x.first, x.last))
  {
    var r' := r + [x];
    assert r'[|r'| - 1] == x && r'[..|r'| - 1] == r;
  }
}
