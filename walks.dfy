/** The walk evolution of `SAW._evolution` and `SAWEarly._evolution` as
    pure functions over a walker state, and the properties of the walks
    they produce. The classes in module `Models` are proved equal to these. */
module Walks {
  import opened Lattice
  import opened Moves
  import opened Probability

  /** The walker: the lattice, the current position, the trajectory rows
      `xs` and columns `ys`, the branching-factor log `ks`, the step count
      and the number of move-selection draws consumed. */
  datatype State = State(grid: Grid, pos: Pos, xs: seq<int>, ys: seq<int>,
                         ks: seq<int>, steps: nat, drawn: nat)

  /** Trajectory point `t`. */
  function Point(s: State, t: int): Pos
    requires 0 <= t < |s.xs| && t < |s.ys|
  {
    Pos(s.xs[t], s.ys[t])
  }

  /** The walk invariant:
      - the grid is n by n and the trajectory has `steps + 1` points, the last being `pos`;
      - every point is inside the lattice and no point occurs twice;
      - every departed point holds the code 1..4 of the direction that leads
        to the next point, which is at distance 1;
      - the current cell is unvisited and exactly `steps` cells are stamped. */
  ghost predicate WalkInv(n: nat, s: State) {
    && Ready(n, s)
    && Inside(n, s) && Distinct(s) && Departed(n, s)
    && ZeroCount(s.grid) + s.steps == n * n
  }

  /** What an attempt needs: the walker is placed and its cell is unvisited. */
  ghost predicate Ready(n: nat, s: State) {
    Placed(n, s) && Cell(s.grid, s.pos) == 0
  }

  /** The grid is n by n, the trajectory has `steps + 1` points and the last
      one is `pos`, inside the lattice. */
  ghost predicate Placed(n: nat, s: State) {
    && IsGrid(s.grid, n)
    && |s.xs| == s.steps + 1 && |s.ys| == s.steps + 1
    && s.pos == Point(s, s.steps) && InBounds(n, s.pos)
  }

  /** Every trajectory point lies inside the lattice. */
  ghost predicate Inside(n: nat, s: State) {
    forall t :: 0 <= t < |s.xs| && t < |s.ys| ==> InBounds(n, Point(s, t))
  }

  /** No trajectory point occurs twice. */
  ghost predicate Distinct(s: State) {
    forall a, b :: 0 <= a < b < |s.xs| && b < |s.ys| ==> Point(s, a) != Point(s, b)
  }

  /** Every point but the last was left by its step. */
  ghost predicate Departed(n: nat, s: State) {
    forall t :: 0 <= t < s.steps ==> Departs(n, s, t)
  }

  /** Trajectory point `t` was left by step `t`: its cell holds the code 1..4
      of the direction that leads to point `t + 1`, at distance 1. */
  ghost predicate Departs(n: nat, s: State, t: int) {
    && IsGrid(s.grid, n) && 0 <= t && t + 1 < |s.xs| && t + 1 < |s.ys|
    && InBounds(n, Point(s, t))
    && 1 <= Cell(s.grid, Point(s, t)) <= 4
    && Target(Point(s, t), Cell(s.grid, Point(s, t))) == Point(s, t + 1)
    && Distance(Point(s, t), Point(s, t + 1)) == 1
  }

  /** One log entry per step taken, each a branching factor in 1..4. */
  ghost predicate LogInv(s: State) {
    |s.ks| == s.steps && Factors(s.ks)
  }

  /** Every logged branching factor is in 1..4. */
  predicate Factors(ks: seq<int>) {
    forall t :: 0 <= t < |ks| ==> 1 <= ks[t] <= 4
  }

  lemma FactorsAppend(ks: seq<int>, k: int)
    requires Factors(ks) && 1 <= k <= 4
    ensures Factors(ks + [k])
  {
    forall t | 0 <= t < |ks| + 1
      ensures 1 <= (ks + [k])[t] <= 4
    {
      if t < |ks| {
        assert (ks + [k])[t] == ks[t];
      }
    }
  }

  /** No move is legal from the current position. */
  predicate Trapped(n: nat, s: State)
    requires IsGrid(s.grid, n)
  {
    |CheckWalks(s.grid, n, s.pos).dirs| == 0
  }

  /** The state `SAW.__init__` builds before evolving: a fresh grid and a
      trajectory holding the start point only. */
  function Init(n: nat, i0: int, j0: int): State {
    State(ZeroGrid(n), Pos(i0, j0), [i0], [j0], [], 0, 0)
  }

  lemma InitWalk(n: nat, i0: int, j0: int)
    requires InBounds(n, Pos(i0, j0))
    ensures WalkInv(n, Init(n, i0, j0)) && LogInv(Init(n, i0, j0))
  {
    ZeroGridCount(n);
  }

  /** The walk invariant does not look at the log. */
  lemma LogKeepsWalk(n: nat, s: State, ks: seq<int>)
    requires WalkInv(n, s)
    ensures WalkInv(n, s.(ks := ks))
  {
    var s' := s.(ks := ks);
    assert forall t :: 0 <= t <= s.steps ==> Point(s', t) == Point(s, t);
    assert Inside(n, s') && Distinct(s');
    forall t | 0 <= t < s.steps
      ensures Departs(n, s', t)
    {
      assert Departs(n, s, t);
    }
  }

  /** An attempt that finds a legal move: log the branching factor, choose a
      legal direction, stamp the departure cell and append the new position
      to the trajectory. */
  function Step(n: nat, s: State, pick: Picker): State
    requires Placed(n, s)
    requires |CheckWalks(s.grid, n, s.pos).dirs| > 0
  {
    var m := CheckWalks(s.grid, n, s.pos);
    var c := ChooseUniformly(m.dirs, pick, s.drawn);
    var w := Walk(s.grid, n, s.pos, c.value);
    var q := w.to.value;
    State(w.grid, q, s.xs + [q.i], s.ys + [q.j], s.ks + [|m.dirs|], s.steps + 1, c.drawn)
  }

  /** The facts about one move that the parts of the walk invariant need:
      `r` extends the trajectory of `s` by `Target(s.pos, d)`, a free cell,
      and stamps the departure cell with `d`. */
  ghost predicate Move(n: nat, s: State, d: int, r: State) {
    && Placed(n, s) && 1 <= d <= 4
    && Free(s.grid, n, Target(s.pos, d))
    && r.grid == Stamp(s.grid, s.pos, d) && r.pos == Target(s.pos, d)
    && r.xs == s.xs + [r.pos.i] && r.ys == s.ys + [r.pos.j] && r.steps == s.steps + 1
  }

  /** A move keeps the old points and appends the target. */
  lemma MovePoints(n: nat, s: State, d: int, r: State)
    requires Move(n, s, d, r)
    ensures |r.xs| == r.steps + 1 && |r.ys| == r.steps + 1
    ensures forall t :: 0 <= t <= s.steps ==> Point(r, t) == Point(s, t)
    ensures Point(r, r.steps) == r.pos
  {
  }

  lemma MoveKeepsInside(n: nat, s: State, d: int, r: State)
    requires Move(n, s, d, r) && Inside(n, s)
    ensures Inside(n, r)
  {
    MovePoints(n, s, d, r);
    forall t | 0 <= t < |r.xs| && t < |r.ys|
      ensures InBounds(n, Point(r, t))
    {
      if t <= s.steps {
        assert Point(r, t) == Point(s, t);
      }
    }
  }

  lemma MoveKeepsDistinct(n: nat, s: State, d: int, r: State)
    requires Move(n, s, d, r) && Inside(n, s) && Distinct(s) && Departed(n, s)
    ensures Distinct(r)
  {
    MovePoints(n, s, d, r);
    var q := r.pos;
    forall t | 0 <= t <= s.steps
      ensures Point(s, t) != q
    {
      if t < s.steps {
        assert Departs(n, s, t);
      } else {
        TargetIsNeighbour(s.pos, d, d);
      }
    }
    forall a, b | 0 <= a < b < |r.xs| && b < |r.ys|
      ensures Point(r, a) != Point(r, b)
    {
      if b <= s.steps {
        assert Point(s, a) != Point(s, b);
      } else {
        assert Point(r, a) == Point(s, a);
      }
    }
  }

  lemma MoveKeepsDeparted(n: nat, s: State, d: int, r: State)
    requires Move(n, s, d, r) && Inside(n, s) && Distinct(s) && Departed(n, s)
    ensures Departed(n, r)
  {
    MovePoints(n, s, d, r);
    forall t | 0 <= t < r.steps
      ensures Departs(n, r, t)
    {
      if t < s.steps {
        assert Departs(n, s, t);
        assert Point(s, t) != Point(s, s.steps);
        assert Point(r, t + 1) == Point(s, t + 1);
        assert Cell(r.grid, Point(r, t)) == Cell(s.grid, Point(s, t));
      } else {
        assert Point(r, t) == s.pos;
        assert Cell(r.grid, s.pos) == d;
        TargetIsNeighbour(s.pos, d, d);
      }
    }
  }

  /** Leaving the current cell by a direction whose target is free, with the
      departure cell stamped and the target appended, keeps the walk
      invariant and leaves one fewer unvisited cell. */
  lemma MoveKeepsWalk(n: nat, s: State, d: int, r: State)
    requires WalkInv(n, s) && Move(n, s, d, r)
    ensures WalkInv(n, r) && ZeroCount(r.grid) < ZeroCount(s.grid)
  {
    StampDecreasesZeroCount(s.grid, s.pos, d);
    MovePoints(n, s, d, r);
    MoveKeepsInside(n, s, d, r);
    MoveKeepsDistinct(n, s, d, r);
    MoveKeepsDeparted(n, s, d, r);
    assert r.pos != s.pos by {
      TargetIsNeighbour(s.pos, d, d);
    }
  }

  /** A step leaves by a chosen legal direction: it stamps the departure cell
      with it, moves to its target and logs the branching factor. */
  lemma StepMoves(n: nat, s: State, pick: Picker) returns (d: int)
    requires Placed(n, s)
    requires |CheckWalks(s.grid, n, s.pos).dirs| > 0
    ensures var r := Step(n, s, pick);
      && d in CheckWalks(s.grid, n, s.pos).dirs && Move(n, s, d, r)
      && r.pos in CheckWalks(s.grid, n, s.pos).targets
      && r.ks == s.ks + [|CheckWalks(s.grid, n, s.pos).dirs|]
  {
    var m := CheckWalks(s.grid, n, s.pos);
    d := ChooseUniformly(m.dirs, pick, s.drawn).value;
    var at :| 0 <= at < |m.dirs| && m.dirs[at] == d;
    assert m.targets[at] == Target(s.pos, d);
    assert Free(s.grid, n, Target(s.pos, d));
  }

  /** A step from a ready state leads to a ready state with one fewer
      unvisited cell. */
  lemma StepReady(n: nat, s: State, pick: Picker)
    requires Ready(n, s) && |CheckWalks(s.grid, n, s.pos).dirs| > 0
    ensures Ready(n, Step(n, s, pick)) && ZeroCount(Step(n, s, pick).grid) < ZeroCount(s.grid)
  {
    var d := StepMoves(n, s, pick);
    var r := Step(n, s, pick);
    TargetIsNeighbour(s.pos, d, d);
    StampDecreasesZeroCount(s.grid, s.pos, d);
    assert r.pos != s.pos;
  }

  /** A step keeps the walk invariant, leaves one fewer unvisited cell, moves
      to a legal target, logs the branching factor and keeps the start point. */
  lemma StepKeepsWalk(n: nat, s: State, pick: Picker)
    requires WalkInv(n, s)
    requires |CheckWalks(s.grid, n, s.pos).dirs| > 0
    ensures var r := Step(n, s, pick);
      && WalkInv(n, r)
      && ZeroCount(r.grid) < ZeroCount(s.grid)
      && r.steps == s.steps + 1 && r.ks == s.ks + [|CheckWalks(s.grid, n, s.pos).dirs|]
      && r.pos in CheckWalks(s.grid, n, s.pos).targets
      && r.xs[0] == s.xs[0] && r.ys[0] == s.ys[0]
      && (LogInv(s) ==> LogInv(r))
  {
    var d := StepMoves(n, s, pick);
    var r := Step(n, s, pick);
    MoveKeepsWalk(n, s, d, r);
    if LogInv(s) {
      FactorsAppend(s.ks, |CheckWalks(s.grid, n, s.pos).dirs|);
    }
  }

  /** `SAW._evolution`, from the loop head: log the branching factor, stop
      (dropping the zero entry) when no move is legal, otherwise step. */
  function Evolve(n: nat, s: State, pick: Picker): State
    requires Ready(n, s)
    decreases ZeroCount(s.grid)
  {
    var m := CheckWalks(s.grid, n, s.pos);
    var logged := s.ks + [|m.dirs|];
    if |m.dirs| == 0 then s.(ks := logged[..|logged| - 1])
    else
      StepReady(n, s, pick);
      Evolve(n, Step(n, s, pick), pick)
  }

  /** An attempt that finds no legal move ends the walk unchanged. */
  lemma EvolveTrapped(n: nat, s: State, pick: Picker)
    requires Ready(n, s) && |CheckWalks(s.grid, n, s.pos).dirs| == 0
    ensures Evolve(n, s, pick) == s
  {
    var logged := s.ks + [0];
    assert logged[..|logged| - 1] == s.ks;
  }

  /** An attempt that finds a legal move steps and goes on. */
  lemma EvolveStep(n: nat, s: State, pick: Picker)
    requires Ready(n, s) && |CheckWalks(s.grid, n, s.pos).dirs| > 0
    ensures Ready(n, Step(n, s, pick)) && ZeroCount(Step(n, s, pick).grid) < ZeroCount(s.grid)
    ensures Evolve(n, s, pick) == Evolve(n, Step(n, s, pick), pick)
  {
    StepReady(n, s, pick);
  }

  /** The first attempt of both variants, logged and stepped with no check
      for a trap (from a fresh lattice with n >= 2 a move always exists). */
  function FirstStep(n: nat, i0: int, j0: int, pick: Picker): (s1: State)
    requires n >= 2 && InBounds(n, Pos(i0, j0))
    ensures Ready(n, s1)
  {
    FirstMoveExists(n, Pos(i0, j0));
    StepReady(n, Init(n, i0, j0), pick);
    Step(n, Init(n, i0, j0), pick)
  }

  /** After the first step the walk keeps the walk invariant, has one step
      and one log entry, and starts at the start point. */
  lemma FirstStepWalk(n: nat, i0: int, j0: int, pick: Picker)
    requires n >= 2 && InBounds(n, Pos(i0, j0))
    ensures var s1 := FirstStep(n, i0, j0, pick);
      && WalkInv(n, s1) && LogInv(s1)
      && s1.steps == 1 && s1.xs[0] == i0 && s1.ys[0] == j0
  {
    var s0 := Init(n, i0, j0);
    InitWalk(n, i0, j0);
    FirstMoveExists(n, Pos(i0, j0));
    StepKeepsWalk(n, s0, pick);
    var s1 := Step(n, s0, pick);
    assert FirstStep(n, i0, j0, pick) == s1;
    assert s1.ks == [|CheckWalks(s0.grid, n, s0.pos).dirs|];
  }

  /** The completed `SAW` walk: the first attempt, then the loop. */
  function Saw(n: nat, i0: int, j0: int, pick: Picker): State
    requires n >= 2 && InBounds(n, Pos(i0, j0))
  {
    Evolve(n, FirstStep(n, i0, j0, pick), pick)
  }

  lemma {:induction false} EvolveProperties(n: nat, s: State, pick: Picker)
    requires WalkInv(n, s) && LogInv(s)
    ensures var r := Evolve(n, s, pick);
      && WalkInv(n, r) && LogInv(r) && Trapped(n, r)
      && r.steps >= s.steps && r.xs[0] == s.xs[0] && r.ys[0] == s.ys[0]
    decreases ZeroCount(s.grid)
  {
    var m := CheckWalks(s.grid, n, s.pos);
    var logged := s.ks + [|m.dirs|];
    if |m.dirs| == 0 {
      assert logged[..|logged| - 1] == s.ks;
    } else {
      StepKeepsWalk(n, s, pick);
      var s1 := Step(n, s, pick);
      EvolveProperties(n, s1, pick);
      assert Evolve(n, s, pick) == Evolve(n, s1, pick);
    }
  }

  /** What a completed `SAW` walk satisfies: it starts at the start point,
      takes between 1 and n * n - 1 steps, keeps the walk invariant (points
      distinct, inside the lattice, consecutive ones adjacent, departed cells
      stamped, final cell unvisited), logs one factor in 1..4 per step, and
      ends only when trapped. */
  lemma SawProperties(n: nat, i0: int, j0: int, pick: Picker)
    requires n >= 2 && InBounds(n, Pos(i0, j0))
    ensures var r := Saw(n, i0, j0, pick);
      && WalkInv(n, r) && LogInv(r) && Trapped(n, r)
      && 1 <= r.steps <= n * n - 1
      && r.xs[0] == i0 && r.ys[0] == j0
  {
    FirstStepWalk(n, i0, j0, pick);
    var s1 := FirstStep(n, i0, j0, pick);
    EvolveProperties(n, s1, pick);
    var r := Evolve(n, s1, pick);
    assert Saw(n, i0, j0, pick) == r;
    ZeroCountPositive(r.grid, r.pos);
  }

  /** A completed `SAW` walk has one more trajectory point than steps and a
      non-empty log of positive factors. */
  lemma SawShape(n: nat, i0: int, j0: int, pick: Picker)
    requires n >= 2 && InBounds(n, Pos(i0, j0))
    ensures var r := Saw(n, i0, j0, pick);
      |r.xs| == r.steps + 1 && |r.ys| == r.steps + 1 && |r.ks| > 0 && Positive(r.ks)
  {
    SawProperties(n, i0, j0, pick);
  }

  /** The early-termination oracle: `draws(t)` is the value of the `t`-th
      call of `np.random.uniform()`, in [0, 1). */
  type Uniform = f: nat -> real | forall t: nat :: 0.0 <= f(t) < 1.0
    witness (t: nat) => 0.0

  /** The loop's `t`-th stop draw says stop. Inside the loop the stop draw of
      an attempt is the one numbered by the steps taken so far. */
  predicate Stops(draws: Uniform, p: real, t: nat) {
    draws(t) < p
  }

  /** `SAWEarly._evolution`, from the loop head: log the factor; a stop draw
      ends the walk, dropping the entry only when it is zero; otherwise a
      trap ends it with the zero entry dropped; otherwise step. */
  function EvolveEarly(n: nat, s: State, pick: Picker, draws: Uniform, p: real): State
    requires Ready(n, s)
    decreases ZeroCount(s.grid)
  {
    var m := CheckWalks(s.grid, n, s.pos);
    var logged := s.ks + [|m.dirs|];
    if Stops(draws, p, s.steps) then
      if |m.dirs| == 0 then s.(ks := logged[..|logged| - 1]) else s.(ks := logged)
    else if |m.dirs| == 0 then s.(ks := logged[..|logged| - 1])
    else
      StepReady(n, s, pick);
      EvolveEarly(n, Step(n, s, pick), pick, draws, p)
  }

  /** An attempt whose stop draw says stop ends the walk where it is,
      keeping its log entry unless it is zero. */
  lemma EvolveEarlyStopped(n: nat, s: State, pick: Picker, draws: Uniform, p: real)
    requires Ready(n, s) && Stops(draws, p, s.steps)
    ensures var f := |CheckWalks(s.grid, n, s.pos).dirs|;
      EvolveEarly(n, s, pick, draws, p) == s.(ks := if f == 0 then s.ks else s.ks + [f])
  {
    var logged := s.ks + [|CheckWalks(s.grid, n, s.pos).dirs|];
    assert logged[..|logged| - 1] == s.ks;
  }

  /** An attempt that continues but finds no legal move ends the walk unchanged. */
  lemma EvolveEarlyTrapped(n: nat, s: State, pick: Picker, draws: Uniform, p: real)
    requires Ready(n, s) && !Stops(draws, p, s.steps) && |CheckWalks(s.grid, n, s.pos).dirs| == 0
    ensures EvolveEarly(n, s, pick, draws, p) == s
  {
    var logged := s.ks + [0];
    assert logged[..|logged| - 1] == s.ks;
  }

  /** An attempt that continues and finds a legal move steps and goes on. */
  lemma EvolveEarlyStep(n: nat, s: State, pick: Picker, draws: Uniform, p: real)
    requires Ready(n, s) && !Stops(draws, p, s.steps) && |CheckWalks(s.grid, n, s.pos).dirs| > 0
    ensures Ready(n, Step(n, s, pick)) && ZeroCount(Step(n, s, pick).grid) < ZeroCount(s.grid)
    ensures Step(n, s, pick).steps == s.steps + 1
    ensures EvolveEarly(n, s, pick, draws, p) == EvolveEarly(n, Step(n, s, pick), pick, draws, p)
  {
    StepReady(n, s, pick);
  }

  /** The completed `SAWEarly` walk: the first stop draw is made, but the
      first step is taken whatever it says; the loop runs only when it said
      continue. */
  function SawEarly(n: nat, i0: int, j0: int, pick: Picker, draws: Uniform, p: real): State
    requires n >= 2 && InBounds(n, Pos(i0, j0))
  {
    var colide := Stops(draws, p, 0);
    var s1 := FirstStep(n, i0, j0, pick);
    if colide then s1 else EvolveEarly(n, s1, pick, draws, p)
  }

  /** How a `SAWEarly` walk ends: a valid walk whose log holds factors in
      1..4, ended by a stop draw or a trap, with one entry per step plus the
      kept entry of a stop draw that found a legal move. */
  ghost predicate EarlyEnd(n: nat, r: State, draws: Uniform, p: real) {
    && WalkInv(n, r)
    && (Stops(draws, p, r.steps) || Trapped(n, r))
    && Factors(r.ks)
    && |r.ks| == (if Stops(draws, p, r.steps) && !Trapped(n, r) then r.steps + 1 else r.steps)
  }

  /** The loop ends at this attempt when it is trapped or its stop draw says stop. */
  lemma EvolveEarlyEnds(n: nat, s: State, pick: Picker, draws: Uniform, p: real)
    requires WalkInv(n, s) && LogInv(s)
    requires Trapped(n, s) || Stops(draws, p, s.steps)
    ensures var r := EvolveEarly(n, s, pick, draws, p);
      && EarlyEnd(n, r, draws, p) && r.steps == s.steps && r.xs == s.xs && r.ys == s.ys
  {
    var m := CheckWalks(s.grid, n, s.pos);
    var logged := s.ks + [|m.dirs|];
    if |m.dirs| == 0 {
      assert logged[..|logged| - 1] == s.ks;
      assert EvolveEarly(n, s, pick, draws, p) == s;
    } else {
      var r := s.(ks := logged);
      assert EvolveEarly(n, s, pick, draws, p) == r;
      LogKeepsWalk(n, s, logged);
      FactorsAppend(s.ks, |m.dirs|);
      assert !Trapped(n, r) by {
        assert r.grid == s.grid && r.pos == s.pos;
      }
    }
  }

  lemma {:induction false} EvolveEarlyProperties(n: nat, s: State, pick: Picker, draws: Uniform, p: real)
    requires WalkInv(n, s) && LogInv(s)
    ensures var r := EvolveEarly(n, s, pick, draws, p);
      && EarlyEnd(n, r, draws, p) && r.steps >= s.steps
      && r.xs[0] == s.xs[0] && r.ys[0] == s.ys[0]
      && (forall t :: s.steps <= t < r.steps ==> !Stops(draws, p, t))
    decreases ZeroCount(s.grid)
  {
    if Trapped(n, s) || Stops(draws, p, s.steps) {
      EvolveEarlyEnds(n, s, pick, draws, p);
    } else {
      StepKeepsWalk(n, s, pick);
      var s1 := Step(n, s, pick);
      EvolveEarlyProperties(n, s1, pick, draws, p);
      var r := EvolveEarly(n, s1, pick, draws, p);
      assert EvolveEarly(n, s, pick, draws, p) == r;
      forall t | s.steps <= t < r.steps
        ensures !Stops(draws, p, t)
      {
        if t > s.steps {
          assert s1.steps <= t;
        }
      }
    }
  }

  /** What a completed `SAWEarly` walk satisfies: the walk invariant and at
      least one step. A stop on the first draw still takes exactly one step
      and keeps its one log entry. Otherwise no stop draw fell before the
      end and the walk ended as `EarlyEnd` says. */
  lemma SawEarlyProperties(n: nat, i0: int, j0: int, pick: Picker, draws: Uniform, p: real)
    requires n >= 2 && InBounds(n, Pos(i0, j0))
    ensures var r := SawEarly(n, i0, j0, pick, draws, p);
      && WalkInv(n, r) && r.steps >= 1
      && r.xs[0] == i0 && r.ys[0] == j0
      && Factors(r.ks)
      && (Stops(draws, p, 0) ==> r.steps == 1 && |r.ks| == 1)
      && (!Stops(draws, p, 0) ==>
            EarlyEnd(n, r, draws, p) && forall t :: 1 <= t < r.steps ==> !Stops(draws, p, t))
  {
    FirstStepWalk(n, i0, j0, pick);
    var s1 := FirstStep(n, i0, j0, pick);
    if Stops(draws, p, 0) {
      assert SawEarly(n, i0, j0, pick, draws, p) == s1;
    } else {
      EvolveEarlyProperties(n, s1, pick, draws, p);
      assert SawEarly(n, i0, j0, pick, draws, p) == EvolveEarly(n, s1, pick, draws, p);
    }
  }

  /** A completed `SAWEarly` walk has one more trajectory point than steps
      and a non-empty log of positive factors. */
  lemma SawEarlyShape(n: nat, i0: int, j0: int, pick: Picker, draws: Uniform, p: real)
    requires n >= 2 && InBounds(n, Pos(i0, j0))
    ensures var r := SawEarly(n, i0, j0, pick, draws, p);
      |r.xs| == r.steps + 1 && |r.ys| == r.steps + 1 && |r.ks| > 0 && Positive(r.ks)
  {
    SawEarlyProperties(n, i0, j0, pick, draws, p);
  }

  /** No draw falls below `p`. */
  ghost predicate NeverStops(draws: Uniform, p: real) {
    forall t: nat :: !Stops(draws, p, t)
  }

  lemma {:induction false} EvolveEarlyNeverStopping(n: nat, s: State, pick: Picker, draws: Uniform, p: real)
    requires Ready(n, s) && NeverStops(draws, p)
    ensures EvolveEarly(n, s, pick, draws, p) == Evolve(n, s, pick)
    decreases ZeroCount(s.grid)
  {
    assert !Stops(draws, p, s.steps);
    var m := CheckWalks(s.grid, n, s.pos);
    if |m.dirs| > 0 {
      StepReady(n, s, pick);
      EvolveEarlyNeverStopping(n, Step(n, s, pick), pick, draws, p);
    }
  }

  /** With no stop draw ever saying stop, `SAWEarly` produces exactly the
      walk of `SAW`: same grid, trajectory, log and step count. */
  lemma SawEarlyNeverStopping(n: nat, i0: int, j0: int, pick: Picker, draws: Uniform, p: real)
    requires n >= 2 && InBounds(n, Pos(i0, j0)) && NeverStops(draws, p)
    ensures SawEarly(n, i0, j0, pick, draws, p) == Saw(n, i0, j0, pick)
  {
    assert !Stops(draws, p, 0);
    EvolveEarlyNeverStopping(n, FirstStep(n, i0, j0, pick), pick, draws, p);
  }

  /** `terminate_probability` 0 (or below) never stops, so `SAWEarly` is `SAW`. */
  lemma SawEarlyProbabilityZero(n: nat, i0: int, j0: int, pick: Picker, draws: Uniform, p: real)
    requires n >= 2 && InBounds(n, Pos(i0, j0)) && p <= 0.0
    ensures SawEarly(n, i0, j0, pick, draws, p) == Saw(n, i0, j0, pick)
  {
    assert NeverStops(draws, p) by {
      forall t: nat ensures !Stops(draws, p, t) {
        assert 0.0 <= draws(t);
      }
    }
    SawEarlyNeverStopping(n, i0, j0, pick, draws, p);
  }

  /** `terminate_probability` 1 (or above) stops at the first draw, yet the
      first step is taken: one step, two trajectory points, one log entry. */
  lemma SawEarlyProbabilityOne(n: nat, i0: int, j0: int, pick: Picker, draws: Uniform, p: real)
    requires n >= 2 && InBounds(n, Pos(i0, j0)) && p >= 1.0
    ensures var r := SawEarly(n, i0, j0, pick, draws, p);
      r.steps == 1 && |r.xs| == 2 && |r.ys| == 2 && |r.ks| == 1
  {
    assert draws(0) < 1.0;
    SawEarlyProperties(n, i0, j0, pick, draws, p);
  }
}
