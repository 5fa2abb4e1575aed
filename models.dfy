/** The classes `SAW` and `SAWEarly` of Models.py: the grid is an array
    updated in place, the trajectory and the log are sequences the methods
    reassign. Each class's evolution is proved to produce the walk defined
    in module `Walks`. */
module Models {
  import opened Lattice
  import Moves
  import Probability
  import Walks

  /** The array `matrix` holds the grid value `g`. */
  ghost predicate Mirrors(matrix: array2<int>, g: Grid)
    reads matrix
  {
    && matrix.Length0 == matrix.Length1
    && IsGrid(g, matrix.Length0)
    && forall a, b :: 0 <= a < matrix.Length0 && 0 <= b < matrix.Length1 ==> matrix[a, b] == g[a][b]
  }

  /** `SAW._grid`: a fresh n by n grid of zeros. */
  method NewGrid(n: nat) returns (matrix: array2<int>)
    ensures fresh(matrix) && matrix.Length0 == n && Mirrors(matrix, ZeroGrid(n))
  {
    matrix := new int[n, n]((a, b) => 0);
  }

  /** `SAW._check_walks` on the array: tries the four directions in order
      and keeps those whose target is inside the lattice and unvisited. The
      array is only read. */
  method CheckWalks(matrix: array2<int>, ghost g: Grid, i: int, j: int)
    returns (possibleWalks: seq<int>, possibleValues: seq<Pos>)
    requires Mirrors(matrix, g)
    ensures Moves.Moves(possibleWalks, possibleValues) == Moves.CheckWalks(g, matrix.Length0, Pos(i, j))
  {
    var n := matrix.Length0;
    ghost var p := Pos(i, j);
    possibleWalks, possibleValues := [], [];
    var d := 1;
    while d <= 4
      invariant 1 <= d <= 5
      invariant Moves.Moves(possibleWalks, possibleValues) == Moves.Filter(g, n, p, d - 1)
    {
      var q := Moves.Target(Pos(i, j), d);
      var impossible := q.i < 0 || q.j < 0 || q.i >= n || q.j >= n || matrix[q.i, q.j] != 0;
      if !impossible {
        possibleWalks, possibleValues := possibleWalks + [d], possibleValues + [q];
      }
      d := d + 1;
    }
  }

  /** `SAW._walk` on the array: stamps the departure cell with the direction
      and returns the neighbour; a row or column equal to the size, or an
      unknown code, gives `None` and leaves the array as it was. */
  method Walk(matrix: array2<int>, ghost g: Grid, i: int, j: int, direction: int)
    returns (r: Option<Pos>)
    requires Mirrors(matrix, g) && 0 <= i <= matrix.Length0 && 0 <= j <= matrix.Length0
    modifies matrix
    ensures Mirrors(matrix, Moves.Walk(g, matrix.Length0, Pos(i, j), direction).grid)
    ensures r == Moves.Walk(g, matrix.Length0, Pos(i, j), direction).to
  {
    var n := matrix.Length0;
    if i == n || j == n {
      return None;
    } else if direction == 1 {
      matrix[i, j] := direction;
      return Some(Pos(i, j - 1));
    } else if direction == 2 {
      matrix[i, j] := direction;
      return Some(Pos(i, j + 1));
    } else if direction == 3 {
      matrix[i, j] := direction;
      return Some(Pos(i - 1, j));
    } else if direction == 4 {
      matrix[i, j] := direction;
      return Some(Pos(i + 1, j));
    }
    return None;
  }

  /** A self-avoiding walk grown on an N x N lattice until it is trapped. */
  class SAW {
    const grid: array2<int>
    var k: seq<int>
    var x: seq<int>
    var y: seq<int>
    var nWalks: nat
    /** The value the array holds. */
    ghost var cells: Grid

    ghost predicate Valid()
      reads this, grid
    {
      Mirrors(grid, cells)
    }

    /** The walk is complete: its accessors are defined. */
    ghost predicate Complete()
      reads this, grid
    {
      Valid() && |x| == nWalks + 1 && |y| == nWalks + 1 && |k| > 0 && Probability.Positive(k)
    }

    /** `SAW.__init__`: a fresh lattice, the start point, then the evolution.
        The object holds exactly the walk `Walks.Saw` of the same inputs. */
    constructor (N: nat, pick: Moves.Picker, initialX: int := 0, initialY: int := 0)
      requires N >= 2 && InBounds(N, Pos(initialX, initialY))
      ensures Complete() && fresh(grid) && grid.Length0 == N
      ensures var r := Walks.Saw(N, initialX, initialY, pick);
        cells == r.grid && x == r.xs && y == r.ys && k == r.ks && nWalks == r.steps
    {
      var matrix := NewGrid(N);
      grid := matrix;
      cells := ZeroGrid(N);
      k := [];
      x := [initialX];
      y := [initialY];
      nWalks := 0;
      new;
      assert x[0] == initialX && y[0] == initialY && grid.Length0 == N;
      nWalks := Evolution(pick);
    }

    /** The first half of an attempt: `_check_walks` at (i, j), with the
        number of legal moves appended to the log. */
    method LogMoves(i: int, j: int) returns (possibleWalks: seq<int>)
      requires Valid()
      modifies this
      ensures Valid() && cells == old(cells) && x == old(x) && y == old(y) && nWalks == old(nWalks)
      ensures possibleWalks == Moves.CheckWalks(cells, grid.Length0, Pos(i, j)).dirs
      ensures k == old(k) + [|possibleWalks|]
    {
      var possibleValues;
      possibleWalks, possibleValues := CheckWalks(grid, cells, i, j);
      k := k + [|possibleWalks|];
    }

    /** The second half of an attempt that found a legal move:
        `_choose_uniformly`, `_walk` on the grid and the new position
        appended to the trajectory. Together with the preceding `LogMoves`
        it is one `Walks.Step` from the state `s` the attempt started in. */
    method Advance(i: int, j: int, possibleWalks: seq<int>, drawn: nat, pick: Moves.Picker,
                   ghost s: Walks.State)
      returns (i': int, j': int, drawn': nat)
      requires Valid() && Walks.Placed(grid.Length0, s)
      requires s.grid == cells && s.pos == Pos(i, j) && s.xs == x && s.ys == y && s.drawn == drawn
      requires possibleWalks == Moves.CheckWalks(cells, grid.Length0, Pos(i, j)).dirs
      requires |possibleWalks| > 0 && k == s.ks + [|possibleWalks|]
      modifies this, grid
      ensures Valid() && k == old(k) && nWalks == old(nWalks)
      ensures var r := Walks.Step(grid.Length0, s, pick);
        cells == r.grid && x == r.xs && y == r.ys && k == r.ks && Pos(i', j') == r.pos && drawn' == r.drawn
    {
      var choice := Moves.ChooseUniformly(possibleWalks, pick, drawn);
      var next := Walk(grid, cells, i, j, choice.value);
      cells := Moves.Walk(cells, grid.Length0, Pos(i, j), choice.value).grid;
      i', j' := next.value.i, next.value.j;
      x := x + [i'];
      y := y + [j'];
      drawn' := choice.drawn;
    }

    /** The first attempt of `SAW._evolution`, made before the loop: logged
        and stepped with no check for a trap. */
    method FirstAttempt(pick: Moves.Picker) returns (i: int, j: int, drawn: nat)
      requires Valid() && grid.Length0 >= 2
      requires cells == ZeroGrid(grid.Length0) && |x| == 1 && |y| == 1 && k == []
      requires InBounds(grid.Length0, Pos(x[0], y[0]))
      modifies this, grid
      ensures Valid() && nWalks == old(nWalks)
      ensures var s1 := Walks.FirstStep(grid.Length0, old(x[0]), old(y[0]), pick);
        cells == s1.grid && x == s1.xs && y == s1.ys && k == s1.ks && Pos(i, j) == s1.pos && drawn == s1.drawn
    {
      ghost var n := grid.Length0;
      var initial := Pos(x[0], y[0]);
      ghost var s0 := Walks.Init(n, initial.i, initial.j);
      Walks.InitWalk(n, initial.i, initial.j);
      Moves.FirstMoveExists(n, initial);
      var possibleWalks := LogMoves(initial.i, initial.j);
      i, j, drawn := Advance(initial.i, initial.j, possibleWalks, 0, pick, s0);
    }

    /** One pass of the loop of `SAW._evolution` from the walker state `s`:
        log the branching factor; with no legal move, drop the zero entry and
        report the collision; otherwise step. */
    method Attempt(i: int, j: int, steps: nat, drawn: nat, pick: Moves.Picker, ghost s: Walks.State)
      returns (i': int, j': int, steps': nat, drawn': nat, colide: bool)
      requires Valid() && Walks.Ready(grid.Length0, s)
      requires cells == s.grid && x == s.xs && y == s.ys && k == s.ks
      requires Pos(i, j) == s.pos && steps == s.steps && drawn == s.drawn
      modifies this, grid
      ensures Valid() && nWalks == old(nWalks)
      ensures colide <==> |Moves.CheckWalks(s.grid, grid.Length0, s.pos).dirs| == 0
      ensures var r := if colide then s else Walks.Step(grid.Length0, s, pick);
        && cells == r.grid && x == r.xs && y == r.ys && k == r.ks
        && Pos(i', j') == r.pos && steps' == r.steps && drawn' == r.drawn
    {
      var possibleWalks := LogMoves(i, j);
      if |possibleWalks| == 0 {
        colide := true;
        k := k[..|k| - 1];
        assert k == s.ks;
        i', j', steps', drawn' := i, j, steps, drawn;
        return;
      }
      colide := false;
      i', j', drawn' := Advance(i, j, possibleWalks, drawn, pick, s);
      steps' := steps + 1;
    }

    /** The loop of `SAW._evolution` from the walker state `st`: attempts
        until one finds no legal move. It ends in the state `Walks.Evolve`
        gives. */
    method GrowUntilTrapped(i: int, j: int, nSteps: nat, drawn: nat, pick: Moves.Picker,
                            ghost st: Walks.State)
      returns (steps: nat)
      requires Valid() && Walks.Ready(grid.Length0, st)
      requires cells == st.grid && x == st.xs && y == st.ys && k == st.ks
      requires Pos(i, j) == st.pos && nSteps == st.steps && drawn == st.drawn
      modifies this, grid
      ensures Valid() && nWalks == old(nWalks)
      ensures var r := Walks.Evolve(grid.Length0, st, pick);
        cells == r.grid && x == r.xs && y == r.ys && k == r.ks && steps == r.steps
    {
      ghost var n := grid.Length0;
      ghost var s := st;
      ghost var final := Walks.Evolve(n, st, pick);
      var i, j, drawn, colide := i, j, drawn, false;
      steps := nSteps;
      while !colide
        invariant Valid() && grid.Length0 == n && nWalks == old(nWalks)
        invariant cells == s.grid && x == s.xs && y == s.ys && k == s.ks
        invariant Pos(i, j) == s.pos && steps == s.steps && drawn == s.drawn
        invariant Walks.Ready(n, s)
        invariant colide ==> s == final
        invariant !colide ==> Walks.Evolve(n, s, pick) == final
        decreases ZeroCount(cells), !colide
      {
        i, j, steps, drawn, colide := Attempt(i, j, steps, drawn, pick, s);
        if colide {
          Walks.EvolveTrapped(n, s, pick);
        } else {
          Walks.EvolveStep(n, s, pick);
          s := Walks.Step(n, s, pick);
        }
      }
    }

    /** `SAW._evolution`: the first attempt is stepped unconditionally, then
        the loop runs until the walker is trapped. */
    method Evolution(pick: Moves.Picker) returns (nSteps: nat)
      requires Valid() && grid.Length0 >= 2
      requires cells == ZeroGrid(grid.Length0) && |x| == 1 && |y| == 1 && k == []
      requires InBounds(grid.Length0, Pos(x[0], y[0]))
      modifies this, grid
      ensures Valid() && nWalks == old(nWalks)
      ensures var r := Walks.Saw(grid.Length0, old(x[0]), old(y[0]), pick);
        cells == r.grid && x == r.xs && y == r.ys && k == r.ks && nSteps == r.steps
      ensures |x| == nSteps + 1 && |y| == nSteps + 1 && |k| > 0 && Probability.Positive(k)
    {
      ghost var n := grid.Length0;
      ghost var i0, j0 := x[0], y[0];
      var i, j, drawn := FirstAttempt(pick);
      ghost var s1 := Walks.FirstStep(n, i0, j0, pick);
      nSteps := GrowUntilTrapped(i, j, 1, drawn, pick, s1);
      Walks.SawShape(n, i0, j0, pick);
    }

    /** `SAW.number_of_walks`: the steps taken, one less than the trajectory length. */
    function NumberOfWalks(): (r: nat)
      reads this, grid
      requires Complete()
      ensures r + 1 == |x| && r + 1 == |y|
    {
      nWalks
    }

    /** `SAW.trial_probability`: the product of `1 / k` over the log, in (0, 1]. */
    function TrialProbability(): (r: real)
      reads this, grid
      requires Complete()
      ensures r == Probability.Product(k) && 0.0 < r <= 1.0
    {
      Probability.TrialProbability(k)
    }
  }

  /** A self-avoiding walk that may also stop at each attempt with a fixed
      probability, independently of being trapped. */
  class SAWEarly {
    const grid: array2<int>
    var k: seq<int>
    var x: seq<int>
    var y: seq<int>
    var nWalks: nat
    const terminateProbability: real
    /** The value the array holds. */
    ghost var cells: Grid

    ghost predicate Valid()
      reads this, grid
    {
      Mirrors(grid, cells)
    }

    /** The walk is complete: its accessors are defined. */
    ghost predicate Complete()
      reads this, grid
    {
      Valid() && |x| == nWalks + 1 && |y| == nWalks + 1 && |k| > 0 && Probability.Positive(k)
    }

    /** `SAWEarly.__init__`: stores the probability, then builds the walk as
        `SAW.__init__` does, with this class's evolution. The object holds
        exactly the walk `Walks.SawEarly` of the same inputs. */
    constructor (N: nat, pick: Moves.Picker, draws: Walks.Uniform,
                 initialX: int := 0, initialY: int := 0, terminateProbability: real := 0.1)
      requires N >= 2 && InBounds(N, Pos(initialX, initialY))
      ensures Complete() && fresh(grid) && grid.Length0 == N
      ensures this.terminateProbability == terminateProbability
      ensures var r := Walks.SawEarly(N, initialX, initialY, pick, draws, terminateProbability);
        cells == r.grid && x == r.xs && y == r.ys && k == r.ks && nWalks == r.steps
    {
      this.terminateProbability := terminateProbability;
      var matrix := NewGrid(N);
      grid := matrix;
      cells := ZeroGrid(N);
      k := [];
      x := [initialX];
      y := [initialY];
      nWalks := 0;
      new;
      nWalks := Evolution(pick, draws);
      Walks.SawEarlyShape(N, initialX, initialY, pick, draws, terminateProbability);
    }

    /** The inherited first half of an attempt: `_check_walks` at (i, j),
        with the number of legal moves appended to the log. */
    method LogMoves(i: int, j: int) returns (possibleWalks: seq<int>)
      requires Valid()
      modifies this
      ensures Valid() && cells == old(cells) && x == old(x) && y == old(y) && nWalks == old(nWalks)
      ensures possibleWalks == Moves.CheckWalks(cells, grid.Length0, Pos(i, j)).dirs
      ensures k == old(k) + [|possibleWalks|]
    {
      var possibleValues;
      possibleWalks, possibleValues := CheckWalks(grid, cells, i, j);
      k := k + [|possibleWalks|];
    }

    /** The inherited second half of an attempt that found a legal move:
        `_choose_uniformly`, `_walk` on the grid and the new position
        appended to the trajectory; with the preceding `LogMoves`, one
        `Walks.Step` from the state `s` the attempt started in. */
    method Advance(i: int, j: int, possibleWalks: seq<int>, drawn: nat, pick: Moves.Picker,
                   ghost s: Walks.State)
      returns (i': int, j': int, drawn': nat)
      requires Valid() && Walks.Placed(grid.Length0, s)
      requires s.grid == cells && s.pos == Pos(i, j) && s.xs == x && s.ys == y && s.drawn == drawn
      requires possibleWalks == Moves.CheckWalks(cells, grid.Length0, Pos(i, j)).dirs
      requires |possibleWalks| > 0 && k == s.ks + [|possibleWalks|]
      modifies this, grid
      ensures Valid() && k == old(k) && nWalks == old(nWalks)
      ensures var r := Walks.Step(grid.Length0, s, pick);
        cells == r.grid && x == r.xs && y == r.ys && k == r.ks && Pos(i', j') == r.pos && drawn' == r.drawn
    {
      var choice := Moves.ChooseUniformly(possibleWalks, pick, drawn);
      var next := Walk(grid, cells, i, j, choice.value);
      cells := Moves.Walk(cells, grid.Length0, Pos(i, j), choice.value).grid;
      i', j' := next.value.i, next.value.j;
      x := x + [i'];
      y := y + [j'];
      drawn' := choice.drawn;
    }

    /** The first attempt of `SAWEarly._evolution`: logged, then its stop
        draw is made, then it is stepped whatever the draw said. */
    method FirstAttempt(pick: Moves.Picker, draws: Walks.Uniform) returns (i: int, j: int, drawn: nat, colide: bool)
      requires Valid() && grid.Length0 >= 2
      requires cells == ZeroGrid(grid.Length0) && |x| == 1 && |y| == 1 && k == []
      requires InBounds(grid.Length0, Pos(x[0], y[0]))
      modifies this, grid
      ensures Valid() && nWalks == old(nWalks)
      ensures colide == Walks.Stops(draws, terminateProbability, 0)
      ensures var s1 := Walks.FirstStep(grid.Length0, old(x[0]), old(y[0]), pick);
        cells == s1.grid && x == s1.xs && y == s1.ys && k == s1.ks && Pos(i, j) == s1.pos && drawn == s1.drawn
    {
      ghost var n := grid.Length0;
      var initial := Pos(x[0], y[0]);
      ghost var s0 := Walks.Init(n, initial.i, initial.j);
      Walks.InitWalk(n, initial.i, initial.j);
      Moves.FirstMoveExists(n, initial);
      var possibleWalks := LogMoves(initial.i, initial.j);
      colide := false;
      if draws(0) < terminateProbability {
        colide := true;
      }
      i, j, drawn := Advance(initial.i, initial.j, possibleWalks, 0, pick, s0);
    }

    /** One pass of the loop of `SAWEarly._evolution` from the walker state
        `s`: log the factor and make the stop draw numbered by the steps
        taken so far (one draw per earlier attempt); a stop
        ends the walk, dropping the entry only when it is zero; otherwise a
        trap ends it with the zero entry dropped; otherwise step. */
    method Attempt(i: int, j: int, steps: nat, drawn: nat, pick: Moves.Picker,
                   draws: Walks.Uniform, ghost s: Walks.State)
      returns (i': int, j': int, steps': nat, drawn': nat, colide: bool)
      requires Valid() && Walks.Ready(grid.Length0, s)
      requires cells == s.grid && x == s.xs && y == s.ys && k == s.ks
      requires Pos(i, j) == s.pos && steps == s.steps && drawn == s.drawn
      modifies this, grid
      ensures Valid() && nWalks == old(nWalks)
      ensures var f := |Moves.CheckWalks(s.grid, grid.Length0, s.pos).dirs|;
        var stop := Walks.Stops(draws, terminateProbability, steps);
        && (colide <==> stop || f == 0)
        && var r := if stop then s.(ks := if f == 0 then s.ks else s.ks + [f])
                    else if f == 0 then s
                    else Walks.Step(grid.Length0, s, pick);
        && cells == r.grid && x == r.xs && y == r.ys && k == r.ks
        && Pos(i', j') == r.pos && steps' == r.steps && drawn' == r.drawn
    {
      var possibleWalks := LogMoves(i, j);
      i', j', steps', drawn' := i, j, steps, drawn;
      if draws(steps) < terminateProbability {
        colide := true;
        if |possibleWalks| == 0 {
          k := k[..|k| - 1];
          assert k == s.ks;
        }
        return;
      }
      if |possibleWalks| == 0 {
        colide := true;
        k := k[..|k| - 1];
        assert k == s.ks;
        return;
      }
      colide := false;
      i', j', drawn' := Advance(i, j, possibleWalks, drawn, pick, s);
      steps' := steps + 1;
    }

    /** The loop of `SAWEarly._evolution` from the walker state `st`:
        attempts, the `t`-th stop draw made by the attempt after `t` steps,
        until one stops or is trapped. It ends in the state
        `Walks.EvolveEarly` gives. */
    method GrowUntilStopped(i: int, j: int, nSteps: nat, drawn: nat, pick: Moves.Picker,
                            draws: Walks.Uniform, ghost st: Walks.State)
      returns (steps: nat)
      requires Valid() && Walks.Ready(grid.Length0, st)
      requires cells == st.grid && x == st.xs && y == st.ys && k == st.ks
      requires Pos(i, j) == st.pos && nSteps == st.steps && drawn == st.drawn
      modifies this, grid
      ensures Valid() && nWalks == old(nWalks)
      ensures var r := Walks.EvolveEarly(grid.Length0, st, pick, draws, terminateProbability);
        cells == r.grid && x == r.xs && y == r.ys && k == r.ks && steps == r.steps
    {
      ghost var n := grid.Length0;
      ghost var p := terminateProbability;
      ghost var s := st;
      ghost var final := Walks.EvolveEarly(n, st, pick, draws, p);
      var i, j, drawn, colide := i, j, drawn, false;
      steps := nSteps;
      while !colide
        invariant Valid() && grid.Length0 == n && nWalks == old(nWalks)
        invariant cells == s.grid && x == s.xs && y == s.ys && k == s.ks
        invariant Pos(i, j) == s.pos && steps == s.steps && drawn == s.drawn
        invariant Walks.Ready(n, s)
        invariant colide ==> s == final
        invariant !colide ==> Walks.EvolveEarly(n, s, pick, draws, p) == final
        decreases ZeroCount(cells), !colide
      {
        i, j, steps, drawn, colide := Attempt(i, j, steps, drawn, pick, draws, s);
        if Walks.Stops(draws, p, s.steps) {
          Walks.EvolveEarlyStopped(n, s, pick, draws, p);
          s := s.(ks := k);
        } else if colide {
          Walks.EvolveEarlyTrapped(n, s, pick, draws, p);
        } else {
          Walks.EvolveEarlyStep(n, s, pick, draws, p);
          s := Walks.Step(n, s, pick);
        }
      }
    }

    /** `SAWEarly._evolution`: as `SAW._evolution`, but each attempt also
        makes a stop draw. The first attempt steps whatever its draw says;
        the loop runs only when that draw said continue. */
    method Evolution(pick: Moves.Picker, draws: Walks.Uniform) returns (nSteps: nat)
      requires Valid() && grid.Length0 >= 2
      requires cells == ZeroGrid(grid.Length0) && |x| == 1 && |y| == 1 && k == []
      requires InBounds(grid.Length0, Pos(x[0], y[0]))
      modifies this, grid
      ensures Valid() && nWalks == old(nWalks)
      ensures var r := Walks.SawEarly(grid.Length0, old(x[0]), old(y[0]), pick, draws, terminateProbability);
        cells == r.grid && x == r.xs && y == r.ys && k == r.ks && nSteps == r.steps
    {
      ghost var n := grid.Length0;
      ghost var i0, j0 := x[0], y[0];
      var i, j, drawn, colide := FirstAttempt(pick, draws);
      ghost var s1 := Walks.FirstStep(n, i0, j0, pick);
      nSteps := 1;
      if !colide {
        nSteps := GrowUntilStopped(i, j, nSteps, drawn, pick, draws, s1);
      }
    }

    /** `SAW.number_of_walks`, inherited: the steps taken, one less than the
        trajectory length. */
    function NumberOfWalks(): (r: nat)
      reads this, grid
      requires Complete()
      ensures r + 1 == |x| && r + 1 == |y|
    {
      nWalks
    }

    /** `SAW.trial_probability`, inherited: the product of `1 / k` over the
        log, in (0, 1]. */
    function TrialProbability(): (r: real)
      reads this, grid
      requires Complete()
      ensures r == Probability.Product(k) && 0.0 < r <= 1.0
    {
      Probability.TrialProbability(k)
    }
  }
}
