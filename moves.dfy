/** Move enumeration, step application and uniform choice, as pure functions
    of the lattice value (`SAW._check_walks`, `SAW._walk`, `SAW._choose_uniformly`). */
module Moves {
  import opened Lattice

  /** The neighbour reached from `p` by direction `d`:
      1 = left (column - 1), 2 = right (column + 1), 3 = up (row - 1), 4 = down (row + 1). */
  function Target(p: Pos, d: int): Pos
    requires 1 <= d <= 4
  {
    if d == 1 then Pos(p.i, p.j - 1)
    else if d == 2 then Pos(p.i, p.j + 1)
    else if d == 3 then Pos(p.i - 1, p.j)
    else Pos(p.i + 1, p.j)
  }

  function Abs(v: int): nat { if v < 0 then -v else v }

  /** Manhattan distance. */
  function Distance(p: Pos, q: Pos): nat {
    Abs(p.i - q.i) + Abs(p.j - q.j)
  }

  /** Every direction leads to a lattice neighbour, and different
      directions lead to different neighbours. */
  lemma TargetIsNeighbour(p: Pos, d: int, e: int)
    requires 1 <= d <= 4 && 1 <= e <= 4
    ensures Distance(p, Target(p, d)) == 1
    ensures Target(p, d) == Target(p, e) <==> d == e
  {
  }

  /** A target is legal when it lies inside [0, n) x [0, n) and its cell is unvisited. */
  predicate Free(g: Grid, n: nat, q: Pos)
    requires IsGrid(g, n)
  {
    InBounds(n, q) && Cell(g, q) == 0
  }

  /** The legal moves: direction codes and their targets, as two parallel lists. */
  datatype Moves = Moves(dirs: seq<int>, targets: seq<Pos>)

  /** The directions among 1..hi whose target is free, tried in increasing
      order, as `SAW._check_walks` tries the keys 1, 2, 3, 4 of its dictionary. */
  function Filter(g: Grid, n: nat, p: Pos, hi: int): (m: Moves)
    requires IsGrid(g, n) && hi <= 4
    ensures |m.dirs| == |m.targets| <= if hi < 0 then 0 else hi
    ensures forall t :: 0 <= t < |m.dirs| ==> 1 <= m.dirs[t] <= hi && m.targets[t] == Target(p, m.dirs[t])
    ensures forall a, b :: 0 <= a < b < |m.dirs| ==> m.dirs[a] < m.dirs[b]
    decreases hi
  {
    if hi <= 0 then Moves([], [])
    else
      var m := Filter(g, n, p, hi - 1);
      var q := Target(p, hi);
      if Free(g, n, q) then
        var r := Moves(m.dirs + [hi], m.targets + [q]);
        assert forall t :: 0 <= t < |m.dirs| ==> r.dirs[t] == m.dirs[t] && r.targets[t] == m.targets[t];
        r
      else m
  }

  /** Direction `d` is kept by `Filter` exactly when it is at most `hi` and
      its target is free. */
  lemma {:induction false} FilterMembers(g: Grid, n: nat, p: Pos, hi: int)
    requires IsGrid(g, n) && hi <= 4
    ensures forall d :: 1 <= d <= 4 ==> (d in Filter(g, n, p, hi).dirs <==> d <= hi && Free(g, n, Target(p, d)))
    decreases hi
  {
    if hi > 0 {
      FilterMembers(g, n, p, hi - 1);
      var m := Filter(g, n, p, hi - 1);
      var r := Filter(g, n, p, hi);
      assert hi !in m.dirs;
      forall d | 1 <= d <= 4
        ensures d in r.dirs <==> d <= hi && Free(g, n, Target(p, d))
      {
        if Free(g, n, Target(p, hi)) {
          assert r.dirs == m.dirs + [hi];
          assert d in r.dirs <==> d in m.dirs || d == hi;
        } else {
          assert r == m;
        }
      }
    }
  }

  /** `SAW._check_walks`: the legal moves from `p`. Direction `d` is listed
      exactly when its target is inside the lattice and unvisited; the
      directions come in increasing order and each target is the unit
      neighbour for its direction. */
  function CheckWalks(g: Grid, n: nat, p: Pos): (m: Moves)
    requires IsGrid(g, n)
    ensures |m.dirs| == |m.targets| <= 4
    ensures forall t :: 0 <= t < |m.dirs| ==> 1 <= m.dirs[t] <= 4 && m.targets[t] == Target(p, m.dirs[t])
    ensures forall a, b :: 0 <= a < b < |m.dirs| ==> m.dirs[a] < m.dirs[b]
    ensures forall d :: 1 <= d <= 4 ==> (d in m.dirs <==> Free(g, n, Target(p, d)))
  {
    FilterMembers(g, n, p, 4);
    Filter(g, n, p, 4)
  }

  /** From any cell of a fresh lattice with at least two rows some move is legal. */
  lemma FirstMoveExists(n: nat, p: Pos)
    requires n >= 2 && InBounds(n, p)
    ensures |CheckWalks(ZeroGrid(n), n, p).dirs| > 0
  {
    var g := ZeroGrid(n);
    var m := CheckWalks(g, n, p);
    if p.j > 0 {
      assert Free(g, n, Target(p, 1));
      assert 1 in m.dirs;
    } else {
      assert Free(g, n, Target(p, 2));
      assert 2 in m.dirs;
    }
  }

  /** The outcome of `SAW._walk`: the grid afterwards and the new position.
      `None` stands for both of the source's non-positions: the pair
      `(None, None)` of the row-or-column-equal-to-`n` branch, and the bare
      `None` an unknown code falls through to (which a caller's `i, j = ...`
      could not unpack). Neither is reachable from the evolution loops. */
  datatype Walked = Walked(grid: Grid, to: Option<Pos>)

  /** `SAW._walk`: stamps the departure cell `p` with `d` and returns the
      neighbour for `d`. A row or column equal to `n` yields `None` and no
      change, as does a code outside 1..4. No bounds check is made on the
      returned neighbour. */
  function Walk(g: Grid, n: nat, p: Pos, d: int): (w: Walked)
    requires IsGrid(g, n) && 0 <= p.i <= n && 0 <= p.j <= n
    ensures w.to.None? <==> p.i == n || p.j == n || !(1 <= d <= 4)
    ensures w.to.None? ==> w.grid == g
    ensures w.to.Some? ==> w.to.value == Target(p, d) && w.grid == Stamp(g, p, d) && IsGrid(w.grid, n)
    ensures w.to.Some? ==> forall a, b :: 0 <= a < n && 0 <= b < n ==>
      w.grid[a][b] == if a == p.i && b == p.j then d else g[a][b]
  {
    if p.i == n || p.j == n then Walked(g, None)
    else if d == 1 then Walked(Stamp(g, p, d), Some(Pos(p.i, p.j - 1)))
    else if d == 2 then Walked(Stamp(g, p, d), Some(Pos(p.i, p.j + 1)))
    else if d == 3 then Walked(Stamp(g, p, d), Some(Pos(p.i - 1, p.j)))
    else if d == 4 then Walked(Stamp(g, p, d), Some(Pos(p.i + 1, p.j)))
    else Walked(g, None)
  }

  /** The move-selection oracle: `pick(c, n)` is the value of the `c`-th call
      of `randint(0, high=n)`, always below `n`. */
  type Picker = f: (nat, nat) -> nat | forall c: nat, n: nat :: 1 < n ==> f(c, n) < n
    witness (c: nat, n: nat) => 0

  /** A chosen candidate and the number of oracle draws consumed so far. */
  datatype Choice<T> = Choice(value: T, drawn: nat)

  /** `SAW._choose_uniformly`: one element of a non-empty list; a list of one
      element gives that element without consuming a draw. */
  function ChooseUniformly<T>(x: seq<T>, pick: Picker, drawn: nat): (r: Choice<T>)
    requires |x| > 0
    ensures r.value in x
    ensures |x| == 1 ==> r == Choice(x[0], drawn)
    ensures |x| > 1 ==> r.drawn == drawn + 1 && r.value == x[pick(drawn, |x|)]
  {
    var n := |x|;
    var index := if n > 1 then pick(drawn, n) else 0;
    Choice(x[index], if n > 1 then drawn + 1 else drawn)
  }
}
