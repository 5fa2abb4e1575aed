# Self-avoiding walk engine, modelled in Dafny

This project models the self-avoiding walk engine of `Models.py`.

**`SAW`** grows a walk on an N x N lattice:
- It starts from a zero grid and a start point.
- At every attempt it lists the legal neighbour moves (left = 1, right = 2, up = 3, down = 4) and logs how many there were (the branching factor).
- It picks one move uniformly and stamps the departure cell with the move's direction code.
- It stops when no move is legal, dropping the zero entry from the log.
- The trial probability is the product of `1 / k` over the log.

**`SAWEarly`** also makes a stop draw at every attempt.
- A stop ends the walk at once. The log entry is kept unless it is zero.
- The first attempt is stepped whatever its stop draw says.

The project has five modules:
- `Lattice` (`lattice.dfy`): the grid as a value (`seq<seq<int>>`), cell update, and the count of unvisited cells. That count is the termination measure.
- `Moves` (`moves.dfy`): `_check_walks`, `_walk` and `_choose_uniformly` as pure functions.
- `Probability` (`probability.dfy`): the cumulative product and `trial_probability` in exact reals.
- `Walks` (`walks.dfy`): both evolutions as recursive functions over a walker state, with the walk properties proved as lemmas.
- `Models` (`models.dfy`): the two classes.
  - The grid is an `array2<int>` updated in place.
  - The trajectory and the log are `seq` fields that the methods reassign.
  - `CheckWalks` is a `while` loop over the four directions.
  - Each method is proved to produce exactly the state given by the functions in `Walks`. The lemmas about those functions therefore hold for the objects.

**Randomness** is modelled by two oracles passed as parameters.
- `Moves.Picker`: `pick(c, n)` is the result of the `c`-th `randint(0, high=n)`, always below `n`.
- `Walks.Uniform`: `draws(t)` is the `t`-th `uniform()`, in [0, 1). Inside the loop, the stop draw of the attempt made after `t` steps is `draws(t)`.

Coordinates follow the source: the list `x` holds rows `i` and the list `y` holds columns `j`.

## Model

| member | source | states |
|---|---|---|
| Lattice.ZeroGrid | Models.py:117 | the fresh grid is N by N with every cell 0 |
| Lattice.ZeroGridCount | Models.py:117 | a fresh grid has N * N unvisited cells |
| Lattice.Stamp | Models.py:167 | writing one cell changes that cell to the code and leaves every other cell as it was |
| Lattice.StampDecreasesZeroCount | Models.py:164-189 | stamping an unvisited cell with a non-zero code leaves exactly one fewer unvisited cell (the measure that ends the loop) |
| Lattice.ZeroCountPositive | Models.py:57-79 | a grid with an unvisited cell has a positive count of unvisited cells (bounds the steps by N * N - 1) |
| Models.NewGrid | Models.py:102-117 | `_grid` allocates a fresh N x N array holding the zero grid |
| Moves.TargetIsNeighbour | Models.py:208-211 | each of the four direction codes leads to a neighbour at Manhattan distance 1, and different codes lead to different neighbours |
| Moves.Filter | Models.py:214-225 | trying the keys 1..hi in order keeps parallel lists of at most hi directions, strictly increasing, each paired with its own target |
| Moves.FilterMembers | Models.py:214-225 | direction d is kept exactly when d <= hi and its target is inside the lattice and holds 0 |
| Moves.CheckWalks | Models.py:191-228 | `_check_walks`: direction d is listed exactly when its target is inside [0, N) x [0, N) and unvisited; the directions increase, and each target is the neighbour that direction leads to |
| Models.CheckWalks | Models.py:208-228 | the loop over the four directions on the array returns exactly `Moves.CheckWalks` of the grid it holds, and does not modify the array |
| Moves.FirstMoveExists | Models.py:44-54 | on a fresh lattice with N >= 2 some move from the start is legal, so the unchecked first choice is defined |
| Moves.Walk | Models.py:138-189 | `_walk`: for a code in 1..4 the departure cell is set to the code, every other cell is unchanged, and the neighbour for the code is returned; a row or column equal to N (the pair `(None, None)`), or another code (a bare `None`), returns `None` and changes nothing |
| Models.Walk | Models.py:138-189 | the same on the array, in place |
| Moves.ChooseUniformly | Models.py:119-136 | the result is an element of the non-empty list; a list of one element gives that element with no draw; otherwise exactly one draw is used and its index is taken |
| Probability.CumProd | Models.py:99 | the cumulative product has one entry per log entry |
| Probability.CumProdIsPrefixProduct | Models.py:99 | entry t of the cumulative product is the product of `1 / k` over the first t + 1 log entries |
| Probability.ProductSnoc | Models.py:99 | appending a factor multiplies the product by its reciprocal |
| Probability.ProductBounds | Models.py:95-100 | a product of reciprocals of positive integers lies in (0, 1] |
| Probability.TrialProbability | Models.py:95-100 | the last cumulative entry equals the product of `1 / k` over the whole log, in (0, 1] |
| Probability.TrialProbabilityExample | Models.py:95-100 | the log [3, 2, 1] gives 1/6 |
| Walks.FactorsAppend | Models.py:47 | appending a factor in 1..4 keeps every logged factor in 1..4 |
| Walks.InitWalk | Models.py:12-21 | the state before the evolution (fresh grid, trajectory of the start point, empty log) satisfies the walk invariant |
| Walks.LogKeepsWalk | Models.py:300-304 | changing only the log keeps the walk invariant |
| Walks.MovePoints | Models.py:49-54 | a move keeps the earlier trajectory points and appends the target |
| Walks.MoveKeepsInside | Models.py:49-54 | a move to a legal target keeps every trajectory point inside the lattice |
| Walks.MoveKeepsDistinct | Models.py:49-54 | a move to a legal (unvisited) target keeps all trajectory points distinct |
| Walks.MoveKeepsDeparted | Models.py:49-54 | after a move every departed cell holds the code of the direction to the next point, at distance 1 |
| Walks.MoveKeepsWalk | Models.py:49-54 | a move keeps the whole walk invariant, with one fewer unvisited cell |
| Walks.StepMoves | Models.py:72-79 | an attempt with legal moves steps along a listed direction to its listed target and logs the branching factor |
| Walks.StepReady | Models.py:72-79 | after a step the new cell is unvisited and one fewer cell is unvisited |
| Walks.StepKeepsWalk | Models.py:57-79 | one attempt keeps the walk invariant, logs the factor, appends the new point and keeps the start |
| Walks.EvolveTrapped | Models.py:64-70 | an attempt with no legal move ends the walk with the log as it was |
| Walks.EvolveStep | Models.py:72-79 | an attempt with a legal move steps and the loop goes on from the new state |
| Moves.Target | Models.py:208-211 | definition: the neighbour for each code of the dictionary literal, (i, j-1), (i, j+1), (i-1, j), (i+1, j) for 1 to 4 |
| Walks.Init | Models.py:12-21 | definition: the state `__init__` builds before evolving: the zero grid, the start point as the whole trajectory, an empty log, no steps, no draws |
| Walks.Step | Models.py:58-79 | definition of one loop pass that finds a legal move: log the count, choose among the legal directions, stamp the departure cell, move to the neighbour, append it to `x` and `y`, one step more |
| Walks.Evolve | Models.py:57-79 | definition of the `SAW` loop: log the count; with zero moves pop the entry and stop; otherwise step and recurse (ends because the unvisited cells decrease) |
| Walks.Saw | Models.py:23-85 | definition of `SAW._evolution`: the unchecked first step, then `Evolve` |
| Walks.EvolveEarly | Models.py:292-319 | definition of the `SAWEarly` loop: log the count; a stop draw ends the walk, popping the entry only when it is zero; otherwise zero moves pop and stop; otherwise step and recurse |
| Walks.SawEarly | Models.py:254-325 | definition of `SAWEarly._evolution`: stop draw 0 is made, the first step is taken whatever it says, and `EvolveEarly` runs only when it said continue |
| Walks.FirstStep | Models.py:43-54 | the first attempt, stepped unchecked, leaves the walker on an unvisited cell |
| Walks.FirstStepWalk | Models.py:43-54 | after the first attempt the walk invariant holds, with one step, one log entry and the start point first |
| Walks.EvolveProperties | Models.py:57-85 | the loop keeps the walk invariant and one log entry per step, and ends only when trapped |
| Walks.SawProperties | Models.py:23-85 | a completed `SAW` walk starts at the start point, takes between 1 and N * N - 1 steps, has distinct in-lattice points with consecutive ones adjacent and departed cells stamped, a 0 final cell, `len(k) == n_steps` with every entry in 1..4, and is trapped at its end |
| Walks.SawShape | Models.py:88-100 | a completed `SAW` walk has `n_steps + 1` points in each coordinate list and a non-empty log of positive factors |
| Walks.EvolveEarlyStopped | Models.py:300-304 | a stop draw ends the walk where it is, dropping the log entry only when it is zero |
| Walks.EvolveEarlyTrapped | Models.py:306-312 | a continue draw with no legal move ends the walk with the zero entry dropped |
| Walks.EvolveEarlyStep | Models.py:314-319 | a continue draw with a legal move steps, one step more, and the loop goes on |
| Walks.EvolveEarlyEnds | Models.py:300-312 | an attempt that is trapped or draws stop ends the walk with no step, and the log has one entry per step plus the kept entry of a stop with legal moves |
| Walks.EvolveEarlyProperties | Models.py:292-325 | the early loop keeps the walk invariant, takes no step past a stop draw, and ends by a stop or a trap with `len(k)` equal to `n_steps + 1` exactly when a stop draw found a legal move, and to `n_steps` otherwise |
| Walks.SawEarlyProperties | Models.py:254-325 | a completed `SAWEarly` walk takes at least one step even when the first draw says stop (then exactly one step and one entry); otherwise it ends as the early loop says, with no stop draw before its end |
| Walks.SawEarlyShape | Models.py:244-251 | a completed `SAWEarly` walk has `n_steps + 1` points in each list and a non-empty log of positive factors |
| Walks.EvolveEarlyNeverStopping | Models.py:292-319 | with no stop draw ever below p, the early loop is the `SAW` loop |
| Walks.SawEarlyNeverStopping | Models.py:254-325 | with no stop draw ever below p, `SAWEarly` produces exactly the grid, trajectory, log and step count of `SAW` |
| Walks.SawEarlyProbabilityZero | Models.py:281 | `terminate_probability` 0 gives exactly the `SAW` walk |
| Walks.SawEarlyProbabilityOne | Models.py:281-289 | `terminate_probability` 1 still takes the first step: one step, two points per list, one log entry |
| Models.SAW.constructor | Models.py:12-21 | `__init__` leaves the object holding exactly the walk `Walks.Saw` of its inputs, with `n_walks` its step count |
| Models.SAW.LogMoves | Models.py:58-61 | `_check_walks` at the current point, with its count appended to `k` and nothing else changed |
| Models.SAW.Advance | Models.py:72-77 | `_choose_uniformly`, `_walk` on the array and the appends to `x` and `y` complete one `Walks.Step` |
| Models.SAW.FirstAttempt | Models.py:43-54 | the unchecked first attempt leaves the fields equal to `Walks.FirstStep` |
| Models.SAW.Attempt | Models.py:58-79 | one loop pass: with no legal move the zero entry is popped and the collision reported, with the state otherwise unchanged; else one step |
| Models.SAW.GrowUntilTrapped | Models.py:57-79 | the `while not colide` loop ends in the state `Walks.Evolve` gives |
| Models.SAW.Evolution | Models.py:23-85 | `_evolution` leaves the fields equal to `Walks.Saw` and returns its step count |
| Models.SAW.NumberOfWalks | Models.py:88-92 | `number_of_walks` is one less than the length of each coordinate list |
| Models.SAW.TrialProbability | Models.py:95-100 | `trial_probability` is the product of `1 / k` over the log, in (0, 1] |
| Models.SAWEarly.constructor | Models.py:244-251 | `__init__` stores `terminate_probability` and leaves the object holding exactly the walk `Walks.SawEarly` of its inputs |
| Models.SAWEarly.LogMoves | Models.py:293-296 | `_check_walks` at the current point, with its count appended to `k` |
| Models.SAWEarly.Advance | Models.py:314-317 | the choice, the walk on the array and the appends complete one `Walks.Step` |
| Models.SAWEarly.FirstAttempt | Models.py:270-289 | the first attempt makes stop draw 0 and steps whatever it says; the fields equal `Walks.FirstStep` |
| Models.SAWEarly.Attempt | Models.py:293-319 | one loop pass: a stop draw ends with the entry kept unless zero; a trap ends with the zero entry popped; otherwise one step |
| Models.SAWEarly.GrowUntilStopped | Models.py:292-319 | the loop ends in the state `Walks.EvolveEarly` gives |
| Models.SAWEarly.Evolution | Models.py:254-325 | `_evolution` leaves the fields equal to `Walks.SawEarly` and returns its step count |
| Models.SAWEarly.NumberOfWalks | Models.py:88-92 | `number_of_walks`, inherited: one less than each coordinate list's length |
| Models.SAWEarly.TrialProbability | Models.py:95-100 | `trial_probability`, inherited: the product of `1 / k` over the log, in (0, 1] |

## Left out

- Plotting (`plt.imshow`, `plt.show`) and the `plot` and `debug` flags: display and console output only. The `print` calls of `_walk` are dropped and their control flow is kept.
- numpy's random generator: the draws are the oracles `pick` and `draws`. In the source, `randint` and `uniform` share one numpy stream. The model gives each its own index, which fixes the same sequence of values once the shared stream is split by caller.
- Probability distributions: the model shows nothing about the uniformity of the choice or the distribution of walks. Uniformity is only the fact that the index comes from `randint(0, high=n)`.
- Floating point: the cumulative product is computed in exact reals, so rounding is not modelled. The grid `np.zeros((N,N))` is a float64 array holding the codes 1.0 to 4.0. It is modelled as `int`, which loses nothing, because the codes are exact and `!= 0` compares the same way.
- numpy wrap-around of negative indices and the caught `IndexError` in `_check_walks`: only their net effect is modelled, namely that out-of-lattice targets are not legal.
- Models.Walk / Moves.Walk: they require `0 <= i, j <= N`. For a negative row or column numpy would wrap around, but every caller passes a point inside the lattice.
- N < 2 or a start point outside the lattice: the source has no guard for these.
  - With N = 1 (or 0) the first `_check_walks` finds no move and `_choose_uniformly([])` fails on `x[0]` at Models.py:136.
  - A start outside the lattice does not always fail. Take N >= 2 and the start (-1, j) with 0 <= j < N:
    - `_check_walks` rejects directions 1 to 3, because the row is negative, and keeps 4, leading to (0, j).
    - `_walk` passes its `== len(matrix)` test, and `matrix[-1, j] = 4` stamps cell (N - 1, j), which the walker never visited.
    - The walk then runs to a trap with no error, with `x[0]` outside the lattice.
  - The start (i, -1) behaves the same way through direction 2, stamping (i, N - 1).
  - The constructors and evolutions require N >= 2 and a start inside the lattice (`InBounds`). This excludes the crashing inputs, and it also deliberately excludes these completing inputs, whose wrap-around stamps the model does not represent.
- Inheritance: `SAWEarly` is its own class. The inherited methods are repeated in it, and its `_evolution` override is a separate method.
- The second return value of `_check_walks` (the targets) is listed by `Moves.CheckWalks` and `Models.CheckWalks`, but the classes discard it, as the source does.
- Loop shape: each class's `while not colide` loop is modelled as a loop over an `Attempt` method that performs one pass of the source's loop body. The body's `break` becomes a return from `Attempt` with `colide` set. The state left behind is the same.
- Two behaviours of the code that a reader might not expect:
  - A lattice with N = 1 fails on its first attempt; it does not end with 0 steps.
  - `terminate_probability = 1.0` takes one step (`Walks.SawEarlyProbabilityOne`), because the first step is taken whatever the first draw says.
- No construction argument is validated by the code; out-of-range inputs are excluded by preconditions only.
- Walks.SawEarlyNeverStopping / Walks.SawEarlyProbabilityZero: the equality with `SAW` holds for equal move choices, that is, the same `pick` oracle for both runs. It is not the equality of two runs under one numpy seed. With a shared generator, the `uniform()` calls of `SAWEarly` advance the stream between its `randint` calls. Under a seed the two walks are equal in distribution only.
- Constructor defaults: `initial_x = 0`, `initial_y = 0` and `terminate_probability = 0.1` are default-valued parameters of `Models.SAW.constructor` and `Models.SAWEarly.constructor`. The oracles `pick` and `draws` have no default and so come before them in the parameter list.
- Kept entries: when a stop draw inside the `SAWEarly` loop finds legal moves, the log keeps an entry for a step that was not taken (`len(k) == n_steps + 1`). `trial_probability` then includes that factor. The model reproduces this as written.
