# Value iteration on a 20 x 20 grid world

A Dafny model of the solver in `main.c`: a discounted Markov decision process
on a grid of COLS x ROWS cells (20 x 20). Each cell has a kind (Open, Goal,
Hole, Obstruction), a value and a chosen action. Actions 0..7 are the eight
compass directions, clockwise from north. An intended action is realised as
itself with probability `probability`. It is realised as each of its two
45-degree neighbours with probability (1 - probability) / 2.

The model has four modules.

- `GridModel` (`grid.dfy`) covers cells, the row-major layout of
  `Cell grid[COLS][ROWS]`, the bounds check and the kind cycle of
  ChangeCellType. It also covers the GridInit fill loop and obstacle
  placement on a supplied sequence of drawn positions.
- `TransitionModel` (`transition.dfy`) covers the realised action, the
  compass table, target resolution and its rewards, and the backup
  `CalculateValue`. It also defines the greedy action: the first action
  whose backup is largest.
- `ValueIteration` (`valueiteration.dfy`) states what the solver computes,
  as functions on grid values:
  - one in-place sweep over the Open cells in raster order (x outer,
    y inner), which is Gauss-Seidel: later cells read values written
    earlier in the same sweep;
  - the largest change a sweep makes;
  - the sweep loop with its `theta` test and iteration cap;
  - policy extraction.
- `Solver` (`solver.dfy`) holds the `Map` class. Its fields are the
  parameters and the grid array. The C functions `MapInit`, `GridInit`,
  `ChangeCellType`, `ValueIteration`, `ComputeValueFunction` and
  `ExtractPolicy` are methods with the same loops. Some loop bodies are
  split out as helper methods:
  - `FillGrid` is the fill loop at the start of `GridInit`;
  - `SweepOnce` is the nested x/y loops of one sweep of
    `ComputeValueFunction`, and `VisitCell` is their per-cell body;
  - `ChooseAction` is the per-cell body of `ExtractPolicy`;
  - `Greedy` is the loop over the eight actions, which C writes out twice
    (main.c:314-323 and main.c:370-380).
  The constructor stands for `Map map; MapInit(&map)` in `main`. Each
  method's postcondition ties the new array contents to the functions
  above.

Values, `theta`, `probability` and `gamma` are `real`, which abstracts the
C `float`. Rewards are `int`, as `new_reward` is in the C code.

## Model

| member | source | states |
|---|---|---|
| GridModel.IdxBijection | main.c:34 | cell (x, y) of the two-dimensional array sits at a row-major index from which x and y are recovered |
| GridModel.NextKind | main.c:215-236 | an edit moves the kind one step round the enum order OPEN, GOAL, HOLE, OBSTRUCTION, wrapping to OPEN |
| GridModel.Cycled | main.c:215-236 | an edit keeps x, y and action and advances the kind; GOAL gets 100, HOLE gets -100, OBSTRUCTION gets 0, and a cell turned back to OPEN keeps its value |
| GridModel.CycleFourTimes | main.c:215-236 | four edits restore kind, position and action; the value is then the fixed value of that kind (0 for OPEN) |
| GridModel.FreshGrid | main.c:246-259 | every position (x, y) holds the cell (x, y, OPEN, 0, 8) |
| GridModel.PlacementEffect | main.c:261-273 | placement turns exactly (requested - remaining) OPEN cells into obstructions and changes nothing else; it stops short only when every drawn cell is no longer OPEN |
| GridModel.PlaceObstacles | main.c:261-273 | the number still to place never grows and never drops below 0; nothing happens when none is requested; PlacementEffect and InitialGrid state the rest |
| GridModel.InitialGrid | main.c:246-273 | after GridInit every cell holds its own position, value 0 and action 8, and is OPEN or OBSTRUCTION; 40 obstructions are placed unless the draws run out first |
| TransitionModel.DiagonalReward | main.c:454-459 | the diagonal reward is 1.4 times the movement penalty truncated toward zero: within one unit of it and never larger in magnitude |
| TransitionModel.DefaultDiagonalReward | main.c:282 | with the default movement penalty -10 a diagonal move pays -14 |
| TransitionModel.Realised | main.c:407-416 | a slip of -1, 0 or +1 realises action (action + i) mod 8, always in [0, 8) |
| TransitionModel.StepX | main.c:418-429 | the column change is in {-1, 0, 1}; it is 0 exactly for north and south and +1 exactly for actions 1 to 3 |
| TransitionModel.StepY | main.c:431-442 | the row change is in {-1, 0, 1}; it is 0 exactly for east and west and +1 exactly for actions 3 to 5 |
| TransitionModel.CompassTable | main.c:418-442 | the branch chains give the compass table N, NE, E, SE, S, SW, W, NW; deltas are in {-1, 0, 1}, never both 0, and both are non-zero exactly for odd actions |
| TransitionModel.Resolve | main.c:444-462 | the cell read for the backup is always on the grid; from a cell that is not an obstruction it is never an obstruction |
| TransitionModel.ResolveTarget | main.c:444-462 | the agent stays put exactly when the moved-to position is off the grid or an obstruction, and otherwise lands on that position |
| TransitionModel.ResolveReward | main.c:446-461 | an obstruction pays exactly the collision penalty; otherwise the movement penalty is paid, in its diagonal form exactly for diagonal actions |
| TransitionModel.BackupIsAverage | main.c:387-469 | with probability in [0, 1] the backup lies between the smallest and the largest of the three realisations' returns |
| TransitionModel.DeterministicBackup | main.c:396-405 | with probability 1 the backup is the return of the intended action alone |
| TransitionModel.BackupReadsKindsAndValues | main.c:444-464 | the backup depends only on the kinds and values of cells, never on actions |
| TransitionModel.BestAction | main.c:370-380 | the greedy action is the first action whose backup is largest: none is larger and every earlier one is strictly smaller |
| TransitionModel.BestValueIsMax | main.c:312-325 | the stored maximum is at least every one of the eight backups and equal to one of them |
| ValueIteration.SweepGaussSeidel | main.c:306-338 | an OPEN cell's new value is its best backup on the grid whose earlier cells already hold this sweep's values and whose later cells still hold the previous ones |
| ValueIteration.SweepFrame | main.c:306-338 | a sweep changes only values, and only those of OPEN cells |
| ValueIteration.SweepDeltaIsMaxChange | main.c:305-330 | a sweep's delta is non-negative, bounds every OPEN cell's change and is attained by one of them, or is 0 |
| ValueIteration.Visit | main.c:310-325 | visiting a cell changes no other cell; SweepGaussSeidel states what the visited cell receives |
| ValueIteration.VisitDelta | main.c:327-330 | the running delta never decreases, and a cell that is not OPEN leaves it as it was |
| ValueIteration.Sweep | main.c:306-340 | one sweep keeps the grid size; SweepGaussSeidel, SweepFrame and SweepDeltaIsMaxChange state what it computes |
| ValueIteration.SweepDelta | main.c:305-330 | a sweep's delta is never negative; SweepDeltaIsMaxChange states that it is the largest change |
| ValueIteration.SolveStopsAtFirstExit | main.c:302-352 | the loop stops after the first sweep at which delta < theta or the counter exceeds the cap, and yields the grid after exactly that many sweeps |
| ValueIteration.SolveSweepCount | main.c:300-352 | at least one sweep runs; at most max_iterations + 1 run when max_iterations >= 0; exactly one runs when it is <= 0; stopping before the cap means the last delta was below theta |
| ValueIteration.SolveFrame | main.c:302-352 | the whole loop changes only values, and only those of OPEN cells |
| ValueIteration.Iterate | main.c:302-352 | with k sweeps already run the loop runs at least one more; SolveStopsAtFirstExit states where it stops |
| ValueIteration.Solve | main.c:293-353 | the loop runs at least one sweep; SolveStopsAtFirstExit, SolveSweepCount and SolveFrame state the rest |
| ValueIteration.Policy | main.c:362-384 | extraction changes only the action field, and leaves non-OPEN cells unchanged |
| ValueIteration.PolicyChoosesFirstArgMax | main.c:370-381 | every OPEN cell's extracted action is the first action whose backup is largest |
| ValueIteration.PolicyPrefixIsPolicy | main.c:362-384 | writing actions one cell at a time in raster order gives the policy of the starting grid, because actions never feed into backups |
| ValueIteration.PolicyIdempotent | main.c:355-385 | extracting the policy twice gives the same grid as extracting it once |
| ValueIteration.Choose | main.c:366-382 | extraction at one cell changes no other cell; PolicyPrefixIsPolicy states that these visits in raster order give Policy |
| ValueIteration.ValueIterationResult | main.c:287-291 | the sweep loop then extraction keeps every cell's position and kind, and leaves cells that are not OPEN as they were |
| Solver.Map.constructor | main.c:276-285 | a new map carries the default parameters and the grid GridInit builds from the draws |
| Solver.Map.MapInit | main.c:276-285 | sets theta 1e-6, probability 0.8, gamma 1, cap 100, movement penalty -10 and collision penalty -50, then runs GridInit |
| Solver.Map.GridInit | main.c:244-274 | the array ends up as the fill followed by obstacle placement on the draws |
| Solver.Map.FillGrid | main.c:246-259 | after the nested loops every cell (x, y) is OPEN with its own position, value 0 and action 8 |
| Solver.Map.ChangeCellType | main.c:215-236 | exactly the edited cell changes, and it becomes its cycled form |
| Solver.Map.Greedy | main.c:312-325 | the action loop returns the first action with the largest backup and that backup; the running maximum starting at 0 never wins over action 0 |
| Solver.Map.VisitCell | main.c:310-331 | one cell of the sweep: an OPEN cell gets its best backup at once, and delta takes the change if it is larger |
| Solver.Map.SweepOnce | main.c:305-340 | the nested loops perform one in-place sweep and return its delta |
| Solver.Map.ComputeValueFunction | main.c:293-353 | the array ends as the loop specification prescribes, after the returned number of sweeps; only OPEN values change; the count is between 1 and max_iterations + 1 |
| Solver.Map.ChooseAction | main.c:366-382 | one cell of extraction: an OPEN cell gets the greedy action |
| Solver.Map.ExtractPolicy | main.c:355-385 | the nested loops write the policy of the starting grid |
| Solver.Map.ValueIteration | main.c:287-291 | the array ends as the sweep loop followed by policy extraction |

## Left out

- Rendering, the window and the input loop are not modelled. These are `main`, `CellDraw`, `DrawDirections` and the drawing calls inside the sweep (main.c:332-336). The `cellWidth` and `cellHeight` fields of `Map` serve only rendering and are left out too.
- The `printf` of the sweep counter (main.c:304) is output only. Instead, `Solver.Map.ComputeValueFunction` returns the counter; in C the function returns nothing.
- Floating point is not modelled. Values are exact reals, so `float` rounding and `fabsf` precision are absent. No claim is made that values converge below `theta`, and the loop terminates through its cap alone.
- `rand()` is not modelled. The obstacle loop of GridInit takes a supplied sequence of drawn positions, each already reduced modulo COLS and ROWS. The C loop draws until 40 obstacles are placed, and it ends only with probability 1. The model also stops when the draws run out, and `GridModel.InitialGrid` says what holds then.
- TransitionModel.DiagonalReward: takes 1.4 as the exact decimal. In C, the double product can land just below an integer and then truncate one unit lower. For example, a penalty of -45 gives -62 in C and -63 here. At the default penalty of -10 both give -14.
- Solver.Map.ChangeCellType: C receives a pointer to the cell and the caller checks `IndexIsValid` first (main.c:78). The model takes the position, and that check is its precondition.
- `TransitionModel.CalculateValue` (main.c:387-469) has no contract of its own. `TransitionModel.BackupIsAverage`, `TransitionModel.DeterministicBackup` and `TransitionModel.BackupReadsKindsAndValues` state its properties.
- `TransitionModel.BestValue` (main.c:312-325) has no contract of its own. `TransitionModel.BestValueIsMax` states that it is the largest of the eight backups.
- `IndexIsValid` (main.c:239-242) is the predicate `GridModel.IndexIsValid`. It has no contract of its own, and `GridModel.IdxBijection` and `TransitionModel.Resolve` state what it guarantees.
- The sweep writes each value at once, so later cells in the same sweep read it (Gauss-Seidel); the model follows this.
- The code validates none of its parameters; none is modelled.
