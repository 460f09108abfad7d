/** The solver's state and its in-place operations: the Map record with its
    parameters and its grid of cells, the grid initialisation, cell editing,
    the value-function sweeps and policy extraction. Each method is proved
    against the functions of ValueIteration, TransitionModel and GridModel. */
module Solver {
  import opened GridModel
  import opened TransitionModel
  import opened ValueIteration

  /** The parameters MapInit sets. */
  const DefaultParams: Params := Params(0.000001, 0.8, 1.0, 100, -10, -50)

  class Map {
    var theta: real
    var probability: real
    var gamma: real
    var maxIterations: int
    var movementPenalty: int
    var collisionPenalty: int
    /** The COLS x ROWS cells, row-major: cell (x, y) is grid[Idx(x, y)]. */
    const grid: array<Cell>

    ghost predicate Valid()
      reads this
    {
      grid.Length == N
    }

    /** The parameters as one value. */
    function Settings(): (p: Params)
      reads this
    {
      Params(theta, probability, gamma, maxIterations, movementPenalty, collisionPenalty)
    }

    /** A map set up by MapInit with the given obstacle draws. */
    constructor (draws: seq<Pos>)
      requires DrawsValid(draws)
      ensures Valid() && fresh(grid)
      ensures Settings() == DefaultParams
      ensures grid[..] == PlaceObstacles(FreshGrid(), draws, ObstacleCount).0
    {
      grid := new Cell[N];
      new;
      MapInit(draws);
    }

    /** MapInit: default parameters, then GridInit. */
    method MapInit(draws: seq<Pos>)
      requires Valid() && DrawsValid(draws)
      modifies this, grid
      ensures Valid()
      ensures Settings() == DefaultParams
      ensures grid[..] == PlaceObstacles(FreshGrid(), draws, ObstacleCount).0
    {
      theta := 0.000001;
      probability := 0.8;
      gamma := 1.0;
      maxIterations := 100;
      movementPenalty := -10;
      collisionPenalty := -50;
      GridInit(draws);
    }

    /** GridInit: every cell becomes an Open cell with value 0, no action and
        its own position; then obstacles are placed at the drawn positions
        (the draws stand for rand() % COLS, rand() % ROWS). */
    method GridInit(draws: seq<Pos>)
      requires Valid() && DrawsValid(draws)
      modifies grid
      ensures Valid()
      ensures grid[..] == PlaceObstacles(FreshGrid(), draws, ObstacleCount).0
    {
      FillGrid();
      var obstaclesToPlace := ObstacleCount;
      var i := 0;
      while obstaclesToPlace > 0 && i < |draws|
        invariant 0 <= i <= |draws|
        invariant PlaceObstacles(grid[..], draws[i..], obstaclesToPlace) ==
                  PlaceObstacles(FreshGrid(), draws, ObstacleCount)
      {
        var x, y := draws[i].0, draws[i].1;
        assert draws[i..][1..] == draws[i + 1..];
        if grid[Idx(x, y)].kind == Open {
          grid[Idx(x, y)] := grid[Idx(x, y)].(kind := Obstruction);
          obstaclesToPlace := obstaclesToPlace - 1;
        }
        i := i + 1;
      }
      assert i == |draws| ==> draws[i..] == [];
    }

    /** The fill loop of GridInit. */
    method FillGrid()
      requires Valid()
      modifies grid
      ensures Valid()
      ensures grid[..] == FreshGrid()
    {
      var x := 0;
      while x < COLS
        invariant 0 <= x <= COLS
        invariant forall k :: 0 <= k < x * ROWS ==> grid[k] == InitialCell(ColOf(k), RowOf(k))
      {
        var y := 0;
        while y < ROWS
          invariant 0 <= y <= ROWS
          invariant forall k :: 0 <= k < x * ROWS + y ==> grid[k] == InitialCell(ColOf(k), RowOf(k))
        {
          IdxBijection(x, y);
          grid[Idx(x, y)] := Cell(x, y, Open, 0.0, NoAction);
          y := y + 1;
        }
        x := x + 1;
      }
      assert forall k :: 0 <= k < N ==> grid[..][k] == FreshGrid()[k];
    }

    /** ChangeCellType applied to the cell at a position the caller has
        checked with IndexIsValid. */
    method ChangeCellType(x: int, y: int)
      requires Valid() && IndexIsValid(x, y)
      modifies grid
      ensures Valid()
      ensures grid[..] == old(grid[..])[Idx(x, y) := Cycled(old(grid[Idx(x, y)]))]
    {
      var k := Idx(x, y);
      var cell := grid[k];
      if cell.kind == Open {
        grid[k] := cell.(kind := Goal, value := 100.0);
      } else if cell.kind == Goal {
        grid[k] := cell.(kind := Hole, value := -100.0);
      } else if cell.kind == Hole {
        grid[k] := cell.(kind := Obstruction, value := 0.0);
      } else if cell.kind == Obstruction {
        grid[k] := cell.(kind := Open);
      }
    }

    /** The loop over the eight actions: the first action with the largest
        backup and that backup. The running maximum starts at 0 but action 0
        always replaces it; later actions replace it only when strictly
        larger. */
    method Greedy(x: int, y: int) returns (best: int, maxV: real)
      requires Valid() && IndexIsValid(x, y)
      ensures IsAction(best)
      ensures IsFirstArgMax(Backups(grid[..], Settings(), x, y), best)
      ensures best == BestAction(grid[..], Settings(), x, y)
      ensures maxV == BestValue(grid[..], Settings(), x, y)
    {
      ghost var q := Backups(grid[..], Settings(), x, y);
      maxV := 0.0;
      best := 0;
      var action := 0;
      while action < 8
        invariant 0 <= action <= 8 && 0 <= best < 8
        invariant action > 0 ==> best < action && maxV == q[best]
        invariant forall b :: 0 <= b < action ==> q[b] <= maxV
        invariant forall b :: 0 <= b < best ==> q[b] < maxV
      {
        var newV := CalculateValue(grid[..], Settings(), action, x, y);
        if action == 0 || newV > maxV {
          maxV := newV;
          best := action;
        }
        action := action + 1;
      }
      FirstArgMaxUnique(q, best, BestAction(grid[..], Settings(), x, y));
    }

    /** One sweep of ComputeValueFunction: every Open cell, in raster order,
        gets its best backup written at once; `delta` is the largest change. */
    method SweepOnce() returns (delta: real)
      requires Valid()
      modifies grid
      ensures Valid()
      ensures grid[..] == Sweep(old(grid[..]), Settings())
      ensures delta == SweepDelta(old(grid[..]), Settings())
    {
      ghost var g0 := grid[..];
      ghost var p := Settings();
      delta := 0.0;
      var x := 0;
      while x < COLS
        invariant 0 <= x <= COLS
        invariant grid[..] == SweepPrefix(g0, p, x * ROWS)
        invariant delta == DeltaPrefix(g0, p, x * ROWS)
      {
        var y := 0;
        while y < ROWS
          invariant 0 <= y <= ROWS
          invariant grid[..] == SweepPrefix(g0, p, x * ROWS + y)
          invariant delta == DeltaPrefix(g0, p, x * ROWS + y)
        {
          ghost var k := Idx(x, y);
          assert k == x * ROWS + y;
          delta := VisitCell(x, y, delta);
          y := y + 1;
        }
        x := x + 1;
      }
    }

    /** The body of the sweep for cell (x, y): an Open cell gets its best
        backup written at once, and the running delta takes the change if it
        is larger. */
    method VisitCell(x: int, y: int, delta: real) returns (newDelta: real)
      requires Valid() && IndexIsValid(x, y)
      modifies grid
      ensures Valid()
      ensures grid[..] == Visit(old(grid[..]), Settings(), Idx(x, y))
      ensures newDelta == VisitDelta(old(grid[..]), Settings(), Idx(x, y), delta)
    {
      var k := Idx(x, y);
      VisitAt(grid[..], Settings(), x, y, delta);
      newDelta := delta;
      if grid[k].kind == Open {
        var oldV := grid[k].value;
        var _, maxV := Greedy(x, y);
        grid[k] := grid[k].(value := maxV);
        if Abs(oldV - maxV) > newDelta {
          newDelta := Abs(oldV - maxV);
        }
      }
    }

    /** ComputeValueFunction: sweeps until a sweep's delta is below theta or
        the sweep counter exceeds maxIterations; returns the counter. */
    method ComputeValueFunction() returns (iterations: nat)
      requires Valid()
      modifies grid
      ensures Valid()
      ensures Run(grid[..], iterations) == Solve(old(grid[..]), Settings())
      ensures OnlyOpenValuesChanged(old(grid[..]), grid[..])
      ensures 1 <= iterations
      ensures maxIterations >= 0 ==> iterations <= maxIterations + 1
      ensures maxIterations <= 0 ==> iterations == 1
    {
      ghost var g0 := grid[..];
      var loop := true;
      iterations := 0;
      while loop
        invariant loop ==> Iterate(grid[..], Settings(), iterations) == Solve(g0, Settings())
        invariant loop ==> iterations == 0 || iterations <= maxIterations
        invariant !loop ==> Run(grid[..], iterations) == Solve(g0, Settings())
        decreases loop, maxIterations - iterations
      {
        var delta := SweepOnce();
        iterations := iterations + 1;
        if delta < theta {
          loop := false;
        }
        if iterations > maxIterations {
          loop := false;
        }
      }
      SolveFrame(g0, Settings());
      SolveSweepCount(g0, Settings());
    }

    /** ExtractPolicy: every Open cell, in raster order, gets the first action
        with the largest backup; values are not touched. */
    method ExtractPolicy()
      requires Valid()
      modifies grid
      ensures Valid()
      ensures grid[..] == Policy(old(grid[..]), Settings())
    {
      ghost var g0 := grid[..];
      ghost var p := Settings();
      var x := 0;
      while x < COLS
        invariant 0 <= x <= COLS
        invariant grid[..] == PolicyPrefix(g0, p, x * ROWS)
      {
        var y := 0;
        while y < ROWS
          invariant 0 <= y <= ROWS
          invariant grid[..] == PolicyPrefix(g0, p, x * ROWS + y)
        {
          ghost var k := Idx(x, y);
          assert k == x * ROWS + y;
          ChooseAction(x, y);
          y := y + 1;
        }
        x := x + 1;
      }
      PolicyPrefixIsPolicy(g0, p, N);
      assert grid[..] == Policy(g0, p);
    }

    /** The body of policy extraction for cell (x, y): an Open cell gets the
        first action with the largest backup. */
    method ChooseAction(x: int, y: int)
      requires Valid() && IndexIsValid(x, y)
      modifies grid
      ensures Valid()
      ensures grid[..] == Choose(old(grid[..]), Settings(), Idx(x, y))
    {
      var k := Idx(x, y);
      ChooseAt(grid[..], Settings(), x, y);
      if grid[k].kind == Open {
        var best, _ := Greedy(x, y);
        grid[k] := grid[k].(action := best);
      }
    }

    /** ValueIteration: ComputeValueFunction, then ExtractPolicy. */
    method ValueIteration()
      requires Valid()
      modifies grid
      ensures Valid()
      ensures grid[..] == ValueIterationResult(old(grid[..]), Settings())
    {
      var _ := ComputeValueFunction();
      ExtractPolicy();
    }
  }
}
