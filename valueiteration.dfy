/** What the solver computes, as functions on grid values: one in-place
    (Gauss-Seidel) sweep over the Open cells in raster order, the sweep loop
    with its convergence test and iteration cap, and policy extraction. The
    imperative methods of the Map class are proved against these. */
module ValueIteration {
  import opened GridModel
  import opened TransitionModel

  function Abs(r: real): (a: real)
    ensures a >= 0.0 && (a == r || a == -r)
  {
    if r < 0.0 then -r else r
  }

  /** Cell `k` is visited: an Open cell receives the best backup computed on
      the grid as it stands at that moment; other cells are skipped. */
  function Visit(g: Grid, p: Params, k: nat): (h: Grid)
    requires ValidGrid(g) && k < N
    ensures ValidGrid(h)
    ensures forall j :: 0 <= j < N && j != k ==> h[j] == g[j]
  {
    PosOfIndex(k);
    if g[k].kind == Open then g[k := g[k].(value := BestValue(g, p, ColOf(k), RowOf(k)))]
    else g
  }

  /** The running maximum change `d` after visiting cell `k`. */
  function VisitDelta(g: Grid, p: Params, k: nat, d: real): (r: real)
    requires ValidGrid(g) && k < N
    ensures r >= d
    ensures g[k].kind != Open ==> r == d
  {
    PosOfIndex(k);
    if g[k].kind == Open && Abs(g[k].value - BestValue(g, p, ColOf(k), RowOf(k))) > d then
      Abs(g[k].value - BestValue(g, p, ColOf(k), RowOf(k)))
    else d
  }

  /** A visit stated by position rather than by index. */
  lemma VisitAt(g: Grid, p: Params, x: int, y: int, d: real)
    requires ValidGrid(g) && IndexIsValid(x, y)
    ensures var k := Idx(x, y);
            var v := BestValue(g, p, x, y);
            && Visit(g, p, k) == (if g[k].kind == Open then g[k := g[k].(value := v)] else g)
            && VisitDelta(g, p, k, d) ==
                 (if g[k].kind == Open && Abs(g[k].value - v) > d then Abs(g[k].value - v) else d)
  {
    IdxBijection(x, y);
  }

  /** The grid after the first `n` visits of a sweep. */
  function SweepPrefix(g: Grid, p: Params, n: nat): (h: Grid)
    requires ValidGrid(g) && n <= N
    ensures ValidGrid(h)
  {
    if n == 0 then g else Visit(SweepPrefix(g, p, n - 1), p, n - 1)
  }

  /** The sweep's `delta` after the first `n` visits. */
  function DeltaPrefix(g: Grid, p: Params, n: nat): (d: real)
    requires ValidGrid(g) && n <= N
    ensures d >= 0.0
  {
    if n == 0 then 0.0 else VisitDelta(SweepPrefix(g, p, n - 1), p, n - 1, DeltaPrefix(g, p, n - 1))
  }

  /** One full sweep. */
  function Sweep(g: Grid, p: Params): (h: Grid)
    requires ValidGrid(g)
    ensures ValidGrid(h)
  {
    SweepPrefix(g, p, N)
  }

  /** The largest change one sweep makes. */
  function SweepDelta(g: Grid, p: Params): (d: real)
    requires ValidGrid(g)
    ensures d >= 0.0
  {
    DeltaPrefix(g, p, N)
  }

  /** Visits at or after `n` leave earlier cells alone, and visits before `n`
      have not reached later cells: the grid seen at visit `n` holds this
      sweep's results before `n` and the previous values from `n` on. */
  lemma {:induction false} PrefixStable(g: Grid, p: Params, n: nat)
    requires ValidGrid(g) && n <= N
    ensures forall j :: 0 <= j < N ==>
              SweepPrefix(g, p, n)[j] == if j < n then Sweep(g, p)[j] else g[j]
  {
    PrefixLater(g, p, n, N);
    PrefixUntouched(g, p, n);
  }

  lemma {:induction false} PrefixLater(g: Grid, p: Params, n: nat, m: nat)
    requires ValidGrid(g) && n <= m <= N
    ensures forall j :: 0 <= j < n ==> SweepPrefix(g, p, m)[j] == SweepPrefix(g, p, n)[j]
    decreases m
  {
    if m > n {
      PrefixLater(g, p, n, m - 1);
    }
  }

  lemma {:induction false} PrefixUntouched(g: Grid, p: Params, n: nat)
    requires ValidGrid(g) && n <= N
    ensures forall j :: n <= j < N ==> SweepPrefix(g, p, n)[j] == g[j]
  {
    if n > 0 {
      PrefixUntouched(g, p, n - 1);
    }
  }

  /** Gauss-Seidel order: an Open cell's new value is its best backup on the
      grid whose earlier cells already hold this sweep's values and whose
      later cells still hold the previous ones; nothing else of the cell
      changes. */
  lemma SweepGaussSeidel(g: Grid, p: Params, k: nat)
    requires ValidGrid(g) && k < N && g[k].kind == Open
    ensures IndexIsValid(ColOf(k), RowOf(k))
    ensures var seen := Sweep(g, p)[..k] + g[k..];
            ValidGrid(seen) &&
            Sweep(g, p)[k] == g[k].(value := BestValue(seen, p, ColOf(k), RowOf(k)))
  {
    PosOfIndex(k);
    var x, y := ColOf(k), RowOf(k);
    var seen := Sweep(g, p)[..k] + g[k..];
    var h := SweepPrefix(g, p, k);
    PrefixStable(g, p, k);
    assert |seen| == N;
    forall j | 0 <= j < N ensures seen[j] == h[j] {
      if j < k { assert seen[j] == Sweep(g, p)[j]; } else { assert seen[j] == g[j]; }
    }
    assert seen == h;
    assert h[k] == g[k];
    assert SweepPrefix(g, p, k + 1) == Visit(h, p, k);
    assert SweepPrefix(g, p, k + 1)[k] == g[k].(value := BestValue(h, p, x, y));
    PrefixLater(g, p, k + 1, N);
  }

  /** Only Open cells change, and only in their value. */
  ghost predicate OnlyOpenValuesChanged(g: Grid, h: Grid)
    requires ValidGrid(g) && ValidGrid(h)
  {
    forall k :: 0 <= k < N ==>
      h[k] == g[k].(value := h[k].value) && (g[k].kind != Open ==> h[k] == g[k])
  }

  lemma SweepFrame(g: Grid, p: Params)
    requires ValidGrid(g)
    ensures OnlyOpenValuesChanged(g, Sweep(g, p))
  {
    forall k | 0 <= k < N
      ensures Sweep(g, p)[k] == g[k].(value := Sweep(g, p)[k].value)
      ensures g[k].kind != Open ==> Sweep(g, p)[k] == g[k]
    {
      if g[k].kind == Open {
        SweepGaussSeidel(g, p, k);
      } else {
        PrefixStable(g, p, k);
        PrefixLater(g, p, k + 1, N);
      }
    }
  }

  /** The sweep's delta is the largest absolute change of an Open cell's
      value (0 when no Open cell changes). */
  lemma SweepDeltaIsMaxChange(g: Grid, p: Params)
    requires ValidGrid(g)
    ensures SweepDelta(g, p) >= 0.0
    ensures forall k :: 0 <= k < N && g[k].kind == Open ==>
              Abs(g[k].value - Sweep(g, p)[k].value) <= SweepDelta(g, p)
    ensures SweepDelta(g, p) == 0.0 ||
            exists k :: 0 <= k < N && g[k].kind == Open &&
              Abs(g[k].value - Sweep(g, p)[k].value) == SweepDelta(g, p)
  {
    DeltaPrefixIsMax(g, p, N);
  }

  lemma {:induction false} DeltaPrefixIsMax(g: Grid, p: Params, n: nat)
    requires ValidGrid(g) && n <= N
    ensures DeltaPrefix(g, p, n) >= 0.0
    ensures forall k :: 0 <= k < n && g[k].kind == Open ==>
              Abs(g[k].value - Sweep(g, p)[k].value) <= DeltaPrefix(g, p, n)
    ensures DeltaPrefix(g, p, n) == 0.0 ||
            exists k :: 0 <= k < n && g[k].kind == Open &&
              Abs(g[k].value - Sweep(g, p)[k].value) == DeltaPrefix(g, p, n)
  {
    if n > 0 {
      var k := n - 1;
      DeltaPrefixIsMax(g, p, k);
      PrefixStable(g, p, k);
      PrefixLater(g, p, n, N);
      PosOfIndex(k);
      var h := SweepPrefix(g, p, k);
      assert h[k] == g[k];
      assert Sweep(g, p)[k] == SweepPrefix(g, p, n)[k];
      if g[k].kind == Open {
        assert Sweep(g, p)[k].value == BestValue(h, p, ColOf(k), RowOf(k));
      } else {
        assert DeltaPrefix(g, p, n) == DeltaPrefix(g, p, k);
      }
    }
  }

  /** Outcome of the sweep loop: the final grid and the number of sweeps run. */
  datatype Run = Run(grid: Grid, sweeps: nat)

  /** The sweep loop, with `done` sweeps already run: sweep once more, then
      stop when the sweep's delta is below theta or the count exceeds the cap. */
  function Iterate(g: Grid, p: Params, done: nat): (r: Run)
    requires ValidGrid(g)
    ensures ValidGrid(r.grid) && r.sweeps > done
    decreases p.maxIterations - done
  {
    var h := Sweep(g, p);
    if SweepDelta(g, p) < p.theta || done + 1 > p.maxIterations then Run(h, done + 1)
    else Iterate(h, p, done + 1)
  }

  /** ComputeValueFunction as a function of the starting grid. */
  function Solve(g: Grid, p: Params): (r: Run)
    requires ValidGrid(g)
    ensures ValidGrid(r.grid)
    ensures r.sweeps >= 1
  {
    Iterate(g, p, 0)
  }

  /** The grid after `n` unconditional sweeps. */
  function After(g: Grid, p: Params, n: nat): (h: Grid)
    requires ValidGrid(g)
    ensures ValidGrid(h)
  {
    if n == 0 then g else Sweep(After(g, p, n - 1), p)
  }

  /** Whether the loop's exit test succeeds right after sweep number `k`. */
  predicate StopsAfter(g: Grid, p: Params, k: nat)
    requires ValidGrid(g) && k >= 1
  {
    SweepDelta(After(g, p, k - 1), p) < p.theta || k > p.maxIterations
  }

  lemma {:induction false} IterateStopsAtFirstExit(g: Grid, p: Params, done: nat)
    requires ValidGrid(g)
    ensures var r := Iterate(After(g, p, done), p, done);
            && r.grid == After(g, p, r.sweeps)
            && StopsAfter(g, p, r.sweeps)
            && forall j :: done < j < r.sweeps ==> !StopsAfter(g, p, j)
    decreases p.maxIterations - done
  {
    if !StopsAfter(g, p, done + 1) {
      IterateStopsAtFirstExit(g, p, done + 1);
    }
  }

  /** The loop runs sweeps until the first one after which the exit test
      succeeds, and the result is the grid after exactly that many sweeps. */
  lemma SolveStopsAtFirstExit(g: Grid, p: Params)
    requires ValidGrid(g)
    ensures var r := Solve(g, p);
            && r.sweeps >= 1
            && r.grid == After(g, p, r.sweeps)
            && StopsAfter(g, p, r.sweeps)
            && forall j :: 1 <= j < r.sweeps ==> !StopsAfter(g, p, j)
  {
    IterateStopsAtFirstExit(g, p, 0);
  }

  /** At least one sweep always runs; at most maxIterations + 1 run; exactly
      one runs when maxIterations is 0 or negative. Stopping before the cap
      means the last sweep changed no Open value by theta or more. */
  lemma SolveSweepCount(g: Grid, p: Params)
    requires ValidGrid(g)
    ensures var r := Solve(g, p);
            && 1 <= r.sweeps
            && (p.maxIterations >= 0 ==> r.sweeps <= p.maxIterations + 1)
            && (p.maxIterations <= 0 ==> r.sweeps == 1)
            && (r.sweeps <= p.maxIterations ==> SweepDelta(After(g, p, r.sweeps - 1), p) < p.theta)
  {
    SolveStopsAtFirstExit(g, p);
    var r := Solve(g, p);
    var cap := if p.maxIterations >= 0 then p.maxIterations + 1 else 1;
    assert StopsAfter(g, p, cap);
  }

  lemma {:induction false} AfterFrame(g: Grid, p: Params, n: nat)
    requires ValidGrid(g)
    ensures OnlyOpenValuesChanged(g, After(g, p, n))
  {
    if n > 0 {
      AfterFrame(g, p, n - 1);
      SweepFrame(After(g, p, n - 1), p);
    }
  }

  /** The whole loop changes only values, and only those of Open cells. */
  lemma SolveFrame(g: Grid, p: Params)
    requires ValidGrid(g)
    ensures OnlyOpenValuesChanged(g, Solve(g, p).grid)
  {
    SolveStopsAtFirstExit(g, p);
    AfterFrame(g, p, Solve(g, p).sweeps);
  }

  /** ExtractPolicy as a function: every Open cell gets the first action with
      the largest backup on the given grid; nothing else changes. */
  function Policy(g: Grid, p: Params): (h: Grid)
    requires ValidGrid(g)
    ensures ValidGrid(h)
    ensures forall k :: 0 <= k < N ==> h[k] == g[k].(action := h[k].action)
    ensures forall k :: 0 <= k < N && g[k].kind != Open ==> h[k] == g[k]
  {
    seq(N, k requires 0 <= k < N =>
      PosOfIndex(k);
      if g[k].kind == Open then g[k].(action := BestAction(g, p, ColOf(k), RowOf(k))) else g[k])
  }

  /** Each Open cell's extracted action is the first action whose backup on
      the given grid is maximal. */
  lemma PolicyChoosesFirstArgMax(g: Grid, p: Params, x: int, y: int)
    requires ValidGrid(g) && IndexIsValid(x, y) && At(g, x, y).kind == Open
    ensures IsFirstArgMax(Backups(g, p, x, y), Policy(g, p)[Idx(x, y)].action)
  {
    PolicyAt(g, p, x, y);
  }

  /** Cell `k` is visited by policy extraction: an Open cell receives the
      greedy action on the grid as it stands. */
  function Choose(g: Grid, p: Params, k: nat): (h: Grid)
    requires ValidGrid(g) && k < N
    ensures ValidGrid(h)
    ensures forall j :: 0 <= j < N && j != k ==> h[j] == g[j]
  {
    PosOfIndex(k);
    if g[k].kind == Open then g[k := g[k].(action := BestAction(g, p, ColOf(k), RowOf(k)))]
    else g
  }

  lemma ChooseAt(g: Grid, p: Params, x: int, y: int)
    requires ValidGrid(g) && IndexIsValid(x, y)
    ensures var k := Idx(x, y);
            Choose(g, p, k) ==
              if g[k].kind == Open then g[k := g[k].(action := BestAction(g, p, x, y))] else g
  {
    IdxBijection(x, y);
  }

  /** The grid after the first `n` visits of policy extraction. */
  function PolicyPrefix(g: Grid, p: Params, n: nat): (h: Grid)
    requires ValidGrid(g) && n <= N
    ensures ValidGrid(h)
  {
    if n == 0 then g else Choose(PolicyPrefix(g, p, n - 1), p, n - 1)
  }

  /** Writing actions one cell at a time in raster order yields the policy of
      the starting grid: actions do not feed back into backups. */
  lemma {:induction false} PolicyPrefixIsPolicy(g: Grid, p: Params, n: nat)
    requires ValidGrid(g) && n <= N
    ensures forall j :: 0 <= j < N ==>
              PolicyPrefix(g, p, n)[j] == if j < n then Policy(g, p)[j] else g[j]
  {
    if n > 0 {
      var k := n - 1;
      PolicyPrefixIsPolicy(g, p, k);
      var h := PolicyPrefix(g, p, k);
      var pol := Policy(g, p);
      assert SameKindsAndValues(h, g);
      PosOfIndex(k);
      var x, y := ColOf(k), RowOf(k);
      BestReadsKindsAndValues(h, g, p, x, y);
      ChooseAt(h, p, x, y);
      PolicyAt(g, p, x, y);
      assert h[k] == g[k];
      assert PolicyPrefix(g, p, n) == Choose(h, p, k);
      assert PolicyPrefix(g, p, n)[k] == pol[k];
      forall j | 0 <= j < N
        ensures PolicyPrefix(g, p, n)[j] == if j < n then pol[j] else g[j]
      {
        if j != k {
          assert PolicyPrefix(g, p, n)[j] == h[j];
        }
      }
    }
  }

  /** Policy extraction stated by position rather than by index. */
  lemma PolicyAt(g: Grid, p: Params, x: int, y: int)
    requires ValidGrid(g) && IndexIsValid(x, y)
    ensures var k := Idx(x, y);
            Policy(g, p)[k] ==
              if g[k].kind == Open then g[k].(action := BestAction(g, p, x, y)) else g[k]
  {
    IdxBijection(x, y);
  }

  /** Extracting the policy twice gives the same grid as extracting it once. */
  lemma PolicyIdempotent(g: Grid, p: Params)
    requires ValidGrid(g)
    ensures Policy(Policy(g, p), p) == Policy(g, p)
  {
    var h := Policy(g, p);
    assert SameKindsAndValues(g, h);
    forall k | 0 <= k < N
      ensures Policy(h, p)[k] == h[k]
    {
      if g[k].kind == Open {
        PosOfIndex(k);
        BestReadsKindsAndValues(g, h, p, ColOf(k), RowOf(k));
      }
    }
  }

  /** ValueIteration: the sweep loop followed by policy extraction. */
  function ValueIterationResult(g: Grid, p: Params): (h: Grid)
    requires ValidGrid(g)
    ensures ValidGrid(h)
    ensures forall k :: 0 <= k < N ==>
              h[k].x == g[k].x && h[k].y == g[k].y && h[k].kind == g[k].kind
    ensures forall k :: 0 <= k < N && g[k].kind != Open ==> h[k] == g[k]
  {
    SolveFrame(g, p);
    Policy(Solve(g, p).grid, p)
  }
}
