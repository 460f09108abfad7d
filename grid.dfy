/** The grid the solver works on: a COLS x ROWS array of cells, each with a
    position, a kind, a value and a chosen action. The C array
    `Cell grid[COLS][ROWS]` is stored row-major, so cell (x, y) is element
    `x * ROWS + y` of one block of COLS * ROWS cells; this module uses that
    flat layout. */
module GridModel {

  const COLS: nat := 20
  const ROWS: nat := 20
  /** Number of cells in the grid. */
  const N: nat := COLS * ROWS

  /** Action value meaning "no policy yet". */
  const NoAction: int := 8

  /** The cell kinds, in the order of the C enum (OPEN = 0 ... OBSTRUCTION = 3). */
  datatype CellType = Open | Goal | Hole | Obstruction

  datatype Cell = Cell(x: int, y: int, kind: CellType, value: real, action: int)

  /** A grid value: one cell per position, in row-major order. */
  type Grid = seq<Cell>

  predicate ValidGrid(g: Grid) {
    |g| == N
  }

  /** The bounds check of main.c. */
  predicate IndexIsValid(x: int, y: int) {
    x >= 0 && x < COLS && y >= 0 && y < ROWS
  }

  /** Position of cell (x, y) in the row-major block. */
  function Idx(x: int, y: int): (k: nat)
    requires IndexIsValid(x, y)
    ensures k < N
  {
    x * ROWS + y
  }

  function ColOf(k: nat): int { k / ROWS }
  function RowOf(k: nat): int { k % ROWS }

  /** The row-major layout is a bijection between the valid positions and
      the indices 0 .. N-1. */
  lemma IdxBijection(x: int, y: int)
    requires IndexIsValid(x, y)
    ensures ColOf(Idx(x, y)) == x && RowOf(Idx(x, y)) == y
  {
    var k := Idx(x, y);
    assert k == x * ROWS + y;
    assert k / ROWS == x;
  }

  lemma PosOfIndex(k: nat)
    requires k < N
    ensures IndexIsValid(ColOf(k), RowOf(k))
    ensures Idx(ColOf(k), RowOf(k)) == k
  {
  }

  /** The cell at (x, y). */
  function At(g: Grid, x: int, y: int): Cell
    requires ValidGrid(g) && IndexIsValid(x, y)
  {
    g[Idx(x, y)]
  }

  /** Position in the cycle of kinds, i.e. the C enum ordinal. */
  function Ordinal(t: CellType): (n: nat)
    ensures n < 4
  {
    match t
    case Open => 0
    case Goal => 1
    case Hole => 2
    case Obstruction => 3
  }

  /** The kind an edit turns `t` into. */
  function NextKind(t: CellType): (r: CellType)
    ensures Ordinal(r) == (Ordinal(t) + 1) % 4
  {
    match t
    case Open => Goal
    case Goal => Hole
    case Hole => Obstruction
    case Obstruction => Open
  }

  /** The effect of ChangeCellType on one cell: the kind moves one step round
      the cycle, Goal/Hole/Obstruction get their fixed values, a cell turned
      back to Open keeps its value; position and action are untouched. */
  function Cycled(c: Cell): (r: Cell)
    ensures r.x == c.x && r.y == c.y && r.action == c.action
    ensures r.kind == NextKind(c.kind)
    ensures r.kind == Goal ==> r.value == 100.0
    ensures r.kind == Hole ==> r.value == -100.0
    ensures r.kind == Obstruction ==> r.value == 0.0
    ensures r.kind == Open ==> r.value == c.value
  {
    match c.kind
    case Open => c.(kind := Goal, value := 100.0)
    case Goal => c.(kind := Hole, value := -100.0)
    case Hole => c.(kind := Obstruction, value := 0.0)
    case Obstruction => c.(kind := Open)
  }

  /** Four edits bring a cell back to its kind, position and action; the value
      is then the fixed value its kind was last given by the cycle (0 for an
      Open cell, which passed through Obstruction). */
  lemma CycleFourTimes(c: Cell)
    ensures Cycled(Cycled(Cycled(Cycled(c)))) ==
            c.(value := match c.kind
                        case Open => 0.0
                        case Goal => 100.0
                        case Hole => -100.0
                        case Obstruction => 0.0)
  {
    match c.kind {
      case Open =>
      case Goal =>
      case Hole =>
      case Obstruction =>
    }
  }

  /** The cell the fill loop of GridInit writes at (x, y). */
  function InitialCell(x: int, y: int): (c: Cell)
  {
    Cell(x, y, Open, 0.0, NoAction)
  }

  /** Every cell records its own position. */
  predicate Placed(g: Grid)
    requires ValidGrid(g)
  {
    forall k :: 0 <= k < N ==> g[k].x == ColOf(k) && g[k].y == RowOf(k)
  }

  /** The grid the fill loop produces: every position holds its initial cell. */
  function FreshGrid(): (g: Grid)
    ensures ValidGrid(g) && Placed(g)
    ensures forall x, y | IndexIsValid(x, y) :: At(g, x, y) == InitialCell(x, y)
  {
    seq(N, k requires 0 <= k < N => InitialCell(ColOf(k), RowOf(k)))
  }

  /** Number of cells of kind `t`. */
  function CountKind(g: seq<Cell>, t: CellType): (n: nat)
    ensures n <= |g|
  {
    if g == [] then 0 else CountKind(g[..|g| - 1], t) + (if g[|g| - 1].kind == t then 1 else 0)
  }

  lemma {:induction false} CountKindUpdate(g: seq<Cell>, k: nat, c: Cell, t: CellType)
    requires k < |g|
    ensures CountKind(g[k := c], t) + (if g[k].kind == t then 1 else 0) ==
            CountKind(g, t) + (if c.kind == t then 1 else 0)
    decreases |g|
  {
    var h := g[k := c];
    var n := |g| - 1;
    if k < n {
      assert h[..n] == g[..n][k := c];
      CountKindUpdate(g[..n], k, c, t);
    } else {
      assert h[..n] == g[..n];
    }
  }

  lemma {:induction false} CountKindNone(g: seq<Cell>, t: CellType)
    requires forall k :: 0 <= k < |g| ==> g[k].kind != t
    ensures CountKind(g, t) == 0
    decreases |g|
  {
    if g != [] {
      CountKindNone(g[..|g| - 1], t);
    }
  }

  /** A fresh grid holds no obstruction. */
  lemma FreshHasNoObstruction()
    ensures CountKind(FreshGrid(), Obstruction) == 0
  {
    CountKindNone(FreshGrid(), Obstruction);
  }

  /** Obstacles GridInit places: (int)(ROWS * COLS * 0.1f). */
  const ObstacleCount: int := 40

  /** A position drawn for an obstacle: `rand() % COLS`, `rand() % ROWS`. */
  type Pos = (int, int)

  predicate DrawsValid(draws: seq<Pos>) {
    forall i :: 0 <= i < |draws| ==> IndexIsValid(draws[i].0, draws[i].1)
  }

  /** The obstacle loop of GridInit run on a supplied sequence of draws:
      while obstacles remain to be placed, a drawn Open cell becomes an
      obstruction and is counted; any other drawn cell is skipped. The loop
      ends when nothing remains to place or the draws run out; the second
      component is the number still to place. */
  function PlaceObstacles(g: Grid, draws: seq<Pos>, toPlace: int): (r: (Grid, int))
    requires ValidGrid(g) && DrawsValid(draws)
    ensures ValidGrid(r.0)
    ensures r.1 <= toPlace && (toPlace >= 0 ==> r.1 >= 0)
    ensures toPlace <= 0 ==> r == (g, toPlace)
    decreases |draws|
  {
    if toPlace <= 0 || draws == [] then (g, toPlace)
    else
      var k := Idx(draws[0].0, draws[0].1);
      if g[k].kind == Open then PlaceObstacles(g[k := g[k].(kind := Obstruction)], draws[1..], toPlace - 1)
      else PlaceObstacles(g, draws[1..], toPlace)
  }

  /** Placement turns exactly (toPlace - remaining) Open cells into
      obstructions, touching nothing else of any cell; it stops short only
      when every drawn cell is no longer Open. */
  lemma {:induction false} PlacementEffect(g: Grid, draws: seq<Pos>, toPlace: int)
    requires ValidGrid(g) && DrawsValid(draws) && toPlace >= 0
    ensures var (h, left) := PlaceObstacles(g, draws, toPlace);
            && 0 <= left <= toPlace
            && CountKind(h, Obstruction) == CountKind(g, Obstruction) + (toPlace - left)
            && (forall k :: 0 <= k < N ==>
                  h[k] == g[k] || (g[k].kind == Open && h[k] == g[k].(kind := Obstruction)))
            && (left > 0 ==> forall i :: 0 <= i < |draws| ==>
                  h[Idx(draws[i].0, draws[i].1)].kind != Open)
    decreases |draws|
  {
    if toPlace > 0 && draws != [] {
      var k := Idx(draws[0].0, draws[0].1);
      assert DrawsValid(draws[1..]) by {
        forall i | 0 <= i < |draws| - 1 ensures IndexIsValid(draws[1..][i].0, draws[1..][i].1) {
          assert draws[1..][i] == draws[i + 1];
        }
      }
      var g' := if g[k].kind == Open then g[k := g[k].(kind := Obstruction)] else g;
      var toPlace' := if g[k].kind == Open then toPlace - 1 else toPlace;
      PlacementEffect(g', draws[1..], toPlace');
      if g[k].kind == Open {
        CountKindUpdate(g, k, g[k].(kind := Obstruction), Obstruction);
      }
      var (h, left) := PlaceObstacles(g', draws[1..], toPlace');
      assert PlaceObstacles(g, draws, toPlace) == (h, left);
      if left > 0 {
        forall i | 0 <= i < |draws|
          ensures h[Idx(draws[i].0, draws[i].1)].kind != Open
        {
          if i > 0 {
            assert draws[i] == draws[1..][i - 1];
          }
        }
      }
    }
  }

  /** After GridInit every cell holds its own position, value 0 and no
      action, and is Open or an obstruction; ObstacleCount obstructions are
      placed unless the draws run out, in which case every drawn cell is an
      obstruction. */
  lemma InitialGrid(draws: seq<Pos>)
    requires DrawsValid(draws)
    ensures var (g, left) := PlaceObstacles(FreshGrid(), draws, ObstacleCount);
            && Placed(g)
            && 0 <= left <= ObstacleCount
            && CountKind(g, Obstruction) == ObstacleCount - left
            && (forall k :: 0 <= k < N ==>
                  g[k].value == 0.0 && g[k].action == NoAction &&
                  (g[k].kind == Open || g[k].kind == Obstruction))
            && (left > 0 ==> forall i :: 0 <= i < |draws| ==>
                  At(g, draws[i].0, draws[i].1).kind == Obstruction)
  {
    PlacementEffect(FreshGrid(), draws, ObstacleCount);
    FreshHasNoObstruction();
  }
}
