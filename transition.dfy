/** The stochastic transition model and the one-step Bellman backup
    (CalculateValue). The intended action is realised as itself with
    probability `probability` and as each of its two 45-degree neighbours
    with probability (1 - probability) / 2. */
module TransitionModel {
  import opened GridModel

  /** The solver's parameters. */
  datatype Params = Params(
    theta: real,
    probability: real,
    gamma: real,
    maxIterations: int,
    movementPenalty: int,
    collisionPenalty: int)

  /** The reward of a diagonal move: 1.4 * movementPenalty converted to int,
      which truncates toward zero (1.4 taken as the exact decimal). */
  function DiagonalReward(m: int): (r: int)
    ensures m >= 0 ==> 0 <= 10 * r <= 14 * m < 10 * r + 10
    ensures m <= 0 ==> 10 * r - 10 < 14 * m <= 10 * r <= 0
  {
    if m >= 0 then (14 * m) / 10 else -((-14 * m) / 10)
  }

  /** With the default movement penalty -10 a diagonal move pays -14. */
  lemma DefaultDiagonalReward()
    ensures DiagonalReward(-10) == -14
  {
  }

  /** Actions 0..7 are compass directions clockwise from north. */
  predicate IsAction(a: int) { 0 <= a < 8 }

  /** The action realised when the intended one slips by `i` steps of 45 degrees. */
  function Realised(action: int, i: int): (r: int)
    requires IsAction(action) && -1 <= i <= 1
    ensures IsAction(r)
    ensures r == (action + i) % 8
  {
    var a := action + i;
    if a == 8 then 0
    else if a == -1 then 7
    else a
  }

  /** Column change of a realised action. */
  function StepX(a: int): (dx: int)
    requires IsAction(a)
    ensures -1 <= dx <= 1
    ensures dx == 0 <==> a == 0 || a == 4
    ensures dx == 1 <==> 1 <= a <= 3
  {
    if a > 0 && a < 4 then 1
    else if a > 4 then -1
    else 0
  }

  /** Row change of a realised action (rows grow downwards). */
  function StepY(a: int): (dy: int)
    requires IsAction(a)
    ensures -1 <= dy <= 1
    ensures dy == 0 <==> a == 2 || a == 6
    ensures dy == 1 <==> 3 <= a <= 5
  {
    if a < 2 || a > 6 then -1
    else if a > 2 && a < 6 then 1
    else 0
  }

  /** The compass: N, NE, E, SE, S, SW, W, NW. */
  const Compass: seq<(int, int)> :=
    [(0, -1), (1, -1), (1, 0), (1, 1), (0, 1), (-1, 1), (-1, 0), (-1, -1)]

  /** The two branch chains agree with the compass table, every action moves,
      and an action moves along both axes exactly when it is odd. */
  lemma CompassTable(a: int)
    requires IsAction(a)
    ensures (StepX(a), StepY(a)) == Compass[a]
    ensures -1 <= StepX(a) <= 1 && -1 <= StepY(a) <= 1
    ensures StepX(a) != 0 || StepY(a) != 0
    ensures (StepX(a) != 0 && StepY(a) != 0) <==> a % 2 == 1
  {
    if a == 0 {} else if a == 1 {} else if a == 2 {} else if a == 3 {}
    else if a == 4 {} else if a == 5 {} else if a == 6 {} else {}
  }

  /** Where one realisation ends up and what it pays. */
  datatype Outcome = Outcome(tx: int, ty: int, reward: int)

  /** Target resolution: off-grid stays put with the movement reward, an
      obstruction stays put with the collision reward, anything else moves
      with the movement reward. The movement reward is the diagonal one when
      the move changed both coordinates. */
  function Resolve(g: Grid, p: Params, x: int, y: int, a: int): (o: Outcome)
    requires ValidGrid(g) && IndexIsValid(x, y) && IsAction(a)
    ensures IndexIsValid(o.tx, o.ty)
    ensures At(g, x, y).kind != Obstruction ==> At(g, o.tx, o.ty).kind != Obstruction
  {
    var nx := x + StepX(a);
    var ny := y + StepY(a);
    var moveReward := if nx != x && ny != y then DiagonalReward(p.movementPenalty) else p.movementPenalty;
    if IndexIsValid(nx, ny) then
      if At(g, nx, ny).kind == Obstruction then Outcome(x, y, p.collisionPenalty)
      else Outcome(nx, ny, moveReward)
    else
      Outcome(x, y, moveReward)
  }

  /** The agent stays exactly when the cell it moves to is off the grid or an
      obstruction, and otherwise lands on that cell. */
  lemma ResolveTarget(g: Grid, p: Params, x: int, y: int, a: int)
    requires ValidGrid(g) && IndexIsValid(x, y) && IsAction(a)
    ensures var o := Resolve(g, p, x, y, a);
            var nx, ny := x + StepX(a), y + StepY(a);
            && ((o.tx, o.ty) == (x, y) <==>
                  !IndexIsValid(nx, ny) || At(g, nx, ny).kind == Obstruction)
            && ((o.tx, o.ty) != (x, y) ==> (o.tx, o.ty) == (nx, ny))
  {
    CompassTable(a);
  }

  /** The reward rule: an obstruction pays exactly the collision penalty,
      without the diagonal multiplier; anything else pays the movement
      penalty, in its diagonal form exactly for the odd (diagonal) actions. */
  lemma ResolveReward(g: Grid, p: Params, x: int, y: int, a: int)
    requires ValidGrid(g) && IndexIsValid(x, y) && IsAction(a)
    ensures var o := Resolve(g, p, x, y, a);
            var nx, ny := x + StepX(a), y + StepY(a);
            if IndexIsValid(nx, ny) && At(g, nx, ny).kind == Obstruction then
              o.reward == p.collisionPenalty
            else
              o.reward == if a % 2 == 1 then DiagonalReward(p.movementPenalty) else p.movementPenalty
  {
    CompassTable(a);
  }

  /** Weight of slip `i`. */
  function Weight(p: Params, i: int): real
  {
    if i == 0 then p.probability else (1.0 - p.probability) / 2.0
  }

  /** Return of one realisation: reward plus discounted value of the target. */
  function Gain(g: Grid, p: Params, x: int, y: int, a: int): real
    requires ValidGrid(g) && IndexIsValid(x, y) && IsAction(a)
  {
    var o := Resolve(g, p, x, y, a);
    o.reward as real + p.gamma * At(g, o.tx, o.ty).value
  }

  /** Weighted term of slip `i` for intended action `action`. */
  function Term(g: Grid, p: Params, action: int, x: int, y: int, i: int): real
    requires ValidGrid(g) && IndexIsValid(x, y) && IsAction(action) && -1 <= i <= 1
  {
    Weight(p, i) * Gain(g, p, x, y, Realised(action, i))
  }

  /** The backup of intended action `action` at (x, y), accumulated over
      i = -1, 0, +1 in that order. */
  function CalculateValue(g: Grid, p: Params, action: int, x: int, y: int): real
    requires ValidGrid(g) && IndexIsValid(x, y) && IsAction(action)
  {
    0.0 + Term(g, p, action, x, y, -1) + Term(g, p, action, x, y, 0) + Term(g, p, action, x, y, 1)
  }

  function Min3(a: real, b: real, c: real): real
  {
    if a <= b && a <= c then a else if b <= c then b else c
  }

  function Max3(a: real, b: real, c: real): real
  {
    if a >= b && a >= c then a else if b >= c then b else c
  }

  /** A weighted sum with weights s, w, s that add up to 1 lies between the
      smallest and the largest of the summed values. */
  lemma WeightedBetween(s: real, w: real, l: real, m: real, r: real)
    requires s >= 0.0 && w >= 0.0 && s + w + s == 1.0
    ensures Min3(l, m, r) <= s * l + w * m + s * r <= Max3(l, m, r)
  {
    WeightedAtLeast(s, w, Min3(l, m, r), l, m, r);
    WeightedAtMost(s, w, Max3(l, m, r), l, m, r);
  }

  lemma WeightedAtLeast(s: real, w: real, lo: real, l: real, m: real, r: real)
    requires s >= 0.0 && w >= 0.0 && s + w + s == 1.0
    requires lo <= l && lo <= m && lo <= r
    ensures lo <= s * l + w * m + s * r
  {
    var d1, d2, d3 := l - lo, m - lo, r - lo;
    MulNonneg(s, d1);
    MulNonneg(w, d2);
    MulNonneg(s, d3);
    assert s * l + w * m + s * r == s * d1 + w * d2 + s * d3 + (s + w + s) * lo;
  }

  lemma WeightedAtMost(s: real, w: real, hi: real, l: real, m: real, r: real)
    requires s >= 0.0 && w >= 0.0 && s + w + s == 1.0
    requires l <= hi && m <= hi && r <= hi
    ensures s * l + w * m + s * r <= hi
  {
    var d1, d2, d3 := hi - l, hi - m, hi - r;
    MulNonneg(s, d1);
    MulNonneg(w, d2);
    MulNonneg(s, d3);
    assert s * l + w * m + s * r == (s + w + s) * hi - (s * d1 + w * d2 + s * d3);
  }

  lemma MulNonneg(a: real, b: real)
    requires a >= 0.0 && b >= 0.0
    ensures a * b >= 0.0
  {
  }

  /** With a probability in [0, 1] the three weights form a distribution, so
      the backup is an average of the three realisations' returns and lies
      between the smallest and the largest of them. */
  lemma BackupIsAverage(g: Grid, p: Params, action: int, x: int, y: int)
    requires ValidGrid(g) && IndexIsValid(x, y) && IsAction(action)
    requires 0.0 <= p.probability <= 1.0
    ensures var lo := Min3(Gain(g, p, x, y, Realised(action, -1)),
                           Gain(g, p, x, y, Realised(action, 0)),
                           Gain(g, p, x, y, Realised(action, 1)));
            var hi := Max3(Gain(g, p, x, y, Realised(action, -1)),
                           Gain(g, p, x, y, Realised(action, 0)),
                           Gain(g, p, x, y, Realised(action, 1)));
            lo <= CalculateValue(g, p, action, x, y) <= hi
  {
    var l := Gain(g, p, x, y, Realised(action, -1));
    var m := Gain(g, p, x, y, Realised(action, 0));
    var r := Gain(g, p, x, y, Realised(action, 1));
    var w, s := p.probability, (1.0 - p.probability) / 2.0;
    assert CalculateValue(g, p, action, x, y) == s * l + w * m + s * r;
    WeightedBetween(s, w, l, m, r);
  }

  /** With probability 1 the move is deterministic: the backup is the return
      of the intended action alone. */
  lemma DeterministicBackup(g: Grid, p: Params, action: int, x: int, y: int)
    requires ValidGrid(g) && IndexIsValid(x, y) && IsAction(action)
    requires p.probability == 1.0
    ensures CalculateValue(g, p, action, x, y) == Gain(g, p, x, y, action)
  {
    assert Realised(action, 0) == action;
  }

  /** Two grids with the same kinds and values everywhere; actions and
      recorded positions may differ. */
  predicate SameKindsAndValues(g: Grid, h: Grid)
    requires ValidGrid(g) && ValidGrid(h)
  {
    forall k :: 0 <= k < N ==> g[k].kind == h[k].kind && g[k].value == h[k].value
  }

  /** The backup reads only the kinds and values of cells. */
  lemma BackupReadsKindsAndValues(g: Grid, h: Grid, p: Params, action: int, x: int, y: int)
    requires ValidGrid(g) && ValidGrid(h) && SameKindsAndValues(g, h)
    requires IndexIsValid(x, y) && IsAction(action)
    ensures CalculateValue(g, p, action, x, y) == CalculateValue(h, p, action, x, y)
  {
    TermReadsKindsAndValues(g, h, p, action, x, y, -1);
    TermReadsKindsAndValues(g, h, p, action, x, y, 0);
    TermReadsKindsAndValues(g, h, p, action, x, y, 1);
  }

  lemma TermReadsKindsAndValues(g: Grid, h: Grid, p: Params, action: int, x: int, y: int, i: int)
    requires ValidGrid(g) && ValidGrid(h) && SameKindsAndValues(g, h)
    requires IndexIsValid(x, y) && IsAction(action) && -1 <= i <= 1
    ensures Term(g, p, action, x, y, i) == Term(h, p, action, x, y, i)
  {
    var a := Realised(action, i);
    var o := Resolve(g, p, x, y, a);
    ResolveReadsKinds(g, h, p, x, y, a);
    assert At(g, o.tx, o.ty).value == At(h, o.tx, o.ty).value;
    assert Gain(g, p, x, y, a) == Gain(h, p, x, y, a);
  }

  /** Target resolution reads only the kind of the neighbouring cell. */
  lemma ResolveReadsKinds(g: Grid, h: Grid, p: Params, x: int, y: int, a: int)
    requires ValidGrid(g) && ValidGrid(h) && SameKindsAndValues(g, h)
    requires IndexIsValid(x, y) && IsAction(a)
    ensures Resolve(g, p, x, y, a) == Resolve(h, p, x, y, a)
  {
    var nx, ny := x + StepX(a), y + StepY(a);
    if IndexIsValid(nx, ny) {
      assert At(g, nx, ny).kind == At(h, nx, ny).kind;
    }
  }

  /** The eight backups at (x, y), indexed by intended action. */
  function Backups(g: Grid, p: Params, x: int, y: int): (q: seq<real>)
    requires ValidGrid(g) && IndexIsValid(x, y)
    ensures |q| == 8
    ensures forall a :: 0 <= a < 8 ==> q[a] == CalculateValue(g, p, a, x, y)
  {
    seq(8, a requires 0 <= a < 8 => CalculateValue(g, p, a, x, y))
  }

  /** `a` is the first index of a largest element of `q`: no element is
      larger, and every earlier element is strictly smaller. */
  ghost predicate IsFirstArgMax(q: seq<real>, a: int)
  {
    && 0 <= a < |q|
    && (forall b :: 0 <= b < |q| ==> q[b] <= q[a])
    && (forall b :: 0 <= b < a ==> q[b] < q[a])
  }

  lemma FirstArgMaxUnique(q: seq<real>, a: int, b: int)
    requires IsFirstArgMax(q, a) && IsFirstArgMax(q, b)
    ensures a == b
  {
    assert q[a] <= q[b] && q[b] <= q[a];
  }

  /** Scan of q[from..] keeping `best`, which a later element replaces only
      when it is strictly larger. */
  function ScanBest(q: seq<real>, from: int, best: int): (r: int)
    requires 0 <= best < from <= |q|
    requires forall b :: 0 <= b < from ==> q[b] <= q[best]
    requires forall b :: 0 <= b < best ==> q[b] < q[best]
    ensures IsFirstArgMax(q, r)
    decreases |q| - from
  {
    if from == |q| then best
    else if q[from] > q[best] then ScanBest(q, from + 1, from)
    else ScanBest(q, from + 1, best)
  }

  /** The greedy action at (x, y): the first action with the largest backup. */
  function BestAction(g: Grid, p: Params, x: int, y: int): (a: int)
    requires ValidGrid(g) && IndexIsValid(x, y)
    ensures IsAction(a)
    ensures IsFirstArgMax(Backups(g, p, x, y), a)
  {
    ScanBest(Backups(g, p, x, y), 1, 0)
  }

  /** The largest backup at (x, y). */
  function BestValue(g: Grid, p: Params, x: int, y: int): (v: real)
    requires ValidGrid(g) && IndexIsValid(x, y)
  {
    CalculateValue(g, p, BestAction(g, p, x, y), x, y)
  }

  /** The best value is the largest of the eight backups, attained by the
      greedy action. */
  lemma BestValueIsMax(g: Grid, p: Params, x: int, y: int)
    requires ValidGrid(g) && IndexIsValid(x, y)
    ensures forall b :: 0 <= b < 8 ==> CalculateValue(g, p, b, x, y) <= BestValue(g, p, x, y)
    ensures exists b :: 0 <= b < 8 && CalculateValue(g, p, b, x, y) == BestValue(g, p, x, y)
  {
    var q := Backups(g, p, x, y);
    var a := BestAction(g, p, x, y);
    assert q[a] == BestValue(g, p, x, y);
    forall b | 0 <= b < 8 ensures CalculateValue(g, p, b, x, y) <= BestValue(g, p, x, y) {
      assert q[b] <= q[a];
    }
  }

  /** The greedy choice reads only kinds and values. */
  lemma BestReadsKindsAndValues(g: Grid, h: Grid, p: Params, x: int, y: int)
    requires ValidGrid(g) && ValidGrid(h) && SameKindsAndValues(g, h)
    requires IndexIsValid(x, y)
    ensures BestAction(g, p, x, y) == BestAction(h, p, x, y)
    ensures BestValue(g, p, x, y) == BestValue(h, p, x, y)
  {
    forall b | 0 <= b < 8
      ensures Backups(g, p, x, y)[b] == Backups(h, p, x, y)[b]
    {
      BackupReadsKindsAndValues(g, h, p, b, x, y);
    }
    assert Backups(g, p, x, y) == Backups(h, p, x, y);
  }
}
