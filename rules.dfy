/** The transition rules of the forest-fire automaton, stated on grid values.
    A grid `g` is indexed `g[x][y]`: `x` is the column in [0, W) and `y` the row
    in [0, H), as in the simulator's `forest[x, y]`.

    The random numbers the simulator draws are given as a sequence `ds` of the
    values that `random.random()` returned, in the order they were requested.
    A cell asks for a draw only when its rule needs one, so the position of a
    cell's draw depends on the cells scanned before it (columns outer, rows
    inner). */
module ForestRules {

  /** The three cell states; the simulator encodes them as the integers
      TREE = 0, FIRE = 1, EMPTY = 2. */
  datatype Cell = Tree | Fire | Empty

  /** Side, in pixels, of the square that shows one cell. */
  const SIZE: int := 10

  /** Neighbour offsets, tried in this order: (0,1), (1,0), (0,-1), (-1,0). */
  const DX: seq<int> := [0, 1, 0, -1]
  const DY: seq<int> := [1, 0, -1, 0]

  type Grid = seq<seq<Cell>>

  function Height(g: Grid): nat
  {
    if |g| == 0 then 0 else |g[0]|
  }

  /** Every column has the same number of rows. */
  ghost predicate Rect(g: Grid)
  {
    forall x :: 0 <= x < |g| ==> |g[x]| == Height(g)
  }

  predicate InBounds(g: Grid, x: int, y: int)
  {
    0 <= x < |g| && 0 <= y < |g[x]|
  }

  /** The simulator's `i % n` for a positive `n`. Python's `%` rounds the
      quotient down and Dafny's is Euclidean; for a positive divisor both give
      the remainder in [0, n). */
  function Wrap(i: int, n: int): (r: int)
    requires n > 0
    ensures 0 <= r < n
    ensures 0 <= i < n ==> r == i
    ensures i == -1 ==> r == n - 1
    ensures i == n ==> r == 0
  {
    i % n
  }

  /** The pixel-to-cell mapping `p // SIZE`: the cell whose square holds pixel `p`.
      Python's `//` rounds down, which is Dafny's `/` for a positive divisor. */
  function CellOf(p: int): (c: int)
    ensures c * SIZE <= p < c * SIZE + SIZE
  {
    p / SIZE
  }

  /** Some orthogonal neighbour of (x, y), taken on the torus, is burning. */
  predicate Burning(g: Grid, x: int, y: int)
    requires Rect(g) && InBounds(g, x, y)
  {
    exists i | 0 <= i < 4 :: g[Wrap(x + DX[i], |g|)][Wrap(y + DY[i], Height(g))] == Fire
  }

  /** How many draws cell (x, y) takes: a fire takes none, a tree with a
      burning neighbour takes none, a quiet tree and an empty cell take one. */
  function Cost(g: Grid, x: int, y: int): nat
    requires Rect(g) && InBounds(g, x, y)
  {
    match g[x][y]
    case Fire => 0
    case Tree => if Burning(g, x, y) then 0 else 1
    case Empty => 1
  }

  /** Draws taken by the first `y` cells of column `x`. */
  function ColumnCost(g: Grid, x: int, y: nat): nat
    requires Rect(g) && 0 <= x < |g| && y <= |g[x]|
  {
    if y == 0 then 0 else ColumnCost(g, x, y - 1) + Cost(g, x, y - 1)
  }

  /** Draws taken by the first `x` columns. */
  function ColumnsCost(g: Grid, x: nat): nat
    requires Rect(g) && x <= |g|
  {
    if x == 0 then 0 else ColumnsCost(g, x - 1) + ColumnCost(g, x - 1, |g[x - 1]|)
  }

  /** Draws taken before the scan reaches cell (x, y); for a cell that takes
      a draw, this is the position of its draw in `ds`. */
  function DrawIndex(g: Grid, x: int, y: nat): nat
    requires Rect(g) && 0 <= x < |g| && y <= |g[x]|
  {
    ColumnsCost(g, x) + ColumnCost(g, x, y)
  }

  /** Draws taken by one whole step over `g`. */
  function TotalDraws(g: Grid): nat
    requires Rect(g)
  {
    ColumnsCost(g, |g|)
  }

  lemma {:induction false} ColumnCostMono(g: Grid, x: int, y: nat, y': nat)
    requires Rect(g) && 0 <= x < |g| && y <= y' <= |g[x]|
    ensures ColumnCost(g, x, y) <= ColumnCost(g, x, y')
    decreases y' - y
  {
    if y < y' {
      ColumnCostMono(g, x, y, y' - 1);
    }
  }

  lemma {:induction false} ColumnsCostMono(g: Grid, x: nat, x': nat)
    requires Rect(g) && x <= x' <= |g|
    ensures ColumnsCost(g, x) <= ColumnsCost(g, x')
    decreases x' - x
  {
    if x < x' {
      ColumnsCostMono(g, x, x' - 1);
    }
  }

  /** A cell that takes a draw finds it inside a sequence long enough for
      the whole step. */
  lemma DrawIndexInRange(g: Grid, x: int, y: int)
    requires Rect(g) && InBounds(g, x, y)
    ensures DrawIndex(g, x, y) + Cost(g, x, y) <= TotalDraws(g)
  {
    ColumnCostMono(g, x, y + 1, |g[x]|);
    ColumnsCostMono(g, x + 1, |g|);
  }

  /** `ds` holds every draw one step over `g` asks for. */
  predicate Enough(g: Grid, ds: seq<real>)
    requires Rect(g)
  {
    TotalDraws(g) <= |ds|
  }

  /** Every value lies in [0, 1), as `random.random()` promises. */
  predicate UnitDraws(ds: seq<real>)
  {
    forall i :: 0 <= i < |ds| ==> 0.0 <= ds[i] < 1.0
  }

  /** The new state of cell (x, y), decided from the old grid only. */
  function NextCell(g: Grid, ds: seq<real>, pFire: real, pGrow: real, x: int, y: int): Cell
    requires Rect(g) && Enough(g, ds) && InBounds(g, x, y)
  {
    DrawIndexInRange(g, x, y);
    match g[x][y]
    case Fire => Empty
    case Tree =>
      if Burning(g, x, y) then Fire
      else if ds[DrawIndex(g, x, y)] < pFire then Fire
      else Tree
    case Empty => if ds[DrawIndex(g, x, y)] < pGrow then Tree else Empty
  }

  /** One synchronous step: every cell's new state is computed from `g`. */
  function NextGrid(g: Grid, ds: seq<real>, pFire: real, pGrow: real): (r: Grid)
    requires Rect(g) && Enough(g, ds)
    ensures |r| == |g| && Height(r) == Height(g) && Rect(r)
    ensures forall x, y :: InBounds(g, x, y) ==> InBounds(r, x, y) && r[x][y] == NextCell(g, ds, pFire, pGrow, x, y)
  {
    seq(|g|, x requires 0 <= x < |g| =>
      seq(|g[x]|, y requires 0 <= y < |g[x]| => NextCell(g, ds, pFire, pGrow, x, y)))
  }

  /** The intended initial state of a cell whose draw is `d`. */
  function InitCell(d: real, pTree: real): Cell
  {
    if d < pTree then Tree else Empty
  }

  /** Position of cell (x, y) in a W x H scan that visits every cell once,
      columns outer and rows inner. */
  function ScanIndex(w: nat, h: nat, x: nat, y: nat): (k: nat)
    requires x < w && y < h
    ensures k < w * h
    ensures k == x * h + y
  {
    assert x * h + h == (x + 1) * h;
    assert (x + 1) * h <= w * h;
    x * h + y
  }

  /** The intended initial grid: a tree where the cell's draw falls below
      `pTree`, an empty cell otherwise, one draw per cell in scan order. */
  function InitialGrid(w: nat, h: nat, pTree: real, ds: seq<real>): (r: Grid)
    requires w * h <= |ds|
    ensures |r| == w && Rect(r) && forall x :: 0 <= x < w ==> |r[x]| == h
    ensures forall x, y :: 0 <= x < w && 0 <= y < h ==>
      (r[x][y] == Tree <==> ds[ScanIndex(w, h, x, y)] < pTree) && r[x][y] != Fire
  {
    seq(w, x requires 0 <= x < w =>
      seq(h, y requires 0 <= y < h => InitCell(ds[ScanIndex(w, h, x, y)], pTree)))
  }

  /** A W x H grid of trees. */
  function AllTree(w: nat, h: nat): (r: Grid)
    ensures |r| == w && Rect(r)
    ensures forall x, y :: 0 <= x < w && 0 <= y < |r[x]| ==> r[x][y] == Tree
    ensures forall x :: 0 <= x < w ==> |r[x]| == h
  {
    seq(w, _ => seq(h, _ => Tree))
  }

  /** Point ignition: a tree at (x, y) catches fire, nothing else changes. */
  function Ignited(g: Grid, x: int, y: int): (r: Grid)
    requires InBounds(g, x, y)
    ensures |r| == |g| && forall i :: 0 <= i < |g| ==> |r[i]| == |g[i]|
    ensures r[x][y] == (if g[x][y] == Tree then Fire else g[x][y])
    ensures forall i, j :: InBounds(g, i, j) && (i, j) != (x, y) ==> r[i][j] == g[i][j]
    ensures g[x][y] != Tree ==> r == g
  {
    if g[x][y] == Tree then g[x := g[x][y := Fire]] else g
  }

  /** Two grids of the same shape that agree on every cell are equal. */
  lemma GridExt(a: Grid, b: Grid)
    requires |a| == |b| && forall x :: 0 <= x < |a| ==> |a[x]| == |b[x]|
    requires forall x, y :: InBounds(a, x, y) ==> a[x][y] == b[x][y]
    ensures a == b
  {
    forall x | 0 <= x < |a|
      ensures a[x] == b[x]
    {
      assert forall y :: 0 <= y < |a[x]| ==> a[x][y] == b[x][y];
    }
  }
}
