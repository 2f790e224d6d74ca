/** The simulator object: a W x H array of cells that is built once, replaced
    by a freshly computed buffer on every tick and changed in place by a click. */
module ForestFire {
  import opened ForestRules

  class ForestFireSimulator {
    const width: nat
    const height: nat
    var pFire: real
    var pGrow: real
    var forest: array2<Cell>

    /** The grid the array holds, as a value: `Cells[x][y] == forest[x, y]`. */
    ghost var Cells: Grid

    ghost predicate Valid()
      reads this, forest
    {
      forest.Length0 == width && forest.Length1 == height &&
      |Cells| == width && Rect(Cells) && (forall x :: 0 <= x < width ==> |Cells[x]| == height) &&
      forall x, y :: 0 <= x < width && 0 <= y < height ==> Cells[x][y] == forest[x, y]
    }

    /** Builds the simulator and its initial forest from one draw per cell.
        It uses the corrected initialisation `InitForest` (a tree or empty
        ground by the cell's draw), not the all-TREE grid the program itself
        leaves, which `InitForestAsWritten` keeps. */
    constructor (width: nat, height: nat, pTree: real, pFire: real, pGrow: real, draws: seq<real>)
      requires width * height <= |draws|
      ensures Valid() && fresh(forest)
      ensures this.width == width && this.height == height
      ensures this.pFire == pFire && this.pGrow == pGrow
      ensures Cells == InitialGrid(width, height, pTree, draws)
    {
      this.width := width;
      this.height := height;
      this.pFire := pFire;
      this.pGrow := pGrow;
      forest := new Cell[width, height];
      new;
      InitForest(pTree, draws);
    }

    /** Fills a fresh forest, one draw per cell in scan order: a tree where
        the draw is below `pTree`, an empty cell otherwise. */
    method InitForest(pTree: real, draws: seq<real>)
      requires width * height <= |draws|
      modifies this`forest, this`Cells
      ensures Valid() && fresh(forest)
      ensures Cells == InitialGrid(width, height, pTree, draws)
    {
      // The zero-filled buffer: the integer code 0 is TREE.
      var f := new Cell[width, height]((_, _) => Tree);
      for x := 0 to width
        invariant forall i, j :: 0 <= i < x && 0 <= j < height ==> f[i, j] == InitCell(draws[ScanIndex(width, height, i, j)], pTree)
      {
        for y := 0 to height
          invariant forall i, j :: 0 <= i < x && 0 <= j < height ==> f[i, j] == InitCell(draws[ScanIndex(width, height, i, j)], pTree)
          invariant forall j :: 0 <= j < y ==> f[x, j] == InitCell(draws[ScanIndex(width, height, x, j)], pTree)
        {
          if draws[ScanIndex(width, height, x, y)] < pTree {
            f[x, y] := Tree;
          } else {
            f[x, y] := Empty;
          }
        }
      }
      forest := f;
      Cells := InitialGrid(width, height, pTree, draws);
    }

    /** The initialisation exactly as the simulator writes it: the buffer
        starts zero-filled, which is TREE, and the branch for a draw at or
        above `pTree` only paints the square, so every cell stays a tree. */
    method InitForestAsWritten(pTree: real, draws: seq<real>)
      requires width * height <= |draws|
      modifies this`forest, this`Cells
      ensures Valid() && fresh(forest)
      ensures Cells == AllTree(width, height)
    {
      var f := new Cell[width, height]((_, _) => Tree);
      for x := 0 to width
        invariant forall i, j :: 0 <= i < width && 0 <= j < height ==> f[i, j] == Tree
      {
        for y := 0 to height
          invariant forall i, j :: 0 <= i < width && 0 <= j < height ==> f[i, j] == Tree
        {
          if draws[ScanIndex(width, height, x, y)] < pTree {
            f[x, y] := Tree;
          }
        }
      }
      forest := f;
      Cells := AllTree(width, height);
    }

    /** One tick. The old grid is only read; every decision lands in a copy,
        which then replaces the grid. Returns how many draws were used. */
    method Step(draws: seq<real>) returns (used: nat)
      requires Valid() && Enough(Cells, draws)
      modifies this`forest, this`Cells
      ensures Valid() && fresh(forest)
      ensures Cells == NextGrid(old(Cells), draws, pFire, pGrow)
      ensures used == TotalDraws(old(Cells))
    {
      var next := Copy();
      used := StepColumns(Cells, next, draws);
      forest := next;
      Cells := NextGrid(Cells, draws, pFire, pGrow);
    }

    /** The outer loop of the tick, over the columns: decides every cell of
        `next` from the grid and returns the number of draws used. */
    method StepColumns(ghost g: Grid, next: array2<Cell>, draws: seq<real>) returns (k: nat)
      requires Valid() && g == Cells && next != forest && next.Length0 == width && next.Length1 == height
      requires Enough(g, draws)
      requires forall i, j :: 0 <= i < width && 0 <= j < height ==> next[i, j] == g[i][j]
      modifies next
      ensures forall i, j :: 0 <= i < width && 0 <= j < height ==> next[i, j] == NextCell(g, draws, pFire, pGrow, i, j)
      ensures k == TotalDraws(g)
    {
      k := 0;
      for x := 0 to width
        invariant k == ColumnsCost(g, x)
        invariant forall i, j :: 0 <= i < x && 0 <= j < height ==> next[i, j] == NextCell(g, draws, pFire, pGrow, i, j)
        invariant forall i, j :: x <= i < width && 0 <= j < height ==> next[i, j] == g[i][j]
      {
        k := StepColumn(g, next, draws, x, k);
      }
    }

    /** A fresh array holding the same cells as the grid. */
    method Copy() returns (c: array2<Cell>)
      requires Valid()
      ensures fresh(c) && c.Length0 == width && c.Length1 == height
      ensures forall i, j :: 0 <= i < width && 0 <= j < height ==> c[i, j] == Cells[i][j]
    {
      var cur := forest;
      c := new Cell[width, height]((i, j) reads cur requires 0 <= i < width && 0 <= j < height => cur[i, j]);
    }

    /** The inner loop of the tick, over the rows of column x. */
    method StepColumn(ghost g: Grid, next: array2<Cell>, draws: seq<real>, x: int, k: nat) returns (k': nat)
      requires Valid() && g == Cells && next != forest && next.Length0 == width && next.Length1 == height
      requires Enough(g, draws) && 0 <= x < width
      requires k == ColumnsCost(g, x)
      requires forall j :: 0 <= j < height ==> next[x, j] == g[x][j]
      modifies next
      ensures forall j :: 0 <= j < height ==> next[x, j] == NextCell(g, draws, pFire, pGrow, x, j)
      ensures forall i, j :: 0 <= i < width && 0 <= j < height && i != x ==> next[i, j] == old(next[i, j])
      ensures k' == ColumnsCost(g, x + 1)
    {
      k' := k;
      for y := 0 to height
        invariant k' == DrawIndex(g, x, y)
        invariant forall j :: 0 <= j < y ==> next[x, j] == NextCell(g, draws, pFire, pGrow, x, j)
        invariant forall j :: y <= j < height ==> next[x, j] == g[x][j]
        invariant forall i, j :: 0 <= i < width && 0 <= j < height && i != x ==> next[i, j] == old(next[i, j])
      {
        k' := StepCell(g, next, draws, x, y, k');
      }
    }

    /** The body of the tick's loop for cell (x, y): reads the old grid,
        writes the decision into `next`, and takes the cell's draw, if any,
        at position `k`. Returns the position of the next unused draw. */
    method StepCell(ghost g: Grid, next: array2<Cell>, draws: seq<real>, x: int, y: int, k: nat) returns (k': nat)
      requires Valid() && g == Cells && next != forest && next.Length0 == width && next.Length1 == height
      requires Enough(g, draws) && 0 <= x < width && 0 <= y < height
      requires k == DrawIndex(g, x, y) && next[x, y] == g[x][y]
      modifies next
      ensures next[x, y] == NextCell(g, draws, pFire, pGrow, x, y)
      ensures forall j :: 0 <= j < height && j != y ==> next[x, j] == old(next[x, j])
      ensures forall i, j :: 0 <= i < width && 0 <= j < height && i != x ==> next[i, j] == old(next[i, j])
      ensures k' == DrawIndex(g, x, y + 1)
    {
      DrawIndexInRange(g, x, y);
      k' := k;
      var c := forest[x, y];
      if c == Fire {
        next[x, y] := Empty;
      } else if c == Tree {
        var burning := exists i | 0 <= i < 4 :: forest[Wrap(x + DX[i], width), Wrap(y + DY[i], height)] == Fire;
        assert burning == Burning(g, x, y);
        if burning {
          next[x, y] := Fire;
        } else {
          if draws[k] < pFire {
            next[x, y] := Fire;
          }
          k' := k + 1;
        }
      } else {
        // the one remaining state, EMPTY
        if draws[k] < pGrow {
          next[x, y] := Tree;
        }
        k' := k + 1;
      }
    }

    /** Point ignition at cell (x, y): a tree catches fire; a fire or an empty
        cell is left as it is. Reports whether the cell was ignited. */
    method Ignite(x: int, y: int) returns (ignited: bool)
      requires Valid() && 0 <= x < width && 0 <= y < height
      modifies forest, this`Cells
      ensures Valid()
      ensures ignited == (old(Cells[x][y]) == Tree)
      ensures Cells == Ignited(old(Cells), x, y)
    {
      ignited := forest[x, y] == Tree;
      if ignited {
        forest[x, y] := Fire;
      }
      Cells := Ignited(Cells, x, y);
    }

    /** A click at pixel (px, py) ignites the cell whose square holds it. */
    method MousePress(px: int, py: int)
      requires Valid() && 0 <= CellOf(px) < width && 0 <= CellOf(py) < height
      modifies forest, this`Cells
      ensures Valid()
      ensures Cells == Ignited(old(Cells), CellOf(px), CellOf(py))
    {
      var x, y := CellOf(px), CellOf(py);
      var _ := Ignite(x, y);
    }
  }
}
