/** What one step, an ignition and the initialisation guarantee, proved
    from the rules in ForestRules. */
module ForestProperties {
  import opened ForestRules

  // ----- Neighbourhood -----

  /** The neighbour test through the offset tables looks at exactly the four
      compass neighbours, each coordinate wrapped around the torus. */
  lemma BurningIff(g: Grid, x: int, y: int)
    requires Rect(g) && InBounds(g, x, y)
    ensures var w, h := |g|, Height(g);
      Burning(g, x, y) <==>
        g[Wrap(x + 1, w)][y] == Fire || g[Wrap(x - 1, w)][y] == Fire ||
        g[x][Wrap(y + 1, h)] == Fire || g[x][Wrap(y - 1, h)] == Fire
  {
    var w, h := |g|, Height(g);
    assert Wrap(x + DX[0], w) == x && Wrap(y + DY[0], h) == Wrap(y + 1, h);
    assert Wrap(x + DX[1], w) == Wrap(x + 1, w) && Wrap(y + DY[1], h) == y;
    assert Wrap(x + DX[2], w) == x && Wrap(y + DY[2], h) == Wrap(y - 1, h);
    assert Wrap(x + DX[3], w) == Wrap(x - 1, w) && Wrap(y + DY[3], h) == y;
  }

  /** A fire in the first column reaches a tree in the last one, and the
      other way round: the columns wrap. */
  lemma {:induction false} SpreadWrapsAcrossColumns(g: Grid, ds: seq<real>, pFire: real, pGrow: real, y: int)
    requires Rect(g) && Enough(g, ds) && |g| > 0 && 0 <= y < Height(g)
    ensures var w := |g|;
      g[0][y] == Fire && g[w - 1][y] == Tree ==> NextGrid(g, ds, pFire, pGrow)[w - 1][y] == Fire
    ensures var w := |g|;
      g[w - 1][y] == Fire && g[0][y] == Tree ==> NextGrid(g, ds, pFire, pGrow)[0][y] == Fire
  {
    var w := |g|;
    BurningIff(g, w - 1, y);
    BurningIff(g, 0, y);
    if g[0][y] == Fire && g[w - 1][y] == Tree {
      NeighbourFireSpreads(g, ds, pFire, pGrow, w - 1, y);
    }
    if g[w - 1][y] == Fire && g[0][y] == Tree {
      NeighbourFireSpreads(g, ds, pFire, pGrow, 0, y);
    }
  }

  /** A fire in the first row reaches a tree in the last one, and the other
      way round: the rows wrap. */
  lemma {:induction false} SpreadWrapsAcrossRows(g: Grid, ds: seq<real>, pFire: real, pGrow: real, x: int)
    requires Rect(g) && Enough(g, ds) && 0 <= x < |g| && Height(g) > 0
    ensures var h := Height(g);
      g[x][0] == Fire && g[x][h - 1] == Tree ==> NextGrid(g, ds, pFire, pGrow)[x][h - 1] == Fire
    ensures var h := Height(g);
      g[x][h - 1] == Fire && g[x][0] == Tree ==> NextGrid(g, ds, pFire, pGrow)[x][0] == Fire
  {
    var h := Height(g);
    BurningIff(g, x, h - 1);
    BurningIff(g, x, 0);
    if g[x][0] == Fire && g[x][h - 1] == Tree {
      NeighbourFireSpreads(g, ds, pFire, pGrow, x, h - 1);
    }
    if g[x][h - 1] == Fire && g[x][0] == Tree {
      NeighbourFireSpreads(g, ds, pFire, pGrow, x, 0);
    }
  }

  // ----- The cell rules of one step -----

  /** A fire burns out in one step and takes no draw. */
  lemma FireBurnsOut(g: Grid, ds: seq<real>, pFire: real, pGrow: real, x: int, y: int)
    requires Rect(g) && Enough(g, ds) && InBounds(g, x, y) && g[x][y] == Fire
    ensures NextGrid(g, ds, pFire, pGrow)[x][y] == Empty
    ensures DrawIndex(g, x, y + 1) == DrawIndex(g, x, y)
  {
  }

  /** A tree next to a fire catches fire whatever `pFire` and the draws are,
      and its spontaneous draw is never taken. */
  lemma NeighbourFireSpreads(g: Grid, ds: seq<real>, pFire: real, pGrow: real, x: int, y: int)
    requires Rect(g) && Enough(g, ds) && InBounds(g, x, y)
    requires g[x][y] == Tree && Burning(g, x, y)
    ensures NextGrid(g, ds, pFire, pGrow)[x][y] == Fire
    ensures DrawIndex(g, x, y + 1) == DrawIndex(g, x, y)
  {
  }

  /** A tree with no burning neighbour takes one draw and catches fire
      exactly when that draw is below `pFire`; otherwise it stays a tree. */
  lemma SpontaneousIgnition(g: Grid, ds: seq<real>, pFire: real, pGrow: real, x: int, y: int)
    requires Rect(g) && Enough(g, ds) && InBounds(g, x, y)
    requires g[x][y] == Tree && !Burning(g, x, y)
    ensures DrawIndex(g, x, y) < |ds| && DrawIndex(g, x, y + 1) == DrawIndex(g, x, y) + 1
    ensures var r := NextGrid(g, ds, pFire, pGrow)[x][y];
      (r == Fire <==> ds[DrawIndex(g, x, y)] < pFire) && (r != Fire ==> r == Tree)
  {
    DrawIndexInRange(g, x, y);
  }

  /** An empty cell takes one draw and grows a tree exactly when that draw
      is below `pGrow`; otherwise it stays empty. */
  lemma Regrowth(g: Grid, ds: seq<real>, pFire: real, pGrow: real, x: int, y: int)
    requires Rect(g) && Enough(g, ds) && InBounds(g, x, y) && g[x][y] == Empty
    ensures DrawIndex(g, x, y) < |ds| && DrawIndex(g, x, y + 1) == DrawIndex(g, x, y) + 1
    ensures var r := NextGrid(g, ds, pFire, pGrow)[x][y];
      (r == Tree <==> ds[DrawIndex(g, x, y)] < pGrow) && (r != Tree ==> r == Empty)
  {
    DrawIndexInRange(g, x, y);
  }

  /** Where a cell's new state comes from: a fire was a tree, an empty cell
      was a fire or empty, a tree was a tree or empty. */
  lemma Predecessors(g: Grid, ds: seq<real>, pFire: real, pGrow: real, x: int, y: int)
    requires Rect(g) && Enough(g, ds) && InBounds(g, x, y)
    ensures var r := NextGrid(g, ds, pFire, pGrow)[x][y];
      (r == Fire ==> g[x][y] == Tree) &&
      (r == Empty ==> g[x][y] != Tree) &&
      (r == Tree ==> g[x][y] != Fire)
  {
  }

  /** The step without chance: a fire burns out, a tree burns exactly when
      a neighbour burns, an empty cell stays empty. */
  function BurnOnly(g: Grid): (r: Grid)
    requires Rect(g)
    ensures |r| == |g| && forall x :: 0 <= x < |g| ==> |r[x]| == |g[x]|
  {
    seq(|g|, x requires 0 <= x < |g| =>
      seq(|g[x]|, y requires 0 <= y < |g[x]| =>
        match g[x][y]
        case Fire => Empty
        case Tree => if Burning(g, x, y) then Fire else Tree
        case Empty => Empty))
  }

  /** With both probabilities at zero nothing happens by chance: whatever
      the draws, the step is the deterministic burn. */
  lemma ZeroProbabilityStep(g: Grid, ds: seq<real>, pFire: real, pGrow: real)
    requires Rect(g) && Enough(g, ds) && UnitDraws(ds)
    requires pFire <= 0.0 && pGrow <= 0.0
    ensures NextGrid(g, ds, pFire, pGrow) == BurnOnly(g)
  {
    forall x, y | InBounds(g, x, y)
      ensures NextGrid(g, ds, pFire, pGrow)[x][y] == BurnOnly(g)[x][y]
    {
      DrawIndexInRange(g, x, y);
    }
    GridExt(NextGrid(g, ds, pFire, pGrow), BurnOnly(g));
  }

  /** Fire does not travel within a step: from a grid with no fire, a cell
      burns afterwards only if it was a tree whose own draw fell below
      `pFire`, even when a neighbour ignites in the same step. */
  lemma NoSpreadWithinStep(g: Grid, ds: seq<real>, pFire: real, pGrow: real, x: int, y: int)
    requires Rect(g) && Enough(g, ds) && InBounds(g, x, y)
    requires forall i, j :: InBounds(g, i, j) ==> g[i][j] != Fire
    ensures DrawIndex(g, x, y) + Cost(g, x, y) <= |ds|
    ensures NextGrid(g, ds, pFire, pGrow)[x][y] == Fire <==>
      g[x][y] == Tree && ds[DrawIndex(g, x, y)] < pFire
  {
    DrawIndexInRange(g, x, y);
    var h := Height(g);
    forall i | 0 <= i < 4
      ensures g[Wrap(x + DX[i], |g|)][Wrap(y + DY[i], h)] != Fire
    {
      assert InBounds(g, Wrap(x + DX[i], |g|), Wrap(y + DY[i], h));
    }
  }

  // ----- The draws -----

  /** Draws are taken in scan order (column by column, row by row within a
      column): a cell scanned earlier uses only positions before those of
      any later cell. */
  lemma {:induction false} DrawOrder(g: Grid, x: int, y: int, x': int, y': int)
    requires Rect(g) && InBounds(g, x, y) && InBounds(g, x', y')
    requires x < x' || (x == x' && y < y')
    ensures DrawIndex(g, x, y) + Cost(g, x, y) <= DrawIndex(g, x', y')
  {
    if x == x' {
      ColumnCostMono(g, x, y + 1, y');
    } else {
      ColumnCostMono(g, x, y + 1, |g[x]|);
      ColumnsCostMono(g, x + 1, x');
    }
  }

  /** Two different cells that both take a draw take different ones: every
      draw decides at most one cell. */
  lemma DistinctDraws(g: Grid, x: int, y: int, x': int, y': int)
    requires Rect(g) && InBounds(g, x, y) && InBounds(g, x', y') && (x, y) != (x', y')
    requires Cost(g, x, y) == 1 && Cost(g, x', y') == 1
    ensures DrawIndex(g, x, y) != DrawIndex(g, x', y')
  {
    if x < x' || (x == x' && y < y') {
      DrawOrder(g, x, y, x', y');
    } else {
      DrawOrder(g, x', y', x, y);
    }
  }

  lemma {:induction false} ColumnCostAtMost(g: Grid, x: int, y: nat)
    requires Rect(g) && 0 <= x < |g| && y <= |g[x]|
    ensures ColumnCost(g, x, y) <= y
  {
    if y > 0 {
      ColumnCostAtMost(g, x, y - 1);
    }
  }

  lemma {:induction false} ColumnsCostAtMost(g: Grid, x: nat)
    requires Rect(g) && x <= |g|
    ensures ColumnsCost(g, x) <= x * Height(g)
  {
    if x > 0 {
      ColumnsCostAtMost(g, x - 1);
      ColumnCostAtMost(g, x - 1, |g[x - 1]|);
      assert (x - 1) * Height(g) + Height(g) == x * Height(g);
    }
  }

  /** A step takes at most one draw per cell. */
  lemma TotalDrawsAtMostCells(g: Grid)
    requires Rect(g)
    ensures TotalDraws(g) <= |g| * Height(g)
  {
    ColumnsCostAtMost(g, |g|);
  }

  // ----- Ignition -----

  /** Igniting twice is igniting once. */
  lemma IgniteIdempotent(g: Grid, x: int, y: int)
    requires InBounds(g, x, y)
    ensures InBounds(Ignited(g, x, y), x, y)
    ensures Ignited(Ignited(g, x, y), x, y) == Ignited(g, x, y)
  {
  }

  /** An ignited tree is gone after the next step. */
  lemma IgnitedTreeBurnsOut(g: Grid, ds: seq<real>, pFire: real, pGrow: real, x: int, y: int)
    requires Rect(g) && InBounds(g, x, y) && g[x][y] == Tree
    requires Rect(Ignited(g, x, y)) && Enough(Ignited(g, x, y), ds)
    ensures NextGrid(Ignited(g, x, y), ds, pFire, pGrow)[x][y] == Empty
  {
    FireBurnsOut(Ignited(g, x, y), ds, pFire, pGrow, x, y);
  }

  // ----- Initialisation -----

  /** With every draw below `pTree` the intended initial grid is all trees;
      with none below, it is all empty. */
  lemma InitialDensityExtremes(w: nat, h: nat, pTree: real, ds: seq<real>)
    requires w * h <= |ds| && UnitDraws(ds)
    ensures pTree >= 1.0 ==> InitialGrid(w, h, pTree, ds) == AllTree(w, h)
    ensures pTree <= 0.0 ==> forall x, y :: 0 <= x < w && 0 <= y < h ==> InitialGrid(w, h, pTree, ds)[x][y] == Empty
  {
    if pTree >= 1.0 {
      GridExt(InitialGrid(w, h, pTree, ds), AllTree(w, h));
    }
  }

  /** The initialisation as the simulator writes it disagrees with the
      intended one: on a 1 x 1 grid whose one draw 0.75 is not below
      `pTree` = 0.5 the cell should be empty, but the simulator leaves a tree. */
  lemma InitAsWrittenIgnoresDensity()
    ensures InitialGrid(1, 1, 0.5, [0.75]) == [[Empty]]
    ensures AllTree(1, 1) == [[Tree]]
    ensures AllTree(1, 1) != InitialGrid(1, 1, 0.5, [0.75])
  {
    GridExt(InitialGrid(1, 1, 0.5, [0.75]), [[Empty]]);
    GridExt(AllTree(1, 1), [[Tree]]);
  }

  // ----- A lone fire -----

  /** Cell (x, y) has (fx, fy) among its four neighbours on the torus. */
  predicate Touches(g: Grid, x: int, y: int, fx: int, fy: int)
    requires Rect(g) && InBounds(g, x, y)
  {
    exists i | 0 <= i < 4 :: Wrap(x + DX[i], |g|) == fx && Wrap(y + DY[i], Height(g)) == fy
  }

  /** A single fire in a forest of trees, with both probabilities at zero:
      after one step the fire is out, exactly the trees touching it burn,
      and every other tree stays. */
  lemma LoneFire(g: Grid, ds: seq<real>, pFire: real, pGrow: real, fx: int, fy: int)
    requires Rect(g) && Enough(g, ds) && UnitDraws(ds) && pFire <= 0.0 && pGrow <= 0.0
    requires InBounds(g, fx, fy) && g[fx][fy] == Fire
    requires forall i, j :: InBounds(g, i, j) && (i, j) != (fx, fy) ==> g[i][j] == Tree
    ensures forall x, y :: InBounds(g, x, y) ==>
      NextGrid(g, ds, pFire, pGrow)[x][y] ==
        if (x, y) == (fx, fy) then Empty
        else if Touches(g, x, y, fx, fy) then Fire
        else Tree
  {
    ZeroProbabilityStep(g, ds, pFire, pGrow);
    var h := Height(g);
    forall x, y | InBounds(g, x, y) && (x, y) != (fx, fy)
      ensures Burning(g, x, y) <==> Touches(g, x, y, fx, fy)
    {
      if Burning(g, x, y) {
        var i :| 0 <= i < 4 && g[Wrap(x + DX[i], |g|)][Wrap(y + DY[i], h)] == Fire;
        assert InBounds(g, Wrap(x + DX[i], |g|), Wrap(y + DY[i], h));
      }
      if Touches(g, x, y, fx, fy) {
        var i :| 0 <= i < 4 && Wrap(x + DX[i], |g|) == fx && Wrap(y + DY[i], h) == fy;
        assert g[Wrap(x + DX[i], |g|)][Wrap(y + DY[i], h)] == Fire;
      }
    }
  }
}
