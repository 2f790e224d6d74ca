# Forest-fire cellular automaton

`ForestFireSimulator` (main.py) runs the Drossel–Schwabl forest-fire model on a
W × H torus. Each cell is a tree, a fire or empty ground, stored in a 2-D
integer array `forest[x, y]` with TREE = 0, FIRE = 1 and EMPTY = 2.

- **Start.** The simulator fills the grid once, taking one random draw per cell.
- **Tick.** Each timer tick computes a copy of the grid from the old one:
  - a fire burns out;
  - a tree catches fire if one of its four neighbours burns;
  - a tree with no burning neighbour ignites spontaneously with probability `p_fire`;
  - an empty cell grows a tree with probability `p_grow`.

  The copy then replaces the grid.
- **Click.** A mouse click at pixel (px, py) sets the cell `(px // SIZE, py // SIZE)`
  on fire if it holds a tree.

The model has three modules:

- `ForestRules` (rules.dfy) defines the transition rules on grid values. It defines:
  - the cell datatype;
  - the toroidal wrap and the pixel-to-cell mapping;
  - the neighbour test through the offset tables `dx`/`dy`;
  - the per-cell next state `NextCell` and the whole-grid step `NextGrid`;
  - the initial grid and point ignition.

  The random numbers are a sequence of the values `random.random()` returned, in
  request order. A cell asks for a draw only when its rule needs one, so
  `DrawIndex` computes which draw each cell gets from the cells scanned before it
  (columns outer, rows inner, as the loops run).
- `ForestFire` (simulator.dfy) is the imperative simulator. It is a class with
  the array field `forest`, the probabilities and the grid dimensions. Its methods
  are:
  - `InitForest` and `InitForestAsWritten`: nested loops that fill a fresh array.
  - `Step`: the two nested loops (split into `StepColumns`, `StepColumn` and
    `StepCell`). They write every decision into a copy, then replace the field
    with it.
  - `Ignite` and `MousePress`: in-place ignition.

  A ghost field `Cells` holds the array's contents as a grid value. Every method
  is proved against the rule functions. For example, a tick leaves
  `Cells == NextGrid(old(Cells), draws, pFire, pGrow)`, and the number of draws it
  used equals `TotalDraws(old(Cells))`.
- `ForestProperties` (properties.dfy) proves what those rules guarantee. It covers:
  - each cell rule as an if-and-only-if with its draw;
  - the wrap across columns and across rows;
  - the fact that the update reads only the old grid;
  - the draw order;
  - idempotence of ignition;
  - the deterministic step when both probabilities are zero;
  - the exact outcome of a lone fire in a forest.

## Model

| member | source | states |
|---|---|---|
| ForestRules.Wrap | main.py:54 | `(x + dx[i]) % W` lies in [0, W), leaves in-range indices alone, and maps -1 to W-1 and W to 0 |
| ForestRules.CellOf | main.py:67 | `p // SIZE` is the cell whose square `[c*SIZE, c*SIZE+SIZE)` holds pixel p |
| ForestRules.Burning | main.py:54 | no contract of its own: the `any(...)` test over the four offsets on the old grid; ForestProperties.BurningIff states which cells it looks at |
| ForestRules.Cost | main.py:57-60 | no contract of its own: whether the cell calls `random.random()` (a quiet tree or an empty cell) or not (a fire, a tree with a burning neighbour); FireBurnsOut, NeighbourFireSpreads, SpontaneousIgnition and Regrowth state it per case |
| ForestRules.DrawIndex | main.py:48-60 | no contract of its own: the position of a cell's draw among the tick's draws; DrawOrder and DistinctDraws state that the positions follow the scan and never repeat |
| ForestRules.TotalDraws | main.py:48-60 | no contract of its own: the number of draws one tick takes; DrawIndexInRange and TotalDrawsAtMostCells bound it, and Step returns it |
| ForestRules.DrawIndexInRange | main.py:57 | a cell that asks for a draw finds it within the draws one whole tick uses |
| ForestRules.NextCell | main.py:50-62 | no contract of its own: the new state of one cell from the old grid and its draw; FireBurnsOut, NeighbourFireSpreads, SpontaneousIgnition and Regrowth state it rule by rule, and Predecessors says where each state comes from |
| ForestRules.NextGrid | main.py:43-64 | the new grid has the old grid's shape, and each cell is the per-cell rule applied to the old grid and that cell's draw |
| ForestRules.ScanIndex | main.py:30-32 | the scan position x*H + y of cell (x, y) in the initialisation loops lies below W*H |
| ForestRules.InitCell | main.py:32-36 | no contract of its own: the intended state of one cell from its draw; InitialGrid states it cell by cell and InitialDensityExtremes at the extremes of p_tree |
| ForestRules.InitialGrid | main.py:28-36 | the intended initial grid holds a tree exactly where the cell's draw is below p_tree, is empty elsewhere, and never holds a fire |
| ForestRules.AllTree | main.py:29 | a W × H grid with every cell TREE (the zero-filled buffer) |
| ForestRules.Ignited | main.py:68-69 | a tree at (x, y) becomes a fire and every other cell is unchanged; a fire or empty target leaves the grid unchanged |
| ForestProperties.BurningIff | main.py:45-54 | the offset-table test is true exactly when one of the four compass neighbours, wrapped on both axes, is a fire |
| ForestProperties.SpreadWrapsAcrossColumns | main.py:54 | a fire at (0, y) ignites a tree at (W-1, y), and a fire at (W-1, y) ignites a tree at (0, y) |
| ForestProperties.SpreadWrapsAcrossRows | main.py:54 | a fire at (x, 0) ignites a tree at (x, H-1), and a fire at (x, H-1) ignites a tree at (x, 0) |
| ForestProperties.FireBurnsOut | main.py:50-51 | a fire becomes empty and takes no draw |
| ForestProperties.NeighbourFireSpreads | main.py:53-56 | a tree with a burning neighbour becomes a fire, whatever p_fire and the draws are, and takes no draw |
| ForestProperties.SpontaneousIgnition | main.py:53-59 | a tree with no burning neighbour takes exactly one draw; it becomes a fire if and only if that draw is below p_fire, and otherwise stays a tree |
| ForestProperties.Regrowth | main.py:60-62 | an empty cell takes exactly one draw; it becomes a tree if and only if that draw is below p_grow, and otherwise stays empty |
| ForestProperties.Predecessors | main.py:50-62 | a new fire was a tree, a new empty cell was not a tree, and a new tree was not a fire |
| ForestProperties.BurnOnly | main.py:50-56 | the deterministic part of the rule keeps the grid's shape |
| ForestProperties.ZeroProbabilityStep | main.py:43-64 | with p_fire and p_grow at most 0, a step equals the deterministic burn for every sequence of draws in [0, 1) |
| ForestProperties.NoSpreadWithinStep | main.py:44-64 | from a grid without fire, a cell burns after the step if and only if it was a tree whose own draw fell below p_fire: fire lit during a tick does not spread in the same tick |
| ForestProperties.DrawOrder | main.py:48-62 | the draws of a cell scanned earlier all come before those of any cell scanned later |
| ForestProperties.DistinctDraws | main.py:57-60 | two different cells that take a draw take different draws |
| ForestProperties.TotalDrawsAtMostCells | main.py:48-62 | a tick uses at most W*H draws |
| ForestProperties.IgniteIdempotent | main.py:68-69 | igniting a cell twice is the same as igniting it once |
| ForestProperties.IgnitedTreeBurnsOut | main.py:68-69 | a tree ignited by a click is empty after the next tick |
| ForestProperties.InitialDensityExtremes | main.py:32-36 | with p_tree at least 1 the intended initial grid is all trees; with p_tree at most 0 it is all empty |
| ForestProperties.InitAsWrittenIgnoresDensity | main.py:29-36 | on a 1 × 1 grid with draw 0.75 and p_tree 0.5, the intended grid is empty while the grid as written is a tree |
| ForestProperties.LoneFire | main.py:43-64 | with a single fire among trees and both probabilities at 0, the fire's cell becomes empty, exactly the trees touching it burn, and every other tree stays |
| ForestFire.ForestFireSimulator.constructor | main.py:14-23 | stores the dimensions and probabilities and builds the intended initial grid from the draws |
| ForestFire.ForestFireSimulator.InitForest | main.py:28-36 | the nested loops over a zero-filled buffer leave the intended initial grid (the corrected definition) |
| ForestFire.ForestFireSimulator.InitForestAsWritten | main.py:28-36 | the nested loops as the source writes them leave every cell TREE, whatever the draws |
| ForestFire.ForestFireSimulator.Step | main.py:43-64 | after a tick the grid is `NextGrid` of the old grid, and the number of draws used is the old grid's `TotalDraws` |
| ForestFire.ForestFireSimulator.Copy | main.py:44 | a fresh array with the same cells as the grid |
| ForestFire.ForestFireSimulator.StepColumns | main.py:48-62 | the outer loop sets every cell of the copy to its next state and uses `TotalDraws` draws |
| ForestFire.ForestFireSimulator.StepColumn | main.py:49-62 | the inner loop sets column x of the copy to its next states and leaves the other columns alone |
| ForestFire.ForestFireSimulator.StepCell | main.py:50-62 | one cell of the copy gets its next state from the old grid, and its draw, if any, is the one at `DrawIndex` |
| ForestFire.ForestFireSimulator.Ignite | main.py:68-69 | the grid becomes `Ignited` of the old grid, and the result says whether the cell was a tree |
| ForestFire.ForestFireSimulator.MousePress | main.py:66-70 | a click ignites cell `(px // SIZE, py // SIZE)` |

## Left out

- Rendering is not modelled: `draw_square` and the Qt scene (main.py:20-22, 38-41) only paint squares.
- The timer and the Qt event loop (main.py:24-26, 100-111) are not modelled; each tick is one call of `Step`.
- `MainWidget` and its sliders (main.py:73-97), including the `value / 1000` rescaling of the probabilities, are not modelled: they are UI wiring, and the model leaves `pFire` and `pGrow` as plain fields.
- `random.random()` is not modelled; its results are the `draws` parameter. The probabilities and draws are exact reals, so float rounding is not modelled.
- `MousePress`: requires the clicked cell to be inside the grid. Out of range, numpy would raise `IndexError`, or wrap a negative index; neither is modelled.
- `Ignite`: has the same in-bounds requirement as `MousePress`, for the same reason.
- The constructor takes the dimensions as `nat`, so an error on a negative dimension is not modelled: `np.zeros((width, height))` (main.py:29) raises `ValueError` there.
- `p_tree` is not stored in the simulator object, because the source only passes it to `init_forest`.
- The integer array of the source can hold any integer. The model's cells take only the three states, which are the only values the source writes.

## Findings

| source | as written | input that shows it | evidently intended | confidence | as-written member | corrected member |
|---|---|---|---|---|---|---|
| main.py:29-36 | the buffer is zero-filled, and 0 is TREE; the branch for a draw at or above p_tree only paints the square white, so every cell starts as a tree | a 1 × 1 grid, p_tree = 0.5, draw 0.75: the square is painted white (empty), but the cell is TREE | a cell whose draw is not below p_tree starts EMPTY, as its white square shows | not executed | ForestFire.ForestFireSimulator.InitForestAsWritten, ForestProperties.InitAsWrittenIgnoresDensity | ForestFire.ForestFireSimulator.InitForest, ForestRules.InitialGrid |

The constructor builds the corrected initial grid. `InitForestAsWritten` keeps the
source's own behaviour, every cell a tree, for comparison.
