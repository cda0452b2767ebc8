# A* step by step over a grid world

This project models the two core classes of `a-star.py` and proves properties of them.

- `World` (module `Grid`, `grid.dfy`) is a square map of cell codes. The codes are 0 free, 1 obstacle, 2 start, 3 goal and 4 searched. The map is indexed `cells[y, x]`, and the class keeps a start and an end position.
  - `buildWorld` lays out a fresh map.
  - `setStartPos` and `setEndPos` move the two markers.
  - `generateObstacles` scatters obstacles over the free cells.
  - `resetWorld` clears the searched markers.
- `AStarStep` (module `Search`, `search.dfy`) is the incremental A* engine. Its state lives in fields:
  - the open and closed lists;
  - the `cameFrom`, `gScore` and `fScore` dictionaries;
  - `current`, `done` and `success`.

  Each call of `stepSearch` performs one termination check or one expansion. The helpers `cheapestNode`, `getNeighbors` and `reconstructPath` are modelled as well.
- `seqs.dfy` (module `Seqs`) holds the list helpers: duplicate-freedom and Python's `list.remove`.

The model is imperative, like the source:
- Each class keeps the source's fields. The map is an `array2<int>`, the lists are `seq` fields and the dictionaries are `map` fields.
- Every loop of the source is a `while` or `for` loop with its invariants.

The expansion branch of `stepSearch` is written twice over:
- `Search.ExpandState` runs the neighbour loop on a value (`SearchState`) holding the five search fields.
- `Search.AStarStep.Expand` stores that value back into the fields.

This split lets the invariant and the monotonicity facts be separate lemmas over values: `ExpansionKeepsInvariant` and `ExpansionMonotone`.

The search invariant `SearchInv` says:
- open and closed are duplicate-free and disjoint;
- the g- and f-score maps hold exactly the cells of the map;
- every discovered cell has a finite g and f = g + h;
- every undiscovered cell has infinite scores;
- the start has g = 0;
- every predecessor is closed and exactly one step cheaper.

The last fact is what makes `reconstructPath` terminate, with g(node) as the measure.

Two details of the code fix the engine's behaviour:
- `initStepSearch` (a-star.py:111-142) does not reset `current`, so `InitStepSearch` keeps it.
- cheapestNode's tie-break is the first minimum in open-list order. `FirstMinUnique` proves that this determines the selected cell. `list.remove` keeps the order of the remaining cells (`RemoveFirstAt`), so that order is well defined after each step.

## Model

| member | source | states |
|---|---|---|
| Grid.ObstacleCount | a-star.py:31 | `int(p * size * size)` truncates: the count is at most the product (or 0) and within 1 below it; a negative product gives 0 draws. The product is taken on exact reals, so where float rounding lands just below a whole number the count is one higher than the source's |
| Grid.World.constructor | a-star.py:26-32 | the new world is valid, start at (0, 0), end at (size-1, size-1); a cell holds 1 exactly when it was drawn, else the goal, start or free code |
| Grid.World.BuildWorld | a-star.py:55-62 | fresh map: 2 at (0, 0), 3 at (size-1, size-1) (3 wins on a 1x1 map), 0 elsewhere |
| Grid.World.SetStartPos | a-star.py:37-40 | the old start cell becomes 0, `pos` becomes 2 whatever it held, startpos is `pos`, every other cell and the end are unchanged |
| Grid.World.SetEndPos | a-star.py:45-48 | the same for the end: old end cell 0, `pos` 3, nothing else changes |
| Grid.World.FreeSpaces | a-star.py:72-76 | the nested loops build exactly the row-major free list `FreeCells` |
| Grid.FreeCellsFacts | a-star.py:72-76 | the free list holds every map cell except start and end, each once, in row-major order; its length is size*size-2 (size*size-1 when start is end) |
| Grid.ChosenFacts | a-star.py:78-82 | choosing and removing draws without replacement: the drawn cells are distinct, none is left in the list, and drawn plus remaining cells are the original list |
| Grid.ObstaclesPlaced | a-star.py:71-82 | the `n` draws are `n` distinct map cells, never start or end, so `n` is at most size*size-2 (size*size-1 when start is end) |
| Grid.World.GenerateObstacles | a-star.py:71-82 | exactly the drawn cells become 1, every other cell keeps its value |
| Grid.World.ResetWorld | a-star.py:89-93 | every 4 becomes 0, every other cell keeps its value, and no 4 remains (so a second call changes nothing) |
| Seqs.RemoveFirst | a-star.py:160 | `list.remove`: the result is the input with one occurrence of `x` taken out (as multisets) and one shorter when `x` is present. Python raises `ValueError` when `x` is absent; no call site reaches that case, because a-star.py:82 removes the cell just chosen from the list and a-star.py:160 removes `current`, which is open |
| Seqs.RemoveFirstAt | a-star.py:160 | the occurrence removed is the first one, and the other elements keep their order: the result is `s[..k] + s[k+1..]` for the first index `k` of `x` |
| Seqs.RemoveFirstNoDup | a-star.py:160 | on a duplicate-free list the result stays duplicate-free and holds exactly the other elements |
| Search.AllCells | a-star.py:117 | the `spaces` comprehension lists exactly the cells of the map |
| Search.Unreached | a-star.py:130-131 | the score dictionary has exactly the listed cells as keys, all infinite |
| Search.InitialState | a-star.py:117-139 | the initial lists and scores: open [start], closed and cameFrom empty, g(start) = 0, f(start) = h(start, goal), every other cell infinite; and they satisfy the search invariant |
| Search.InitialInvariant | a-star.py:119-139 | the initial state satisfies the search invariant |
| Search.AStarStep.constructor | a-star.py:103-104 | stores the world and the heuristic; no search has started yet: current is None and initialized is false |
| Search.AStarStep.InitStepSearch | a-star.py:111-142 | start and goal are read from the world, the state is the initial one, `done` and `success` are false, `current` is kept, and the search invariant holds |
| Search.AStarStep.CheapestNode | a-star.py:238-246 | the result is in open, no open cell scores less, and every earlier open cell scores strictly more (the first minimum) |
| Search.FirstMinUnique | a-star.py:238-246 | the first minimum is unique, so cheapestNode's choice is determined by the list and the scores |
| Search.AStarStep.Passable | a-star.py:224-231 | one neighbour test: yields the cell exactly when it is on the map and not an obstacle |
| Search.AStarStep.Neighbors | a-star.py:219-233 | the result is strictly ordered +x, -x, +y, -y |
| Search.AStarStep.NeighborsExact | a-star.py:219-233 | a cell is a neighbour exactly when it is orthogonally adjacent, on the map and not 1 (codes 2, 3 and 4 are passable) |
| Search.AStarStep.NeighborsKept | a-star.py:219-233 | the neighbours depend only on the map, so they are the same in any state where the world is unchanged |
| Search.UnclaimedFacts | a-star.py:172-173 | the cells the loop appends to open are exactly the neighbours neither closed nor already open, each once |
| Search.RelaxNeighbor | a-star.py:165-179 | one pass over neighbour `n` extends the loop invariant: open gains `n` if new, and `n` gets `cur`, g(cur)+1 and g+h exactly when it is relaxed |
| Search.RelaxSkip | a-star.py:166-175 | a pass that skips a closed neighbour, or an open one that does not improve, keeps the state and does not relax it |
| Search.RelaxTake | a-star.py:172-179 | a pass that takes a neighbour records the path through `cur` for it |
| Search.ExpandState | a-star.py:160-179 | the expansion on values: `cur` moves from open to closed, unclaimed neighbours are appended, relaxed neighbours get new scores; the invariant is kept, no g rises, closed cells keep theirs |
| Search.ExpansionLists | a-star.py:160-173 | after an expansion, closed is the old closed plus `cur` and open is the old open minus `cur` plus the undiscovered neighbours; the lists stay duplicate-free and disjoint |
| Search.ExpansionScored | a-star.py:170-179 | discovered cells keep finite g and f = g + h, and the maps keep their keys |
| Search.ExpansionUntouched | a-star.py:170-179 | undiscovered cells keep infinite scores, the start stays at g = 0, and every other discovered cell has a predecessor |
| Search.ExpansionChained | a-star.py:177-178 | every predecessor is closed and exactly one step cheaper |
| Search.ExpansionKeepsInvariant | a-star.py:159-179 | an expansion of an open cell preserves the whole search invariant |
| Search.ExpansionMonotone | a-star.py:170-179 | an expansion never raises a g-score, freezes the g-scores of closed cells, and grows closed by exactly one |
| Search.AStarStep.Expand | a-star.py:159-179 | the else branch on the fields: `cur` becomes current, the new state is the expansion of the old one over `getNeighbors(cur)`, the invariant holds, no g rises |
| Search.AStarStep.Finish | a-star.py:155-157 | the two terminal branches (also a-star.py:180-182): done is set, success says whether the goal was found, the lists and maps are unchanged |
| Search.AStarStep.StepSearch | a-star.py:148-182 | done: nothing changes. Open empty: failure, state kept. Otherwise current is the first cheapest open cell; the goal gives success with the state kept, any other cell is expanded. Always: the invariant holds, no g-score rises, closed cells keep their g and stay closed |
| Search.AStarStep.ReconstructPath | a-star.py:190-195 | the path starts at `node`, each step follows `cameFrom`, and it ends at a cell without a predecessor. From a discovered cell it ends at the start after exactly g(node) steps |

## Left out

- `WorldRenderer`: drawing, fonts, keyboard and mouse events and the render loop are all display I/O. The model's only trace of it is that cells may hold 4, the searched marker it paints, which `getNeighbors` treats as passable.
- The `__main__` argument parsing and startup are process I/O.
- The two `print` calls, in initStepSearch and in stepSearch's `done` branch, are output only.
- `calcHeuristic`'s `math.sqrt` distance is left out because floating point is not modelled. The heuristic is a function parameter `(Cell, Cell) -> real` given to the engine, and no property depends on its value.
- `random.choice` is replaced by caller-supplied `picks`. Pick `i` indexes the free list as it stands before draw `i`.
- Grid.ObstacleCount: the product `obstaclesPercentage * size * size` is taken on exact reals, not on floats. Where float rounding lands just below a whole number, the model's count is one higher than the source's. For example, `0.57 * 10 * 10` is `56.99999999999999` in Python, so the source draws 56 obstacles and the model 57. The constructor inherits this through its requirement on `|picks|`.
- Grid.World.BuildWorld and the constructor require size >= 1. On a 0 x 0 map the source raises an `IndexError` at a-star.py:59.
- Grid.World.GenerateObstacles: a draw from an exhausted free list raises an error in the source. The model instead requires the draws to fit the list.
- Grid.World.SetStartPos and Grid.World.SetEndPos require `pos` on the map. Python would wrap a negative index or raise on a large one, and the renderer passes positions without a bounds check.
- The g-scores are `0.0` plus whole steps, so they are modelled as naturals with an explicit infinity. F-scores are reals with infinity, and their comparison models `<` on floats, including infinity. Float rounding is not modelled.
- Search.AStarStep.Expand: the neighbour loop runs on a value copy of the five search fields, which is then written back. The source updates the fields one at a time, but no other code runs in between, so the observable difference is only in the order of the writes.
- Search.AStarStep.ReconstructPath requires the parts of the search invariant about predecessors (`Chained`) and the start (`Rooted`). On an arbitrary cyclic `cameFrom` the source would not terminate. Every `cameFrom` the engine builds satisfies the invariant.
- `initStepSearch` before the first call: the source's fields do not exist until it runs. The model instead gives the constructor placeholder values and a ghost `initialized` flag, and StepSearch requires the invariant that InitStepSearch establishes.
