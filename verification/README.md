# Lights Out solver — a verified model of its solving engine

Lights Out is played on an n×n grid of lights, n from 2 to 5. Pressing a
cell flips it and its in-bounds orthogonal neighbours. The application
stores a board as a bitmask: bit `row * n + col` is set when that light is
on. It offers two solvers:

- a breadth-first search over boards (`src/solve-worker.ts`), which returns
  the boards along a shortest sequence of presses to the dark board, or
  `null`;
- an algebraic solver over GF(2) (`src/solve-worker-f2.ts`), which:
  - builds the n²×n² influence matrix;
  - appends the board as an augmented column;
  - reduces the matrix in place to reduced row-echelon form;
  - rejects inconsistent systems;
  - lists one press list for every assignment of the free variables;
  - picks the shortest list.

The board operators of `src/App.tsx` (`togglePlus`, `toggleSingle`,
`stepDiff`, and the loop that replays a press vector into a list of
boards) are modelled alongside.

Modules:

- `Bits`: boards as natural numbers, with `Pow2`, `Bit` and `Xor` defined
  by halving, and the bit-level facts the rest uses.
- `LightsOut`: `togglePlus`, `toggleSingle`, `stepDiff` and the replay
  loop.
- `GF2`: rows over GF(2), solutions of an augmented system, leading
  entries, reduced row-echelon form, and the support of a 0/1 vector.
- `Influence`: the influence matrix, and the fact that a 0/1 vector solves
  a board's system exactly when pressing the cells it marks clears the
  board.
- `Elimination`: `rrefOverF2` on an `array<seq<F2>>`, with its helper
  functions. Each method is proved against a recursive specification
  (`Reduce`).
- `F2Solver`: the rest of the worker (`getLogicMatrix`, `isConsistent`,
  `getFreeVariables`, `substituteFreeVariables`, `solveBoardVector`, the
  bit-to-vector loop and the `bestSolution` reduce).
- `F2Theory`: what that solver computes:
  - consistency is solvability;
  - on a diagonal reduced system, the enumeration lists every solution
    exactly once.
- `Search`: the breadth-first `solve`, as methods over sets, maps and
  sequences, with the layers of the search as its specification.
- `CrossCheck`: the two solvers agree on solvability, and on the length of
  the best answer.

## Model

| member | source | states |
|---|---|---|
| LightsOut.TogglePlusFlips | src/App.tsx:16-20 | after `togglePlus` at (row, col), bit k differs from the board's exactly when k is the cell itself or one of its in-bounds neighbours (PlusFlips) |
| LightsOut.TogglePlusCell | src/App.tsx:16-20 | on the board, cell (r, c) changes exactly when it is (row, col) or an orthogonal neighbour: no wrap-around across rows |
| LightsOut.TogglePlusOffBoard | src/App.tsx:16-20 | bits at index size² and above are never touched |
| LightsOut.TogglePlusStaysOnBoard | src/App.tsx:16-20 | a board below 2^(size²) stays below it |
| LightsOut.TogglePlusTwice | src/App.tsx:8-23 | pressing the same cell twice restores the board |
| LightsOut.TogglePlusCommutes | src/App.tsx:14-22 | two presses commute |
| LightsOut.TogglePlusIsMask | src/App.tsx:14-22 | a press is XOR with the press's effect on the empty board |
| LightsOut.ToggleSingleBit | src/App.tsx:33 | `toggleSingle` flips exactly bit row*size+col |
| LightsOut.ToggleSingleTwice | src/App.tsx:25-36 | `toggleSingle` is self-inverse |
| LightsOut.ApplyPressesIsMask | src/App.tsx:14-22 | a list of presses XORs the board with the combined effect of the list on the empty board |
| LightsOut.LineHasTwo | src/App.tsx:193-204 | the inner loop of `stepDiff` reports whether at least two cells of the row (or column) differ |
| LightsOut.TwoDiffRowFrom | src/App.tsx:191-205 | the row found is the first row, from the start, with two differing cells; none means no such row |
| LightsOut.TwoDiffColFrom | src/App.tsx:207-221 | the same for columns |
| LightsOut.StepDiff | src/App.tsx:185-224 | `stepDiff` returns the first row and the first column with two differences, or none (NaN) for each |
| LightsOut.PressRowDifferences | src/App.tsx:191-205 | after a press at (row, col), a row has two differing cells exactly when it is `row` |
| LightsOut.PressColDifferences | src/App.tsx:207-221 | after a press at (row, col), a column has two differing cells exactly when it is `col` |
| LightsOut.StepDiffFindsPress | src/App.tsx:185-224 | `stepDiff(b, togglePlus(b, size, r, c), size)` recovers (r, c) |
| LightsOut.StepDiffOfSameBoard | src/App.tsx:190-223 | `stepDiff(b, b, size)` finds neither a row nor a column |
| LightsOut.Dimension | src/App.tsx:339 | the size read off a supported vector length squares back to that length |
| LightsOut.Replay | src/App.tsx:338-352 | the replay list is the list of boards obtained by pressing, from the original board, the set cells of the vector in ascending order |
| LightsOut.ReplayPrefixIsBoards | src/App.tsx:341-352 | after each step of the loop the list holds the boards for the set cells seen so far |
| LightsOut.BoardsArePresses | src/App.tsx:343-350 | each entry of the list is `togglePlus` of the one before at the next set cell, and the last entry is the board after all presses |
| LightsOut.BoardsSnoc | src/App.tsx:343-350 | one more set cell appends one more board |
| Influence.LogicEntry | src/solve-worker-f2.ts:134-153 | entry (cell (i, j), cell (r, c)) of `getLogicMatrix(d)` is 1 exactly when the cells are equal or orthogonal neighbours |
| Influence.LogicSymmetric | src/solve-worker-f2.ts:134-153 | the influence matrix is symmetric |
| Influence.LogicDiagonal | src/solve-worker-f2.ts:141 | its diagonal is all ones |
| Influence.LogicColumnIsPress | src/solve-worker-f2.ts:134-153 | column p is the flip mask of `togglePlus` at cell p |
| Influence.PressesBit | src/solve-worker-f2.ts:93-97 | after a list of presses a light has changed exactly when an odd number of them flip it |
| Influence.BoardVectorDetermines | src/solve-worker-f2.ts:5-8 | a board below 2^(n²) is determined by its vector of n² bits |
| Influence.EquationClearsCell | src/solve-worker-f2.ts:93-97 | equation q of the augmented system holds for x exactly when pressing the cells of x leaves light q off |
| Influence.SolutionClearsBoard | src/solve-worker-f2.ts:93-97 | x solves the board's system exactly when pressing the cells it marks turns every light off |
| F2Solver.GetLogicMatrix | src/solve-worker-f2.ts:134-153 | the array built by the loops is the influence matrix |
| F2Solver.SetPlus | src/solve-worker-f2.ts:141-148 | one pass of the inner loop sets row i*d+j to its row of the influence matrix and changes no other row |
| F2Solver.BoardToVector | src/solve-worker-f2.ts:5-8 | entry i of the vector is bit i of the board, for the n² cells |
| F2Solver.AppendColumn | src/solve-worker-f2.ts:95-97 | the loop appends the vector as the augmented column |
| GF2.SwapKeepsSolutions | src/solve-worker-f2.ts:162-164 | swapping two rows keeps the solutions |
| GF2.AddKeepsSolutions | src/solve-worker-f2.ts:181-186 | adding one row to another modulo 2 keeps the solutions |
| Elimination.AddRowFromTo | src/solve-worker-f2.ts:181-186 | the target row becomes the mod-2 sum of the source row and itself; no other row changes |
| Elimination.ClearPivotColumn | src/solve-worker-f2.ts:173-179 | every other row with a 1 in the pivot column has the pivot row added to it |
| Elimination.SwapRows | src/solve-worker-f2.ts:162-164 | the two rows are exchanged |
| Elimination.FindPivot | src/solve-worker-f2.ts:159-161 | the pivot is the first 1 in column order, then row order, from (iFrom, jFrom), including the augmented column; none means the rest of the submatrix is zero |
| Elimination.ScanForPivot | src/solve-worker-f2.ts:159-161 | the two scanning loops find exactly that pivot |
| Elimination.ReduceSubmatrix | src/solve-worker-f2.ts:158-171 | the recursive reduction leaves the array as the specification `Reduce` describes |
| Elimination.RrefOverF2 | src/solve-worker-f2.ts:155-157 | `rrefOverF2` leaves `Reduce(matrix, width, 0, 0)` in the array |
| Elimination.ClearColumnKeepsSolutions | src/solve-worker-f2.ts:173-179 | clearing a pivot column keeps the solutions |
| Elimination.ReduceKeepsSolutions | src/solve-worker-f2.ts:158-171 | the reduction keeps the solutions |
| Elimination.ReduceIsRref | src/solve-worker-f2.ts:158-171 | the reduction ends in reduced row-echelon form: leading ones move strictly right, zero rows are last, each pivot column has a single 1 |
| Elimination.RrefFacts | src/solve-worker-f2.ts:155-187 | `rrefOverF2` keeps the dimensions and the solutions and yields reduced row-echelon form |
| Elimination.RrefIdempotent | src/solve-worker-f2.ts:155-187 | running it again changes nothing |
| F2Solver.IsConsistent | src/solve-worker-f2.ts:118-131 | `isConsistent` is false exactly when some row's first 1 is in the augmented column |
| F2Theory.ConsistentIffSolvable | src/solve-worker-f2.ts:101-103 | on a reduced system, that happens exactly when the system has no solution |
| F2Solver.FreeColumnsFacts | src/solve-worker-f2.ts:32-48 | the free columns are listed in ascending order, and they are the coefficient columns that hold no row's first 1 |
| F2Solver.Delete | src/solve-worker-f2.ts:41 | deleting from the candidate list removes exactly that column and keeps the order |
| F2Solver.GetFreeVariables | src/solve-worker-f2.ts:32-48 | `getFreeVariables` returns those columns, ascending |
| F2Solver.MaskRow | src/solve-worker-f2.ts:56-60 | a row of the clone keeps an entry only where no substitution sets that variable to 0 |
| F2Solver.ApplySubstitutions | src/solve-worker-f2.ts:54-60 | the clone is the matrix with every row masked that way; the matrix itself is not changed |
| F2Solver.RowValues | src/solve-worker-f2.ts:62-73 | entry i of the particular solution is computed from row i of the clone by the flips count |
| F2Solver.SetOnes | src/solve-worker-f2.ts:75-79 | the variables substituted with 1 are set, the others keep their value |
| F2Solver.SubstituteFreeVariables | src/solve-worker-f2.ts:50-86 | `substituteFreeVariables` returns the ascending list of the positions of the ones of the substituted vector |
| F2Theory.OutcomeAtFree | src/solve-worker-f2.ts:107-112 | free variable number t of the outcome for v is bit t of v |
| F2Theory.OutcomeSolves | src/solve-worker-f2.ts:64-73 | on a diagonal reduced system every outcome solves the system |
| F2Theory.SolutionsAgree | src/solve-worker-f2.ts:105-114 | two solutions that agree on the free variables are equal |
| F2Theory.OutcomeCovers | src/solve-worker-f2.ts:105-114 | every solution is the outcome of the value its free variables spell |
| F2Theory.OutcomesDistinct | src/solve-worker-f2.ts:105-114 | distinct values below 2^k give distinct outcomes |
| F2Theory.EnumerateListsSolutions | src/solve-worker-f2.ts:105-114 | the 2^k lists are exactly the supports of the solutions, each listed once |
| F2Solver.EnumerateSolutions | src/solve-worker-f2.ts:105-114 | the loop over v builds that list, one outcome per v in order |
| F2Solver.SolveBoardVector | src/solve-worker-f2.ts:88-116 | `solveBoardVector` returns or throws what `Solve` describes |
| F2Theory.SolveFailsIffUnsolvable | src/solve-worker-f2.ts:88-116 | it throws "unsupported length" exactly for lengths other than 4, 9, 16 and 25, and "no solution" exactly when the board's system has no solution |
| F2Theory.SolveListsEverySolution | src/solve-worker-f2.ts:105-116 | on a diagonal reduced system it succeeds and lists the supports of all solutions, each once |
| F2Solver.BestSolution | src/solve-worker-f2.ts:12-16 | the `reduce` keeps the first list of minimum length; an empty list of solutions gives none |
| F2Solver.KeepShorterFirstShortest | src/solve-worker-f2.ts:12-16 | the fold keeps its start unless a later list is strictly shorter, and then ends on the first shortest |
| Search.Visit | src/solve-worker.ts:65-70 | a neighbour not seen before is added to `seen`, appended once to `upcoming`, and gets `u` as its parent; a neighbour seen before leaves `seen`, `parent` and `upcoming` as they were; the parent and distance of every board seen before are kept, and the queue never lists a board twice |
| Search.ExpandRow | src/solve-worker.ts:64-71 | the inner loop visits the neighbours of one row of cells |
| Search.ExpandBoard | src/solve-worker.ts:63-72 | all neighbours of the board are visited; new ones are queued once, one press further away; the parents and distances of boards seen before are unchanged |
| Search.TracePath | src/solve-worker.ts:56-60 | walking the parents from the dark board back to the sentinel -1 and reversing gives the boards of a list of presses from the start to it |
| Search.ExploreLayer | src/solve-worker.ts:51-73 | one pass over the frontier either finds the dark board at the current depth or produces the next layer, without repeats, growing `seen` whenever that layer is not empty; no parent recorded before the pass is changed |
| Search.TreeAdd | src/solve-worker.ts:66-69 | recording a new board's parent keeps every recorded board one press from its parent |
| Search.PressesWithin | src/solve-worker.ts:63-70 | every board reachable in k presses is found within k layers |
| Search.WithinPresses | src/solve-worker.ts:63-70 | every board found within k layers is reachable in at most k presses |
| Search.NextLayer | src/solve-worker.ts:45-73 | the boards within d+1 layers are those within d plus the neighbours of layer d |
| Search.WithinBound | src/solve-worker.ts:66-70 | there are never more than 2^(size²) boards seen, for a board below 2^(size²) |
| Search.LayerExplored | src/solve-worker.ts:45-73 | the queue built while exploring a layer is the next layer |
| Search.Found | src/solve-worker.ts:52-60 | the first time the dark board leaves the queue, the path to it is shortest |
| Search.NothingLeft | src/solve-worker.ts:76-77 | when the queue empties, no list of presses clears the board |
| Search.Solve | src/solve-worker.ts:32-78 | `solve` returns a shortest path of boards from the input to 0 (starting with the input and one press per step), or null exactly when no list of presses clears the board |
| CrossCheck.ParityPresses | src/solve-worker.ts:63-70 | pressing the cells pressed an odd number of times once each has the same effect as the whole list |
| CrossCheck.ParityNoLonger | src/solve-worker.ts:63-70 | that parity list is no longer than the list |
| CrossCheck.ClearableIffSolvable | src/solve-worker-f2.ts:93-103 | some list of presses clears the board exactly when the board's system has a solution |
| CrossCheck.EnginesAgreeOnSolvability | src/solve-worker.ts:45-77 | the search returns null exactly when `solveBoardVector` throws "no solution", and the vector of a board always has a supported length |
| CrossCheck.ListedSolutionsClear | src/solve-worker-f2.ts:88-116 | on a diagonal reduced system every list `solveBoardVector` returns consists of cells of the board, and pressing them turns every light off |
| CrossCheck.FewestPressesAreBest | src/solve-worker-f2.ts:12-16 | on a diagonal reduced system the best list is exactly as long as the fewest presses that clear the board |
| CrossCheck.EnginesAgreeOnLength | src/solve-worker.ts:45-73 | on a diagonal reduced system a shortest path of the search has one more board than the best list has presses |

## Left out

- The React components, the rendering and the styling constants of
  `src/App.tsx` are user interface and are not part of this model.
- The highlight animation driven by timers is left out: it is timers and
  UI state.
- `makeRandomBoard` depends on `Math.random` and console output; it is not
  part of this model.
- The worker plumbing is left out: `onmessage`/`postMessage`, `new Worker`,
  `terminate`, the `async`/Promise wrapper of `solve`, and `console.log`.
  `solve` is a plain method. The thrown `Error` values are a `Result` with
  two error cases.
- The messages between the application and the workers are left out. The
  replay loop is modelled on a 0/1 vector, the way `src/App.tsx` reads
  `e.data.solution`, although the algebraic worker posts lists of indices.
- `Math.sqrt` on a vector length is floating point. The model uses the
  table 4→2, 9→3, 16→4, 25→5 (`Dimension`).
- JavaScript's 32-bit `<<`, `^` and `&` are modelled on unbounded naturals.
  Boards have at most 25 bits and shift counts stay below 25, so the two
  agree on every board the application builds.
- `structuredClone` is modelled as a value copy: the matrix is read, never
  written, by `SubstituteFreeVariables`.
- The local copy of `togglePlus` in `src/solve-worker.ts:16-31` has the same
  body as the one in `src/App.tsx`. The model defines it once
  (`LightsOut.TogglePlus`).
- The layers of the search are defined over a move function that agrees
  with `togglePlus` on the board's cells, to keep the proofs small. The
  search itself calls `togglePlus`.
- The bodies of some loops are separate methods, each with its own
  contract (`SetPlus`, `LineHasTwo`, `Visit`, `ExpandRow`, `ExpandBoard`,
  `ExploreLayer`, `ScanForPivot`, `SwapRows`). The recursion of
  `reduceSubmatrix` is kept as recursion.
- The `reduce` over an empty list of solutions gives `undefined` in the
  source; the model returns `None`. A consistent system always has at
  least one solution listed.
- The time and memory taken by the 2^k enumeration are not modelled.
- F2Theory.SolveListsEverySolution: holds only when every nonzero row i of
  the reduced system leads in column i (`Diagonal`). `substituteFreeVariables`
  writes row i's value into variable i, which is right only under that
  shape. The model does not prove that the reduced influence matrices of
  sizes 2 to 5 have it.
- F2Theory.OutcomeSolves: same `Diagonal` hypothesis.
- CrossCheck.FewestPressesAreBest: same `Diagonal` hypothesis.
- CrossCheck.ListedSolutionsClear: same `Diagonal` hypothesis.
- CrossCheck.EnginesAgreeOnLength: same `Diagonal` hypothesis. The
  solvability agreement (`EnginesAgreeOnSolvability`) does not need it.
- CrossCheck.EnginesAgreeOnSolvability: requires the board to fit in size²
  bits, as every board the application builds does.
