/** The two solvers side by side: the breadth-first search of
    src/solve-worker.ts finds a way to the dark board exactly when the
    algebraic solver of src/solve-worker-f2.ts does not report "no
    solution", and, when the reduced system is diagonal, the shortest path
    it returns is one press longer than the best list of presses the
    algebraic solver picks.

    The bridge is the parity vector of a list of presses: the cells pressed
    an odd number of times. Pressing those cells once each has the same
    effect as the whole list, and they are never more than the list's
    length. */
module CrossCheck {
  import opened Bits
  import opened GF2
  import opened Wrappers
  import opened LightsOut
  import opened Influence
  import opened F2Solver
  import opened F2Theory
  import opened Search

  /** Entry p is 1 when cell p occurs an odd number of times in ps. */
  function Parity(d: BoardSize, ps: seq<nat>): (x: seq<F2>)
    requires OnBoard(d, ps)
    ensures |x| == d * d
  {
    if ps == [] then seq(d * d, _ => 0)
    else
      var x := Parity(d, ps[1..]);
      x[ps[0] := 1 - x[ps[0]]]
  }

  /** The support of a vector has as many members as the vector has ones. */
  lemma {:induction false} SupportFromLength(x: seq<F2>, i: nat)
    requires i <= |x|
    ensures |SupportFrom(x, i)| == Sum(x[i..])
    decreases |x| - i
  {
    if i < |x| {
      SupportFromLength(x, i + 1);
      assert x[i..][1..] == x[i + 1..];
    }
  }

  lemma SupportLength(x: seq<F2>)
    ensures |Support(x)| == Sum(x)
  {
    SupportFromLength(x, 0);
    assert x[0..] == x;
  }

  /** Every cell pressed an odd number of times is pressed at least once, so
      the parity vector never marks more cells than the list has presses. */
  lemma {:induction false} ParityNoLonger(d: BoardSize, ps: seq<nat>)
    requires OnBoard(d, ps)
    ensures |Support(Parity(d, ps))| <= |ps|
  {
    var x := Parity(d, ps);
    SupportLength(x);
    if ps == [] {
      SumOfZeros(x);
    } else {
      var y := Parity(d, ps[1..]);
      ParityNoLonger(d, ps[1..]);
      SupportLength(y);
      SumUpdate(y, ps[0], 1 - y[ps[0]]);
    }
  }

  /** Row q of the influence matrix against the parity vector counts, modulo
      2, the presses of ps that flip light q. */
  lemma {:induction false} ParityCountsFlips(d: BoardSize, ps: seq<nat>, q: nat)
    requires OnBoard(d, ps) && q < d * d
    ensures Dot(LogicMatrix(d)[q], Parity(d, ps)) % 2 == FlipCount(d, ps, q) % 2
  {
    var row := LogicMatrix(d)[q];
    if ps == [] {
      SumOfZeros(Products(row, Parity(d, ps)));
    } else {
      var p := ps[0];
      var y := Parity(d, ps[1..]);
      var flips := PressFlips(d, p, q);
      var count := FlipCount(d, ps[1..], q);
      ParityCountsFlips(d, ps[1..], q);
      LogicColumnIsPress(d, p, q);
      FlipOneMore(row, y, p, count, flips);
      assert Parity(d, ps) == y[p := 1 - y[p]];
      assert FlipCount(d, ps, q) == (if flips then 1 else 0) + count;
    }
  }

  /** Flipping entry p of x, where row[p] says whether the new press flips
      the light, keeps the dot product and the count of flips in step. */
  lemma FlipOneMore(row: seq<F2>, x: seq<F2>, p: nat, count: nat, flips: bool)
    requires |x| <= |row| && p < |x|
    requires Dot(row, x) % 2 == count % 2 && (row[p] == 1) == flips
    ensures Dot(row, x[p := 1 - x[p]]) % 2 == ((if flips then 1 else 0) + count) % 2
  {
    DotFlip(row, x, p);
    ParityStep(Dot(row, x), count, row[p], x[p], flips);
  }

  /** Flipping entry p of x changes the dot product by row[p], with the sign
      of the flip. */
  lemma DotFlip(row: seq<F2>, x: seq<F2>, p: nat)
    requires |x| <= |row| && p < |x|
    ensures Dot(row, x[p := 1 - x[p]]) == Dot(row, x) - row[p] * x[p] + row[p] * (1 - x[p])
  {
    assert Products(row, x[p := 1 - x[p]]) == Products(row, x)[p := row[p] * (1 - x[p])];
    SumUpdate(Products(row, x), p, row[p] * (1 - x[p]));
  }

  /** One more flip of light q changes the dot product and the count alike,
      modulo 2. */
  lemma ParityStep(dot: int, count: nat, a: F2, b: F2, flips: bool)
    requires dot % 2 == count % 2 && (a == 1) == flips
    ensures (dot - a * b + a * (1 - b)) % 2 == ((if flips then 1 else 0) + count) % 2
  {
  }

  /** No press of the board flips a light outside it. */
  lemma {:induction false} FlipCountOffBoard(d: BoardSize, ps: seq<nat>, q: nat)
    requires OnBoard(d, ps) && d * d <= q
    ensures FlipCount(d, ps, q) == 0
  {
    if ps != [] {
      CellInRange(d, ps[0]);
      TogglePlusOffBoard(0, d, ps[0] / d, ps[0] % d, q);
      ZeroHasNoBits(q);
      FlipCountOffBoard(d, ps[1..], q);
    }
  }

  /** Pressing each cell of the parity vector once leaves the same board as
      pressing the whole list. */
  lemma ParityPresses(board: nat, d: BoardSize, ps: seq<nat>)
    requires OnBoard(d, ps)
    ensures OnBoard(d, Support(Parity(d, ps)))
    ensures ApplyPresses(board, d, Support(Parity(d, ps))) == ApplyPresses(board, d, ps)
  {
    var x := Parity(d, ps);
    SupportFacts(x);
    var once := Support(x);
    forall q: nat
      ensures Bit(ApplyPresses(board, d, once), q) == Bit(ApplyPresses(board, d, ps), q)
    {
      PressesBit(board, d, once, q);
      PressesBit(board, d, ps, q);
      if q < d * d {
        DotCountsFlips(d, x, q, 0);
        assert Products(LogicMatrix(d)[q], x)[0..] == Products(LogicMatrix(d)[q], x);
        ParityCountsFlips(d, ps, q);
      } else {
        FlipCountOffBoard(d, once, q);
        FlipCountOffBoard(d, ps, q);
      }
    }
    BitsDetermine(ApplyPresses(board, d, once), ApplyPresses(board, d, ps));
  }

  /** The dimension of a board's vector is the board's size. */
  lemma DimensionOfArea(d: BoardSize)
    ensures SupportedLength(d * d) && Dimension(d * d) == d
  {
    if d == 2 {
    } else if d == 3 {
    } else if d == 4 {
    } else {
    }
  }

  /** The board's augmented system, as `solveBoardVector` builds it from the
      vector `onmessage` reads off the board. */
  lemma SystemOfBoard(board: nat, d: BoardSize)
    ensures SupportedLength(d * d)
    ensures System(BoardVector(board, d * d)) == Augment(LogicMatrix(d), BoardVector(board, d * d))
  {
    DimensionOfArea(d);
  }

  /** Some list of presses clears a board of the given size exactly when its
      augmented system has a solution. */
  lemma ClearableIffSolvable(board: nat, d: BoardSize)
    requires board < Pow2(d * d)
    ensures SupportedLength(d * d)
    ensures !Unsolvable(board, d) <==>
      exists x :: |x| == d * d && IsSolution(System(BoardVector(board, d * d)), x)
  {
    var vector := BoardVector(board, d * d);
    SystemOfBoard(board, d);
    if !Unsolvable(board, d) {
      var ps :| OnBoard(d, ps) && ApplyPresses(board, d, ps) == 0;
      var x := Parity(d, ps);
      ParityPresses(board, d, ps);
      SolutionClearsBoard(board, d, x);
      assert IsSolution(System(vector), x);
    }
    if exists x :: |x| == d * d && IsSolution(System(vector), x) {
      var x :| |x| == d * d && IsSolution(System(vector), x);
      SolutionClearsBoard(board, d, x);
      assert OnBoard(d, Support(x)) && ApplyPresses(board, d, Support(x)) == 0;
    }
  }

  /** The two solvers agree on solvability: the search finds nothing
      (Unsolvable, what its `null` means) exactly when `solveBoardVector`
      throws "no solution" for the board's vector, and that vector always
      has a supported length. */
  lemma EnginesAgreeOnSolvability(board: nat, d: BoardSize)
    requires board < Pow2(d * d)
    ensures F2Solver.Solve(BoardVector(board, d * d)) != Failure(UnsupportedLength)
    ensures Unsolvable(board, d) <==> F2Solver.Solve(BoardVector(board, d * d)) == Failure(NoSolution)
  {
    ClearableIffSolvable(board, d);
    SolveFailsIffUnsolvable(BoardVector(board, d * d));
  }

  /** The parity vector of a list of presses that clears the board solves
      the board's system, and marks no more cells than the list has
      presses. */
  lemma ParitySolves(board: nat, d: BoardSize, ps: seq<nat>)
    requires board < Pow2(d * d) && OnBoard(d, ps) && ApplyPresses(board, d, ps) == 0
    ensures SupportedLength(d * d)
    ensures IsSolution(System(BoardVector(board, d * d)), Parity(d, ps))
    ensures |Support(Parity(d, ps))| <= |ps|
  {
    SystemOfBoard(board, d);
    ParityPresses(board, d, ps);
    ParityNoLonger(d, ps);
    SolutionClearsBoard(board, d, Parity(d, ps));
  }

  /** Pressing the cells a solution of the board's system marks clears the
      board. */
  lemma SolutionClears(board: nat, d: BoardSize, y: seq<F2>)
    requires board < Pow2(d * d) && SupportedLength(d * d) && |y| == d * d
    requires IsSolution(System(BoardVector(board, d * d)), y)
    ensures OnBoard(d, Support(y)) && ApplyPresses(board, d, Support(y)) == 0
  {
    SystemOfBoard(board, d);
    SolutionClearsBoard(board, d, y);
  }

  /** When the reduced system is diagonal, pressing the cells of any list
      `solveBoardVector` returns turns every light of the board off. */
  lemma ListedSolutionsClear(board: nat, d: BoardSize)
    requires board < Pow2(d * d)
    requires Diagonal(ReducedSystem(d, BoardVector(board, d * d)), d * d + 1)
    ensures F2Solver.Solve(BoardVector(board, d * d)).Success?
    ensures forall ps :: ps in F2Solver.Solve(BoardVector(board, d * d)).value ==>
              OnBoard(d, ps) && ApplyPresses(board, d, ps) == 0
  {
    var v := BoardVector(board, d * d);
    DimensionOfArea(d);
    SolveListsEverySolution(v);
    forall ps | ps in F2Solver.Solve(v).value
      ensures OnBoard(d, ps) && ApplyPresses(board, d, ps) == 0
    {
      var x :| |x| == |v| && IsSolution(System(v), x) && ps == Support(x);
      SolutionClears(board, d, x);
    }
  }

  /** When the reduced system is diagonal, a shortest path of the search
      (what a non-null result of `solve` is) has one board more than the
      best list of presses `onmessage` picks has presses. */
  lemma EnginesAgreeOnLength(board: nat, d: BoardSize, path: seq<nat>)
    requires board < Pow2(d * d) && ShortestPath(board, d, path)
    requires Diagonal(ReducedSystem(d, BoardVector(board, d * d)), d * d + 1)
    ensures F2Solver.Solve(BoardVector(board, d * d)).Success?
    ensures BestSolution(F2Solver.Solve(BoardVector(board, d * d)).value).Some?
    ensures |path| == |BestSolution(F2Solver.Solve(BoardVector(board, d * d)).value).value| + 1
  {
    var ps :| OnBoard(d, ps) && ApplyPresses(board, d, ps) == 0 && path == Boards(board, d, ps) &&
      forall qs :: OnBoard(d, qs) && ApplyPresses(board, d, qs) == 0 ==> |ps| <= |qs|;
    FewestPressesAreBest(board, d, ps);
  }

  /** A shortest list of presses that clears the board is exactly as long as
      the best list of the algebraic solver. */
  lemma FewestPressesAreBest(board: nat, d: BoardSize, ps: seq<nat>)
    requires board < Pow2(d * d) && OnBoard(d, ps) && ApplyPresses(board, d, ps) == 0
    requires forall qs :: OnBoard(d, qs) && ApplyPresses(board, d, qs) == 0 ==> |ps| <= |qs|
    requires Diagonal(ReducedSystem(d, BoardVector(board, d * d)), d * d + 1)
    ensures F2Solver.Solve(BoardVector(board, d * d)).Success?
    ensures BestSolution(F2Solver.Solve(BoardVector(board, d * d)).value).Some?
    ensures |BestSolution(F2Solver.Solve(BoardVector(board, d * d)).value).value| == |ps|
  {
    var vector := BoardVector(board, d * d);
    DimensionOfArea(d);
    SolveListsEverySolution(vector);
    var solutions := F2Solver.Solve(vector).value;
    // The presses taken once each give a solution listed among the
    // solutions: the best one is no longer.
    ParitySolves(board, d, ps);
    assert Support(Parity(d, ps)) in solutions;
    BestIsShortest(solutions, Support(Parity(d, ps)));
    var best := BestSolution(solutions).value;
    // The best one is the support of a solution, so it clears the board and
    // is no shorter than ps.
    var y :| |y| == d * d && IsSolution(System(vector), y) && best == Support(y);
    SolutionClears(board, d, y);
  }

  /** The list the `reduce` keeps is one of the lists, and no longer than
      any of them. */
  lemma BestIsShortest(solutions: seq<seq<nat>>, s: seq<nat>)
    requires s in solutions
    ensures BestSolution(solutions).Some?
    ensures BestSolution(solutions).value in solutions
    ensures |BestSolution(solutions).value| <= |s|
  {
    var i :| 0 <= i < |solutions| && BestSolution(solutions).value == solutions[i] &&
      (forall j :: 0 <= j < |solutions| ==> |solutions[i]| <= |solutions[j]|);
  }
}
