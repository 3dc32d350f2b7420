/** The influence matrix that `getLogicMatrix` builds
    (src/solve-worker-f2.ts), and what the augmented system over it means for
    a board: a 0/1 vector solves it exactly when pressing the cells it marks
    turns every light off. */
module Influence {
  import opened Bits
  import opened GF2
  import opened LightsOut

  /** Whether `getLogicMatrix(d)` sets entry k of row i * d + j: k is cell
      (i, j) itself or one of its in-bounds orthogonal neighbours. */
  predicate LogicFlips(d: BoardSize, i: nat, j: nat, k: nat)
  {
    k == i * d + j ||
    (i > 0 && k == (i - 1) * d + j) ||
    (i < d - 1 && k == (i + 1) * d + j) ||
    (j > 0 && k == i * d + j - 1) ||
    (j < d - 1 && k == i * d + j + 1)
  }

  /** Row i * d + j of the influence matrix. */
  function LogicRow(d: BoardSize, i: nat, j: nat): (row: seq<F2>)
    ensures |row| == d * d
  {
    seq(d * d, k requires 0 <= k < d * d => if LogicFlips(d, i, j, k) then 1 else 0)
  }

  /** The d^2 x d^2 influence matrix: row p belongs to cell (p / d, p % d). */
  function LogicMatrix(d: BoardSize): (m: seq<seq<F2>>)
    ensures |m| == d * d && Rect(m, d * d)
  {
    seq(d * d, p requires 0 <= p < d * d => LogicRow(d, p / d, p % d))
  }

  /** Row i * d + j of the influence matrix is the row of cell (i, j). */
  lemma LogicMatrixRow(d: BoardSize, i: nat, j: nat)
    requires i < d && j < d
    ensures i * d + j < d * d && LogicMatrix(d)[i * d + j] == LogicRow(d, i, j)
  {
    CellCoords(d, i, j);
    CellInRange(d, i * d + j);
  }

  /** Within the board, the entries set in a row of the influence matrix form
      the plus shape around the row's cell. */
  lemma LogicFlipsNear(d: BoardSize, i: nat, j: nat, r: nat, c: nat)
    requires i < d && j < d && r < d && c < d
    ensures LogicFlips(d, i, j, r * d + c) == Near(r, c, i, j)
  {
    if d == 2 {
    } else if d == 3 {
    } else if d == 4 {
    } else {
    }
  }

  /** Entry (cell (i, j), cell (r, c)) of the influence matrix is 1 exactly
      when the two cells are equal or orthogonal neighbours. */
  lemma LogicEntry(d: BoardSize, i: nat, j: nat, r: nat, c: nat)
    requires i < d && j < d && r < d && c < d
    ensures i * d + j < d * d && r * d + c < d * d
    ensures LogicMatrix(d)[i * d + j][r * d + c] == if Near(r, c, i, j) then 1 else 0
  {
    CellBelowArea(d, i, j);
    CellBelowArea(d, r, c);
    CellCoords(d, i, j);
    LogicFlipsNear(d, i, j, r, c);
  }

  /** The influence matrix is symmetric. */
  lemma LogicSymmetric(d: BoardSize, p: nat, q: nat)
    requires p < d * d && q < d * d
    ensures LogicMatrix(d)[p][q] == LogicMatrix(d)[q][p]
  {
    LogicEntryAt(d, p, q);
    LogicEntryAt(d, q, p);
    assert Near(q / d, q % d, p / d, p % d) == Near(p / d, p % d, q / d, q % d);
  }

  /** Entry (p, q) of the influence matrix, with both cells given by index. */
  lemma LogicEntryAt(d: BoardSize, p: nat, q: nat)
    requires p < d * d && q < d * d
    ensures LogicMatrix(d)[p][q] == if Near(q / d, q % d, p / d, p % d) then 1 else 0
  {
    CellInRange(d, p);
    CellInRange(d, q);
    LogicFlipsNear(d, p / d, p % d, q / d, q % d);
  }

  /** Its diagonal is all ones: pressing a cell flips that cell. */
  lemma LogicDiagonal(d: BoardSize, p: nat)
    requires p < d * d
    ensures LogicMatrix(d)[p][p] == 1
  {
    CellInRange(d, p);
    LogicEntry(d, p / d, p % d, p / d, p % d);
  }

  /** Whether pressing cell p flips the light at bit q. */
  predicate PressFlips(d: BoardSize, p: nat, q: nat)
    requires p < d * d
  {
    Bit(Press(0, d, p), q)
  }

  /** Column p of the influence matrix is the flip mask of `togglePlus` at
      cell p. */
  lemma LogicColumnIsPress(d: BoardSize, p: nat, q: nat)
    requires p < d * d && q < d * d
    ensures (LogicMatrix(d)[q][p] == 1) == PressFlips(d, p, q)
  {
    CellInRange(d, p);
    CellInRange(d, q);
    var row, col, r, c := p / d, p % d, q / d, q % d;
    LogicEntry(d, r, c, row, col);
    assert Press(0, d, p) == TogglePlus(0, d, row, col);
    TogglePlusCell(0, d, row, col, r, c);
    ZeroHasNoBits(q);
    assert q == r * d + c;
  }

  /** A press flips bit q of any board exactly when it flips bit q of the
      empty board. */
  lemma PressBit(board: nat, d: BoardSize, p: nat, q: nat)
    requires p < d * d
    ensures Bit(Press(board, d, p), q) == (Bit(board, q) != PressFlips(d, p, q))
  {
    CellInRange(d, p);
    TogglePlusIsMask(board, d, p / d, p % d);
    XorBit(board, Press(0, d, p), q);
  }

  /** How many of the presses in ps flip bit q. */
  function FlipCount(d: BoardSize, ps: seq<nat>, q: nat): nat
    requires OnBoard(d, ps)
  {
    if ps == [] then 0
    else (if PressFlips(d, ps[0], q) then 1 else 0) + FlipCount(d, ps[1..], q)
  }

  /** Counting one more flip, or none, changes the parity accordingly. */
  lemma OddAfterOne(flips: bool, rest: nat)
    ensures (((if flips then 1 else 0) + rest) % 2 == 1) == (flips != (rest % 2 == 1))
  {
  }

  /** After a list of presses a light has changed exactly when an odd number
      of them flipped it, whatever their order. */
  lemma {:induction false} PressesBit(board: nat, d: BoardSize, ps: seq<nat>, q: nat)
    requires OnBoard(d, ps)
    ensures Bit(ApplyPresses(board, d, ps), q) == (Bit(board, q) != (FlipCount(d, ps, q) % 2 == 1))
    decreases |ps|
  {
    if ps != [] {
      var next := Press(board, d, ps[0]);
      PressBit(board, d, ps[0], q);
      PressesBit(next, d, ps[1..], q);
      var rest := FlipCount(d, ps[1..], q);
      assert ApplyPresses(board, d, ps) == ApplyPresses(next, d, ps[1..]);
      assert FlipCount(d, ps, q) == (if PressFlips(d, ps[0], q) then 1 else 0) + rest;
      OddAfterOne(PressFlips(d, ps[0], q), rest);
    } else {
      assert FlipCount(d, ps, q) == 0;
    }
  }

  /** Pressing cells never lights a bit at or above d * d. */
  lemma {:induction false} PressesStayOnBoard(board: nat, d: BoardSize, ps: seq<nat>)
    requires OnBoard(d, ps) && board < Pow2(d * d)
    ensures ApplyPresses(board, d, ps) < Pow2(d * d)
    decreases |ps|
  {
    if ps != [] {
      CellInRange(d, ps[0]);
      TogglePlusStaysOnBoard(board, d, ps[0] / d, ps[0] % d);
      PressesStayOnBoard(Press(board, d, ps[0]), d, ps[1..]);
    }
  }

  /** The board as the 0/1 vector of its first n bits, what `onmessage` builds
      with `bitBoard & (1 << i) ? 1 : 0`. */
  function BoardVector(board: nat, n: nat): (v: seq<F2>)
    ensures |v| == n
  {
    seq(n, i requires 0 <= i < n => if Bit(board, i) then 1 else 0)
  }

  /** A board below 2^n is determined by its vector of n bits. */
  lemma BoardVectorDetermines(a: nat, b: nat, n: nat)
    requires a < Pow2(n) && b < Pow2(n)
    requires BoardVector(a, n) == BoardVector(b, n)
    ensures a == b
  {
    BelowPow2(a, n);
    BelowPow2(b, n);
    forall k: nat
      ensures Bit(a, k) == Bit(b, k)
    {
      if k < n {
        assert BoardVector(a, n)[k] == BoardVector(b, n)[k];
      }
    }
    BitsDetermine(a, b);
  }

  /** The dot product of row q of the influence matrix with x, from position
      i on, counts the presses marked by x from i on that flip cell q. */
  lemma {:induction false} DotCountsFlips(d: BoardSize, x: seq<F2>, q: nat, i: nat)
    requires |x| == d * d && q < d * d && i <= |x|
    ensures OnBoard(d, SupportFrom(x, i))
    ensures Sum(Products(LogicMatrix(d)[q], x)[i..]) == FlipCount(d, SupportFrom(x, i), q)
    decreases |x| - i
  {
    SupportFromFacts(x, i);
    var products := Products(LogicMatrix(d)[q], x);
    if i < |x| {
      DotCountsFlips(d, x, q, i + 1);
      var rest := SupportFrom(x, i + 1);
      assert products[i..][1..] == products[i + 1..];
      assert Sum(products[i..]) == products[i] + Sum(products[i + 1..]);
      if x[i] == 1 {
        LogicColumnIsPress(d, i, q);
        assert SupportFrom(x, i) == [i] + rest;
        assert ([i] + rest)[1..] == rest;
      } else {
        assert SupportFrom(x, i) == rest;
      }
    }
  }

  /** Equation q of the augmented system holds for x exactly when pressing the
      cells marked by x leaves light q off. */
  lemma EquationClearsCell(board: nat, d: BoardSize, x: seq<F2>, q: nat)
    requires |x| == d * d && q < d * d
    ensures OnBoard(d, Support(x))
    ensures Satisfies(Augment(LogicMatrix(d), BoardVector(board, d * d))[q], x)
        <==> !Bit(ApplyPresses(board, d, Support(x)), q)
  {
    DotCountsFlips(d, x, q, 0);
    var row := LogicMatrix(d)[q];
    var v := BoardVector(board, d * d)[q];
    var equation := Augment(LogicMatrix(d), BoardVector(board, d * d))[q];
    assert equation == row + [v];
    assert Products(equation, x) == Products(row, x);
    assert Products(row, x)[0..] == Products(row, x);
    PressesBit(board, d, Support(x), q);
  }

  /** A 0/1 vector solves the augmented system built from a board exactly when
      pressing the cells it marks turns every light off. */
  lemma SolutionClearsBoard(board: nat, d: BoardSize, x: seq<F2>)
    requires |x| == d * d && board < Pow2(d * d)
    ensures OnBoard(d, Support(x))
    ensures IsSolution(Augment(LogicMatrix(d), BoardVector(board, d * d)), x)
        <==> ApplyPresses(board, d, Support(x)) == 0
  {
    var system := Augment(LogicMatrix(d), BoardVector(board, d * d));
    SupportFacts(x);
    var after := ApplyPresses(board, d, Support(x));
    forall q | 0 <= q < d * d
      ensures Satisfies(system[q], x) <==> !Bit(after, q)
    {
      EquationClearsCell(board, d, x, q);
    }
    if IsSolution(system, x) {
      PressesStayOnBoard(board, d, Support(x));
      BelowPow2(after, d * d);
      forall k: nat
        ensures Bit(after, k) == Bit(0, k)
      {
        ZeroHasNoBits(k);
        if k < d * d {
          assert Satisfies(system[k], x);
        }
      }
      BitsDetermine(after, 0);
    }
    if after == 0 {
      forall q | 0 <= q < d * d
        ensures Satisfies(system[q], x)
      {
        ZeroHasNoBits(q);
      }
    }
  }
}
