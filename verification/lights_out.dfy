/** The board model of the Lights Out application (src/App.tsx): a board of
    size x size lights stored as a bitmask, the two press operators, the
    recovery of a pressed cell from two consecutive boards, and the replay of
    a press vector into a list of successive boards. */
module LightsOut {
  import opened Bits
  import opened GF2
  import opened Wrappers

  /** `type BoardSize = 2 | 3 | 4 | 5`. */
  type BoardSize = s: nat | 2 <= s <= 5 witness 2

  /** Cells (r, c) and (row, col) are the same cell or orthogonal
      neighbours. */
  predicate Near(r: int, c: int, row: int, col: int)
  {
    (r == row && (c == col || c + 1 == col || c == col + 1)) ||
    (c == col && (r + 1 == row || r == row + 1))
  }

  /** Flip bit i of x when `cond` holds. */
  function FlipIf(x: nat, cond: bool, i: int): nat
    requires cond ==> i >= 0
  {
    if cond then Xor(x, Pow2(i)) else x
  }

  lemma FlipIfBit(x: nat, cond: bool, i: int, k: nat)
    requires cond ==> i >= 0
    ensures Bit(FlipIf(x, cond, i), k) == (Bit(x, k) != (cond && k == i))
  {
    if cond {
      XorBit(x, Pow2(i), k);
      Pow2Bit(i, k);
    }
  }

  /** Flip the light at (row, col) and its in-bounds orthogonal neighbours. */
  function TogglePlus(board: nat, size: BoardSize, row: nat, col: nat): nat
    requires row < size && col < size
  {
    var u0 := FlipIf(board, true, row * size + col);
    var u1 := FlipIf(u0, row > 0, (row - 1) * size + col);
    var u2 := FlipIf(u1, row < size - 1, (row + 1) * size + col);
    var u3 := FlipIf(u2, col > 0, row * size + col - 1);
    FlipIf(u3, col < size - 1, row * size + col + 1)
  }

  /** Flip only the light at (row, col). */
  function ToggleSingle(board: nat, size: BoardSize, row: nat, col: nat): nat
    requires row < size && col < size
  {
    Xor(board, Pow2(row * size + col))
  }

  /** Row and column of cell index r * size + c, for each board size. */
  lemma CellCoords(size: BoardSize, r: nat, c: nat)
    requires c < size
    ensures (r * size + c) / size == r && (r * size + c) % size == c
  {
    if size == 2 {
    } else if size == 3 {
    } else if size == 4 {
    } else {
    }
  }

  lemma CellInRange(size: BoardSize, p: nat)
    requires p < size * size
    ensures 0 <= p / size < size && 0 <= p % size < size
    ensures p == (p / size) * size + p % size
  {
    if size == 2 {
    } else if size == 3 {
    } else if size == 4 {
    } else {
    }
  }

  lemma CellBelowArea(size: BoardSize, r: nat, c: nat)
    requires r < size && c < size
    ensures r * size + c < size * size
  {
    if size == 2 {
    } else if size == 3 {
    } else if size == 4 {
    } else {
    }
  }

  /** Whether an odd number of five conditional flips hit bit k. */
  predicate FlippedOdd(c0: bool, c1: bool, c2: bool, c3: bool, c4: bool,
                       i0: int, i1: int, i2: int, i3: int, i4: int, k: nat)
  {
    ((((c0 && k == i0) != (c1 && k == i1)) != (c2 && k == i2)) != (c3 && k == i3)) != (c4 && k == i4)
  }

  /** Five conditional flips in a row flip bit k once for each flip that
      applies to it. */
  lemma FiveFlipsBit(board: nat, c0: bool, c1: bool, c2: bool, c3: bool, c4: bool,
                     i0: int, i1: int, i2: int, i3: int, i4: int, k: nat)
    requires (c0 ==> i0 >= 0) && (c1 ==> i1 >= 0) && (c2 ==> i2 >= 0) && (c3 ==> i3 >= 0) && (c4 ==> i4 >= 0)
    ensures Bit(FlipIf(FlipIf(FlipIf(FlipIf(FlipIf(board, c0, i0), c1, i1), c2, i2), c3, i3), c4, i4), k)
      == (Bit(board, k) != FlippedOdd(c0, c1, c2, c3, c4, i0, i1, i2, i3, i4, k))
  {
    var u0 := FlipIf(board, c0, i0);
    var u1 := FlipIf(u0, c1, i1);
    var u2 := FlipIf(u1, c2, i2);
    var u3 := FlipIf(u2, c3, i3);
    FlipIfBit(board, c0, i0, k);
    FlipIfBit(u0, c1, i1, k);
    FlipIfBit(u1, c2, i2, k);
    FlipIfBit(u2, c3, i3, k);
    FlipIfBit(u3, c4, i4, k);
  }

  /** Whether TogglePlus flips bit k: one term per conditional flip. */
  predicate PlusFlips(size: BoardSize, row: nat, col: nat, k: nat)
  {
    FlippedOdd(true, row > 0, row < size - 1, col > 0, col < size - 1,
      row * size + col, (row - 1) * size + col, (row + 1) * size + col, row * size + col - 1, row * size + col + 1, k)
  }

  lemma TogglePlusFlips(board: nat, size: BoardSize, row: nat, col: nat, k: nat)
    requires row < size && col < size
    ensures Bit(TogglePlus(board, size, row, col), k) == (Bit(board, k) != PlusFlips(size, row, col, k))
  {
    FiveFlipsBit(board, true, row > 0, row < size - 1, col > 0, col < size - 1,
      row * size + col, (row - 1) * size + col, (row + 1) * size + col, row * size + col - 1, row * size + col + 1, k);
  }

  /** Within the board, the flipped cells form the plus shape centred at
      (row, col), cut off at the edges. */
  lemma PlusFlipsNear(size: BoardSize, row: nat, col: nat, r: nat, c: nat)
    requires row < size && col < size && r < size && c < size
    ensures PlusFlips(size, row, col, r * size + c) == Near(r, c, row, col)
  {
    if size == 2 {
    } else if size == 3 {
    } else if size == 4 {
    } else {
    }
  }

  /** No cell outside the board is flipped. */
  lemma PlusFlipsOnBoard(size: BoardSize, row: nat, col: nat, k: nat)
    requires row < size && col < size && size * size <= k
    ensures !PlusFlips(size, row, col, k)
  {
    if size == 2 {
    } else if size == 3 {
    } else if size == 4 {
    } else {
    }
  }

  /** TogglePlus flips cell (r, c) exactly when it is the pressed cell or an
      orthogonal neighbour of it; nothing wraps around an edge. */
  lemma TogglePlusCell(board: nat, size: BoardSize, row: nat, col: nat, r: nat, c: nat)
    requires row < size && col < size && r < size && c < size
    ensures Bit(TogglePlus(board, size, row, col), r * size + c)
         == (Bit(board, r * size + c) != Near(r, c, row, col))
  {
    TogglePlusFlips(board, size, row, col, r * size + c);
    PlusFlipsNear(size, row, col, r, c);
  }

  /** TogglePlus keeps every bit at or above size * size. */
  lemma TogglePlusOffBoard(board: nat, size: BoardSize, row: nat, col: nat, k: nat)
    requires row < size && col < size && size * size <= k
    ensures Bit(TogglePlus(board, size, row, col), k) == Bit(board, k)
  {
    TogglePlusFlips(board, size, row, col, k);
    PlusFlipsOnBoard(size, row, col, k);
  }

  /** Pressing the same cell twice restores the board. */
  lemma TogglePlusTwice(board: nat, size: BoardSize, row: nat, col: nat)
    requires row < size && col < size
    ensures TogglePlus(TogglePlus(board, size, row, col), size, row, col) == board
  {
    var once := TogglePlus(board, size, row, col);
    forall k: nat
      ensures Bit(TogglePlus(once, size, row, col), k) == Bit(board, k)
    {
      TogglePlusFlips(once, size, row, col, k);
      TogglePlusFlips(board, size, row, col, k);
    }
    BitsDetermine(TogglePlus(once, size, row, col), board);
  }

  /** Two presses commute. */
  lemma TogglePlusCommutes(board: nat, size: BoardSize, r1: nat, c1: nat, r2: nat, c2: nat)
    requires r1 < size && c1 < size && r2 < size && c2 < size
    ensures TogglePlus(TogglePlus(board, size, r1, c1), size, r2, c2)
         == TogglePlus(TogglePlus(board, size, r2, c2), size, r1, c1)
  {
    var a := TogglePlus(board, size, r1, c1);
    var b := TogglePlus(board, size, r2, c2);
    forall k: nat
      ensures Bit(TogglePlus(a, size, r2, c2), k) == Bit(TogglePlus(b, size, r1, c1), k)
    {
      TogglePlusFlips(board, size, r1, c1, k);
      TogglePlusFlips(board, size, r2, c2, k);
      TogglePlusFlips(a, size, r2, c2, k);
      TogglePlusFlips(b, size, r1, c1, k);
    }
    BitsDetermine(TogglePlus(a, size, r2, c2), TogglePlus(b, size, r1, c1));
  }

  /** A press is an exclusive or with a mask that does not depend on the
      board: the plus shape pressed on the dark board. */
  lemma TogglePlusIsMask(board: nat, size: BoardSize, row: nat, col: nat)
    requires row < size && col < size
    ensures TogglePlus(board, size, row, col) == Xor(board, TogglePlus(0, size, row, col))
  {
    var mask := TogglePlus(0, size, row, col);
    forall k: nat
      ensures Bit(TogglePlus(board, size, row, col), k) == Bit(Xor(board, mask), k)
    {
      TogglePlusFlips(board, size, row, col, k);
      TogglePlusFlips(0, size, row, col, k);
      ZeroHasNoBits(k);
      XorBit(board, mask, k);
    }
    BitsDetermine(TogglePlus(board, size, row, col), Xor(board, mask));
  }

  /** A press keeps a board that fits in size * size bits within them. */
  lemma TogglePlusStaysOnBoard(board: nat, size: BoardSize, row: nat, col: nat)
    requires row < size && col < size && board < Pow2(size * size)
    ensures TogglePlus(board, size, row, col) < Pow2(size * size)
  {
    var t := TogglePlus(board, size, row, col);
    BelowPow2(board, size * size);
    forall k: nat | size * size <= k
      ensures !Bit(t, k)
    {
      TogglePlusOffBoard(board, size, row, col, k);
    }
    BelowPow2(t, size * size);
  }

  /** ToggleSingle flips exactly bit row * size + col. */
  lemma ToggleSingleBit(board: nat, size: BoardSize, row: nat, col: nat, k: nat)
    requires row < size && col < size
    ensures Bit(ToggleSingle(board, size, row, col), k) == (Bit(board, k) != (k == row * size + col))
  {
    XorBit(board, Pow2(row * size + col), k);
    Pow2Bit(row * size + col, k);
  }

  /** Flipping the same single light twice restores the board. */
  lemma ToggleSingleTwice(board: nat, size: BoardSize, row: nat, col: nat)
    requires row < size && col < size
    ensures ToggleSingle(ToggleSingle(board, size, row, col), size, row, col) == board
  {
    XorCancels(board, Pow2(row * size + col));
  }

  /** Press cell p = row * size + col, as the replay loop does with
      `togglePlus(board, size, Math.floor(p / size), p % size)`. */
  function Press(board: nat, size: BoardSize, p: nat): nat
    requires p < size * size
  {
    CellInRange(size, p);
    TogglePlus(board, size, p / size, p % size)
  }

  predicate OnBoard(size: BoardSize, ps: seq<nat>)
  {
    forall i :: 0 <= i < |ps| ==> ps[i] < size * size
  }

  /** Press the cells of ps in order. */
  function ApplyPresses(board: nat, size: BoardSize, ps: seq<nat>): nat
    requires OnBoard(size, ps)
    decreases |ps|
  {
    if ps == [] then board else ApplyPresses(Press(board, size, ps[0]), size, ps[1..])
  }

  lemma {:induction false} ApplyPressesSnoc(board: nat, size: BoardSize, ps: seq<nat>, p: nat)
    requires OnBoard(size, ps) && p < size * size
    ensures OnBoard(size, ps + [p])
    ensures ApplyPresses(board, size, ps + [p]) == Press(ApplyPresses(board, size, ps), size, p)
    decreases |ps|
  {
    if ps != [] {
      assert (ps + [p])[1..] == ps[1..] + [p];
      ApplyPressesSnoc(Press(board, size, ps[0]), size, ps[1..], p);
    }
  }

  /** Applying a list of presses is an exclusive or with the combined mask of
      those presses, whatever the starting board. */
  lemma {:induction false} ApplyPressesIsMask(board: nat, size: BoardSize, ps: seq<nat>)
    requires OnBoard(size, ps)
    ensures ApplyPresses(board, size, ps) == Xor(board, ApplyPresses(0, size, ps))
    decreases |ps|
  {
    if ps == [] {
      forall k: nat
        ensures Bit(Xor(board, 0), k) == Bit(board, k)
      {
        XorBit(board, 0, k);
        ZeroHasNoBits(k);
      }
      BitsDetermine(Xor(board, 0), board);
    } else {
      var p := ps[0];
      CellInRange(size, p);
      var mask := TogglePlus(0, size, p / size, p % size);
      TogglePlusIsMask(board, size, p / size, p % size);
      ApplyPressesIsMask(Press(board, size, p), size, ps[1..]);
      ApplyPressesIsMask(mask, size, ps[1..]);
      XorAssociates(board, mask, ApplyPresses(0, size, ps[1..]));
    }
  }

  /** `Math.sqrt` of a supported vector length. */
  function Dimension(len: nat): (size: BoardSize)
    requires len == 4 || len == 9 || len == 16 || len == 25
    ensures size * size == len
  {
    if len == 4 then 2 else if len == 9 then 3 else if len == 16 then 4 else 5
  }

  /** The boards seen while pressing the cells of ps in order, starting from
      board: the first is board itself, each later one is its predecessor
      after one press. */
  function Boards(board: nat, size: BoardSize, ps: seq<nat>): (bs: seq<nat>)
    requires OnBoard(size, ps)
    ensures |bs| == |ps| + 1 && bs[0] == board
  {
    if ps == [] then [board]
    else
      var prev := Boards(board, size, ps[..|ps| - 1]);
      prev + [Press(prev[|ps| - 1], size, ps[|ps| - 1])]
  }

  /** Consecutive boards of the list are one press apart, and the last board
      is the result of all the presses. */
  lemma {:induction false} BoardsArePresses(board: nat, size: BoardSize, ps: seq<nat>)
    requires OnBoard(size, ps)
    ensures forall j {:trigger ps[j]} :: 0 <= j < |ps| ==>
      Boards(board, size, ps)[j + 1] == Press(Boards(board, size, ps)[j], size, ps[j])
    ensures Boards(board, size, ps)[|ps|] == ApplyPresses(board, size, ps)
  {
    if ps != [] {
      var init := ps[..|ps| - 1];
      var p := ps[|ps| - 1];
      BoardsArePresses(board, size, init);
      assert init + [p] == ps;
      ApplyPressesSnoc(board, size, init, p);
      var bs := Boards(board, size, ps);
      var prev := Boards(board, size, init);
      forall j | 0 <= j < |ps|
        ensures bs[j + 1] == Press(bs[j], size, ps[j])
      {
        if j < |init| {
          assert ps[j] == init[j];
        }
      }
    }
  }

  /** Extending a vector by one entry extends its support by that entry's
      index when the entry is 1. */
  lemma SupportOfLonger(x: seq<F2>, i: nat)
    requires i < |x|
    ensures x[i] == 1 ==> Support(x[..i + 1]) == Support(x[..i]) + [i]
    ensures x[i] != 1 ==> Support(x[..i + 1]) == Support(x[..i])
  {
    var s := Support(x[..i + 1]);
    var t := Support(x[..i]) + (if x[i] == 1 then [i] else []);
    SupportFacts(x[..i + 1]);
    SupportFacts(x[..i]);
    forall p
      ensures p in s <==> p in t
    {
      if p in Support(x[..i]) {
        assert x[..i + 1][p] == x[..i][p];
      }
      if p in s && p < i {
        assert x[..i + 1][p] == x[..i][p];
      }
    }
    AscendingUnique(s, t);
    if x[i] != 1 {
      assert t == Support(x[..i]);
    }
  }

  lemma BoardsSnoc(board: nat, size: BoardSize, ps: seq<nat>, p: nat)
    requires OnBoard(size, ps) && p < size * size
    ensures OnBoard(size, ps + [p])
    ensures Boards(board, size, ps + [p])
         == Boards(board, size, ps) + [Press(Boards(board, size, ps)[|ps|], size, p)]
  {
    assert (ps + [p])[..|ps|] == ps;
  }

  /** The boards recorded after the first i entries of x have been replayed. */
  function ReplayPrefix(board: nat, x: seq<F2>, i: nat): (bs: seq<nat>)
    requires i <= |x| && (|x| == 4 || |x| == 9 || |x| == 16 || |x| == 25)
    ensures |bs| >= 1
  {
    if i == 0 then [board]
    else
      var prev := ReplayPrefix(board, x, i - 1);
      if x[i - 1] == 1 then prev + [Press(prev[|prev| - 1], Dimension(|x|), i - 1)] else prev
  }

  /** Every index in the support of a prefix of a board vector is a cell of
      the board. */
  lemma SupportOnBoard(x: seq<F2>, i: nat)
    requires i <= |x| && (|x| == 4 || |x| == 9 || |x| == 16 || |x| == 25)
    ensures OnBoard(Dimension(|x|), Support(x[..i]))
  {
    SupportFacts(x[..i]);
  }

  /** Replaying the first i entries presses the cells of their support in
      ascending order. */
  lemma {:induction false} ReplayPrefixIsBoards(board: nat, x: seq<F2>, i: nat)
    requires i <= |x| && (|x| == 4 || |x| == 9 || |x| == 16 || |x| == 25)
    ensures OnBoard(Dimension(|x|), Support(x[..i]))
    ensures ReplayPrefix(board, x, i) == Boards(board, Dimension(|x|), Support(x[..i]))
  {
    SupportOnBoard(x, i);
    if i == 0 {
      assert x[..0] == [];
    } else {
      var ps := Support(x[..i - 1]);
      ReplayPrefixIsBoards(board, x, i - 1);
      SupportOfLonger(x, i - 1);
      if x[i - 1] == 1 {
        BoardsSnoc(board, Dimension(|x|), ps, i - 1);
      } else {
        assert Support(x[..i]) == ps;
      }
    }
  }

  /** The replay loop of the worker-response handler: starting from the
      original board, press each cell whose entry of the solution vector is
      set, in ascending order, and record every board on the way. */
  method Replay(originalBitBoard: nat, solution: seq<F2>) returns (newSolution: seq<nat>)
    requires |solution| == 4 || |solution| == 9 || |solution| == 16 || |solution| == 25
    ensures OnBoard(Dimension(|solution|), Support(solution))
    ensures newSolution == Boards(originalBitBoard, Dimension(|solution|), Support(solution))
  {
    newSolution := [originalBitBoard];
    var size := Dimension(|solution|);
    for i := 0 to |solution|
      invariant newSolution == ReplayPrefix(originalBitBoard, solution, i)
    {
      if solution[i] == 1 {
        newSolution := newSolution + [Press(newSolution[|newSolution| - 1], size, i)];
      }
    }
    ReplayPrefixIsBoards(originalBitBoard, solution, |solution|);
    assert solution[..|solution|] == solution;
  }

  /** The light at bit k differs between the two boards. */
  predicate Differs(before: nat, after: nat, k: nat)
  {
    Bit(before, k) != Bit(after, k)
  }

  /** How many of the cells start, start + stride, ..., start + (n - 1) * stride
      differ between the two boards: a row is (row * size, 1), a column
      (col, size). */
  function LineDifferences(before: nat, after: nat, start: nat, stride: nat, n: nat): nat
  {
    if n == 0 then 0
    else
      var last := if Differs(before, after, start + (n - 1) * stride) then 1 else 0;
      LineDifferences(before, after, start, stride, n - 1) + last
  }

  lemma {:induction false} LineMonotone(before: nat, after: nat, start: nat, stride: nat, n: nat, m: nat)
    requires n <= m
    ensures LineDifferences(before, after, start, stride, n) <= LineDifferences(before, after, start, stride, m)
    decreases m
  {
    if n < m {
      LineMonotone(before, after, start, stride, n, m - 1);
    }
  }

  /** Two differing cells on a line make at least two differences. */
  lemma {:induction false} LineTwo(before: nat, after: nat, start: nat, stride: nat, n: nat, j1: nat, j2: nat)
    requires j1 < j2 < n
    requires Differs(before, after, start + j1 * stride) && Differs(before, after, start + j2 * stride)
    ensures LineDifferences(before, after, start, stride, n) >= 2
  {
    LineOne(before, after, start, stride, j2, j1);
    LineMonotone(before, after, start, stride, j2 + 1, n);
  }

  lemma {:induction false} LineOne(before: nat, after: nat, start: nat, stride: nat, n: nat, j: nat)
    requires j < n && Differs(before, after, start + j * stride)
    ensures LineDifferences(before, after, start, stride, n) >= 1
  {
    LineMonotone(before, after, start, stride, j + 1, n);
  }

  /** A line on which only cell j may differ has at most one difference. */
  lemma {:induction false} LineAtMostOne(before: nat, after: nat, start: nat, stride: nat, n: nat, j: nat)
    requires forall i: nat :: i < n && i != j ==> !Differs(before, after, start + i * stride)
    ensures LineDifferences(before, after, start, stride, n) <= 1
  {
    if n > 0 {
      if n - 1 == j {
        LineNone(before, after, start, stride, n - 1);
      } else {
        LineAtMostOne(before, after, start, stride, n - 1, j);
      }
    }
  }

  lemma {:induction false} LineNone(before: nat, after: nat, start: nat, stride: nat, n: nat)
    requires forall i: nat :: i < n ==> !Differs(before, after, start + i * stride)
    ensures LineDifferences(before, after, start, stride, n) == 0
  {
    if n > 0 {
      LineNone(before, after, start, stride, n - 1);
    }
  }

  /** Differences in row `row`. */
  function RowDifferences(before: nat, after: nat, size: BoardSize, row: nat): nat
  {
    LineDifferences(before, after, row * size, 1, size)
  }

  /** Differences in column `col`. */
  function ColDifferences(before: nat, after: nat, size: BoardSize, col: nat): nat
  {
    LineDifferences(before, after, col, size, size)
  }

  /** The first row, from `row` on, in which at least two cells differ. */
  function TwoDiffRowFrom(before: nat, after: nat, size: BoardSize, row: nat): (r: Option<nat>)
    requires row <= size
    decreases size - row
    ensures r.Some? ==>
      row <= r.value < size && RowDifferences(before, after, size, r.value) >= 2 &&
      forall k :: row <= k < r.value ==> RowDifferences(before, after, size, k) < 2
    ensures r.None? ==> forall k :: row <= k < size ==> RowDifferences(before, after, size, k) < 2
  {
    if row == size then None
    else if RowDifferences(before, after, size, row) >= 2 then Some(row)
    else TwoDiffRowFrom(before, after, size, row + 1)
  }

  /** The first column, from `col` on, in which at least two cells differ. */
  function TwoDiffColFrom(before: nat, after: nat, size: BoardSize, col: nat): (c: Option<nat>)
    requires col <= size
    decreases size - col
    ensures c.Some? ==>
      col <= c.value < size && ColDifferences(before, after, size, c.value) >= 2 &&
      forall k :: col <= k < c.value ==> ColDifferences(before, after, size, k) < 2
    ensures c.None? ==> forall k :: col <= k < size ==> ColDifferences(before, after, size, k) < 2
  {
    if col == size then None
    else if ColDifferences(before, after, size, col) >= 2 then Some(col)
    else TwoDiffColFrom(before, after, size, col + 1)
  }

  /** Recover the pressed cell from two consecutive boards: the first row and
      the first column in which two lights differ. `NaN` (nothing found) is
      None. */
  method StepDiff(before: nat, after: nat, size: BoardSize) returns (centerRow: Option<nat>, centerCol: Option<nat>)
    ensures centerRow == TwoDiffRowFrom(before, after, size, 0)
    ensures centerCol == TwoDiffColFrom(before, after, size, 0)
  {
    centerRow, centerCol := None, None;
    var row := 0;
    while row < size && centerRow.None?
      invariant row <= size
      invariant centerRow.None? ==> TwoDiffRowFrom(before, after, size, 0) == TwoDiffRowFrom(before, after, size, row)
      invariant centerRow.Some? ==> centerRow == TwoDiffRowFrom(before, after, size, 0)
    {
      var two := LineHasTwo(before, after, row * size, 1, size);
      if two {
        centerRow := Some(row);
      }
      row := row + 1;
    }

    var col := 0;
    while col < size && centerCol.None?
      invariant col <= size
      invariant centerCol.None? ==> TwoDiffColFrom(before, after, size, 0) == TwoDiffColFrom(before, after, size, col)
      invariant centerCol.Some? ==> centerCol == TwoDiffColFrom(before, after, size, 0)
    {
      var two := LineHasTwo(before, after, col, size, size);
      if two {
        centerCol := Some(col);
      }
      col := col + 1;
    }
  }

  /** The inner loops of stepDiff: walk the n cells of a line, counting the
      lights that differ, and stop at the second one. */
  method LineHasTwo(before: nat, after: nat, start: nat, stride: nat, n: nat) returns (two: bool)
    ensures two == (LineDifferences(before, after, start, stride, n) >= 2)
  {
    two := false;
    var differences := 0;
    var j := 0;
    while j < n
      invariant j <= n
      invariant differences == LineDifferences(before, after, start, stride, j) && differences < 2
    {
      if Bit(before, start + j * stride) != Bit(after, start + j * stride) {
        differences := differences + 1;
        if differences == 2 {
          two := true;
          LineMonotone(before, after, start, stride, j + 1, n);
          break;
        }
      }
      j := j + 1;
    }
  }

  /** Cell (r, c) changes under a press at (row, col) exactly when it is in
      the plus shape. */
  lemma PressDiffers(board: nat, size: BoardSize, row: nat, col: nat, r: nat, c: nat)
    requires row < size && col < size && r < size && c < size
    ensures Differs(board, TogglePlus(board, size, row, col), r * size + c) == Near(r, c, row, col)
  {
    TogglePlusCell(board, size, row, col, r, c);
  }

  lemma PressRowDifferences(board: nat, size: BoardSize, row: nat, col: nat, r: nat)
    requires row < size && col < size && r < size
    ensures RowDifferences(board, TogglePlus(board, size, row, col), size, r) >= 2 <==> r == row
  {
    var after := TogglePlus(board, size, row, col);
    if r == row {
      var other := if col > 0 then col - 1 else col + 1;
      PressDiffers(board, size, row, col, r, col);
      PressDiffers(board, size, row, col, r, other);
      assert col * 1 == col && other * 1 == other;
      if col < other {
        LineTwo(board, after, r * size, 1, size, col, other);
      } else {
        LineTwo(board, after, r * size, 1, size, other, col);
      }
    } else {
      forall i: nat | i < size && i != col
        ensures !Differs(board, after, r * size + i * 1)
      {
        PressDiffers(board, size, row, col, r, i);
        assert i * 1 == i;
      }
      LineAtMostOne(board, after, r * size, 1, size, col);
    }
  }

  lemma PressColDifferences(board: nat, size: BoardSize, row: nat, col: nat, c: nat)
    requires row < size && col < size && c < size
    ensures ColDifferences(board, TogglePlus(board, size, row, col), size, c) >= 2 <==> c == col
  {
    var after := TogglePlus(board, size, row, col);
    if c == col {
      var other := if row > 0 then row - 1 else row + 1;
      PressDiffers(board, size, row, col, row, c);
      PressDiffers(board, size, row, col, other, c);
      if row < other {
        LineTwo(board, after, c, size, size, row, other);
      } else {
        LineTwo(board, after, c, size, size, other, row);
      }
    } else {
      forall i: nat | i < size && i != row
        ensures !Differs(board, after, c + i * size)
      {
        PressDiffers(board, size, row, col, i, c);
      }
      LineAtMostOne(board, after, c, size, size, row);
    }
  }

  /** Between two consecutive boards of a press at (row, col), the first row
      and the first column with two differing lights are row and col. */
  lemma StepDiffFindsPress(board: nat, size: BoardSize, row: nat, col: nat)
    requires row < size && col < size
    ensures TwoDiffRowFrom(board, TogglePlus(board, size, row, col), size, 0) == Some(row)
    ensures TwoDiffColFrom(board, TogglePlus(board, size, row, col), size, 0) == Some(col)
  {
    var after := TogglePlus(board, size, row, col);
    PressRowDifferences(board, size, row, col, row);
    PressColDifferences(board, size, row, col, col);
    match TwoDiffRowFrom(board, after, size, 0)
    case None =>
    case Some(r) =>
      PressRowDifferences(board, size, row, col, r);
    match TwoDiffColFrom(board, after, size, 0)
    case None =>
    case Some(c) =>
      PressColDifferences(board, size, row, col, c);
  }

  /** Between a board and itself no row or column has two differences. */
  lemma StepDiffOfSameBoard(board: nat, size: BoardSize)
    ensures TwoDiffRowFrom(board, board, size, 0) == None
    ensures TwoDiffColFrom(board, board, size, 0) == None
  {
    forall r | 0 <= r < size
      ensures RowDifferences(board, board, size, r) == 0
    {
      LineNone(board, board, r * size, 1, size);
    }
    forall c | 0 <= c < size
      ensures ColDifferences(board, board, size, c) == 0
    {
      LineNone(board, board, c, size, size);
    }
  }
}
