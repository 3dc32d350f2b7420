/** In-place Gauss-Jordan elimination over GF(2), as `rrefOverF2` with its
    nested helpers `reduceSubmatrix`, `clearPivotColumn` and `addRowFromTo`
    performs it (src/solve-worker-f2.ts). The matrix is an array of rows;
    exchanging two rows exchanges the row values. Each method is tied to a
    specification function on the sequence of rows, and the lemmas prove
    what that function achieves: the same solutions, reduced row-echelon
    form, and nothing to do on a matrix already reduced. */
module Elimination {
  import opened GF2
  import opened Wrappers

  // ---------------------------------------------------------------------
  // Specification functions
  // ---------------------------------------------------------------------

  /** The rows after `clearPivotColumn(i, j)`: every other row with a 1 in
      column j gets row i added to it. Row i itself never changes, so adding
      one row at a time gives the same rows as adding them all at once. */
  function ClearColumn(rows: seq<seq<F2>>, w: nat, i: nat, j: nat): (r: seq<seq<F2>>)
    requires Rect(rows, w) && i < |rows| && j < w
    ensures |r| == |rows| && Rect(r, w)
  {
    seq(|rows|, k requires 0 <= k < |rows| =>
      if k != i && rows[k][j] == 1 then RowSum(rows[i], rows[k]) else rows[k])
  }

  /** Rows a and b exchanged. */
  function Swap(rows: seq<seq<F2>>, w: nat, a: nat, b: nat): (r: seq<seq<F2>>)
    requires Rect(rows, w) && a < |rows| && b < |rows|
    ensures |r| == |rows| && Rect(r, w)
  {
    rows[a := rows[b]][b := rows[a]]
  }

  /** The first row at or below i with a 1 in column j. */
  function FindInColumn(rows: seq<seq<F2>>, w: nat, j: nat, i: nat): (r: Option<nat>)
    requires Rect(rows, w) && j < w && i <= |rows|
    ensures r.Some? ==> i <= r.value < |rows| && rows[r.value][j] == 1 &&
                        forall k :: i <= k < r.value ==> rows[k][j] == 0
    ensures r.None? ==> forall k :: i <= k < |rows| ==> rows[k][j] == 0
    decreases |rows| - i
  {
    if i == |rows| then None
    else if rows[i][j] != 0 then Some(i)
    else FindInColumn(rows, w, j, i + 1)
  }

  /** The first 1 met by the column-major scan of `reduceSubmatrix`: columns
      from j on, and in each column the rows from iFrom down. */
  function FindPivot(rows: seq<seq<F2>>, w: nat, iFrom: nat, j: nat): (r: Option<(nat, nat)>)
    requires Rect(rows, w) && iFrom <= |rows| && j <= w
    ensures r.Some? ==>
      iFrom <= r.value.0 < |rows| && j <= r.value.1 < w && rows[r.value.0][r.value.1] == 1 &&
      (forall k, c :: iFrom <= k < |rows| && j <= c < r.value.1 ==> rows[k][c] == 0) &&
      (forall k :: iFrom <= k < r.value.0 ==> rows[k][r.value.1] == 0)
    ensures r.None? ==> forall k, c :: iFrom <= k < |rows| && j <= c < w ==> rows[k][c] == 0
    decreases w - j
  {
    if j == w then None
    else match FindInColumn(rows, w, j, iFrom)
      case Some(i) => Some((i, j))
      case None => FindPivot(rows, w, iFrom, j + 1)
  }

  /** What `reduceSubmatrix(iFrom, jFrom)` leaves in the matrix: find the next
      pivot, swap it up to row iFrom, clear its column and go on below and to
      the right of it. */
  function Reduce(rows: seq<seq<F2>>, w: nat, iFrom: nat, jFrom: nat): (r: seq<seq<F2>>)
    requires Rect(rows, w) && iFrom <= |rows| && jFrom <= w
    ensures |r| == |rows| && Rect(r, w)
    decreases |rows| - iFrom
  {
    match FindPivot(rows, w, iFrom, jFrom)
    case None => rows
    case Some((i, j)) =>
      Reduce(ClearColumn(Swap(rows, w, iFrom, i), w, iFrom, j), w, iFrom + 1, j + 1)
  }

  /** One step of the scan: a 1 at (i, j) found after the scan from
      (iFrom, jFrom) met only zeros is the pivot Reduce works with. */
  lemma ReduceStep(rows: seq<seq<F2>>, w: nat, iFrom: nat, jFrom: nat, i: nat, j: nat)
    requires Rect(rows, w) && iFrom <= i < |rows| && jFrom <= j < w && rows[i][j] == 1
    requires FindPivot(rows, w, iFrom, jFrom) == FindPivot(rows, w, iFrom, j)
    requires FindInColumn(rows, w, j, iFrom) == FindInColumn(rows, w, j, i)
    ensures FindPivot(rows, w, iFrom, jFrom) == Some((i, j))
  {
    assert FindInColumn(rows, w, j, i) == Some(i);
  }

  // ---------------------------------------------------------------------
  // What the elimination achieves
  // ---------------------------------------------------------------------

  /** Clearing a column keeps the solutions: row i stays as it is and every
      other row either stays or has row i added to it. */
  lemma ClearColumnKeepsSolutions(rows: seq<seq<F2>>, w: nat, i: nat, j: nat)
    requires Rect(rows, w) && i < |rows| && j < w
    ensures SameSolutions(ClearColumn(rows, w, i, j), rows)
  {
    var after := ClearColumn(rows, w, i, j);
    forall x
      ensures IsSolution(after, x) <==> IsSolution(rows, x)
    {
      if IsSolution(rows, x) {
        forall k | 0 <= k < |after|
          ensures Satisfies(after[k], x)
        {
          if k != i && rows[k][j] == 1 {
            RowSumKeepsEquations(rows[i], rows[k], x);
          }
        }
      }
      if IsSolution(after, x) {
        assert Satisfies(rows[i], x) by {
          assert after[i] == rows[i];
        }
        forall k | 0 <= k < |rows|
          ensures Satisfies(rows[k], x)
        {
          assert Satisfies(after[k], x);
          if k != i && rows[k][j] == 1 {
            RowSumKeepsEquations(rows[i], rows[k], x);
          }
        }
      }
    }
  }

  /** Elimination only swaps rows and adds one row into another, so the
      reduced matrix has exactly the solutions of the original one. */
  lemma {:induction false} ReduceKeepsSolutions(rows: seq<seq<F2>>, w: nat, iFrom: nat, jFrom: nat)
    requires Rect(rows, w) && iFrom <= |rows| && jFrom <= w
    ensures SameSolutions(Reduce(rows, w, iFrom, jFrom), rows)
    decreases |rows| - iFrom
  {
    match FindPivot(rows, w, iFrom, jFrom)
    case None =>
    case Some((i, j)) =>
      var swapped := Swap(rows, w, iFrom, i);
      SwapKeepsSolutions(rows, iFrom, i);
      var cleared := ClearColumn(swapped, w, iFrom, j);
      ClearColumnKeepsSolutions(swapped, w, iFrom, j);
      ReduceKeepsSolutions(cleared, w, iFrom + 1, j + 1);
  }

  /** Zeros from row iFrom down in the columns from jFrom to j carry the
      elimination state on to column j. */
  lemma ReducedExtends(rows: seq<seq<F2>>, w: nat, iFrom: nat, jFrom: nat, j: nat)
    requires Reduced(rows, w, iFrom, jFrom) && jFrom <= j <= w
    requires forall k, c :: iFrom <= k < |rows| && jFrom <= c < j ==> rows[k][c] == 0
    ensures Reduced(rows, w, iFrom, j)
  {
  }

  /** Exchanging two rows that are not finished yet keeps the elimination
      state. */
  lemma SwapKeepsReduced(rows: seq<seq<F2>>, w: nat, iFrom: nat, jFrom: nat, i: nat)
    requires Reduced(rows, w, iFrom, jFrom) && iFrom <= i < |rows|
    ensures Reduced(Swap(rows, w, iFrom, i), w, iFrom, jFrom)
  {
    var swapped := Swap(rows, w, iFrom, i);
    forall k | 0 <= k < |rows|
      ensures swapped[k] == rows[if k == iFrom then i else if k == i then iFrom else k]
    {
    }
  }

  /** Started from a state of the elimination, Reduce ends in reduced
      row-echelon form. */
  lemma {:induction false} ReduceIsRref(rows: seq<seq<F2>>, w: nat, iFrom: nat, jFrom: nat)
    requires Reduced(rows, w, iFrom, jFrom)
    ensures IsRref(Reduce(rows, w, iFrom, jFrom), w)
    decreases |rows| - iFrom
  {
    match FindPivot(rows, w, iFrom, jFrom)
    case None =>
      NoPivotIsRref(rows, w, iFrom, jFrom);
    case Some((i, j)) =>
      PivotAdvances(rows, w, iFrom, jFrom, i, j);
      ReduceIsRref(ClearColumn(Swap(rows, w, iFrom, i), w, iFrom, j), w, iFrom + 1, j + 1);
  }

  /** A scan that finds no pivot leaves reduced row-echelon form. */
  lemma NoPivotIsRref(rows: seq<seq<F2>>, w: nat, iFrom: nat, jFrom: nat)
    requires Reduced(rows, w, iFrom, jFrom)
    requires FindPivot(rows, w, iFrom, jFrom) == None
    ensures IsRref(rows, w)
  {
    ReducedExtends(rows, w, iFrom, jFrom, w);
    ReducedIsRref(rows, w, iFrom);
  }

  /** One pivot step of Reduce takes the elimination state from
      (iFrom, jFrom) to (iFrom + 1, j + 1). */
  lemma PivotAdvances(rows: seq<seq<F2>>, w: nat, iFrom: nat, jFrom: nat, i: nat, j: nat)
    requires Reduced(rows, w, iFrom, jFrom)
    requires FindPivot(rows, w, iFrom, jFrom) == Some((i, j))
    ensures Reduced(ClearColumn(Swap(rows, w, iFrom, i), w, iFrom, j), w, iFrom + 1, j + 1)
  {
    ReducedExtends(rows, w, iFrom, jFrom, j);
    var swapped := Swap(rows, w, iFrom, i);
    SwapKeepsReduced(rows, w, iFrom, j, i);
    assert swapped[iFrom][j] == 1;
    ClearedAdvances(swapped, ClearColumn(swapped, w, iFrom, j), w, iFrom, j);
  }

  /** On a matrix in reduced row-echelon form every pivot the scan meets is
      already in place with its column clear, so Reduce changes nothing. */
  lemma {:induction false} ReduceLeavesRref(rows: seq<seq<F2>>, w: nat, iFrom: nat, jFrom: nat)
    requires IsRref(rows, w) && iFrom <= |rows| && jFrom <= w
    requires forall k, c :: iFrom <= k < |rows| && 0 <= c < jFrom ==> rows[k][c] == 0
    ensures Reduce(rows, w, iFrom, jFrom) == rows
    decreases |rows| - iFrom
  {
    match FindPivot(rows, w, iFrom, jFrom)
    case None =>
    case Some((i, j)) =>
      PivotInPlace(rows, w, iFrom, jFrom, i, j);
      ReduceLeavesRref(rows, w, iFrom + 1, j + 1);
  }

  /** On a matrix in reduced row-echelon form the pivot the scan finds is at
      row iFrom with its column clear, so swapping and clearing do nothing,
      and the rows below it are zero up to its column. */
  lemma PivotInPlace(rows: seq<seq<F2>>, w: nat, iFrom: nat, jFrom: nat, i: nat, j: nat)
    requires IsRref(rows, w) && iFrom <= |rows| && jFrom <= w
    requires forall k, c :: iFrom <= k < |rows| && 0 <= c < jFrom ==> rows[k][c] == 0
    requires FindPivot(rows, w, iFrom, jFrom) == Some((i, j))
    ensures i == iFrom && j < w
    ensures ClearColumn(Swap(rows, w, iFrom, i), w, iFrom, j) == rows
    ensures forall k, c :: iFrom + 1 <= k < |rows| && 0 <= c < j + 1 ==> rows[k][c] == 0
  {
    assert forall k, c :: iFrom <= k < |rows| && 0 <= c < j ==> rows[k][c] == 0;
    RrefPivotFound(rows, w, iFrom, i, j);
    assert Swap(rows, w, iFrom, i) == rows;
    ClearColumnNoop(rows, w, iFrom, j);
  }

  /** Clearing a column that is already clear apart from row i changes
      nothing. */
  lemma ClearColumnNoop(rows: seq<seq<F2>>, w: nat, i: nat, j: nat)
    requires Rect(rows, w) && i < |rows| && j < w
    requires forall k :: 0 <= k < |rows| && k != i ==> rows[k][j] == 0
    ensures ClearColumn(rows, w, i, j) == rows
  {
    var cleared := ClearColumn(rows, w, i, j);
    forall k | 0 <= k < |rows|
      ensures cleared[k] == rows[k]
    {
    }
  }

  /** What `rrefOverF2` leaves behind: a matrix of the same shape, in reduced
      row-echelon form, with the same solutions as the one it was given. */
  lemma RrefFacts(rows: seq<seq<F2>>, w: nat)
    requires Rect(rows, w)
    ensures var r := Reduce(rows, w, 0, 0);
      |r| == |rows| && Rect(r, w) && IsRref(r, w) && SameSolutions(r, rows)
  {
    ReducedAtStart(rows, w);
    ReduceIsRref(rows, w, 0, 0);
    ReduceKeepsSolutions(rows, w, 0, 0);
  }

  /** Running the elimination a second time changes nothing. */
  lemma RrefIdempotent(rows: seq<seq<F2>>, w: nat)
    requires Rect(rows, w)
    ensures Reduce(Reduce(rows, w, 0, 0), w, 0, 0) == Reduce(rows, w, 0, 0)
  {
    RrefFacts(rows, w);
    ReduceLeavesRref(Reduce(rows, w, 0, 0), w, 0, 0);
  }

  // ---------------------------------------------------------------------
  // Methods
  // ---------------------------------------------------------------------

  /** `addRowFromTo(sourceRow, targetRow)`: add the source row into the target
      row, entry by entry, modulo 2. */
  method AddRowFromTo(m: array<seq<F2>>, sourceRow: nat, targetRow: nat)
    requires m.Length > 0 && Rect(m[..], |m[0]|)
    requires sourceRow < m.Length && targetRow < m.Length
    modifies m
    ensures m[..] == old(m[..])[targetRow := RowSum(old(m[sourceRow]), old(m[targetRow]))]
  {
    ghost var rows := m[..];
    ghost var w := |m[0]|;
    for j := 0 to |m[0]|
      invariant m[..] == rows[targetRow := m[targetRow]]
      invariant |m[targetRow]| == w
      invariant forall c :: 0 <= c < j ==> m[targetRow][c] == Add(rows[sourceRow][c], rows[targetRow][c])
      invariant forall c :: j <= c < w ==> m[targetRow][c] == rows[targetRow][c]
    {
      m[targetRow] := m[targetRow][j := (m[sourceRow][j] as int + m[targetRow][j]) % 2];
    }
    assert m[targetRow] == RowSum(rows[sourceRow], rows[targetRow]);
  }

  /** `clearPivotColumn(i, j)`: add row i to every other row with a 1 in
      column j. */
  method ClearPivotColumn(m: array<seq<F2>>, i: nat, j: nat)
    requires m.Length > 0 && Rect(m[..], |m[0]|)
    requires i < m.Length && j < |m[0]|
    modifies m
    ensures m[..] == ClearColumn(old(m[..]), |old(m[0])|, i, j)
  {
    ghost var rows := m[..];
    ghost var w := |m[0]|;
    ghost var cleared := ClearColumn(rows, w, i, j);
    for iPrime := 0 to m.Length
      invariant forall k :: 0 <= k < iPrime ==> m[k] == cleared[k]
      invariant forall k :: iPrime <= k < m.Length ==> m[k] == rows[k]
    {
      if iPrime != i && m[iPrime][j] != 0 {
        AddRowFromTo(m, i, iPrime);
      }
    }
    assert m[..] == cleared;
  }

  /** The column-major scan at the head of `reduceSubmatrix`: columns from
      jFrom on, in each column the rows from iFrom down, stopping at the
      first 1. The scan takes in the last (augmented) column as well. */
  method ScanForPivot(m: array<seq<F2>>, iFrom: nat, jFrom: nat) returns (pivot: Option<(nat, nat)>)
    requires m.Length > 0 && Rect(m[..], |m[0]|)
    requires iFrom <= m.Length && jFrom <= |m[0]|
    ensures pivot == FindPivot(m[..], |m[0]|, iFrom, jFrom)
  {
    ghost var rows := m[..];
    ghost var w := |m[0]|;
    for j := jFrom to |m[0]|
      invariant FindPivot(rows, w, iFrom, jFrom) == FindPivot(rows, w, iFrom, j)
    {
      for i := iFrom to m.Length
        invariant FindInColumn(rows, w, j, iFrom) == FindInColumn(rows, w, j, i)
      {
        if m[i][j] != 0 {
          ReduceStep(rows, w, iFrom, jFrom, i, j);
          return Some((i, j));
        }
      }
    }
    return None;
  }

  /** `reduceSubmatrix(iFrom, jFrom)`: find the next pivot, swap its row up
      to row iFrom, clear its column and reduce the rest below and to the
      right of it. */
  method ReduceSubmatrix(m: array<seq<F2>>, iFrom: nat, jFrom: nat)
    requires m.Length > 0 && Rect(m[..], |m[0]|)
    requires iFrom <= m.Length && jFrom <= |m[0]|
    modifies m
    ensures m[..] == Reduce(old(m[..]), |old(m[0])|, iFrom, jFrom)
    decreases m.Length - iFrom
  {
    ghost var rows := m[..];
    ghost var w := |m[0]|;
    var pivot := ScanForPivot(m, iFrom, jFrom);
    if pivot.Some? {
      var (i, j) := pivot.value;
      SwapRows(m, iFrom, i);
      ghost var swapped := m[..];
      assert |m[0]| == |swapped[0]| == w;
      ClearPivotColumn(m, iFrom, j);
      ghost var cleared := m[..];
      assert |m[0]| == |cleared[0]| == w;
      ReduceSubmatrix(m, iFrom + 1, j + 1);
    }
  }

  /** Exchange rows a and b, as `reduceSubmatrix` does through a temporary. */
  method SwapRows(m: array<seq<F2>>, a: nat, b: nat)
    requires m.Length > 0 && Rect(m[..], |m[0]|)
    requires a < m.Length && b < m.Length
    modifies m
    ensures m[..] == Swap(old(m[..]), |old(m[0])|, a, b)
  {
    var swap := m[a];
    m[a] := m[b];
    m[b] := swap;
  }

  /** `rrefOverF2(matrix)`: reduce the whole matrix in place. */
  method RrefOverF2(m: array<seq<F2>>)
    requires m.Length > 0 && Rect(m[..], |m[0]|)
    modifies m
    ensures m[..] == Reduce(old(m[..]), |old(m[0])|, 0, 0)
  {
    ReduceSubmatrix(m, 0, 0);
  }
}
