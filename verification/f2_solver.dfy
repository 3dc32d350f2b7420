/** The algebraic solver of src/solve-worker-f2.ts: build the influence
    matrix, append the board as the last column, reduce, detect a `0 = 1`
    row, find the free variables and turn each assignment of them into a
    list of presses; and from `onmessage`, the board-to-vector conversion and
    the choice of the shortest list. */
module F2Solver {
  import opened Bits
  import opened GF2
  import opened Wrappers
  import opened LightsOut
  import opened Influence
  import opened Elimination

  // ---------------------------------------------------------------------
  // getLogicMatrix
  // ---------------------------------------------------------------------

  /** The indices `getLogicMatrix` writes for cell (i, j) lie on the board. */
  lemma RowIndices(d: BoardSize, i: nat, j: nat)
    requires i < d && j < d
    ensures i * d + j < d * d && (i + 1) * d == i * d + d
    ensures i > 0 ==> 0 <= (i - 1) * d + j
    ensures i < d - 1 ==> (i + 1) * d + j < d * d
    ensures j < d - 1 ==> i * d + j + 1 < d * d
  {
    if d == 2 {
    } else if d == 3 {
    } else if d == 4 {
    } else {
    }
  }

  /** `getLogicMatrix(dimension)`: a d^2 x d^2 matrix of zeros in which row
      i * d + j gets a 1 at cell (i, j) and at each of its in-bounds
      orthogonal neighbours. */
  method GetLogicMatrix(d: BoardSize) returns (m: array<seq<F2>>)
    ensures fresh(m) && m[..] == LogicMatrix(d)
  {
    var n2 := d * d;
    var blankRow: seq<F2> := seq(n2, _ => 0);
    m := new seq<F2>[n2](_ => blankRow);
    for i := 0 to d
      invariant forall p :: 0 <= p < i * d ==> m[p] == LogicMatrix(d)[p]
      invariant forall p :: i * d <= p < n2 ==> m[p] == blankRow
    {
      var base := i * d;
      for j := 0 to d
        invariant forall p :: 0 <= p < base + j ==> m[p] == LogicMatrix(d)[p]
        invariant forall p :: base + j <= p < n2 ==> m[p] == blankRow
      {
        RowIndices(d, i, j);
        SetPlus(m, d, i, j);
      }
      RowIndices(d, i, 0);
    }
  }

  /** The body of the loops of `getLogicMatrix`: set the entries of cell
      (i, j) and of its in-bounds neighbours in the row of zeros of cell
      (i, j). */
  method SetPlus(m: array<seq<F2>>, d: BoardSize, i: nat, j: nat)
    requires i < d && j < d && m.Length == d * d
    requires i * d + j < d * d && m[i * d + j] == seq(d * d, _ => 0)
    modifies m
    ensures m[i * d + j] == LogicMatrix(d)[i * d + j]
    ensures forall p :: 0 <= p < m.Length && p != i * d + j ==> m[p] == old(m[p])
  {
    RowIndices(d, i, j);
    var p := i * d + j;
    var row := m[p];
    row := row[p := 1];
    if i > 0 { row := row[(i - 1) * d + j := 1]; }
    if i < d - 1 { row := row[(i + 1) * d + j := 1]; }
    if j > 0 { row := row[i * d + j - 1 := 1]; }
    if j < d - 1 { row := row[i * d + j + 1 := 1]; }
    forall k | 0 <= k < d * d
      ensures row[k] == LogicRow(d, i, j)[k]
    {
    }
    assert row == LogicRow(d, i, j);
    LogicMatrixRow(d, i, j);
    m[p] := row;
  }

  // ---------------------------------------------------------------------
  // onmessage: the board as a vector
  // ---------------------------------------------------------------------

  /** The loop at the head of `onmessage`: entry i of the vector is bit i of
      the board, for the boardSize^2 cells. */
  method BoardToVector(bitBoard: nat, boardSize: nat) returns (boardVector: seq<F2>)
    ensures boardVector == BoardVector(bitBoard, boardSize * boardSize)
  {
    boardVector := [];
    for i := 0 to boardSize * boardSize
      invariant boardVector == BoardVector(bitBoard, i)
    {
      boardVector := boardVector + [if Bit(bitBoard, i) then 1 else 0];
    }
  }

  // ---------------------------------------------------------------------
  // isConsistent
  // ---------------------------------------------------------------------

  /** Some row reads `0 = 1`: its first 1 is in the last (augmented)
      column. */
  predicate HasContradiction(rows: seq<seq<F2>>, w: nat)
  {
    exists i :: 0 <= i < |rows| && Lead(rows[i]) == w - 1
  }

  /** `isConsistent(reduced)`: scan the rows from the bottom; a row whose
      first nonzero entry is in the last column makes the system
      inconsistent. */
  method IsConsistent(reduced: array<seq<F2>>) returns (consistent: bool)
    requires forall i :: 0 <= i < reduced.Length ==> |reduced[i]| == |reduced[0]|
    ensures consistent <==> forall i :: 0 <= i < reduced.Length ==> Lead(reduced[i]) != |reduced[0]| - 1
  {
    var i := reduced.Length - 1;
    while i >= 0
      invariant -1 <= i < reduced.Length
      invariant forall k :: i < k < reduced.Length ==> Lead(reduced[k]) != |reduced[0]| - 1
    {
      var j := 0;
      while j < |reduced[0]|
        invariant 0 <= j <= |reduced[0]|
        invariant forall c :: 0 <= c < j ==> reduced[i][c] == 0
      {
        if reduced[i][j] != 0 {
          LeadAtLeast(reduced[i], j);
          if j == |reduced[0]| - 1 {
            return false;
          }
          break;
        }
        j := j + 1;
      }
      LeadAtLeast(reduced[i], j);
      i := i - 1;
    }
    return true;
  }

  // ---------------------------------------------------------------------
  // getFreeVariables
  // ---------------------------------------------------------------------

  /** Coefficient column j (not the last column) is the first nonzero entry
      of no row. */
  predicate IsFree(rows: seq<seq<F2>>, w: nat, j: nat)
  {
    j + 1 < w && forall i :: 0 <= i < |rows| ==> Lead(rows[i]) != j
  }

  /** The free columns from j on, in ascending order. */
  function FreeColumnsFrom(rows: seq<seq<F2>>, w: nat, j: nat): seq<nat>
    decreases w - j
  {
    if j + 1 >= w then [] else (if IsFree(rows, w, j) then [j] else []) + FreeColumnsFrom(rows, w, j + 1)
  }

  function FreeColumns(rows: seq<seq<F2>>, w: nat): seq<nat>
  {
    FreeColumnsFrom(rows, w, 0)
  }

  lemma {:induction false} FreeColumnsFromAscending(rows: seq<seq<F2>>, w: nat, j: nat)
    decreases w - j
    ensures var s := FreeColumnsFrom(rows, w, j);
      Ascending(s) && forall k :: 0 <= k < |s| ==> j <= s[k]
  {
    if j + 1 < w {
      FreeColumnsFromAscending(rows, w, j + 1);
      var rest := FreeColumnsFrom(rows, w, j + 1);
      if IsFree(rows, w, j) {
        var s := [j] + rest;
        assert FreeColumnsFrom(rows, w, j) == s;
        forall k, l | 0 <= k < l < |s|
          ensures s[k] < s[l]
        {
          assert s[l] == rest[l - 1];
        }
      } else {
        assert FreeColumnsFrom(rows, w, j) == rest;
      }
    }
  }

  lemma {:induction false} FreeColumnsFromMembers(rows: seq<seq<F2>>, w: nat, j: nat)
    decreases w - j
    ensures forall c: nat :: c in FreeColumnsFrom(rows, w, j) <==> j <= c && IsFree(rows, w, c)
  {
    if j + 1 < w {
      FreeColumnsFromMembers(rows, w, j + 1);
      var rest := FreeColumnsFrom(rows, w, j + 1);
      if IsFree(rows, w, j) {
        var s := [j] + rest;
        assert FreeColumnsFrom(rows, w, j) == s;
        forall c: nat
          ensures c in s <==> j <= c && IsFree(rows, w, c)
        {
          assert c in s <==> c == j || c in rest;
        }
      } else {
        assert FreeColumnsFrom(rows, w, j) == rest;
      }
    }
  }

  /** The free columns, ascending, are exactly the columns IsFree picks. */
  lemma FreeColumnsFacts(rows: seq<seq<F2>>, w: nat)
    ensures Ascending(FreeColumns(rows, w))
    ensures forall c: nat :: c in FreeColumns(rows, w) <==> IsFree(rows, w, c)
  {
    FreeColumnsFromAscending(rows, w, 0);
    FreeColumnsFromMembers(rows, w, 0);
  }

  /** `Set.delete` on a set kept, as JavaScript keeps it, as the list of its
      members in insertion order. */
  function Delete(s: seq<nat>, x: nat): (r: seq<nat>)
    ensures forall y :: y in r <==> y in s && y != x
    ensures Ascending(s) ==> Ascending(r)
  {
    if s == [] then []
    else if s[0] == x then Delete(s[1..], x)
    else
      var rest := Delete(s[1..], x);
      assert Ascending(s) ==> forall k :: 0 <= k < |rest| ==> s[0] < rest[k] by {
        if Ascending(s) {
          forall k | 0 <= k < |rest|
            ensures s[0] < rest[k]
          {
            assert rest[k] in rest;
          }
        }
      }
      [s[0]] + rest
  }

  /** `getFreeVariables(rref)`: start from all coefficient columns and delete,
      for each row, the column of its first nonzero coefficient. */
  method GetFreeVariables(rref: array<seq<F2>>) returns (free: seq<nat>)
    requires rref.Length > 0 && Rect(rref[..], |rref[0]|)
    ensures Ascending(free)
    ensures forall c: nat :: c in free <==> IsFree(rref[..], |rref[0]|, c)
  {
    var w := |rref[0]|;
    var candidates: seq<nat> := [];
    var j := 0;
    while j < w - 1
      invariant (j == 0 || j < w) && |candidates| == j
      invariant forall k :: 0 <= k < j ==> candidates[k] == k
    {
      candidates := candidates + [j];
      j := j + 1;
    }
    forall c: nat
      ensures c in candidates <==> c + 1 < w
    {
      if c + 1 < w {
        assert candidates[c] == c;
      }
    }
    for i := 0 to rref.Length
      invariant Ascending(candidates)
      invariant forall c: nat :: c in candidates <==> c + 1 < w && forall k :: 0 <= k < i ==> Lead(rref[k]) != c
    {
      var j := 0;
      while j < w - 1
        invariant j <= w
        invariant forall c :: 0 <= c < j ==> rref[i][c] == 0
      {
        if rref[i][j] != 0 {
          LeadAtLeast(rref[i], j);
          candidates := Delete(candidates, j);
          break;
        }
        j := j + 1;
      }
      LeadAtLeast(rref[i], j);
    }
    free := candidates;
  }

  // ---------------------------------------------------------------------
  // substituteFreeVariables
  // ---------------------------------------------------------------------

  /** Every substitution names a column below n. */
  predicate Fits(subs: seq<(nat, F2)>, n: nat)
  {
    forall t :: 0 <= t < |subs| ==> subs[t].0 < n
  }

  /** JavaScript's `a && b` on 0 and 1: a when a is 0, otherwise b. */
  function And(a: F2, b: F2): F2
  {
    if a == 0 then a else b
  }

  /** No substitution for column k sets it to 0. */
  predicate Keeps(subs: seq<(nat, F2)>, k: nat)
  {
    forall t :: 0 <= t < |subs| && subs[t].0 == k ==> subs[t].1 == 1
  }

  /** A row of the clone after the substitutions, applied in order, each
      (f, v) replacing entry f by `entry && v`. Whatever the order, an entry
      stays 1 exactly when it was 1 and no substitution of its column is 0. */
  function MaskRow(row: seq<F2>, subs: seq<(nat, F2)>): (r: seq<F2>)
    requires Fits(subs, |row|)
    ensures |r| == |row|
    ensures forall k :: 0 <= k < |row| ==> r[k] == if row[k] == 1 && Keeps(subs, k) then 1 else 0
    decreases |subs|
  {
    if subs == [] then row
    else
      var init := subs[..|subs| - 1];
      var last := subs[|subs| - 1];
      var before := MaskRow(row, init);
      assert forall k :: Keeps(subs, k) <==> Keeps(init, k) && (last.0 == k ==> last.1 == 1) by {
        forall k
          ensures Keeps(subs, k) <==> Keeps(init, k) && (last.0 == k ==> last.1 == 1)
        {
          if Keeps(init, k) && (last.0 == k ==> last.1 == 1) {
            forall t | 0 <= t < |subs| && subs[t].0 == k
              ensures subs[t].1 == 1
            {
              if t < |subs| - 1 {
                assert init[t] == subs[t];
              }
            }
          }
          if Keeps(subs, k) {
            forall t | 0 <= t < |init| && init[t].0 == k
              ensures init[t].1 == 1
            {
              assert init[t] == subs[t];
            }
          }
        }
      }
      before[last.0 := And(before[last.0], last.1)]
  }

  /** Some substitution sets column k to 1. */
  predicate SetsOne(subs: seq<(nat, F2)>, k: nat)
  {
    exists t :: 0 <= t < |subs| && subs[t] == (k, 1)
  }

  /** The last loop of `substituteFreeVariables`: every free variable
      substituted with 1 is set to 1; the other entries are kept. */
  function SetOnes(p: seq<F2>, subs: seq<(nat, F2)>): (r: seq<F2>)
    requires Fits(subs, |p|)
    ensures |r| == |p|
    ensures forall k :: 0 <= k < |p| ==> r[k] == if SetsOne(subs, k) then 1 else p[k]
    decreases |subs|
  {
    if subs == [] then p
    else
      var init := subs[..|subs| - 1];
      var last := subs[|subs| - 1];
      var before := SetOnes(p, init);
      assert forall k: nat :: SetsOne(subs, k) <==> SetsOne(init, k) || last == (k, 1) by {
        forall k: nat
          ensures SetsOne(subs, k) <==> SetsOne(init, k) || last == (k, 1)
        {
          if SetsOne(init, k) {
            var t :| 0 <= t < |init| && init[t] == (k, 1);
            assert subs[t] == init[t];
          }
          if SetsOne(subs, k) && last != (k, 1) {
            var t :| 0 <= t < |subs| && subs[t] == (k, 1);
            assert init[t] == subs[t];
          }
        }
      }
      if last.1 == 1 then before[last.0 := 1] else before
  }

  /** What the `flips` loop writes for one row of the clone: nothing (0) when
      the row sums to 0, otherwise the parity of the sum less one. The sum is
      never negative, so the remainder agrees with JavaScript's `%`. */
  function RowValue(row: seq<F2>): F2
  {
    var flips := Sum(row);
    if flips == 0 then 0 else (flips - 1) % 2
  }

  /** `particularSolution` after the `flips` loop: entry i is computed from
      row i of the clone. */
  function Particular(rows: seq<seq<F2>>, w: nat, subs: seq<(nat, F2)>): (p: seq<F2>)
    requires Rect(rows, w) && Fits(subs, w)
    ensures |p| == |rows|
  {
    seq(|rows|, i requires 0 <= i < |rows| => RowValue(MaskRow(rows[i], subs)))
  }

  /** The 0/1 vector `substituteFreeVariables` computes before listing its
      ones. */
  function Substitute(rows: seq<seq<F2>>, w: nat, subs: seq<(nat, F2)>): (x: seq<F2>)
    requires Rect(rows, w) && Fits(subs, w) && Fits(subs, |rows|)
    ensures |x| == |rows|
  {
    SetOnes(Particular(rows, w, subs), subs)
  }

  /** Sum of a suffix, one entry at a time. */
  lemma SumSuffix(row: seq<F2>, j: nat)
    requires j < |row|
    ensures Sum(row[j..]) == row[j] + Sum(row[j + 1..])
  {
    assert row[j..][1..] == row[j + 1..];
  }

  /** `substituteFreeVariables(rref, substitutions)`: apply the substitutions
      to a copy of the matrix, give variable i the value computed from row i,
      set the free variables substituted with 1, and list the variables that
      are 1. */
  method SubstituteFreeVariables(rref: array<seq<F2>>, ghost w: nat, substitutions: seq<(nat, F2)>)
    returns (solution: seq<nat>)
    requires 1 <= w && Rect(rref[..], w)
    requires Fits(substitutions, w) && Fits(substitutions, rref.Length)
    ensures solution == Support(Substitute(rref[..], w, substitutions))
  {
    var clone := ApplySubstitutions(rref, w, substitutions);
    var particularSolution := RowValues(clone, w);
    ghost var particular := particularSolution;
    assert particular == Particular(rref[..], w, substitutions);

    for t := 0 to |substitutions|
      invariant particularSolution == SetOnes(particular, substitutions[..t])
    {
      var numf := substitutions[t];
      assert substitutions[..t + 1][..t] == substitutions[..t];
      if numf.1 == 1 {
        particularSolution := particularSolution[numf.0 := 1];
      }
    }
    assert substitutions[..|substitutions|] == substitutions;
    solution := Support(particularSolution);
  }

  /** The first loops of `substituteFreeVariables`: for each substitution in
      turn, mask its column in every row of the copy. */
  method ApplySubstitutions(rref: array<seq<F2>>, ghost w: nat, substitutions: seq<(nat, F2)>)
    returns (clone: seq<seq<F2>>)
    requires Rect(rref[..], w) && Fits(substitutions, w)
    ensures |clone| == rref.Length
    ensures forall i :: 0 <= i < rref.Length ==> clone[i] == MaskRow(rref[i], substitutions)
  {
    clone := rref[..];
    for s := 0 to |substitutions|
      invariant |clone| == rref.Length
      invariant forall i :: 0 <= i < |clone| ==> clone[i] == MaskRow(rref[i], substitutions[..s])
    {
      var sub := substitutions[s];
      assert substitutions[..s + 1][..s] == substitutions[..s];
      for i := 0 to rref.Length
        invariant |clone| == rref.Length
        invariant forall k :: 0 <= k < i ==> clone[k] == MaskRow(rref[k], substitutions[..s + 1])
        invariant forall k :: i <= k < |clone| ==> clone[k] == MaskRow(rref[k], substitutions[..s])
      {
        clone := clone[i := clone[i][sub.0 := And(clone[i][sub.0], sub.1)]];
      }
    }
    assert substitutions[..|substitutions|] == substitutions;
  }

  /** The `flips` loop of `substituteFreeVariables`: sum each row of the
      copy, last entry first, and write the row's value into its variable. */
  method RowValues(clone: seq<seq<F2>>, ghost w: nat)
    returns (particularSolution: seq<F2>)
    requires 1 <= w && Rect(clone, w)
    ensures |particularSolution| == |clone|
    ensures forall i :: 0 <= i < |clone| ==> particularSolution[i] == RowValue(clone[i])
  {
    particularSolution := seq(|clone|, _ => 0);
    for i := 0 to |clone|
      invariant |particularSolution| == |clone|
      invariant forall k :: 0 <= k < i ==> particularSolution[k] == RowValue(clone[k])
      invariant forall k :: i <= k < |clone| ==> particularSolution[k] == 0
    {
      var row := clone[i];
      var flips: int := row[|row| - 1];
      var j := |row| - 2;
      while j >= 0
        invariant -1 <= j <= |row| - 2
        invariant flips == Sum(row[j + 1..])
      {
        SumSuffix(row, j);
        flips := flips + row[j];
        j := j - 1;
      }
      assert row[0..] == row;
      if flips == 0 {
        continue;
      }
      particularSolution := particularSolution[i := (flips - 1) % 2];
    }
  }

  // ---------------------------------------------------------------------
  // solveBoardVector
  // ---------------------------------------------------------------------

  /** The two errors `solveBoardVector` throws. */
  datatype SolveError = UnsupportedLength | NoSolution

  /** The vector lengths `solveBoardVector` accepts: 4, 9, 16 and 25. */
  predicate SupportedLength(n: nat)
  {
    n == 4 || n == 9 || n == 16 || n == 25
  }

  /** `freeVariables.map((free, i) => [free, v & (1 << i) ? 1 : 0])`: free
      variable number i gets bit i of v. */
  function Substitutions(free: seq<nat>, v: nat): seq<(nat, F2)>
  {
    seq(|free|, i requires 0 <= i < |free| => (free[i], if Bit(v, i) then 1 else 0))
  }

  /** The free columns of a square augmented system, as listed: ascending
      and below the last column. */
  ghost predicate FreeList(rows: seq<seq<F2>>, w: nat, free: seq<nat>)
  {
    Ascending(free) &&
    (forall t :: 0 <= t < |free| ==> free[t] + 1 < w) &&
    (forall c: nat :: c in free <==> IsFree(rows, w, c))
  }

  /** The outcome of substituting every value v below 2^|free| into the free
      variables, in the order of v. */
  function Enumerate(rows: seq<seq<F2>>, w: nat, free: seq<nat>): seq<seq<nat>>
    requires Rect(rows, w) && |rows| + 1 == w && FreeList(rows, w, free)
  {
    seq(Pow2(|free|), v requires 0 <= v < Pow2(|free|) => Support(Substitute(rows, w, Substitutions(free, v))))
  }

  /** The board's augmented system over the influence matrix, reduced. */
  function ReducedSystem(d: BoardSize, vector: seq<F2>): (r: seq<seq<F2>>)
    requires |vector| == d * d
    ensures |r| == d * d && Rect(r, d * d + 1)
  {
    var system := Augment(LogicMatrix(d), vector);
    assert Rect(system, d * d + 1);
    Reduce(system, d * d + 1, 0, 0)
  }

  /** What `solveBoardVector(vector)` returns or throws: the board's system
      over the influence matrix is reduced; an unsupported length and a
      `0 = 1` row are errors; otherwise every assignment of the free
      variables gives one list of presses. */
  function Solve(vector: seq<F2>): Result<seq<seq<nat>>, SolveError>
  {
    if !SupportedLength(|vector|) then Failure(UnsupportedLength)
    else
      var d := Dimension(|vector|);
      var reduced := ReducedSystem(d, vector);
      if HasContradiction(reduced, d * d + 1) then Failure(NoSolution)
      else
        FreeColumnsList(reduced, d * d + 1);
        Success(Enumerate(reduced, d * d + 1, FreeColumns(reduced, d * d + 1)))
  }

  lemma FreeColumnsList(rows: seq<seq<F2>>, w: nat)
    ensures FreeList(rows, w, FreeColumns(rows, w))
  {
    FreeColumnsFacts(rows, w);
    FreeListIsFreeColumns(rows, w, FreeColumns(rows, w));
  }

  /** The list `getFreeVariables` returns is the one FreeColumns describes. */
  lemma FreeListIsFreeColumns(rows: seq<seq<F2>>, w: nat, free: seq<nat>)
    requires Ascending(free) && forall c: nat :: c in free <==> IsFree(rows, w, c)
    ensures free == FreeColumns(rows, w) && FreeList(rows, w, free)
  {
    FreeColumnsFacts(rows, w);
    AscendingUnique(free, FreeColumns(rows, w));
    forall t | 0 <= t < |free|
      ensures free[t] + 1 < w
    {
      assert free[t] in free;
    }
  }

  /** `solveBoardVector(vector)`. */
  method SolveBoardVector(vector: seq<F2>) returns (result: Result<seq<seq<nat>>, SolveError>)
    ensures result == Solve(vector)
  {
    if !SupportedLength(|vector|) {
      return Failure(UnsupportedLength);
    }
    var d := Dimension(|vector|);
    var matrix := GetLogicMatrix(d);
    AppendColumn(matrix, vector);
    ghost var w := |vector| + 1;
    assert |matrix[0]| == w;
    RrefOverF2(matrix);
    ghost var reduced := matrix[..];
    assert reduced == ReducedSystem(d, vector);
    assert |matrix[0]| == w;

    var consistent := IsConsistent(matrix);
    if !consistent {
      return Failure(NoSolution);
    }
    assert !HasContradiction(reduced, w);

    var freeVariables := GetFreeVariables(matrix);
    FreeListIsFreeColumns(reduced, w, freeVariables);
    var solutions := EnumerateSolutions(matrix, w, freeVariables);
    return Success(solutions);
  }

  /** The loop of `solveBoardVector` over v from 0 below 2^|free|: substitute
      the bits of v into the free variables and collect the outcomes. */
  method EnumerateSolutions(matrix: array<seq<F2>>, ghost w: nat, freeVariables: seq<nat>)
    returns (solutions: seq<seq<nat>>)
    requires Rect(matrix[..], w) && matrix.Length + 1 == w
    requires FreeList(matrix[..], w, freeVariables)
    ensures solutions == Enumerate(matrix[..], w, freeVariables)
  {
    ghost var all := Enumerate(matrix[..], w, freeVariables);
    solutions := [];
    var v := 0;
    while v < Pow2(|freeVariables|)
      invariant v <= Pow2(|freeVariables|)
      invariant solutions == all[..v]
    {
      var substitutions := Substitutions(freeVariables, v);
      var outcome := SubstituteFreeVariables(matrix, w, substitutions);
      assert outcome == all[v];
      solutions := solutions + [outcome];
      v := v + 1;
    }
    assert all[..v] == all;
  }

  /** The loop that pushes entry i of the board vector onto row i of the
      influence matrix. */
  method AppendColumn(matrix: array<seq<F2>>, vector: seq<F2>)
    requires matrix.Length == |vector|
    modifies matrix
    ensures matrix[..] == Augment(old(matrix[..]), vector)
  {
    for i := 0 to |vector|
      invariant forall k :: 0 <= k < i ==> matrix[k] == old(matrix[k]) + [vector[k]]
      invariant forall k :: i <= k < |vector| ==> matrix[k] == old(matrix[k])
    {
      matrix[i] := matrix[i] + [vector[i]];
    }
  }

  // ---------------------------------------------------------------------
  // onmessage: the best solution
  // ---------------------------------------------------------------------

  /** The callback of the `reduce`, folded left over rest: keep the current
      list only when it is strictly shorter than the one kept so far. */
  function KeepShorter(previous: seq<nat>, rest: seq<seq<nat>>): seq<nat>
    decreases |rest|
  {
    if rest == [] then previous
    else KeepShorter(if |rest[0]| < |previous| then rest[0] else previous, rest[1..])
  }

  /** `solutions.reduce(..., solutions[0])` in `onmessage`: the first of the
      shortest solutions; none for an empty list, where the `reduce` gives
      `undefined`. */
  function BestSolution(solutions: seq<seq<nat>>): (best: Option<seq<nat>>)
    ensures best.Some? <==> |solutions| > 0
    ensures best.Some? ==>
      exists i :: 0 <= i < |solutions| && best.value == solutions[i] &&
        (forall j :: 0 <= j < |solutions| ==> |solutions[i]| <= |solutions[j]|) &&
        (forall j :: 0 <= j < i ==> |solutions[i]| < |solutions[j]|)
  {
    if solutions == [] then None
    else
      KeepShorterFirstShortest(solutions[0], solutions);
      Some(KeepShorter(solutions[0], solutions))
  }

  /** The fold keeps its start unless some later list is strictly shorter;
      then it ends on the first of the shortest lists. */
  lemma {:induction false} KeepShorterFirstShortest(previous: seq<nat>, rest: seq<seq<nat>>)
    ensures var r := KeepShorter(previous, rest);
      (r == previous && forall j :: 0 <= j < |rest| ==> |previous| <= |rest[j]|) ||
      (exists i :: 0 <= i < |rest| && r == rest[i] && |rest[i]| < |previous| &&
        (forall j :: 0 <= j < |rest| ==> |rest[i]| <= |rest[j]|) &&
        (forall j :: 0 <= j < i ==> |rest[i]| < |rest[j]|))
    decreases |rest|
  {
    if rest != [] {
      var next := if |rest[0]| < |previous| then rest[0] else previous;
      var tail := rest[1..];
      KeepShorterFirstShortest(next, tail);
      var r := KeepShorter(next, tail);
      assert KeepShorter(previous, rest) == r;
      if r == next && forall j :: 0 <= j < |tail| ==> |next| <= |tail[j]| {
        if |rest[0]| < |previous| {
          assert r == rest[0];
          forall j | 0 <= j < |rest|
            ensures |rest[0]| <= |rest[j]|
          {
            if j > 0 {
              assert rest[j] == tail[j - 1];
            }
          }
        } else {
          forall j | 0 <= j < |rest|
            ensures |previous| <= |rest[j]|
          {
            if j > 0 {
              assert rest[j] == tail[j - 1];
            }
          }
        }
      } else {
        var i :| 0 <= i < |tail| && r == tail[i] && |tail[i]| < |next| &&
          (forall j :: 0 <= j < |tail| ==> |tail[i]| <= |tail[j]|) &&
          (forall j :: 0 <= j < i ==> |tail[i]| < |tail[j]|);
        assert rest[i + 1] == tail[i];
        forall j | 0 <= j < |rest|
          ensures |rest[i + 1]| <= |rest[j]|
        {
          if j > 0 {
            assert rest[j] == tail[j - 1];
          }
        }
        forall j | 0 <= j < i + 1
          ensures |rest[i + 1]| < |rest[j]|
        {
          if j > 0 {
            assert rest[j] == tail[j - 1];
          }
        }
      }
    }
  }
}

