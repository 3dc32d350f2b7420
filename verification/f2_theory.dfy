/** What the algebraic solver of src/solve-worker-f2.ts computes: the reduced
    system is inconsistent exactly when the board's system has no solution,
    and, when every nonzero row i of the reduced system leads in column i,
    the enumeration lists every solution, each exactly once. */
module F2Theory {
  import opened Bits
  import opened GF2
  import opened Wrappers
  import opened LightsOut
  import opened Influence
  import opened Elimination
  import opened F2Solver

  // ---------------------------------------------------------------------
  // Consistency
  // ---------------------------------------------------------------------

  /** A row whose first 1 is its last entry reads `0 = 1`. */
  lemma ContradictionUnsatisfiable(row: seq<F2>, x: seq<F2>)
    requires |row| == |x| + 1 && Lead(row) == |x|
    ensures !Satisfies(row, x)
  {
    var products := Products(row, x);
    SumOfZeros(products);
  }

  /** An all-zero row reads `0 = 0`. */
  lemma ZeroRowSatisfied(row: seq<F2>, x: seq<F2>)
    requires |row| == |x| + 1 && Lead(row) == |row|
    ensures Satisfies(row, x)
  {
    var products := Products(row, x);
    SumOfZeros(products);
  }

  /** In reduced row-echelon form a leading column below w belongs to one
      row only. */
  lemma LeadsDistinct(rows: seq<seq<F2>>, w: nat, i: nat, k: nat)
    requires IsRref(rows, w) && i < |rows| && k < |rows|
    requires Lead(rows[i]) == Lead(rows[k]) < w
    ensures i == k
  {
  }

  /** Each pivot variable takes the last entry of its row; every other
      variable is 0. */
  ghost function PivotSolution(rows: seq<seq<F2>>, w: nat): (x: seq<F2>)
    requires 1 <= w && Rect(rows, w)
    ensures |x| == w - 1
  {
    seq(w - 1, j requires 0 <= j < w - 1 =>
      if exists i :: 0 <= i < |rows| && Lead(rows[i]) == j
      then var i :| 0 <= i < |rows| && Lead(rows[i]) == j; rows[i][w - 1]
      else 0)
  }

  /** A pivot row below the last column holds for PivotSolution: its one
      nonzero product is at its own pivot. */
  lemma PivotRowSatisfied(rows: seq<seq<F2>>, w: nat, k: nat)
    requires 1 <= w && IsRref(rows, w) && k < |rows| && Lead(rows[k]) < w - 1
    ensures Satisfies(rows[k], PivotSolution(rows, w))
  {
    var x := PivotSolution(rows, w);
    var p := Lead(rows[k]);
    var rhs := rows[k][w - 1];
    var products := Products(rows[k], x);
    var zeros: seq<int> := seq(w - 1, _ => 0);
    forall j | 0 <= j < w - 1
      ensures products[j] == zeros[p := rhs][j]
    {
      if j == p {
        forall i | 0 <= i < |rows| && Lead(rows[i]) == p
          ensures i == k
        {
          LeadsDistinct(rows, w, i, k);
        }
        assert x[p] == rhs;
      } else if x[j] != 0 {
        var i :| 0 <= i < |rows| && Lead(rows[i]) == j;
        assert rows[k][Lead(rows[i])] == 0;
      }
    }
    assert products == zeros[p := rhs];
    SumUpdate(zeros, p, rhs);
    SumOfZeros(zeros);
  }

  /** A system in reduced row-echelon form has a solution exactly when no row
      reads `0 = 1`: what `isConsistent` decides. */
  lemma ConsistentIffSolvable(rows: seq<seq<F2>>, w: nat)
    requires 1 <= w && IsRref(rows, w)
    ensures HasContradiction(rows, w) <==> !exists x :: |x| == w - 1 && IsSolution(rows, x)
  {
    if HasContradiction(rows, w) {
      var i :| 0 <= i < |rows| && Lead(rows[i]) == w - 1;
      forall x | |x| == w - 1
        ensures !IsSolution(rows, x)
      {
        ContradictionUnsatisfiable(rows[i], x);
      }
    } else {
      var x := PivotSolution(rows, w);
      forall k | 0 <= k < |rows|
        ensures Satisfies(rows[k], x)
      {
        if Lead(rows[k]) < w - 1 {
          PivotRowSatisfied(rows, w, k);
        } else {
          ZeroRowSatisfied(rows[k], x);
        }
      }
      assert IsSolution(rows, x);
    }
  }

  // ---------------------------------------------------------------------
  // Substitution, when the reduced system is diagonal
  // ---------------------------------------------------------------------

  /** The shape `substituteFreeVariables` relies on: a square system whose
      row i is either all zero or leads in column i. */
  ghost predicate Diagonal(rows: seq<seq<F2>>, w: nat)
  {
    |rows| + 1 == w && forall i :: 0 <= i < |rows| ==> Lead(rows[i]) == i || Lead(rows[i]) == w
  }

  /** In a diagonal system the free columns are those of the zero rows. */
  lemma FreeIsZeroRow(rows: seq<seq<F2>>, w: nat, j: nat)
    requires Rect(rows, w) && Diagonal(rows, w)
    ensures IsFree(rows, w, j) <==> j < |rows| && Lead(rows[j]) == w
  {
  }

  /** The substitution of free variable number t: kept and set to 1 exactly
      when bit t of v is set. */
  lemma SubstitutionAt(free: seq<nat>, v: nat, t: nat)
    requires Ascending(free) && t < |free|
    ensures Keeps(Substitutions(free, v), free[t]) == Bit(v, t)
    ensures SetsOne(Substitutions(free, v), free[t]) == Bit(v, t)
  {
    var subs := Substitutions(free, v);
    assert subs[t] == (free[t], if Bit(v, t) then 1 else 0);
    if SetsOne(subs, free[t]) {
      var u :| 0 <= u < |subs| && subs[u] == (free[t], 1);
      assert free[u] == free[t];
    }
  }

  /** A column that is not free is neither masked nor set. */
  lemma SubstitutionOff(free: seq<nat>, v: nat, k: nat)
    requires k !in free
    ensures Keeps(Substitutions(free, v), k) && !SetsOne(Substitutions(free, v), k)
  {
    var subs := Substitutions(free, v);
    forall u | 0 <= u < |subs|
      ensures subs[u].0 != k
    {
      assert free[u] in free;
    }
  }

  /** The vector substitution produces for the bits of v. */
  function Outcome(rows: seq<seq<F2>>, w: nat, free: seq<nat>, v: nat): (x: seq<F2>)
    requires Rect(rows, w) && |rows| + 1 == w && FreeList(rows, w, free)
    ensures |x| == |rows|
  {
    Substitute(rows, w, Substitutions(free, v))
  }

  /** Free variable number t gets bit t of v. */
  lemma OutcomeAtFree(rows: seq<seq<F2>>, w: nat, free: seq<nat>, v: nat, t: nat)
    requires Rect(rows, w) && Diagonal(rows, w) && FreeList(rows, w, free) && t < |free|
    ensures Outcome(rows, w, free, v)[free[t]] == if Bit(v, t) then 1 else 0
  {
    var subs := Substitutions(free, v);
    var f := free[t];
    assert f in free;
    FreeIsZeroRow(rows, w, f);
    var masked := MaskRow(rows[f], subs);
    SumOfZeros(masked);
    assert Particular(rows, w, subs)[f] == 0;
    SubstitutionAt(free, v, t);
  }

  /** A pivot variable gets the value computed from its masked row. */
  lemma OutcomeAtPivot(rows: seq<seq<F2>>, w: nat, free: seq<nat>, v: nat, k: nat)
    requires Rect(rows, w) && Diagonal(rows, w) && FreeList(rows, w, free)
    requires k < |rows| && Lead(rows[k]) == k
    ensures k !in free
    ensures Outcome(rows, w, free, v)[k] == RowValue(MaskRow(rows[k], Substitutions(free, v)))
  {
    FreeIsZeroRow(rows, w, k);
    SubstitutionOff(free, v, k);
  }

  /** The parity step of a pivot row: with s the masked coefficients' sum
      (at least the pivot's 1) and r the last entry, the row's value makes
      the equation hold. */
  lemma PivotParity(s: int, r: F2)
    requires s >= 1
    ensures (s - 1 + (s + r - 1) % 2) % 2 == r
  {
  }

  /** One product of a pivot row with the outcome: at the pivot the pivot
      variable, elsewhere the masked coefficient. */
  lemma PivotProduct(rows: seq<seq<F2>>, w: nat, free: seq<nat>, v: nat, k: nat, j: nat)
    requires Rect(rows, w) && IsRref(rows, w) && Diagonal(rows, w) && FreeList(rows, w, free)
    requires k < |rows| && Lead(rows[k]) == k && j < |rows| && j != k
    ensures rows[k][j] * Outcome(rows, w, free, v)[j] == MaskRow(rows[k], Substitutions(free, v))[j]
  {
    if j in free {
      var t :| 0 <= t < |free| && free[t] == j;
      OutcomeAtFree(rows, w, free, v, t);
      SubstitutionAt(free, v, t);
    } else {
      FreeIsZeroRow(rows, w, j);
      assert rows[k][Lead(rows[j])] == 0;
      SubstitutionOff(free, v, j);
    }
  }

  /** The products of a pivot row with the outcome are its masked
      coefficients, except at the pivot, which holds the pivot variable. */
  lemma PivotProducts(rows: seq<seq<F2>>, w: nat, free: seq<nat>, v: nat, k: nat)
    requires Rect(rows, w) && IsRref(rows, w) && Diagonal(rows, w) && FreeList(rows, w, free)
    requires k < |rows| && Lead(rows[k]) == k
    ensures Products(rows[k], Outcome(rows, w, free, v)) ==
      MaskRow(rows[k], Substitutions(free, v))[..w - 1][k := Outcome(rows, w, free, v)[k]]
  {
    var x := Outcome(rows, w, free, v);
    var coefficients := MaskRow(rows[k], Substitutions(free, v))[..w - 1][k := x[k]];
    var products := Products(rows[k], x);
    forall j | 0 <= j < w - 1
      ensures products[j] == coefficients[j]
    {
      if j != k {
        PivotProduct(rows, w, free, v, k, j);
      }
    }
  }

  /** The arithmetic of a pivot row: when the pivot variable is the value of
      the row (coefficients, pivot 1 among them, then r), the coefficients
      with the pivot replaced by that value sum to r modulo 2. */
  lemma PivotEquation(coefficients: seq<F2>, r: F2, k: nat, xk: F2)
    requires k < |coefficients| && coefficients[k] == 1
    requires xk == RowValue(coefficients + [r])
    ensures Sum(coefficients[k := xk]) % 2 == r
  {
    SumConcat(coefficients, [r]);
    assert Sum([r]) == r;
    SumUpdate(coefficients, k, 0);
    SumOfBits(coefficients[k := 0]);
    SumUpdate(coefficients, k, xk);
    PivotParity(Sum(coefficients), r);
  }

  /** Every pivot row holds for the outcome. */
  lemma PivotRowSolved(rows: seq<seq<F2>>, w: nat, free: seq<nat>, v: nat, k: nat)
    requires Rect(rows, w) && IsRref(rows, w) && Diagonal(rows, w) && FreeList(rows, w, free)
    requires k < |rows| && Lead(rows[k]) == k
    ensures Satisfies(rows[k], Outcome(rows, w, free, v))
  {
    var x := Outcome(rows, w, free, v);
    var masked := MaskRow(rows[k], Substitutions(free, v));
    var n := w - 1;
    OutcomeAtPivot(rows, w, free, v, k);
    SubstitutionOff(free, v, k);
    assert masked[k] == 1;
    assert n !in free by {
      forall t | 0 <= t < |free|
        ensures free[t] != n
      {
      }
    }
    SubstitutionOff(free, v, n);
    assert masked == masked[..n] + [rows[k][n]];
    PivotEquation(masked[..n], rows[k][n], k, x[k]);
    PivotProducts(rows, w, free, v, k);
  }

  /** For every v the outcome of substitution solves the reduced system. */
  lemma OutcomeSolves(rows: seq<seq<F2>>, w: nat, free: seq<nat>, v: nat)
    requires Rect(rows, w) && IsRref(rows, w) && Diagonal(rows, w) && FreeList(rows, w, free)
    ensures IsSolution(rows, Outcome(rows, w, free, v))
  {
    var x := Outcome(rows, w, free, v);
    forall k | 0 <= k < |rows|
      ensures Satisfies(rows[k], x)
    {
      if Lead(rows[k]) == k {
        PivotRowSolved(rows, w, free, v, k);
      } else {
        ZeroRowSatisfied(rows[k], x);
      }
    }
  }

  /** The free variables of a vector, packed into a number: bit t is
      variable free[t]. */
  function FreeBits(x: seq<F2>, free: seq<nat>): nat
    requires forall t :: 0 <= t < |free| ==> free[t] < |x|
  {
    FromBits(seq(|free|, t requires 0 <= t < |free| => x[free[t]] == 1))
  }

  /** Two solutions that agree on the free variables agree everywhere: a
      pivot variable is fixed by its row. */
  lemma SolutionsAgree(rows: seq<seq<F2>>, w: nat, free: seq<nat>, x: seq<F2>, y: seq<F2>)
    requires Rect(rows, w) && IsRref(rows, w) && Diagonal(rows, w) && FreeList(rows, w, free)
    requires |x| == |y| == |rows| && IsSolution(rows, x) && IsSolution(rows, y)
    requires forall t :: 0 <= t < |free| ==> x[free[t]] == y[free[t]]
    ensures x == y
  {
    forall k | 0 <= k < |rows|
      ensures x[k] == y[k]
    {
      if k in free {
        var t :| 0 <= t < |free| && free[t] == k;
      } else {
        FreeIsZeroRow(rows, w, k);
        assert Lead(rows[k]) == k;
        PivotDetermined(rows, w, free, x, y, k);
      }
    }
  }

  lemma PivotDetermined(rows: seq<seq<F2>>, w: nat, free: seq<nat>, x: seq<F2>, y: seq<F2>, k: nat)
    requires Rect(rows, w) && IsRref(rows, w) && Diagonal(rows, w) && FreeList(rows, w, free)
    requires k < |rows| && Lead(rows[k]) == k
    requires |x| == |y| == |rows| && Satisfies(rows[k], x) && Satisfies(rows[k], y)
    requires forall t :: 0 <= t < |free| ==> x[free[t]] == y[free[t]]
    ensures x[k] == y[k]
  {
    var px := Products(rows[k], x);
    var py := Products(rows[k], y);
    var qx := px[k := 0];
    var qy := py[k := 0];
    forall j | 0 <= j < |rows|
      ensures qx[j] == qy[j]
    {
      if j != k {
        if j in free {
          var t :| 0 <= t < |free| && free[t] == j;
        } else {
          FreeIsZeroRow(rows, w, j);
          assert rows[k][Lead(rows[j])] == 0;
        }
      }
    }
    assert qx == qy;
    SumUpdate(px, k, 0);
    SumUpdate(py, k, 0);
  }

  /** Every solution of the reduced system is the outcome for the value
      that packs its free variables. */
  lemma OutcomeCovers(rows: seq<seq<F2>>, w: nat, free: seq<nat>, y: seq<F2>)
    requires Rect(rows, w) && IsRref(rows, w) && Diagonal(rows, w) && FreeList(rows, w, free)
    requires |y| == |rows| && IsSolution(rows, y)
    ensures FreeBits(y, free) < Pow2(|free|)
    ensures Outcome(rows, w, free, FreeBits(y, free)) == y
  {
    var bits := seq(|free|, t requires 0 <= t < |free| => y[free[t]] == 1);
    var v := FreeBits(y, free);
    FromBitsBits(bits);
    var x := Outcome(rows, w, free, v);
    OutcomeSolves(rows, w, free, v);
    forall t | 0 <= t < |free|
      ensures x[free[t]] == y[free[t]]
    {
      OutcomeAtFree(rows, w, free, v, t);
      assert Bit(v, t) == bits[t];
    }
    SolutionsAgree(rows, w, free, x, y);
  }

  /** Different values below 2^|free| give different outcomes. */
  lemma OutcomesDistinct(rows: seq<seq<F2>>, w: nat, free: seq<nat>, a: nat, b: nat)
    requires Rect(rows, w) && Diagonal(rows, w) && FreeList(rows, w, free)
    requires a < Pow2(|free|) && b < Pow2(|free|) && a != b
    ensures Outcome(rows, w, free, a) != Outcome(rows, w, free, b)
  {
    LowBitsDiffer(a, b, |free|);
    var t :| 0 <= t < |free| && Bit(a, t) != Bit(b, t);
    OutcomeAtFree(rows, w, free, a, t);
    OutcomeAtFree(rows, w, free, b, t);
  }

  // ---------------------------------------------------------------------
  // solveBoardVector
  // ---------------------------------------------------------------------

  /** The augmented system of a board vector over the influence matrix. */
  function System(vector: seq<F2>): (rows: seq<seq<F2>>)
    requires SupportedLength(|vector|)
    ensures |rows| == |vector| && Rect(rows, |vector| + 1)
  {
    Augment(LogicMatrix(Dimension(|vector|)), vector)
  }

  /** The reduced system has the solutions of the board's system, and is in
      reduced row-echelon form. */
  lemma ReducedSystemFacts(vector: seq<F2>)
    requires SupportedLength(|vector|)
    ensures var reduced := ReducedSystem(Dimension(|vector|), vector);
      IsRref(reduced, |vector| + 1) && SameSolutions(reduced, System(vector))
  {
    RrefFacts(System(vector), |vector| + 1);
  }

  /** `solveBoardVector` throws "no solution" exactly when the board's system
      has no solution; it throws "unsupported length" exactly for the other
      lengths. */
  lemma SolveFailsIffUnsolvable(vector: seq<F2>)
    ensures Solve(vector) == Failure(UnsupportedLength) <==> !SupportedLength(|vector|)
    ensures SupportedLength(|vector|) ==>
      (Solve(vector) == Failure(NoSolution) <==>
       !exists x :: |x| == |vector| && IsSolution(System(vector), x))
  {
    if SupportedLength(|vector|) {
      var reduced := ReducedSystem(Dimension(|vector|), vector);
      ReducedSystemFacts(vector);
      ConsistentIffSolvable(reduced, |vector| + 1);
    }
  }

  /** Support is one to one on vectors of the same length. */
  lemma SupportInjective(x: seq<F2>, y: seq<F2>)
    requires |x| == |y| && Support(x) == Support(y)
    ensures x == y
  {
    IndicatorSupport(x);
    IndicatorSupport(y);
  }

  /** The enumeration lists, once each, the supports of exactly the
      solutions of a diagonal reduced system. */
  lemma EnumerateListsSolutions(rows: seq<seq<F2>>, w: nat, free: seq<nat>)
    requires Rect(rows, w) && IsRref(rows, w) && Diagonal(rows, w) && FreeList(rows, w, free)
    ensures forall ps :: ps in Enumerate(rows, w, free) <==>
      exists x :: |x| == |rows| && IsSolution(rows, x) && ps == Support(x)
    ensures forall i, j :: 0 <= i < j < |Enumerate(rows, w, free)| ==>
      Enumerate(rows, w, free)[i] != Enumerate(rows, w, free)[j]
  {
    var list := Enumerate(rows, w, free);
    forall ps
      ensures ps in list <==> exists x :: |x| == |rows| && IsSolution(rows, x) && ps == Support(x)
    {
      if ps in list {
        var v :| 0 <= v < |list| && list[v] == ps;
        OutcomeSolves(rows, w, free, v);
      }
      if exists x :: |x| == |rows| && IsSolution(rows, x) && ps == Support(x) {
        var x :| |x| == |rows| && IsSolution(rows, x) && ps == Support(x);
        OutcomeCovers(rows, w, free, x);
        assert list[FreeBits(x, free)] == ps;
      }
    }
    forall i, j | 0 <= i < j < |list|
      ensures list[i] != list[j]
    {
      OutcomesDistinct(rows, w, free, i, j);
      if list[i] == list[j] {
        SupportInjective(Outcome(rows, w, free, i), Outcome(rows, w, free, j));
      }
    }
  }

  /** When the reduced system is diagonal, `solveBoardVector` succeeds with
      the supports of all the solutions of the board's system, each listed
      exactly once. */
  lemma SolveListsEverySolution(vector: seq<F2>)
    requires SupportedLength(|vector|)
    requires Diagonal(ReducedSystem(Dimension(|vector|), vector), |vector| + 1)
    ensures Solve(vector).Success?
    ensures forall ps :: ps in Solve(vector).value <==>
      exists x :: |x| == |vector| && IsSolution(System(vector), x) && ps == Support(x)
    ensures forall i, j :: 0 <= i < j < |Solve(vector).value| ==> Solve(vector).value[i] != Solve(vector).value[j]
  {
    var w := |vector| + 1;
    var reduced := ReducedSystem(Dimension(|vector|), vector);
    ReducedSystemFacts(vector);
    assert !HasContradiction(reduced, w);
    FreeColumnsList(reduced, w);
    var free := FreeColumns(reduced, w);
    assert Solve(vector).value == Enumerate(reduced, w, free);
    EnumerateListsSolutions(reduced, w, free);
  }
}
