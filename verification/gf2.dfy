/** Linear algebra over the two-element field GF(2): augmented rows, what it
    means for a vector to solve them, leading entries and reduced row-echelon
    form. */
module GF2 {

  /** An element of GF(2). */
  type F2 = x: int | 0 <= x <= 1

  /** Every row of `rows` has `w` entries. */
  predicate Rect(rows: seq<seq<F2>>, w: nat)
  {
    forall i :: 0 <= i < |rows| ==> |rows[i]| == w
  }

  function Sum(s: seq<int>): int
  {
    if s == [] then 0 else s[0] + Sum(s[1..])
  }

  lemma {:induction false} SumConcat(a: seq<int>, b: seq<int>)
    ensures Sum(a + b) == Sum(a) + Sum(b)
  {
    if a == [] {
      assert a + b == b;
    } else {
      var ab := a + b;
      assert ab != [] && ab[0] == a[0] && ab[1..] == a[1..] + b;
      SumConcat(a[1..], b);
      assert Sum(ab) == ab[0] + Sum(ab[1..]);
    }
  }

  /** Changing one entry changes the sum by the difference. */
  lemma {:induction false} SumUpdate(s: seq<int>, i: nat, v: int)
    requires i < |s|
    ensures Sum(s[i := v]) == Sum(s) - s[i] + v
  {
    if i > 0 {
      assert s[i := v][1..] == s[1..][i - 1 := v];
      SumUpdate(s[1..], i - 1, v);
    }
  }

  /** Pointwise congruence modulo 2 carries over to the sums. */
  lemma {:induction false} SumParity(s: seq<int>, t: seq<int>, u: seq<int>)
    requires |s| == |t| == |u|
    requires forall j :: 0 <= j < |s| ==> s[j] % 2 == (t[j] + u[j]) % 2
    ensures Sum(s) % 2 == (Sum(t) + Sum(u)) % 2
  {
    if s != [] {
      SumParity(s[1..], t[1..], u[1..]);
    }
  }

  lemma {:induction false} SumOfZeros(s: seq<int>)
    requires forall j :: 0 <= j < |s| ==> s[j] == 0
    ensures Sum(s) == 0
  {
    if s != [] {
      SumOfZeros(s[1..]);
    }
  }

  /** A sum of 0/1 entries lies between 0 and their number. */
  lemma {:induction false} SumOfBits(s: seq<F2>)
    ensures 0 <= Sum(s) <= |s|
  {
    if s != [] {
      SumOfBits(s[1..]);
    }
  }

  /** The products row[j] * x[j] over the coefficient columns j < |x|. */
  function Products(row: seq<F2>, x: seq<F2>): seq<int>
    requires |x| <= |row|
  {
    seq(|x|, j requires 0 <= j < |x| => row[j] * x[j])
  }

  /** The (integer) dot product of the coefficient part of `row` with x. */
  function Dot(row: seq<F2>, x: seq<F2>): int
    requires |x| <= |row|
  {
    Sum(Products(row, x))
  }

  /** The equation held by an augmented row: its coefficients times x sum,
      modulo 2, to its last entry. */
  predicate Satisfies(row: seq<F2>, x: seq<F2>)
  {
    |row| == |x| + 1 && Dot(row, x) % 2 == row[|x|]
  }

  /** x solves every equation of the augmented matrix. */
  ghost predicate IsSolution(rows: seq<seq<F2>>, x: seq<F2>)
  {
    forall i :: 0 <= i < |rows| ==> Satisfies(rows[i], x)
  }

  /** The two augmented matrices have exactly the same solutions. */
  ghost predicate SameSolutions(a: seq<seq<F2>>, b: seq<seq<F2>>)
  {
    forall x :: IsSolution(a, x) <==> IsSolution(b, x)
  }

  /** The matrix with v appended as a last column: row i gets v[i] at its
      end. */
  function Augment(rows: seq<seq<F2>>, v: seq<F2>): (r: seq<seq<F2>>)
    requires |v| == |rows|
    ensures |r| == |rows|
  {
    seq(|rows|, i requires 0 <= i < |rows| => rows[i] + [v[i]])
  }

  /** The row whose entries are the mod-2 sums of those of a and b. */
  function RowSum(a: seq<F2>, b: seq<F2>): seq<F2>
    requires |a| == |b|
  {
    seq(|a|, j requires 0 <= j < |a| => Add(a[j], b[j]))
  }

  /** Addition in GF(2): the sum modulo 2. */
  function Add(a: F2, b: F2): F2
  {
    (a + b) % 2
  }

  /** The dot product is linear in the row, modulo 2. */
  lemma DotRowSum(a: seq<F2>, b: seq<F2>, x: seq<F2>)
    requires |a| == |b| && |x| <= |a|
    ensures Dot(RowSum(a, b), x) % 2 == (Dot(a, x) + Dot(b, x)) % 2
  {
    SumParity(Products(RowSum(a, b), x), Products(a, x), Products(b, x));
  }

  /** Adding equation a to equation b: x satisfies the pair before exactly
      when it satisfies the pair after. */
  lemma RowSumKeepsEquations(a: seq<F2>, b: seq<F2>, x: seq<F2>)
    requires |a| == |b| == |x| + 1
    requires Satisfies(a, x)
    ensures Satisfies(b, x) <==> Satisfies(RowSum(a, b), x)
  {
    var n := |x|;
    DotRowSum(a, b, x);
    assert RowSum(a, b)[n] == Add(a[n], b[n]);
    ParityOfSum(Dot(a, x), Dot(b, x), Dot(RowSum(a, b), x), a[n], b[n]);
  }

  /** If s has the parity of da + db and da has parity an, then db has
      parity bn exactly when s has the parity of an + bn. */
  lemma ParityOfSum(da: int, db: int, s: int, an: F2, bn: F2)
    requires s % 2 == (da + db) % 2 && da % 2 == an
    ensures (db % 2 == bn) <==> (s % 2 == Add(an, bn))
  {
    if db % 2 == 0 {
      assert (da + db) % 2 == an;
    } else {
      assert (da + db) % 2 == 1 - an;
    }
  }

  /** Exchanging two equations does not change the solutions. */
  lemma SwapKeepsSolutions(rows: seq<seq<F2>>, a: nat, b: nat)
    requires a < |rows| && b < |rows|
    ensures SameSolutions(rows[a := rows[b]][b := rows[a]], rows)
  {
    var swapped := rows[a := rows[b]][b := rows[a]];
    forall x
      ensures IsSolution(swapped, x) <==> IsSolution(rows, x)
    {
      if IsSolution(rows, x) {
        forall i | 0 <= i < |swapped|
          ensures Satisfies(swapped[i], x)
        {
          assert swapped[i] == rows[if i == b then a else if i == a then b else i];
        }
      }
      if IsSolution(swapped, x) {
        forall i | 0 <= i < |rows|
          ensures Satisfies(rows[i], x)
        {
          assert rows[i] == swapped[if i == b then a else if i == a then b else i];
        }
      }
    }
  }

  /** Adding equation s into equation t (s != t) does not change the
      solutions. */
  lemma AddKeepsSolutions(rows: seq<seq<F2>>, s: nat, t: nat)
    requires s < |rows| && t < |rows| && s != t && |rows[s]| == |rows[t]|
    ensures SameSolutions(rows[t := RowSum(rows[s], rows[t])], rows)
  {
    var added := rows[t := RowSum(rows[s], rows[t])];
    forall x
      ensures IsSolution(added, x) <==> IsSolution(rows, x)
    {
      if IsSolution(rows, x) {
        RowSumKeepsEquations(rows[s], rows[t], x);
        forall i | 0 <= i < |added|
          ensures Satisfies(added[i], x)
        {
          if i != t {
            assert added[i] == rows[i];
          }
        }
      }
      if IsSolution(added, x) {
        assert added[s] == rows[s];
        assert Satisfies(rows[s], x);
        RowSumKeepsEquations(rows[s], rows[t], x);
        forall i | 0 <= i < |rows|
          ensures Satisfies(rows[i], x)
        {
          if i != t {
            assert added[i] == rows[i];
          } else {
            assert Satisfies(added[t], x);
          }
        }
      }
    }
  }

  /** The column of the first 1 in `row`, or |row| when the row is all zero. */
  function Lead(row: seq<F2>): (l: nat)
    ensures l <= |row|
    ensures forall j :: 0 <= j < l ==> row[j] == 0
    ensures l < |row| ==> row[l] == 1
  {
    if |row| == 0 then 0 else if row[0] == 1 then 0 else 1 + Lead(row[1..])
  }

  /** Two rows that agree left of column c and whose first 1 lies left of c
      have the same leading column. */
  lemma LeadAgrees(a: seq<F2>, b: seq<F2>, c: nat)
    requires c <= |a| && c <= |b| && Lead(a) < c
    requires forall j :: 0 <= j < c ==> a[j] == b[j]
    ensures Lead(b) == Lead(a)
  {
  }

  /** A row that is zero in every column left of c leads at c or later. */
  lemma LeadAtLeast(a: seq<F2>, c: nat)
    requires c <= |a|
    requires forall j :: 0 <= j < c ==> a[j] == 0
    ensures c <= Lead(a)
  {
  }

  /** Reduced row-echelon form (the augmented column counts as a column):
      leading 1s move strictly right going down, all-zero rows come last,
      and each leading 1 is the only 1 in its column. */
  ghost predicate IsRref(rows: seq<seq<F2>>, w: nat)
  {
    Rect(rows, w) &&
    (forall i, k :: 0 <= i < k < |rows| && Lead(rows[k]) < w ==> Lead(rows[i]) < Lead(rows[k])) &&
    (forall i, k :: 0 <= i < k < |rows| && Lead(rows[i]) == w ==> Lead(rows[k]) == w) &&
    (forall i, k :: 0 <= i < |rows| && 0 <= k < |rows| && k != i && Lead(rows[i]) < w ==>
       rows[k][Lead(rows[i])] == 0)
  }

  /** The state Gauss-Jordan elimination has reached at position
      (iFrom, jFrom): rows above iFrom are finished pivot rows with pivots left
      of jFrom, and the rows from iFrom down are zero left of jFrom. */
  ghost predicate Reduced(rows: seq<seq<F2>>, w: nat, iFrom: nat, jFrom: nat)
  {
    Rect(rows, w) && iFrom <= |rows| && jFrom <= w &&
    (forall i :: 0 <= i < iFrom ==> Lead(rows[i]) < jFrom) &&
    (forall i, k :: 0 <= i < k < iFrom ==> Lead(rows[i]) < Lead(rows[k])) &&
    (forall i, k :: 0 <= i < iFrom && 0 <= k < |rows| && k != i ==> rows[k][Lead(rows[i])] == 0) &&
    (forall k, j :: iFrom <= k < |rows| && 0 <= j < jFrom ==> rows[k][j] == 0)
  }

  lemma ReducedAtStart(rows: seq<seq<F2>>, w: nat)
    requires Rect(rows, w)
    ensures Reduced(rows, w, 0, 0)
  {
  }

  /** Elimination that has passed the last column has produced RREF. */
  lemma ReducedIsRref(rows: seq<seq<F2>>, w: nat, iFrom: nat)
    requires Reduced(rows, w, iFrom, w)
    ensures IsRref(rows, w)
  {
    forall k | iFrom <= k < |rows|
      ensures Lead(rows[k]) == w
    {
      LeadAtLeast(rows[k], w);
    }
  }

  /** Once the row below the finished ones carries a pivot in column j and
      that column is cleared everywhere else, the elimination state advances
      to (iFrom + 1, j + 1). */
  lemma ClearedAdvances(before: seq<seq<F2>>, after: seq<seq<F2>>, w: nat, iFrom: nat, j: nat)
    requires Reduced(before, w, iFrom, j) && iFrom < |before| && j < w
    requires before[iFrom][j] == 1
    requires |after| == |before| && after[iFrom] == before[iFrom]
    requires forall k :: 0 <= k < |before| && k != iFrom ==>
               after[k] == if before[k][j] == 1 then RowSum(before[iFrom], before[k]) else before[k]
    ensures Reduced(after, w, iFrom + 1, j + 1)
  {
    var p := before[iFrom];
    assert Lead(p) == j by { LeadAtLeast(p, j); }
    ClearedRows(before, after, w, iFrom, j);
    forall i | 0 <= i < iFrom
      ensures Lead(after[i]) == Lead(before[i])
    {
      LeadAgrees(before[i], after[i], j);
    }
    forall i, k | 0 <= i < iFrom + 1 && 0 <= k < |after| && k != i
      ensures after[k][Lead(after[i])] == 0
    {
      if i < iFrom {
        var l := Lead(before[i]);
        assert l < j;
        assert after[k][l] == before[k][l];
      }
    }
  }

  /** Entry-wise effect of clearing column j with pivot row iFrom. */
  lemma ClearedRows(before: seq<seq<F2>>, after: seq<seq<F2>>, w: nat, iFrom: nat, j: nat)
    requires Reduced(before, w, iFrom, j) && iFrom < |before| && j < w
    requires before[iFrom][j] == 1
    requires |after| == |before| && after[iFrom] == before[iFrom]
    requires forall k :: 0 <= k < |before| && k != iFrom ==>
               after[k] == if before[k][j] == 1 then RowSum(before[iFrom], before[k]) else before[k]
    ensures Rect(after, w)
    ensures forall k :: 0 <= k < |after| ==> after[k][j] == (if k == iFrom then 1 else 0)
    ensures forall k, c :: 0 <= k < |after| && 0 <= c < j ==> after[k][c] == before[k][c]
  {
    forall k | 0 <= k < |after|
      ensures |after[k]| == w
      ensures after[k][j] == (if k == iFrom then 1 else 0)
      ensures forall c :: 0 <= c < j ==> after[k][c] == before[k][c]
    {
      if k != iFrom && before[k][j] == 1 {
        forall c | 0 <= c < j
          ensures after[k][c] == before[k][c]
        {
          assert before[iFrom][c] == 0;
        }
      }
    }
  }

  /** On a matrix already in RREF, the first 1 found in column-major order
      from (iFrom, jFrom) is the pivot of row iFrom and that column holds no
      other 1: elimination would change nothing. */
  lemma RrefPivotFound(rows: seq<seq<F2>>, w: nat, iFrom: nat, i: nat, j: nat)
    requires IsRref(rows, w) && iFrom <= i < |rows| && j < w
    requires rows[i][j] == 1
    requires forall k, c :: iFrom <= k < |rows| && 0 <= c < j ==> rows[k][c] == 0
    requires forall k :: iFrom <= k < i ==> rows[k][j] == 0
    ensures i == iFrom
    ensures forall k :: 0 <= k < |rows| && k != iFrom ==> rows[k][j] == 0
  {
    LeadAtLeast(rows[i], j);
    LeadAtLeast(rows[iFrom], j);
    assert Lead(rows[i]) == j;
    if i != iFrom {
      assert false;
    }
  }

  /** The column-major scan from (iFrom, jFrom) of an RREF matrix that is
      zero left of jFrom from row iFrom down, reaching column j without a 1,
      means row iFrom leads at j or later. */
  lemma RrefScanBound(rows: seq<seq<F2>>, w: nat, iFrom: nat, j: nat)
    requires IsRref(rows, w) && iFrom < |rows| && j <= w
    requires forall k, c :: iFrom <= k < |rows| && 0 <= c < j ==> rows[k][c] == 0
    ensures j <= Lead(rows[iFrom])
  {
    LeadAtLeast(rows[iFrom], j);
  }

  /** The indices where x is 1, from position i on, in ascending order. */
  function SupportFrom(x: seq<F2>, i: nat): seq<nat>
    requires i <= |x|
    decreases |x| - i
  {
    if i == |x| then [] else (if x[i] == 1 then [i] else []) + SupportFrom(x, i + 1)
  }

  lemma {:induction false} SupportFromFacts(x: seq<F2>, i: nat)
    requires i <= |x|
    decreases |x| - i
    ensures var s := SupportFrom(x, i);
      (forall k :: 0 <= k < |s| ==> i <= s[k] < |x| && x[s[k]] == 1) &&
      Ascending(s) &&
      (forall p :: i <= p < |x| && x[p] == 1 ==> p in s)
  {
    if i < |x| {
      SupportFromFacts(x, i + 1);
      var rest := SupportFrom(x, i + 1);
      var s := SupportFrom(x, i);
      assert s == (if x[i] == 1 then [i] else []) + rest;
      forall p | i <= p < |x| && x[p] == 1
        ensures p in s
      {
        if p > i {
          assert p in rest;
        }
      }
    }
  }

  /** The ascending list of the positions where x is 1: what
      `x.map((v, i) => (v ? i : -1)).filter(x => x !== -1)` computes. */
  function Support(x: seq<F2>): seq<nat>
  {
    SupportFrom(x, 0)
  }

  /** The support lists, in ascending order, exactly the positions of the
      ones. */
  lemma SupportFacts(x: seq<F2>)
    ensures var s := Support(x);
      (forall k :: 0 <= k < |s| ==> s[k] < |x| && x[s[k]] == 1) &&
      Ascending(s) &&
      (forall p :: 0 <= p < |x| && x[p] == 1 ==> p in s)
  {
    SupportFromFacts(x, 0);
  }

  /** Strictly ascending. */
  predicate Ascending(s: seq<nat>)
  {
    forall k, l :: 0 <= k < l < |s| ==> s[k] < s[l]
  }

  /** The 0/1 vector of length n with a 1 exactly at the members of ps. */
  function Indicator(ps: seq<nat>, n: nat): seq<F2>
  {
    seq(n, p requires 0 <= p < n => if p in ps then 1 else 0)
  }

  /** Two ascending lists with the same members are the same list. */
  lemma {:induction false} AscendingUnique(s: seq<nat>, t: seq<nat>)
    requires Ascending(s) && Ascending(t)
    requires forall p :: p in s <==> p in t
    ensures s == t
  {
    if s != [] && t != [] {
      assert s[0] == t[0] by {
        assert s[0] in t && t[0] in s;
      }
      forall p
        ensures p in s[1..] <==> p in t[1..]
      {
        if p in s[1..] {
          assert p in t && p != t[0];
        }
        if p in t[1..] {
          assert p in s && p != s[0];
        }
      }
      AscendingUnique(s[1..], t[1..]);
    } else if s != [] {
      HeadIsMember(s);
      assert false;
    } else if t != [] {
      HeadIsMember(t);
      assert false;
    }
  }

  lemma HeadIsMember(s: seq<nat>)
    requires s != []
    ensures s[0] in s
  {
  }

  /** Support and Indicator are inverse to each other. */
  lemma SupportIndicator(ps: seq<nat>, n: nat)
    requires Ascending(ps) && forall p :: p in ps ==> p < n
    ensures Support(Indicator(ps, n)) == ps
  {
    var s := Support(Indicator(ps, n));
    SupportFacts(Indicator(ps, n));
    AscendingUnique(s, ps);
  }

  lemma IndicatorSupport(x: seq<F2>)
    ensures Indicator(Support(x), |x|) == x
  {
    SupportFacts(x);
  }
}
