/** Gaussian elimination over Z_P as a function on matrix values: the
    specification that the in-place reductions follow step for step, and the
    source of `rank` (the number of pivots row elimination finds). */
module Echelon {
  import opened Field
  import opened Matrices

  /** The outcome of an elimination: the reduced matrix and its pivot count. */
  datatype Reduced = Reduced(mat: Matrix, pivots: nat)

  /** First row r >= i whose entry in column j is nonzero, or n if there is none. */
  function PivotRow(A: Matrix, i: nat, j: nat): (r: nat)
    requires Wf(A) && i <= A.n && j < A.m
    ensures i <= r <= A.n
    ensures forall k | i <= k < r :: IsZero(A.e[k][j])
    ensures r < A.n ==> !IsZero(A.e[r][j])
    decreases A.n - i
  {
    if i == A.n then A.n
    else if !IsZero(A.e[i][j]) then i
    else PivotRow(A, i + 1, j)
  }

  /** The first nonzero row is unique: any r with the search's exit property is PivotRow. */
  lemma PivotRowIs(A: Matrix, i: nat, j: nat, r: nat)
    requires Wf(A) && i <= r <= A.n && j < A.m
    requires forall k | i <= k < r :: IsZero(A.e[k][j])
    requires r < A.n ==> !IsZero(A.e[r][j])
    ensures r == PivotRow(A, i, j)
  {
  }

  /** The inner loop of row elimination: rows o, o+1, ... lose their entry in
      column j by adding (A[row][j] * pivot) times the pivot row i. */
  function EliminateBelow(A: Matrix, i: nat, j: nat, pivot: int, o: nat): (r: Matrix)
    requires Wf(A) && i < A.n && j < A.m && i < o <= A.n
    ensures Wf(r) && r.n == A.n && r.m == A.m
    decreases A.n - o
  {
    if o == A.n then A
    else EliminateBelow(EliminatedRow(A, i, j, pivot, o), i, j, pivot, o + 1)
  }

  /** The inner loop of column elimination: columns o, o+1, ... lose their entry in
      row i by adding (A[i][col] * pivot) times the pivot column j. */
  function EliminateRight(A: Matrix, i: nat, j: nat, pivot: int, o: nat): (r: Matrix)
    requires Wf(A) && i < A.n && j < A.m && j < o <= A.m
    ensures Wf(r) && r.n == A.n && r.m == A.m
    decreases A.m - o
  {
    if o == A.m then A
    else EliminateRight(EliminatedCol(A, i, j, pivot, o), i, j, pivot, o + 1)
  }

  /** One turn of the inner loop of row elimination: row o gains its entry in
      column j times `pivot` times row i, unless that entry is zero. */
  function EliminatedRow(A: Matrix, i: nat, j: nat, pivot: int, o: nat): (r: Matrix)
    requires Wf(A) && i < A.n && j < A.m && i < o < A.n
    ensures Wf(r) && r.n == A.n && r.m == A.m
  {
    if IsZero(A.e[o][j]) then A else RowCombined(A, o, i, Mul(A.e[o][j], pivot))
  }

  /** The inner row elimination is its first turn followed by the rest. */
  lemma EliminateBelowStep(A: Matrix, i: nat, j: nat, pivot: int, o: nat)
    requires Wf(A) && i < A.n && j < A.m && i < o < A.n
    ensures EliminateBelow(A, i, j, pivot, o) == EliminateBelow(EliminatedRow(A, i, j, pivot, o), i, j, pivot, o + 1)
  {
  }

  /** One turn of the inner loop of column elimination, on column o. */
  function EliminatedCol(A: Matrix, i: nat, j: nat, pivot: int, o: nat): (r: Matrix)
    requires Wf(A) && i < A.n && j < A.m && j < o < A.m
    ensures Wf(r) && r.n == A.n && r.m == A.m
  {
    if IsZero(A.e[i][o]) then A else ColCombined(A, o, j, Mul(A.e[i][o], pivot))
  }

  /** The inner column elimination is its first turn followed by the rest. */
  lemma EliminateRightStep(A: Matrix, i: nat, j: nat, pivot: int, o: nat)
    requires Wf(A) && i < A.n && j < A.m && j < o < A.m
    ensures EliminateRight(A, i, j, pivot, o) == EliminateRight(EliminatedCol(A, i, j, pivot, o), i, j, pivot, o + 1)
  {
  }

  /** Column elimination is row elimination of the transpose. */
  lemma {:induction false} EliminateRightTransposed(A: Matrix, i: nat, j: nat, pivot: int, o: nat)
    requires Wf(A) && i < A.n && j < A.m && j < o <= A.m
    ensures Transpose(EliminateRight(A, i, j, pivot, o)) == EliminateBelow(Transpose(A), j, i, pivot, o)
    decreases A.m - o
  {
    if o < A.m {
      EliminatedColTransposed(A, i, j, pivot, o);
      EliminateRightTransposed(EliminatedCol(A, i, j, pivot, o), i, j, pivot, o + 1);
    }
  }

  /** One turn of column elimination is one turn of row elimination of the transpose. */
  lemma EliminatedColTransposed(A: Matrix, i: nat, j: nat, pivot: int, o: nat)
    requires Wf(A) && i < A.n && j < A.m && j < o < A.m
    ensures Transpose(EliminatedCol(A, i, j, pivot, o)) == EliminatedRow(Transpose(A), j, i, pivot, o)
  {
    assert Transpose(A).e[o][i] == A.e[i][o];
    if !IsZero(A.e[i][o]) {
      TransposeColCombined(A, o, j, Mul(A.e[i][o], pivot));
    }
  }

  /** The position of the outer loop of row elimination: the matrix so far and
      the next row and column. */
  datatype Turn = Turn(mat: Matrix, i: nat, j: nat)

  /** One turn of the outer loop from position (i, j): a column with no pivot at
      or below row i is skipped; otherwise the pivot row is swapped into row i
      and every row below loses its entry in column j. */
  function EchelonTurn(A: Matrix, i: nat, j: nat): (t: Turn)
    requires Wf(A) && i < A.n && j < A.m
    ensures Wf(t.mat) && t.mat.n == A.n && t.mat.m == A.m
    ensures t.j == j + 1 && i <= t.i <= i + 1
    ensures t.i == i <==> PivotRow(A, i, j) == A.n
    ensures t.i == i ==> t.mat == A
  {
    var p := PivotRow(A, i, j);
    if p == A.n then Turn(A, i, j + 1)
    else
      var A1 := if p != i then RowSwapped(A, i, p) else A;
      var pivot := Neg(Inv(A1.e[i][j]));
      Turn(EliminateBelow(A1, i, j, pivot, i + 1), i + 1, j + 1)
  }

  /** The outer loop of row elimination from position (i, j). */
  function RowEchelonFrom(A: Matrix, i: nat, j: nat): (r: Reduced)
    requires Wf(A) && i <= A.n && j <= A.m
    ensures Wf(r.mat) && r.mat.n == A.n && r.mat.m == A.m
    ensures i <= r.pivots <= A.n && r.pivots - i <= A.m - j
    decreases A.m - j
  {
    if i == A.n || j == A.m then Reduced(A, i)
    else
      var t := EchelonTurn(A, i, j);
      RowEchelonFrom(t.mat, t.i, t.j)
  }

  /** Elimination from (i, j) is elimination from the position one turn later. */
  lemma RowEchelonFromTurn(A: Matrix, i: nat, j: nat)
    requires Wf(A) && i < A.n && j < A.m
    ensures var t := EchelonTurn(A, i, j);
      RowEchelonFrom(A, i, j) == RowEchelonFrom(t.mat, t.i, t.j)
  {
  }

  function RowEchelon(A: Matrix): (r: Reduced)
    requires Wf(A)
    ensures Wf(r.mat) && r.mat.n == A.n && r.mat.m == A.m
    ensures r.pivots <= A.n && r.pivots <= A.m
  {
    RowEchelonFrom(A, 0, 0)
  }

  /** Column elimination is row elimination of the transpose. */
  function ColEchelonFrom(A: Matrix, i: nat, j: nat): (r: Reduced)
    requires Wf(A) && i <= A.n && j <= A.m
    ensures Wf(r.mat) && r.mat.n == A.n && r.mat.m == A.m
    ensures j <= r.pivots <= A.m && r.pivots - j <= A.n - i
  {
    var T := RowEchelonFrom(Transpose(A), j, i);
    Reduced(Transpose(T.mat), T.pivots)
  }

  function ColEchelon(A: Matrix): (r: Reduced)
    requires Wf(A)
    ensures Wf(r.mat) && r.mat.n == A.n && r.mat.m == A.m
    ensures r.pivots <= A.n && r.pivots <= A.m
  {
    ColEchelonFrom(A, 0, 0)
  }

  /** `rank`: 0 for the null matrix, otherwise the pivot count of row elimination. */
  function Rank(A: Matrix): (r: nat)
    requires Wf(A)
    ensures r <= A.n && r <= A.m
    ensures IsNull(A) ==> r == 0
  {
    if IsNull(A) then 0 else RowEchelon(A).pivots
  }

  /** `nullity`: 0 for the null matrix, otherwise the column count minus the rank. */
  function Nullity(A: Matrix): (r: nat)
    requires Wf(A)
    ensures r <= A.m
    ensures IsNull(A) ==> r == 0
    ensures !IsNull(A) ==> r + Rank(A) == A.m
  {
    if IsNull(A) then 0 else A.m - Rank(A)
  }

  // ---------------------------------------------------------------------
  // Echelon form

  /** Column of the first nonzero entry of row k, or m for a zero row. */
  function Lead(A: Matrix, k: nat): nat
    requires Wf(A) && k < A.n
  {
    FirstNonzeroCol(A, k, 0)
  }

  /** Rows b..r-1 are nonzero with strictly increasing leading columns, and every
      later row is zero (rows above b are not constrained). */
  predicate IsRowEchelonFrom(A: Matrix, b: nat, r: nat)
    requires Wf(A)
  {
    && b <= r <= A.n
    && (forall k | b <= k < r :: Lead(A, k) < A.m)
    && (forall k, l | b <= k < l < r :: Lead(A, k) < Lead(A, l))
    && (forall k | r <= k < A.n :: RowIsZero(A, k))
  }

  predicate IsRowEchelon(A: Matrix, r: nat)
    requires Wf(A)
  {
    IsRowEchelonFrom(A, 0, r)
  }

  /** Columns 0..r-1 are nonzero with strictly increasing leading rows, and every
      later column is zero: the row echelon form of the transpose. */
  predicate IsColEchelon(A: Matrix, r: nat)
    requires Wf(A)
  {
    IsRowEchelon(Transpose(A), r)
  }

  /** The state of the outer loop at (i, j) when it started at row b: rows b..i-1
      are finished, and columns left of j are zero from row i down. */
  predicate Partial(A: Matrix, b: nat, i: nat, j: nat)
    requires Wf(A)
  {
    && b <= i <= A.n && j <= A.m
    && (forall k | b <= k < i :: Lead(A, k) < j)
    && (forall k, l | b <= k < l < i :: Lead(A, k) < Lead(A, l))
    && (forall k, c | i <= k < A.n && 0 <= c < j :: IsZero(A.e[k][c]))
  }

  lemma LeadIs(A: Matrix, k: nat, j: nat)
    requires Wf(A) && k < A.n && j < A.m
    requires forall c | 0 <= c < j :: IsZero(A.e[k][c])
    requires !IsZero(A.e[k][j])
    ensures Lead(A, k) == j
  {
  }

  /** One turn of the elimination with the pivot at (i, j) zeroes row o in column j,
      leaves every other row alone, and leaves row o alone where the pivot row is zero. */
  lemma EliminatedRowSpec(A: Matrix, i: nat, j: nat, o: nat)
    requires Wf(A) && i < A.n && j < A.m && i < o < A.n
    requires !IsZero(A.e[i][j])
    ensures var r := EliminatedRow(A, i, j, Neg(Inv(A.e[i][j])), o);
      && (forall k | 0 <= k < A.n && k != o :: r.e[k] == A.e[k])
      && IsZero(r.e[o][j])
      && (forall c | 0 <= c < A.m && IsZero(A.e[i][c]) :: r.e[o][c] == A.e[o][c])
  {
    var pivot := Neg(Inv(A.e[i][j]));
    if !IsZero(A.e[o][j]) {
      var A' := RowCombined(A, o, i, Mul(A.e[o][j], pivot));
      EliminationCancels(A.e[o][j], A.e[i][j]);
      assert Mul(A.e[i][j], Mul(A.e[o][j], pivot)) == Mul(Mul(A.e[o][j], pivot), A.e[i][j]) by {
        assert A.e[i][j] * Mul(A.e[o][j], pivot) == Mul(A.e[o][j], pivot) * A.e[i][j];
      }
      assert IsZero(A'.e[o][j]);
      forall c | 0 <= c < A.m && IsZero(A.e[i][c])
        ensures A'.e[o][c] == A.e[o][c]
      {
        assert A.e[i][c] == 0;
      }
    }
  }

  /** The elimination loop zeroes column j below the pivot, leaves rows up to
      o-1 alone, and leaves the columns where the pivot row is zero alone. */
  lemma {:induction false} EliminateBelowSpec(A: Matrix, i: nat, j: nat, o: nat)
    requires Wf(A) && i < A.n && j < A.m && i < o <= A.n
    requires !IsZero(A.e[i][j])
    ensures var r := EliminateBelow(A, i, j, Neg(Inv(A.e[i][j])), o);
      && (forall k | 0 <= k < o :: r.e[k] == A.e[k])
      && (forall k | o <= k < A.n :: IsZero(r.e[k][j]))
      && (forall k, c | o <= k < A.n && 0 <= c < A.m && IsZero(A.e[i][c]) :: r.e[k][c] == A.e[k][c])
    decreases A.n - o
  {
    var pivot := Neg(Inv(A.e[i][j]));
    if o < A.n {
      var A' := EliminatedRow(A, i, j, pivot, o);
      EliminatedRowSpec(A, i, j, o);
      assert A'.e[i] == A.e[i];
      EliminateBelowSpec(A', i, j, o + 1);
    }
  }

  lemma SwapKeepsPartial(A: Matrix, b: nat, i: nat, j: nat, p: nat)
    requires Wf(A) && Partial(A, b, i, j) && i <= p < A.n
    ensures Partial(RowSwapped(A, i, p), b, i, j)
  {
    var A1 := RowSwapped(A, i, p);
    forall k | 0 <= k < i
      ensures Lead(A1, k) == Lead(A, k)
    {
      assert A1.e[k] == A.e[k];
    }
  }

  /** One pass of the outer loop with a pivot at (i, j) moves the state to (i+1, j+1). */
  lemma PivotStep(A1: Matrix, b: nat, i: nat, j: nat)
    requires Wf(A1) && Partial(A1, b, i, j) && i < A1.n && j < A1.m
    requires !IsZero(A1.e[i][j])
    ensures Partial(EliminateBelow(A1, i, j, Neg(Inv(A1.e[i][j])), i + 1), b, i + 1, j + 1)
  {
    var A2 := EliminateBelow(A1, i, j, Neg(Inv(A1.e[i][j])), i + 1);
    EliminateBelowSpec(A1, i, j, i + 1);
    forall k | 0 <= k <= i
      ensures Lead(A2, k) == Lead(A1, k)
    {
      assert A2.e[k] == A1.e[k];
    }
    LeadIs(A1, i, j);
    forall k, c | i + 1 <= k < A1.n && 0 <= c < j + 1
      ensures IsZero(A2.e[k][c])
    {
      if c < j {
        assert IsZero(A1.e[i][c]);
      }
    }
  }

  /** When the outer loop stops, its state is the echelon form it promises. */
  lemma PartialDone(A: Matrix, b: nat, i: nat, j: nat)
    requires Wf(A) && Partial(A, b, i, j) && (i == A.n || j == A.m)
    ensures IsRowEchelonFrom(A, b, i)
  {
    forall k | i <= k < A.n
      ensures RowIsZero(A, k)
    {
      assert j == A.m;
    }
  }

  /** One turn of the outer loop keeps the loop's state invariant. */
  lemma TurnKeepsPartial(A: Matrix, b: nat, i: nat, j: nat)
    requires Wf(A) && Partial(A, b, i, j) && i < A.n && j < A.m
    ensures var t := EchelonTurn(A, i, j); Partial(t.mat, b, t.i, t.j)
  {
    var p := PivotRow(A, i, j);
    if p < A.n {
      var A1 := if p != i then RowSwapped(A, i, p) else A;
      if p != i {
        SwapKeepsPartial(A, b, i, j, p);
      }
      PivotStep(A1, b, i, j);
    }
  }

  lemma {:induction false} RowEchelonFromCorrect(A: Matrix, b: nat, i: nat, j: nat)
    requires Wf(A) && Partial(A, b, i, j)
    ensures IsRowEchelonFrom(RowEchelonFrom(A, i, j).mat, b, RowEchelonFrom(A, i, j).pivots)
    decreases A.m - j
  {
    if i == A.n || j == A.m {
      PartialDone(A, b, i, j);
    } else {
      var t := EchelonTurn(A, i, j);
      TurnKeepsPartial(A, b, i, j);
      RowEchelonFromCorrect(t.mat, b, t.i, t.j);
    }
  }

  /** Row elimination leaves its matrix in row echelon form with `pivots` nonzero rows. */
  lemma RowEchelonCorrect(A: Matrix)
    requires Wf(A)
    ensures IsRowEchelon(RowEchelon(A).mat, RowEchelon(A).pivots)
  {
    RowEchelonFromCorrect(A, 0, 0, 0);
  }

  /** One turn of the outer loop from (i, j) leaves the rows above i alone. */
  lemma TurnKeepsAbove(A: Matrix, i: nat, j: nat)
    requires Wf(A) && i < A.n && j < A.m
    ensures var t := EchelonTurn(A, i, j); forall k | 0 <= k < i :: t.mat.e[k] == A.e[k]
  {
    var p := PivotRow(A, i, j);
    if p < A.n {
      var A1 := if p != i then RowSwapped(A, i, p) else A;
      assert forall k | 0 <= k < i :: A1.e[k] == A.e[k];
      EliminateBelowSpec(A1, i, j, i + 1);
    }
  }

  /** Elimination started at row i never touches the rows above i. */
  lemma {:induction false} RowEchelonFromKeepsAbove(A: Matrix, i: nat, j: nat)
    requires Wf(A) && i <= A.n && j <= A.m
    ensures forall k | 0 <= k < i :: RowEchelonFrom(A, i, j).mat.e[k] == A.e[k]
    decreases A.m - j
  {
    if i < A.n && j < A.m {
      var t := EchelonTurn(A, i, j);
      TurnKeepsAbove(A, i, j);
      RowEchelonFromKeepsAbove(t.mat, t.i, t.j);
    }
  }

  /** Row elimination started at row b leaves rows b.. in echelon form and rows above b alone. */
  lemma RowEchelonFromStart(A: Matrix, b: nat)
    requires Wf(A) && b <= A.n
    ensures IsRowEchelonFrom(RowEchelonFrom(A, b, 0).mat, b, RowEchelonFrom(A, b, 0).pivots)
    ensures forall k | 0 <= k < b :: RowEchelonFrom(A, b, 0).mat.e[k] == A.e[k]
  {
    RowEchelonFromCorrect(A, b, b, 0);
    RowEchelonFromKeepsAbove(A, b, 0);
  }

  /** Column elimination leaves its matrix in column echelon form with `pivots`
      nonzero columns first. */
  lemma ColEchelonCorrect(A: Matrix)
    requires Wf(A)
    ensures IsColEchelon(ColEchelon(A).mat, ColEchelon(A).pivots)
  {
    var T := RowEchelonFrom(Transpose(A), 0, 0);
    RowEchelonFromCorrect(Transpose(A), 0, 0, 0);
    TransposeTwice(T.mat);
  }

  /** In echelon form every entry below a pivot is zero. */
  lemma BelowPivotZero(A: Matrix, r: nat, k: nat, l: nat)
    requires Wf(A) && IsRowEchelon(A, r) && k < r && k < l < A.n
    ensures IsZero(A.e[l][Lead(A, k)])
  {
    if l >= r {
      assert RowIsZero(A, l);
    } else {
      assert Lead(A, k) < Lead(A, l);
    }
  }

  /** `pivots` of a matrix in row echelon form lists its r nonzero rows. */
  lemma {:induction false} PivotsFromEchelon(A: Matrix, r: nat, i: nat, j: nat)
    requires Wf(A) && IsRowEchelon(A, r) && i <= r
    requires i == 0 ==> j == 0
    requires i > 0 ==> j == Lead(A, i - 1) + 1
    ensures PivotsFrom(A, i, j) == Range(i, r)
    decreases A.n - i
  {
    if i == r {
      if i < A.n && j < A.m {
        assert RowIsZero(A, i);
        assert FirstNonzeroCol(A, i, j) == A.m;
      }
    } else {
      assert Lead(A, i) < A.m;
      assert i > 0 ==> Lead(A, i - 1) < Lead(A, i);
      assert j <= Lead(A, i);
      assert FirstNonzeroCol(A, i, j) == Lead(A, i);
      PivotsFromEchelon(A, r, i + 1, Lead(A, i) + 1);
    }
  }

  lemma PivotsOfEchelon(A: Matrix, r: nat)
    requires Wf(A) && IsRowEchelon(A, r)
    ensures Pivots(A) == Range(0, r)
  {
    PivotsFromEchelon(A, r, 0, 0);
  }
}
