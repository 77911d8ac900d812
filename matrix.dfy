/** Dense matrices over Z_P as values: the pure half of the matrix class.

    A matrix is its two dimensions and its rows. The 0 x 0 matrix is the
    "null" sentinel (an absent vector space); a 0 x k matrix with k > 0 is a
    genuine, non-null matrix. Entries of a well-formed matrix are canonical
    field elements. */
module Matrices {
  import opened Field

  datatype Matrix = Matrix(n: nat, m: nat, e: seq<seq<int>>)

  predicate Wf(A: Matrix) {
    && |A.e| == A.n
    && (forall i | 0 <= i < A.n :: |A.e[i]| == A.m)
    && (forall i, j | 0 <= i < A.n && 0 <= j < A.m :: IsElem(A.e[i][j]))
  }

  /** The null sentinel (`zeroMatrix` in the source). */
  function Null(): (r: Matrix)
    ensures Wf(r) && IsNull(r)
  {
    Matrix(0, 0, [])
  }

  predicate IsNull(A: Matrix) {
    A.n == 0 && A.m == 0
  }

  /** The n x m matrix the two-argument constructor creates: all zeros. */
  function Zeros(n: nat, m: nat): (r: Matrix)
    ensures Wf(r) && r.n == n && r.m == m
    ensures forall i, j | 0 <= i < n && 0 <= j < m :: r.e[i][j] == 0
  {
    Matrix(n, m, seq(n, i => seq(m, j => 0)))
  }

  function Identity(n: nat): (r: Matrix)
    ensures Wf(r) && r.n == n && r.m == n
    ensures forall i, j | 0 <= i < n && 0 <= j < n :: r.e[i][j] == (if i == j then 1 else 0)
  {
    Matrix(n, n, seq(n, i => seq(n, j => if i == j then 1 else 0)))
  }

  /** Total entry accessor: 0 outside the matrix. */
  function At(A: Matrix, i: int, j: int): int {
    if 0 <= i < |A.e| && 0 <= j < |A.e[i]| then A.e[i][j] else 0
  }

  /** Sum over t < k of A[i][t] * B[t][j], computed over the integers. */
  function Dot(A: Matrix, B: Matrix, i: int, j: int, k: nat): int
    decreases k
  {
    if k == 0 then 0 else Dot(A, B, i, j, k - 1) + At(A, i, k - 1) * At(B, k - 1, j)
  }

  /** The textbook product over Z_P of an n x k and a k x m matrix. */
  function Product(A: Matrix, B: Matrix): (r: Matrix)
    requires A.m == B.n
    ensures Wf(r) && r.n == A.n && r.m == B.m
  {
    Matrix(A.n, B.m, seq(A.n, i => seq(B.m, j => Norm(Dot(A, B, i, j, A.m)))))
  }

  /** `mul`: null if either operand is null, the product otherwise. */
  function MatMul(A: Matrix, B: Matrix): (r: Matrix)
    requires IsNull(A) || IsNull(B) || A.m == B.n
    ensures Wf(r)
    ensures IsNull(A) || IsNull(B) ==> r == Null()
    ensures !IsNull(A) && !IsNull(B) ==> r == Product(A, B)
  {
    if IsNull(A) || IsNull(B) then Null() else Product(A, B)
  }

  function Transpose(A: Matrix): (r: Matrix)
    requires Wf(A)
    ensures Wf(r) && r.n == A.m && r.m == A.n
    ensures forall j, i | 0 <= j < A.m && 0 <= i < A.n :: r.e[j][i] == A.e[i][j]
  {
    Matrix(A.m, A.n, seq(A.m, j requires 0 <= j < A.m => seq(A.n, i requires 0 <= i < A.n => A.e[i][j])))
  }

  /** The |rows| x |cols| matrix of the selected entries. */
  function Submatrix(A: Matrix, rows: seq<nat>, cols: seq<nat>): (r: Matrix)
    requires Wf(A)
    requires forall k | 0 <= k < |rows| :: rows[k] < A.n
    requires forall k | 0 <= k < |cols| :: cols[k] < A.m
    ensures Wf(r) && r.n == |rows| && r.m == |cols|
    ensures forall i, j | 0 <= i < |rows| && 0 <= j < |cols| :: r.e[i][j] == A.e[rows[i]][cols[j]]
  {
    Matrix(|rows|, |cols|,
      seq(|rows|, i requires 0 <= i < |rows| =>
        seq(|cols|, j requires 0 <= j < |cols| => A.e[rows[i]][cols[j]])))
  }

  /** All rows, the selected columns. */
  function SubmatrixCols(A: Matrix, cols: seq<nat>): (r: Matrix)
    requires Wf(A)
    requires forall k | 0 <= k < |cols| :: cols[k] < A.m
    ensures Wf(r) && r.n == A.n && r.m == |cols|
    ensures forall i, j | 0 <= i < A.n && 0 <= j < |cols| :: r.e[i][j] == A.e[i][cols[j]]
  {
    Matrix(A.n, |cols|,
      seq(A.n, i requires 0 <= i < A.n =>
        seq(|cols|, j requires 0 <= j < |cols| => A.e[i][cols[j]])))
  }

  /** The indices lo, lo+1, ..., hi-1. */
  function Range(lo: nat, hi: nat): (r: seq<nat>)
    requires lo <= hi
    ensures |r| == hi - lo
    ensures forall k | 0 <= k < |r| :: r[k] == lo + k
  {
    seq(hi - lo, k => lo + k)
  }

  /** The offset submatrix: rows r0 .. n-1 and columns c0 .. m-1. */
  function SubmatrixFrom(A: Matrix, r0: nat, c0: nat): (r: Matrix)
    requires Wf(A) && r0 <= A.n && c0 <= A.m
    ensures Wf(r) && r.n == A.n - r0 && r.m == A.m - c0
    ensures forall i, j | 0 <= i < r.n && 0 <= j < r.m :: r.e[i][j] == A.e[r0 + i][c0 + j]
  {
    Submatrix(A, Range(r0, A.n), Range(c0, A.m))
  }

  /** `getCol`: column `col` as an n x 1 matrix. */
  function GetCol(A: Matrix, col: nat): (r: Matrix)
    requires Wf(A) && col < A.m
    ensures Wf(r) && r.n == A.n && r.m == 1
    ensures forall i | 0 <= i < A.n :: r.e[i][0] == A.e[i][col]
  {
    Matrix(A.n, 1, seq(A.n, i requires 0 <= i < A.n => [A.e[i][col]]))
  }

  // ---------------------------------------------------------------------
  // Entry updates and elementary operations (the mutators' effect)

  /** `insert`: entry (i, j) becomes v reduced into Z_P. */
  function Insert(A: Matrix, i: nat, j: nat, v: int): (r: Matrix)
    requires Wf(A) && i < A.n && j < A.m
    ensures Wf(r) && r.n == A.n && r.m == A.m
    ensures r.e[i][j] == Norm(v)
    ensures forall a, b | 0 <= a < A.n && 0 <= b < A.m && (a != i || b != j) :: r.e[a][b] == A.e[a][b]
  {
    Matrix(A.n, A.m, A.e[i := A.e[i][j := Norm(v)]])
  }

  function RowSwapped(A: Matrix, a: nat, b: nat): (r: Matrix)
    requires Wf(A) && a < A.n && b < A.n
    ensures Wf(r) && r.n == A.n && r.m == A.m
  {
    Matrix(A.n, A.m, A.e[a := A.e[b]][b := A.e[a]])
  }

  function ColSwapped(A: Matrix, a: nat, b: nat): (r: Matrix)
    requires Wf(A) && a < A.m && b < A.m
    ensures Wf(r) && r.n == A.n && r.m == A.m
  {
    Matrix(A.n, A.m, seq(A.n, i requires 0 <= i < A.n => A.e[i][a := A.e[i][b]][b := A.e[i][a]]))
  }

  /** Row t becomes row t + c * row s. */
  function RowCombined(A: Matrix, t: nat, s: nat, c: int): (r: Matrix)
    requires Wf(A) && t < A.n && s < A.n
    ensures Wf(r) && r.n == A.n && r.m == A.m
  {
    Matrix(A.n, A.m, A.e[t := seq(A.m, k requires 0 <= k < A.m => Add(A.e[t][k], Mul(A.e[s][k], c)))])
  }

  /** Column t becomes column t + c * column s. */
  function ColCombined(A: Matrix, t: nat, s: nat, c: int): (r: Matrix)
    requires Wf(A) && t < A.m && s < A.m
    ensures Wf(r) && r.n == A.n && r.m == A.m
  {
    Matrix(A.n, A.m, seq(A.n, i requires 0 <= i < A.n => A.e[i][t := Add(A.e[i][t], Mul(A.e[i][s], c))]))
  }

  function RowScaled(A: Matrix, row: nat, c: int): (r: Matrix)
    requires Wf(A) && row < A.n
    ensures Wf(r) && r.n == A.n && r.m == A.m
  {
    Matrix(A.n, A.m, A.e[row := seq(A.m, k requires 0 <= k < A.m => Mul(A.e[row][k], c))])
  }

  function ColScaled(A: Matrix, col: nat, c: int): (r: Matrix)
    requires Wf(A) && col < A.m
    ensures Wf(r) && r.n == A.n && r.m == A.m
  {
    Matrix(A.n, A.m, seq(A.n, i requires 0 <= i < A.n => A.e[i][col := Mul(A.e[i][col], c)]))
  }

  // ---------------------------------------------------------------------
  // Zero tests, pivots and empty columns

  predicate RowIsZero(A: Matrix, i: nat)
    requires Wf(A) && i < A.n
  {
    forall k | 0 <= k < A.m :: IsZero(A.e[i][k])
  }

  predicate ColIsZero(A: Matrix, j: nat)
    requires Wf(A) && j < A.m
  {
    forall i | 0 <= i < A.n :: IsZero(A.e[i][j])
  }

  /** Index of the first nonzero entry of `row` at or after j, or |row| if there is none. */
  function FirstNonzeroFrom(row: seq<int>, j: nat): (c: nat)
    requires j <= |row|
    ensures j <= c <= |row|
    ensures forall k | j <= k < c :: IsZero(row[k])
    ensures c < |row| ==> !IsZero(row[c])
    decreases |row| - j
  {
    if j == |row| then |row|
    else if !IsZero(row[j]) then j
    else FirstNonzeroFrom(row, j + 1)
  }

  /** First column c >= j with a nonzero entry in row i, or m if there is none. */
  function FirstNonzeroCol(A: Matrix, i: nat, j: nat): (c: nat)
    requires Wf(A) && i < A.n && j <= A.m
    ensures j <= c <= A.m
    ensures forall k | j <= k < c :: IsZero(A.e[i][k])
    ensures c < A.m ==> !IsZero(A.e[i][c])
  {
    FirstNonzeroFrom(A.e[i], j)
  }

  /** `pivots` continued from row i with the column search starting at j. */
  function PivotsFrom(A: Matrix, i: nat, j: nat): (r: seq<nat>)
    requires Wf(A) && i <= A.n && j <= A.m
    ensures forall k | 0 <= k < |r| :: i <= r[k] < A.n
    ensures forall k, l | 0 <= k < l < |r| :: r[k] < r[l]
    decreases A.n - i
  {
    if i == A.n || j == A.m then []
    else
      var c := FirstNonzeroCol(A, i, j);
      if c == A.m then [] else [i] + PivotsFrom(A, i + 1, c + 1)
  }

  /** `pivots`: rows of a row-echelonized matrix that hold a pivot. */
  function Pivots(A: Matrix): (r: seq<nat>)
    requires Wf(A)
    ensures forall k | 0 <= k < |r| :: r[k] < A.n
    ensures forall k, l | 0 <= k < l < |r| :: r[k] < r[l]
  {
    PivotsFrom(A, 0, 0)
  }

  function EmptyColsFrom(A: Matrix, j: nat): (r: seq<nat>)
    requires Wf(A) && j <= A.m
    ensures forall k | 0 <= k < |r| :: j <= r[k] < A.m && ColIsZero(A, r[k])
    ensures forall c | j <= c < A.m && ColIsZero(A, c) :: c in r
    ensures forall k, l | 0 <= k < l < |r| :: r[k] < r[l]
    decreases A.m - j
  {
    if j == A.m then []
    else if ColIsZero(A, j) then [j] + EmptyColsFrom(A, j + 1)
    else EmptyColsFrom(A, j + 1)
  }

  /** `emptyCols`: exactly the all-zero columns, in increasing order. */
  function EmptyCols(A: Matrix): (r: seq<nat>)
    requires Wf(A)
    ensures forall c | 0 <= c < A.m :: c in r <==> ColIsZero(A, c)
    ensures forall k, l | 0 <= k < l < |r| :: r[k] < r[l]
  {
    EmptyColsFrom(A, 0)
  }

  // ---------------------------------------------------------------------
  // Algebra of the product

  lemma MatrixEq(A: Matrix, B: Matrix)
    requires Wf(A) && Wf(B) && A.n == B.n && A.m == B.m
    requires forall i, j | 0 <= i < A.n && 0 <= j < A.m :: A.e[i][j] == B.e[i][j]
    ensures A == B
  {
    forall i | 0 <= i < A.n
      ensures A.e[i] == B.e[i]
    {
    }
  }

  lemma DotRowsMatch(X: Matrix, X': Matrix, Y: Matrix, r: int, r': int, j: int, k: nat)
    requires forall t | 0 <= t < k :: At(X, r, t) == At(X', r', t)
    ensures Dot(X, Y, r, j, k) == Dot(X', Y, r', j, k)
  {
    if k > 0 {
      DotRowsMatch(X, X', Y, r, r', j, k - 1);
    }
  }

  lemma DotColsMatch(X: Matrix, Y: Matrix, Y': Matrix, r: int, j: int, j': int, k: nat)
    requires forall t | 0 <= t < k :: At(Y, t, j) == At(Y', t, j')
    ensures Dot(X, Y, r, j, k) == Dot(X, Y', r, j', k)
  {
    if k > 0 {
      DotColsMatch(X, Y, Y', r, j, j', k - 1);
    }
  }

  lemma RingDistrib(a: int, b: int, c: int, d: int, e: int)
    ensures (a + b * c) * d == a * d + c * (b * d)
    ensures c * e + c * (b * d) == c * (e + b * d)
    ensures a * (b + c * d) == a * b + c * (a * d)
  {
  }

  lemma RingDistribRight(x: int, a: int, b: int, c: int)
    ensures x * (a + b * c) == x * a + c * (x * b)
  {
  }

  /** One more term of a combined dot product: if the partial sums p', p, q and the new
      entry y' are congruent to their combinations, so are the next partial sums
      P' = p' + x y', P = p + x a and Q = q + x b (the factor x on either side). */
  lemma DotCombinedStep(P': int, P: int, Q: int, p': int, p: int, q: int, x: int, y': int, a: int, b: int, c: int)
    requires Congruent(p', p + c * q) && Congruent(y', a + b * c)
    requires (P' == p' + x * y' && P == p + x * a && Q == q + x * b)
          || (P' == p' + y' * x && P == p + a * x && Q == q + b * x)
    ensures Congruent(P', P + c * Q)
  {
    CongruentMulBoth(x, x, y', a + b * c);
    RingDistribRight(x, a, b, c);
    CongruentAdd(p', p + c * q, x * y', x * a + c * (x * b));
    RingDistrib(0, x, c, b, q);
    assert (p + c * q) + (x * a + c * (x * b)) == (p + x * a) + c * (q + x * b);
    assert y' * x == x * y' && a * x == x * a && b * x == x * b;
  }

  /** Row t of RowCombined(X, t, s, c) times Y is row t plus c times row s. */
  lemma DotRowCombined(X: Matrix, Y: Matrix, t: nat, s: nat, c: int, j: int, k: nat)
    requires Wf(X) && t < X.n && s < X.n && k <= X.m
    ensures Congruent(Dot(RowCombined(X, t, s, c), Y, t, j, k),
                      Dot(X, Y, t, j, k) + c * Dot(X, Y, s, j, k))
  {
    var X' := RowCombined(X, t, s, c);
    if k > 0 {
      DotRowCombined(X, Y, t, s, c, j, k - 1);
      var a, b, d := X.e[t][k - 1], X.e[s][k - 1], At(Y, k - 1, j);
      assert At(X', t, k - 1) == Norm(a + Norm(b * c));
      assert Congruent(At(X', t, k - 1), a + b * c) by {
        NormAddRight(a, b * c);
      }
      assert At(X, t, k - 1) == a && At(X, s, k - 1) == b;
      DotCombinedStep(Dot(X', Y, t, j, k), Dot(X, Y, t, j, k), Dot(X, Y, s, j, k),
                      Dot(X', Y, t, j, k - 1), Dot(X, Y, t, j, k - 1), Dot(X, Y, s, j, k - 1), d, At(X', t, k - 1), a, b, c);
    }
  }

  /** Column t of X times ColCombined(Y, t, s, c) is column t plus c times column s. */
  lemma DotColCombined(X: Matrix, Y: Matrix, t: nat, s: nat, c: int, r: int, k: nat)
    requires Wf(Y) && t < Y.m && s < Y.m && k <= Y.n
    ensures Congruent(Dot(X, ColCombined(Y, t, s, c), r, t, k),
                      Dot(X, Y, r, t, k) + c * Dot(X, Y, r, s, k))
  {
    var Y' := ColCombined(Y, t, s, c);
    if k > 0 {
      DotColCombined(X, Y, t, s, c, r, k - 1);
      var a, b, x := Y.e[k - 1][t], Y.e[k - 1][s], At(X, r, k - 1);
      assert At(Y', k - 1, t) == Norm(a + Norm(b * c));
      assert Congruent(At(Y', k - 1, t), a + b * c) by {
        NormAddRight(a, b * c);
      }
      assert At(Y, k - 1, t) == a && At(Y, k - 1, s) == b;
      DotCombinedStep(Dot(X, Y', r, t, k), Dot(X, Y, r, t, k), Dot(X, Y, r, s, k),
                      Dot(X, Y', r, t, k - 1), Dot(X, Y, r, t, k - 1), Dot(X, Y, r, s, k - 1), x, At(Y', k - 1, t), a, b, c);
    }
  }

  /** The combined entry: Norm of a value congruent to dt + c*ds is dt + c*ds reduced stepwise. */
  lemma CombinedEntry(v: int, dt: int, ds: int, c: int)
    requires Congruent(v, dt + c * ds)
    ensures Norm(v) == Add(Norm(dt), Mul(Norm(ds), c))
  {
    NormMulLeft(ds, c);
    NormAddLeft(dt, Norm(ds * c));
    NormAddRight(dt, ds * c);
    assert ds * c == c * ds;
  }

  lemma ProductRowCombinedEntry(X: Matrix, Y: Matrix, t: nat, s: nat, c: int, i: nat, j: nat)
    requires Wf(X) && Wf(Y) && X.m == Y.n && t < X.n && s < X.n && i < X.n && j < Y.m
    ensures Product(RowCombined(X, t, s, c), Y).e[i][j] == RowCombined(Product(X, Y), t, s, c).e[i][j]
  {
    var X' := RowCombined(X, t, s, c);
    var PXY := Product(X, Y);
    if i == t {
      DotRowCombined(X, Y, t, s, c, j, X.m);
      CombinedEntry(Dot(X', Y, t, j, X.m), Dot(X, Y, t, j, X.m), Dot(X, Y, s, j, X.m), c);
      assert RowCombined(PXY, t, s, c).e[t][j] == Add(PXY.e[t][j], Mul(PXY.e[s][j], c));
    } else {
      DotRowsMatch(X', X, Y, i, i, j, X.m);
      assert RowCombined(PXY, t, s, c).e[i][j] == PXY.e[i][j];
    }
  }

  lemma ProductRowCombined(X: Matrix, Y: Matrix, t: nat, s: nat, c: int)
    requires Wf(X) && Wf(Y) && X.m == Y.n && t < X.n && s < X.n
    ensures Product(RowCombined(X, t, s, c), Y) == RowCombined(Product(X, Y), t, s, c)
  {
    var L, R := Product(RowCombined(X, t, s, c), Y), RowCombined(Product(X, Y), t, s, c);
    forall i, j | 0 <= i < L.n && 0 <= j < L.m
      ensures L.e[i][j] == R.e[i][j]
    {
      ProductRowCombinedEntry(X, Y, t, s, c, i, j);
    }
    MatrixEq(L, R);
  }

  lemma ProductColCombinedEntry(X: Matrix, Y: Matrix, t: nat, s: nat, c: int, i: nat, j: nat)
    requires Wf(X) && Wf(Y) && X.m == Y.n && t < Y.m && s < Y.m && i < X.n && j < Y.m
    ensures Product(X, ColCombined(Y, t, s, c)).e[i][j] == ColCombined(Product(X, Y), t, s, c).e[i][j]
  {
    var Y' := ColCombined(Y, t, s, c);
    var PXY := Product(X, Y);
    if j == t {
      DotColCombined(X, Y, t, s, c, i, Y.n);
      CombinedEntry(Dot(X, Y', i, t, X.m), Dot(X, Y, i, t, X.m), Dot(X, Y, i, s, X.m), c);
      assert ColCombined(PXY, t, s, c).e[i][t] == Add(PXY.e[i][t], Mul(PXY.e[i][s], c));
    } else {
      DotColsMatch(X, Y', Y, i, j, j, X.m);
      assert ColCombined(PXY, t, s, c).e[i][j] == PXY.e[i][j];
    }
  }

  lemma ProductColCombined(X: Matrix, Y: Matrix, t: nat, s: nat, c: int)
    requires Wf(X) && Wf(Y) && X.m == Y.n && t < Y.m && s < Y.m
    ensures Product(X, ColCombined(Y, t, s, c)) == ColCombined(Product(X, Y), t, s, c)
  {
    var L, R := Product(X, ColCombined(Y, t, s, c)), ColCombined(Product(X, Y), t, s, c);
    forall i, j | 0 <= i < L.n && 0 <= j < L.m
      ensures L.e[i][j] == R.e[i][j]
    {
      ProductColCombinedEntry(X, Y, t, s, c, i, j);
    }
    MatrixEq(L, R);
  }

  lemma ProductRowSwapped(X: Matrix, Y: Matrix, a: nat, b: nat)
    requires Wf(X) && Wf(Y) && X.m == Y.n && a < X.n && b < X.n
    ensures Product(RowSwapped(X, a, b), Y) == RowSwapped(Product(X, Y), a, b)
  {
    var X' := RowSwapped(X, a, b);
    var L, R := Product(X', Y), RowSwapped(Product(X, Y), a, b);
    forall i, j | 0 <= i < L.n && 0 <= j < L.m
      ensures L.e[i][j] == R.e[i][j]
    {
      var src := if i == b then a else if i == a then b else i;
      DotRowsMatch(X', X, Y, i, src, j, X.m);
    }
    MatrixEq(L, R);
  }

  lemma ProductColSwapped(X: Matrix, Y: Matrix, a: nat, b: nat)
    requires Wf(X) && Wf(Y) && X.m == Y.n && a < Y.m && b < Y.m
    ensures Product(X, ColSwapped(Y, a, b)) == ColSwapped(Product(X, Y), a, b)
  {
    var Y' := ColSwapped(Y, a, b);
    var L, R := Product(X, Y'), ColSwapped(Product(X, Y), a, b);
    forall i, j | 0 <= i < L.n && 0 <= j < L.m
      ensures L.e[i][j] == R.e[i][j]
    {
      var src := if j == b then a else if j == a then b else j;
      DotColsMatch(X, Y', Y, i, j, src, Y.n);
    }
    MatrixEq(L, R);
  }

  lemma DotIdentityLeft(A: Matrix, i: nat, j: nat, k: nat)
    requires Wf(A) && i < A.n && j < A.m && k <= A.n
    ensures Dot(Identity(A.n), A, i, j, k) == if i < k then A.e[i][j] else 0
  {
    if k > 0 {
      DotIdentityLeft(A, i, j, k - 1);
    }
  }

  lemma DotIdentityRight(A: Matrix, i: nat, j: nat, k: nat)
    requires Wf(A) && i < A.n && j < A.m && k <= A.m
    ensures Dot(A, Identity(A.m), i, j, k) == if j < k then A.e[i][j] else 0
  {
    if k > 0 {
      DotIdentityRight(A, i, j, k - 1);
    }
  }

  /** identity(n) is a left and a right unit of the product. */
  lemma ProductIdentity(A: Matrix)
    requires Wf(A)
    ensures Product(Identity(A.n), A) == A
    ensures Product(A, Identity(A.m)) == A
  {
    var L := Product(Identity(A.n), A);
    forall i, j | 0 <= i < A.n && 0 <= j < A.m
      ensures L.e[i][j] == A.e[i][j]
    {
      DotIdentityLeft(A, i, j, A.n);
    }
    MatrixEq(L, A);
    var R := Product(A, Identity(A.m));
    forall i, j | 0 <= i < A.n && 0 <= j < A.m
      ensures R.e[i][j] == A.e[i][j]
    {
      DotIdentityRight(A, i, j, A.m);
    }
    MatrixEq(R, A);
  }

  // Associativity. With K = X.m and L = Y.m, both sides of (XY)Z = X(YZ) are
  // congruent to the double sum of X[i][k] Y[k][l] Z[l][j].

  /** Sum over l < lm of (sum over k < km of X[i][k] Y[k][l]) * Z[l][j]. */
  function SumLeft(X: Matrix, Y: Matrix, Z: Matrix, i: int, j: int, km: nat, lm: nat): int
    decreases lm
  {
    if lm == 0 then 0 else SumLeft(X, Y, Z, i, j, km, lm - 1) + Dot(X, Y, i, lm - 1, km) * At(Z, lm - 1, j)
  }

  /** Sum over k < km of X[i][k] * (sum over l < lm of Y[k][l] Z[l][j]). */
  function SumRight(X: Matrix, Y: Matrix, Z: Matrix, i: int, j: int, km: nat, lm: nat): int
    decreases km
  {
    if km == 0 then 0 else SumRight(X, Y, Z, i, j, km - 1, lm) + At(X, i, km - 1) * Dot(Y, Z, km - 1, j, lm)
  }

  lemma SumLeftStep(X: Matrix, Y: Matrix, Z: Matrix, i: int, j: int, km: nat, lm: nat)
    ensures SumLeft(X, Y, Z, i, j, km + 1, lm)
         == SumLeft(X, Y, Z, i, j, km, lm) + At(X, i, km) * Dot(Y, Z, km, j, lm)
  {
    if lm > 0 {
      SumLeftStep(X, Y, Z, i, j, km, lm - 1);
      RingDistrib(Dot(X, Y, i, lm - 1, km), At(X, i, km), At(Y, km, lm - 1), At(Z, lm - 1, j), 0);
      assert (Dot(X, Y, i, lm - 1, km) + At(X, i, km) * At(Y, km, lm - 1)) * At(Z, lm - 1, j)
          == Dot(X, Y, i, lm - 1, km) * At(Z, lm - 1, j) + At(X, i, km) * (At(Y, km, lm - 1) * At(Z, lm - 1, j)) by {
        RingDistrib(Dot(X, Y, i, lm - 1, km), At(Y, km, lm - 1), At(X, i, km), At(Z, lm - 1, j), 0);
      }
      RingDistrib(0, 0, At(X, i, km), 0, 0);
      assert At(X, i, km) * Dot(Y, Z, km, j, lm - 1) + At(X, i, km) * (At(Y, km, lm - 1) * At(Z, lm - 1, j))
          == At(X, i, km) * Dot(Y, Z, km, j, lm) by {
        RingDistrib(0, At(Y, km, lm - 1), At(X, i, km), At(Z, lm - 1, j), Dot(Y, Z, km, j, lm - 1));
      }
    }
  }

  lemma SumLeftRight(X: Matrix, Y: Matrix, Z: Matrix, i: int, j: int, km: nat, lm: nat)
    ensures SumLeft(X, Y, Z, i, j, km, lm) == SumRight(X, Y, Z, i, j, km, lm)
    decreases km
  {
    if km == 0 {
      SumLeftZero(X, Y, Z, i, j, lm);
    } else {
      SumLeftStep(X, Y, Z, i, j, km - 1, lm);
      SumLeftRight(X, Y, Z, i, j, km - 1, lm);
    }
  }

  lemma SumLeftZero(X: Matrix, Y: Matrix, Z: Matrix, i: int, j: int, lm: nat)
    ensures SumLeft(X, Y, Z, i, j, 0, lm) == 0
  {
    if lm > 0 {
      SumLeftZero(X, Y, Z, i, j, lm - 1);
    }
  }

  lemma DotProductLeft(X: Matrix, Y: Matrix, Z: Matrix, i: nat, j: nat, lm: nat)
    requires Wf(X) && Wf(Y) && X.m == Y.n && i < X.n && lm <= Y.m
    ensures Congruent(Dot(Product(X, Y), Z, i, j, lm), SumLeft(X, Y, Z, i, j, X.m, lm))
  {
    if lm > 0 {
      DotProductLeft(X, Y, Z, i, j, lm - 1);
      var d := Dot(X, Y, i, lm - 1, X.m);
      assert At(Product(X, Y), i, lm - 1) == Norm(d);
      NormMulLeft(d, At(Z, lm - 1, j));
      CongruentAdd(Dot(Product(X, Y), Z, i, j, lm - 1), SumLeft(X, Y, Z, i, j, X.m, lm - 1),
                   Norm(d) * At(Z, lm - 1, j), d * At(Z, lm - 1, j));
    }
  }

  lemma DotProductRight(X: Matrix, Y: Matrix, Z: Matrix, i: nat, j: nat, km: nat)
    requires Wf(Y) && Wf(Z) && Y.m == Z.n && j < Z.m && km <= Y.n
    ensures Congruent(Dot(X, Product(Y, Z), i, j, km), SumRight(X, Y, Z, i, j, km, Y.m))
  {
    if km > 0 {
      DotProductRight(X, Y, Z, i, j, km - 1);
      var d := Dot(Y, Z, km - 1, j, Y.m);
      assert At(Product(Y, Z), km - 1, j) == Norm(d);
      NormMulRight(At(X, i, km - 1), d);
      CongruentAdd(Dot(X, Product(Y, Z), i, j, km - 1), SumRight(X, Y, Z, i, j, km - 1, Y.m),
                   At(X, i, km - 1) * Norm(d), At(X, i, km - 1) * d);
    }
  }

  lemma ProductAssoc(X: Matrix, Y: Matrix, Z: Matrix)
    requires Wf(X) && Wf(Y) && Wf(Z) && X.m == Y.n && Y.m == Z.n
    ensures Product(Product(X, Y), Z) == Product(X, Product(Y, Z))
  {
    var L, R := Product(Product(X, Y), Z), Product(X, Product(Y, Z));
    forall i, j | 0 <= i < L.n && 0 <= j < L.m
      ensures L.e[i][j] == R.e[i][j]
    {
      DotProductLeft(X, Y, Z, i, j, Y.m);
      DotProductRight(X, Y, Z, i, j, X.m);
      SumLeftRight(X, Y, Z, i, j, X.m, Y.m);
    }
    MatrixEq(L, R);
  }
  // ---------------------------------------------------------------------
  // Elementary operations undone, and carried across a product

  lemma RingCollect(x: int, y: int, c: int, d: int)
    ensures x + y * c + y * d == x + y * (c + d)
    ensures y * 0 == 0
  {
  }

  lemma CancelCoefficient(x: int, y: int, c: int, d: int)
    requires IsElem(x) && Norm(c + d) == 0
    ensures Add(Add(x, Mul(y, c)), Mul(y, d)) == x
  {
    var inner := Norm(x + Norm(y * c));
    CongruentAdd(x, x, Norm(y * c), y * c);
    CongruentAdd(inner, x + y * c, Norm(y * d), y * d);
    RingCollect(x, y, c, d);
    CongruentMulBoth(y, y, c + d, 0);
    CongruentAdd(x, x, y * (c + d), 0);
  }

  /** Combining with c and then with d undoes the first when c + d = 0 in Z_P. */
  lemma RowCombinedInverse(X: Matrix, t: nat, s: nat, c: int, d: int)
    requires Wf(X) && t < X.n && s < X.n && t != s && Norm(c + d) == 0
    ensures RowCombined(RowCombined(X, t, s, c), t, s, d) == X
  {
    var Y := RowCombined(RowCombined(X, t, s, c), t, s, d);
    forall i, j | 0 <= i < X.n && 0 <= j < X.m
      ensures Y.e[i][j] == X.e[i][j]
    {
      if i == t {
        CancelCoefficient(X.e[t][j], X.e[s][j], c, d);
      }
    }
    MatrixEq(Y, X);
  }

  lemma ColCombinedInverse(X: Matrix, t: nat, s: nat, c: int, d: int)
    requires Wf(X) && t < X.m && s < X.m && t != s && Norm(c + d) == 0
    ensures ColCombined(ColCombined(X, t, s, c), t, s, d) == X
  {
    var Y := ColCombined(ColCombined(X, t, s, c), t, s, d);
    forall i, j | 0 <= i < X.n && 0 <= j < X.m
      ensures Y.e[i][j] == X.e[i][j]
    {
      if j == t {
        CancelCoefficient(X.e[i][t], X.e[i][s], c, d);
      }
    }
    MatrixEq(Y, X);
  }

  /** Swapping the same two rows (columns) twice restores the matrix. */
  lemma SwapTwice(X: Matrix, a: nat, b: nat)
    requires Wf(X)
    ensures a < X.n && b < X.n ==> RowSwapped(RowSwapped(X, a, b), a, b) == X
    ensures a < X.m && b < X.m ==> ColSwapped(ColSwapped(X, a, b), a, b) == X
  {
    if a < X.m && b < X.m {
      var Y := ColSwapped(ColSwapped(X, a, b), a, b);
      forall i, j | 0 <= i < X.n && 0 <= j < X.m
        ensures Y.e[i][j] == X.e[i][j]
      {
      }
      MatrixEq(Y, X);
    }
  }

  /** The elementary matrix I + d * e_t * e_s^T, built by a column or by a row operation. */
  lemma ElementaryCombine(n: nat, t: nat, s: nat, d: int)
    requires t < n && s < n && t != s && IsElem(d)
    ensures ColCombined(Identity(n), s, t, d) == RowCombined(Identity(n), t, s, d)
  {
    var I := Identity(n);
    var L, R := ColCombined(I, s, t, d), RowCombined(I, t, s, d);
    forall i, j | 0 <= i < n && 0 <= j < n
      ensures L.e[i][j] == R.e[i][j]
    {
    }
    MatrixEq(L, R);
  }

  lemma ElementarySwap(n: nat, a: nat, b: nat)
    requires a < n && b < n
    ensures ColSwapped(Identity(n), a, b) == RowSwapped(Identity(n), a, b)
  {
    var I := Identity(n);
    var L, R := ColSwapped(I, a, b), RowSwapped(I, a, b);
    forall i, j | 0 <= i < n && 0 <= j < n
      ensures L.e[i][j] == R.e[i][j]
    {
    }
    MatrixEq(L, R);
  }

  /** A column operation on the left factor is the matching row operation on the right one. */
  lemma TransferCombine(X: Matrix, Y: Matrix, t: nat, s: nat, c: int)
    requires Wf(X) && Wf(Y) && X.m == Y.n && t < X.m && s < X.m && t != s && IsElem(c)
    ensures Product(ColCombined(X, s, t, c), Y) == Product(X, RowCombined(Y, t, s, c))
  {
    var I := Identity(X.m);
    ProductIdentity(X);
    ProductIdentity(Y);
    ProductColCombined(X, I, s, t, c);
    ElementaryCombine(X.m, t, s, c);
    ProductAssoc(X, RowCombined(I, t, s, c), Y);
    ProductRowCombined(I, Y, t, s, c);
  }

  lemma TransferSwap(X: Matrix, Y: Matrix, a: nat, b: nat)
    requires Wf(X) && Wf(Y) && X.m == Y.n && a < X.m && b < X.m
    ensures Product(ColSwapped(X, a, b), Y) == Product(X, RowSwapped(Y, a, b))
  {
    var I := Identity(X.m);
    ProductIdentity(X);
    ProductIdentity(Y);
    ProductColSwapped(X, I, a, b);
    ElementarySwap(X.m, a, b);
    ProductAssoc(X, RowSwapped(I, a, b), Y);
    ProductRowSwapped(I, Y, a, b);
  }

  ghost predicate InversePair(E: Matrix, F: Matrix, n: nat) {
    && Wf(E) && Wf(F) && E.n == n && E.m == n && F.n == n && F.m == n
    && IsProduct(Identity(n), E, F) && IsProduct(Identity(n), F, E)
  }

  /** M is the product X * Y. The product is named under a trigger on `Product(X, _)`,
      so that its definition is opened only where a proof mentions a product of X. */
  ghost predicate IsProduct(M: Matrix, X: Matrix, Y: Matrix) {
    X.m == Y.n && forall Z {:trigger Product(X, Z)} | Z == Y :: M == Product(X, Z)
  }

  /** Reading the product back out of `IsProduct`. */
  lemma ProductIs(M: Matrix, X: Matrix, Y: Matrix)
    requires IsProduct(M, X, Y)
    ensures X.m == Y.n && M == Product(X, Y)
  {
  }

  /** Swapping rows a, b of E and columns a, b of its inverse keeps them inverse. */
  lemma SwapStep(E: Matrix, F: Matrix, n: nat, a: nat, b: nat)
    requires InversePair(E, F, n) && a < n && b < n
    ensures InversePair(RowSwapped(E, a, b), ColSwapped(F, a, b), n)
  {
    var I := Identity(n);
    ProductRowSwapped(E, ColSwapped(F, a, b), a, b);
    ProductColSwapped(E, F, a, b);
    ElementarySwap(n, a, b);
    SwapTwice(I, a, b);
    TransferSwap(F, RowSwapped(E, a, b), a, b);
    SwapTwice(E, a, b);
  }

  /** Row t of E plus c * row s, with column s of its inverse plus d * column t,
      is again an inverse pair when c + d = 0 in Z_P. */
  lemma CombineStep(E: Matrix, F: Matrix, n: nat, t: nat, s: nat, c: int, d: int)
    requires InversePair(E, F, n) && t < n && s < n && t != s
    requires IsElem(c) && IsElem(d) && Norm(c + d) == 0
    ensures InversePair(RowCombined(E, t, s, c), ColCombined(F, s, t, d), n)
  {
    var I := Identity(n);
    var E', F' := RowCombined(E, t, s, c), ColCombined(F, s, t, d);
    ProductRowCombined(E, F', t, s, c);
    ProductColCombined(E, F, s, t, d);
    ElementaryCombine(n, t, s, d);
    assert Norm(d + c) == 0 by { assert d + c == c + d; }
    RowCombinedInverse(I, t, s, d, c);
    TransferCombine(F, E', t, s, d);
    RowCombinedInverse(E, t, s, c, d);
  }

  /** Inserting an inverse pair between two factors leaves their product unchanged. */
  lemma ProductThroughInverse(X: Matrix, F: Matrix, E: Matrix, Y: Matrix, n: nat)
    requires Wf(X) && Wf(Y) && InversePair(E, F, n) && X.m == n && Y.n == n
    ensures Product(Product(X, F), Product(E, Y)) == Product(X, Y)
  {
    ProductAssoc(X, F, Product(E, Y));
    ProductAssoc(F, E, Y);
    ProductIdentity(Y);
  }

  /** M agrees with the n x n identity outside the block of rows and columns
      s..n-1: the change of basis of a reduction that only touches rows (or
      columns) from s on. */
  ghost predicate IdentityOutside(M: Matrix, s: nat, n: nat) {
    && Wf(M) && M.n == n && M.m == n
    && forall i, j | 0 <= i < n && 0 <= j < n && (i < s || j < s) :: M.e[i][j] == (if i == j then 1 else 0)
  }

  lemma IdentityOutsideColSwapped(M: Matrix, s: nat, n: nat, a: nat, b: nat)
    requires IdentityOutside(M, s, n) && s <= a < n && s <= b < n
    ensures IdentityOutside(ColSwapped(M, a, b), s, n)
  {
    var r := ColSwapped(M, a, b);
    forall i, j | 0 <= i < n && 0 <= j < n && (i < s || j < s)
      ensures r.e[i][j] == (if i == j then 1 else 0)
    {
      assert r.e[i] == M.e[i][a := M.e[i][b]][b := M.e[i][a]];
    }
  }

  lemma IdentityOutsideColCombined(M: Matrix, s: nat, n: nat, t: nat, u: nat, c: int)
    requires IdentityOutside(M, s, n) && s <= t < n && s <= u < n
    ensures IdentityOutside(ColCombined(M, t, u, c), s, n)
  {
    var r := ColCombined(M, t, u, c);
    forall i, j | 0 <= i < n && 0 <= j < n && (i < s || j < s)
      ensures r.e[i][j] == (if i == j then 1 else 0)
    {
      assert r.e[i] == M.e[i][t := Add(M.e[i][t], Mul(M.e[i][u], c))];
    }
  }

  /** Row i of A times M, summed over the first k terms, when A is zero from
      column s on and M is the identity outside the block from s. */
  lemma {:induction false} DotIdentityOutside(A: Matrix, M: Matrix, s: nat, n: nat, i: nat, c: nat, k: nat)
    requires Wf(A) && A.m == n && IdentityOutside(M, s, n) && i < A.n && c < n && k <= n
    requires forall j | s <= j < n :: A.e[i][j] == 0
    ensures Dot(A, M, i, c, k) == if c < k then A.e[i][c] else 0
    decreases k
  {
    if k > 0 {
      DotIdentityOutside(A, M, s, n, i, c, k - 1);
      if k - 1 < s {
        assert M.e[k - 1][c] == (if k - 1 == c then 1 else 0);
      } else {
        assert A.e[i][k - 1] == 0;
      }
    }
  }

  lemma {:induction false} DotZeroColumn(X: Matrix, Y: Matrix, i: nat, j: nat, k: nat)
    requires Wf(Y) && j < Y.m && k <= Y.n
    requires forall t | 0 <= t < Y.n :: Y.e[t][j] == 0
    ensures Dot(X, Y, i, j, k) == 0
  {
    if k > 0 {
      DotZeroColumn(X, Y, i, j, k - 1);
      assert At(Y, k - 1, j) == 0;
    }
  }

  /** Columns that are zero in Y are zero in X * Y. */
  lemma ProductZeroColumns(X: Matrix, Y: Matrix, c: nat)
    requires Wf(X) && Wf(Y) && X.m == Y.n
    requires forall t, j | 0 <= t < Y.n && c <= j < Y.m :: Y.e[t][j] == 0
    ensures forall i, j | 0 <= i < X.n && c <= j < Y.m :: Product(X, Y).e[i][j] == 0
  {
    forall i, j | 0 <= i < X.n && c <= j < Y.m
      ensures Product(X, Y).e[i][j] == 0
    {
      DotZeroColumn(X, Y, i, j, X.m);
    }
  }

  /** A matrix whose columns from s on are zero is unchanged by a change of
      basis that is the identity outside the block from s. */
  lemma ProductIdentityOutside(A: Matrix, M: Matrix, s: nat, n: nat)
    requires Wf(A) && A.m == n && IdentityOutside(M, s, n)
    requires forall i, j | 0 <= i < A.n && s <= j < n :: A.e[i][j] == 0
    ensures Product(A, M) == A
  {
    var r := Product(A, M);
    forall i, c | 0 <= i < A.n && 0 <= c < n
      ensures r.e[i][c] == A.e[i][c]
    {
      DotIdentityOutside(A, M, s, n, i, c, n);
    }
    MatrixEq(r, A);
  }

  // ---------------------------------------------------------------------
  // Transposition

  lemma TransposeTwice(A: Matrix)
    requires Wf(A)
    ensures Transpose(Transpose(A)) == A
  {
    var T := Transpose(Transpose(A));
    forall i, j | 0 <= i < A.n && 0 <= j < A.m
      ensures T.e[i][j] == A.e[i][j]
    {
    }
    MatrixEq(T, A);
  }

  lemma TransposeColCombined(A: Matrix, t: nat, s: nat, c: int)
    requires Wf(A) && t < A.m && s < A.m
    ensures Transpose(ColCombined(A, t, s, c)) == RowCombined(Transpose(A), t, s, c)
  {
    var L, R := Transpose(ColCombined(A, t, s, c)), RowCombined(Transpose(A), t, s, c);
    forall i, j | 0 <= i < A.m && 0 <= j < A.n
      ensures L.e[i][j] == R.e[i][j]
    {
    }
    MatrixEq(L, R);
  }

  lemma TransposeColSwapped(A: Matrix, a: nat, b: nat)
    requires Wf(A) && a < A.m && b < A.m
    ensures Transpose(ColSwapped(A, a, b)) == RowSwapped(Transpose(A), a, b)
  {
    var L, R := Transpose(ColSwapped(A, a, b)), RowSwapped(Transpose(A), a, b);
    forall i, j | 0 <= i < A.m && 0 <= j < A.n
      ensures L.e[i][j] == R.e[i][j]
    {
    }
    MatrixEq(L, R);
  }
}
