/** The in-place matrix class: a dense n x m array of Z_P entries whose
    mutators loop over one row or column, each proved to leave the matrix
    equal to the corresponding value-level operation of `Matrices`. */
module SMatrices {
  import opened Field
  import opened Matrices

  class SMatrix {
    var n: nat
    var m: nat
    var e: seq<seq<int>>

    /** The current contents as a matrix value. */
    function Value(): Matrix
      reads this
    {
      Matrix(n, m, e)
    }

    ghost predicate Valid()
      reads this
    {
      Wf(Value())
    }

    /** `SMatrix(n, m)`: an n x m matrix of zeros (0 x 0 is the null matrix). */
    constructor (rows: nat, cols: nat)
      ensures Valid() && Value() == Zeros(rows, cols)
    {
      n, m := rows, cols;
      e := Zeros(rows, cols).e;
    }

    /** `identity(k)`: inserts 1 on the diagonal of a fresh k x k zero matrix. */
    static method MakeIdentity(k: nat) returns (id: SMatrix)
      ensures fresh(id) && id.Valid() && id.Value() == Identity(k)
    {
      id := new SMatrix(k, k);
      var i := 0;
      while i < k
        invariant 0 <= i <= k
        invariant id.Valid() && id.n == k && id.m == k
        invariant forall a, b | 0 <= a < k && 0 <= b < k :: id.e[a][b] == if a == b && a < i then 1 else 0
      {
        id.Insert(i, i, 1);
        i := i + 1;
      }
      MatrixEq(id.Value(), Identity(k));
    }

    /** `zeroMatrix()`: the null matrix. */
    static method ZeroMatrix() returns (z: SMatrix)
      ensures fresh(z) && z.Valid() && z.Value() == Null()
    {
      z := new SMatrix(0, 0);
      assert z.e == [];
    }

    /** `mul`: a fresh matrix holding the null-propagating product. */
    static method MulNew(lhs: SMatrix, rhs: SMatrix) returns (r: SMatrix)
      requires lhs.Valid() && rhs.Valid()
      requires lhs.IsNull() || rhs.IsNull() || lhs.m == rhs.n
      ensures fresh(r) && r.Valid() && r.Value() == MatMul(lhs.Value(), rhs.Value())
    {
      var v := MatMul(lhs.Value(), rhs.Value());
      r := new SMatrix(0, 0);
      r.n, r.m, r.e := v.n, v.m, v.e;
    }

    /** Copy assignment: the matrix takes the contents v. */
    method SetValue(v: Matrix)
      requires Wf(v)
      modifies this
      ensures Valid() && Value() == v
    {
      n, m, e := v.n, v.m, v.e;
    }

    predicate IsNull()
      reads this
    {
      n == 0 && m == 0
    }

    function Get(i: nat, j: nat): int
      requires Valid() && i < n && j < m
      reads this
    {
      e[i][j]
    }

    /** `insert`: entry (i, j) becomes v, reduced into Z_P. */
    method Insert(i: nat, j: nat, v: int)
      requires Valid() && i < n && j < m
      modifies this
      ensures Valid() && Value() == Matrices.Insert(old(Value()), i, j, v)
    {
      e := e[i := e[i][j := Norm(v)]];
    }

    /** `add`: entry (i, j) is increased by v. */
    method AddAt(i: nat, j: nat, v: int)
      requires Valid() && i < n && j < m
      modifies this
      ensures Valid() && Value() == Matrices.Insert(old(Value()), i, j, old(e[i][j]) + v)
    {
      e := e[i := e[i][j := Norm(e[i][j] + v)]];
    }

    /** `sub`: entry (i, j) is decreased by v. */
    method SubAt(i: nat, j: nat, v: int)
      requires Valid() && i < n && j < m
      modifies this
      ensures Valid() && Value() == Matrices.Insert(old(Value()), i, j, old(e[i][j]) - v)
    {
      e := e[i := e[i][j := Norm(e[i][j] - v)]];
    }

    method ScaleRow(row: nat, c: int)
      requires Valid() && row < n
      modifies this
      ensures Valid() && Value() == RowScaled(old(Value()), row, c)
    {
      var j := 0;
      while j < m
        invariant 0 <= j <= m && n == old(n) && m == old(m) && |e| == n
        invariant forall r | 0 <= r < n && r != row :: e[r] == old(e)[r]
        invariant |e[row]| == m
        invariant forall k | 0 <= k < m :: e[row][k] == if k < j then Field.Mul(old(e)[row][k], c) else old(e)[row][k]
      {
        e := e[row := e[row][j := Field.Mul(e[row][j], c)]];
        j := j + 1;
      }
      MatrixEq(Value(), RowScaled(old(Value()), row, c));
    }

    method ScaleCol(col: nat, c: int)
      requires Valid() && col < m
      modifies this
      ensures Valid() && Value() == ColScaled(old(Value()), col, c)
    {
      var i := 0;
      while i < n
        invariant 0 <= i <= n && n == old(n) && m == old(m) && |e| == n
        invariant forall r | 0 <= r < n :: |e[r]| == m
        invariant forall r, k | 0 <= r < n && 0 <= k < m ::
          e[r][k] == if r < i && k == col then Field.Mul(old(e)[r][k], c) else old(e)[r][k]
      {
        e := e[i := e[i][col := Field.Mul(e[i][col], c)]];
        i := i + 1;
      }
      MatrixEq(Value(), ColScaled(old(Value()), col, c));
    }

    method ColSwap(col1: nat, col2: nat)
      requires Valid() && col1 < m && col2 < m
      modifies this
      ensures Valid() && Value() == ColSwapped(old(Value()), col1, col2)
    {
      var i := 0;
      while i < n
        invariant 0 <= i <= n && n == old(n) && m == old(m) && |e| == n
        invariant forall r | 0 <= r < n :: |e[r]| == m
        invariant forall r | 0 <= r < n :: e[r] == if r < i then old(e)[r][col1 := old(e)[r][col2]][col2 := old(e)[r][col1]] else old(e)[r]
      {
        var aux := e[i][col1];
        e := e[i := e[i][col1 := e[i][col2]]];
        e := e[i := e[i][col2 := aux]];
        i := i + 1;
      }
      MatrixEq(Value(), ColSwapped(old(Value()), col1, col2));
    }

    method RowSwap(row1: nat, row2: nat)
      requires Valid() && row1 < n && row2 < n
      modifies this
      ensures Valid() && Value() == RowSwapped(old(Value()), row1, row2)
    {
      var j := 0;
      while j < m
        invariant 0 <= j <= m && n == old(n) && m == old(m) && |e| == n
        invariant forall r | 0 <= r < n :: |e[r]| == m
        invariant forall r | 0 <= r < n && r != row1 && r != row2 :: e[r] == old(e)[r]
        invariant forall k | 0 <= k < m ::
          && e[row1][k] == (if k < j then old(e)[row2][k] else old(e)[row1][k])
          && e[row2][k] == (if k < j then old(e)[row1][k] else old(e)[row2][k])
      {
        var aux := e[row1][j];
        e := e[row1 := e[row1][j := e[row2][j]]];
        e := e[row2 := e[row2][j := aux]];
        j := j + 1;
      }
      MatrixEq(Value(), RowSwapped(old(Value()), row1, row2));
    }

    /** `colCombine`: column addTo becomes column addTo + c * column scaleCol. */
    method ColCombine(addTo: nat, scaleCol: nat, c: int)
      requires Valid() && addTo < m && scaleCol < m
      modifies this
      ensures Valid() && Value() == ColCombined(old(Value()), addTo, scaleCol, c)
    {
      var i := 0;
      while i < n
        invariant 0 <= i <= n && n == old(n) && m == old(m) && |e| == n
        invariant forall r | 0 <= r < n :: |e[r]| == m
        invariant forall r | 0 <= r < n ::
          e[r] == if r < i then old(e)[r][addTo := Field.Add(old(e)[r][addTo], Field.Mul(old(e)[r][scaleCol], c))] else old(e)[r]
      {
        e := e[i := e[i][addTo := Field.Add(e[i][addTo], Field.Mul(e[i][scaleCol], c))]];
        i := i + 1;
      }
      MatrixEq(Value(), ColCombined(old(Value()), addTo, scaleCol, c));
    }

    /** `rowCombine`: row addTo becomes row addTo + c * row scaleRow. */
    method RowCombine(addTo: nat, scaleRow: nat, c: int)
      requires Valid() && addTo < n && scaleRow < n
      modifies this
      ensures Valid() && Value() == RowCombined(old(Value()), addTo, scaleRow, c)
    {
      var j := 0;
      while j < m
        invariant 0 <= j <= m && n == old(n) && m == old(m) && |e| == n
        invariant forall r | 0 <= r < n :: |e[r]| == m
        invariant forall r | 0 <= r < n && r != addTo :: e[r] == old(e)[r]
        invariant forall k | 0 <= k < m ::
          e[addTo][k] == if k < j then Field.Add(old(e)[addTo][k], Field.Mul(old(e)[scaleRow][k], c)) else old(e)[addTo][k]
      {
        e := e[addTo := e[addTo][j := Field.Add(e[addTo][j], Field.Mul(e[scaleRow][j], c))]];
        j := j + 1;
      }
      MatrixEq(Value(), RowCombined(old(Value()), addTo, scaleRow, c));
    }

    /** `rightMulIn`: this := mul(this, rhs). */
    method RightMulIn(rhs: SMatrix)
      requires Valid() && rhs.Valid()
      requires IsNull() || rhs.IsNull() || m == rhs.n
      modifies this
      ensures Valid() && Value() == MatMul(old(Value()), old(rhs.Value()))
    {
      var v := MatMul(Value(), rhs.Value());
      n, m, e := v.n, v.m, v.e;
    }

    /** `leftMulIn`: this := mul(lhs, this). */
    method LeftMulIn(lhs: SMatrix)
      requires Valid() && lhs.Valid()
      requires IsNull() || lhs.IsNull() || lhs.m == n
      modifies this
      ensures Valid() && Value() == MatMul(old(lhs.Value()), old(Value()))
    {
      var v := MatMul(lhs.Value(), Value());
      n, m, e := v.n, v.m, v.e;
    }
  }
}
