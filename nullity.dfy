/** The tables of Algorithm 2 (`computeBarcode`) for one homology dimension:
    the triangular table of nullities of composed induced maps, its two
    correction passes, and the bars the corrected table adds to a barcode.
    Entries are size_t words, so every subtraction wraps modulo 2^64. */
module NullityTables {
  import opened Words
  import opened Matrices
  import opened Echelon
  import opened Barcodes

  /** The vector of vectors `D`: row i is meant to hold entries 0 .. i. */
  type Table = seq<seq<u64>>

  predicate Triangular(D: Table) {
    forall i | 0 <= i < |D| :: |D[i]| == i + 1
  }

  // ---------------------------------------------------------------------
  // Composed induced maps and the raw table

  /** Each map is well formed and `leftMulIn` accepts every consecutive pair. */
  predicate Composable(ms: seq<Matrix>) {
    && (forall k | 0 <= k < |ms| :: Wf(ms[k]))
    && (forall k | 0 <= k < |ms| - 1 :: IsNull(ms[k]) || IsNull(ms[k + 1]) || ms[k].m == ms[k + 1].n)
  }

  /** induced(j) * ... * induced(i), built by successive left multiplications,
      so null as soon as one factor is. */
  function Chain(ms: seq<Matrix>, j: nat, i: nat): (r: Matrix)
    requires Composable(ms) && j <= i < |ms|
    ensures Wf(r)
    ensures !IsNull(r) ==> !IsNull(ms[j]) && r.n == ms[j].n
    decreases i - j
  {
    if j == i then ms[i] else MatMul(ms[j], Chain(ms, j + 1, i))
  }

  /** Entry (i, j), j <= i, of the raw table: the nullity of induced(i) on the
      diagonal; left of it, the nullity of the chain from j to i, or a copy of
      the entry to its right once that chain is null. */
  function RawEntry(ms: seq<Matrix>, i: nat, j: nat): nat
    requires Composable(ms) && j <= i < |ms|
    decreases i - j
  {
    if j == i then Nullity(ms[i])
    else if IsNull(Chain(ms, j, i)) then RawEntry(ms, i, j + 1)
    else Nullity(Chain(ms, j, i))
  }

  /** The raw table, each nullity stored into a size_t. */
  function RawTable(ms: seq<Matrix>): (D: Table)
    requires Composable(ms)
    ensures |D| == |ms| && Triangular(D)
  {
    seq(|ms|, i requires 0 <= i < |ms| =>
      seq(i + 1, j requires 0 <= j <= i => FromNat(RawEntry(ms, i, j))))
  }

  /** Once the chain from j to i is null, it stays null when extended on the
      left, and every entry of row i from j leftwards repeats entry (i, j + 1):
      the copy in the source loses nothing. */
  lemma {:induction false} NullChainCopies(ms: seq<Matrix>, i: nat, j: nat, k: nat)
    requires Composable(ms) && k <= j < i < |ms| && IsNull(Chain(ms, j, i))
    ensures IsNull(Chain(ms, k, i))
    ensures RawEntry(ms, i, k) == RawEntry(ms, i, j + 1)
    decreases j - k
  {
    if k < j {
      NullChainCopies(ms, i, j, k + 1);
      assert Chain(ms, k, i) == MatMul(ms[k], Chain(ms, k + 1, i));
      assert IsNull(Chain(ms, k, i));
      assert RawEntry(ms, i, k) == RawEntry(ms, i, k + 1);
    } else {
      assert RawEntry(ms, i, j) == RawEntry(ms, i, j + 1);
    }
  }

  // ---------------------------------------------------------------------
  // The correction passes as closed forms

  /** A row after the first pass: each entry left of the diagonal less the
      entry to its right; the diagonal kept. */
  function CorrectedRow(row: seq<u64>): (r: seq<u64>)
    ensures |r| == |row|
  {
    seq(|row|, c requires 0 <= c < |row| => if c == |row| - 1 then row[c] else WrapSub(row[c], row[c + 1]))
  }

  /** The table after the first pass: row 0 kept, every later row corrected. */
  function Corrected(D: Table): (E: Table)
    ensures |E| == |D| && (Triangular(D) ==> Triangular(E))
  {
    seq(|D|, i requires 0 <= i < |D| => if i == 0 then D[0] else CorrectedRow(D[i]))
  }

  /** The table after the second pass: every row but the last less the row
      below it, entry by entry; the last row kept. */
  function Differenced(D: Table): (E: Table)
    requires Triangular(D)
    ensures |E| == |D| && Triangular(E)
    ensures |D| > 0 ==> E[|D| - 1] == D[|D| - 1]
  {
    seq(|D|, i requires 0 <= i < |D| =>
      if i == |D| - 1 then D[i] else seq(i + 1, j requires 0 <= j <= i => WrapSub(D[i][j], D[i + 1][j])))
  }

  /** The size_t sum of a sequence, from the front. */
  function WrapSum(s: seq<u64>): u64 {
    if s == [] then 0 else WrapAdd(s[0], WrapSum(s[1..]))
  }

  /** The first pass undone: summing a corrected row from entry c to the
      diagonal gives back entry c of the row. */
  lemma {:induction false} CorrectedRowSums(row: seq<u64>, c: nat)
    requires c < |row|
    ensures WrapSum(CorrectedRow(row)[c..]) == row[c]
    decreases |row| - c
  {
    var r := CorrectedRow(row);
    if c == |row| - 1 {
      assert r[c..][1..] == [];
      assert WrapAdd(row[c], 0) == row[c];
    } else {
      CorrectedRowSums(row, c + 1);
      assert r[c..][1..] == r[c + 1..];
      SubThenAdd(row[c], row[c + 1]);
    }
  }

  /** Column j of table E from row i down to the last row. */
  function ColumnFrom(E: Table, j: nat, i: nat): (s: seq<u64>)
    requires Triangular(E) && j <= i <= |E|
    ensures |s| == |E| - i
  {
    seq(|E| - i, k requires 0 <= k < |E| - i => E[i + k][j])
  }

  /** The second pass undone: summing column j of the differenced table from
      row i to the last row gives back entry (i, j). */
  lemma {:induction false} DifferencedColumnSums(D: Table, j: nat, i: nat)
    requires Triangular(D) && j <= i < |D|
    ensures WrapSum(ColumnFrom(Differenced(D), j, i)) == D[i][j]
    decreases |D| - i
  {
    var E := Differenced(D);
    ColumnFromHead(E, j, i);
    DifferencedAt(D, i, j);
    if i == |D| - 1 {
      assert ColumnFrom(E, j, i + 1) == [];
      assert WrapAdd(D[i][j], 0) == D[i][j];
    } else {
      DifferencedColumnSums(D, j, i + 1);
      SubThenAdd(D[i][j], D[i + 1][j]);
    }
  }

  lemma DifferencedAt(D: Table, i: nat, j: nat)
    requires Triangular(D) && j <= i < |D|
    ensures Differenced(D)[i][j] == if i == |D| - 1 then D[i][j] else WrapSub(D[i][j], D[i + 1][j])
  {
  }

  /** A column sum is its first entry plus the sum of the rest. */
  lemma ColumnFromHead(E: Table, j: nat, i: nat)
    requires Triangular(E) && j <= i < |E|
    ensures WrapSum(ColumnFrom(E, j, i)) == WrapAdd(E[i][j], WrapSum(ColumnFrom(E, j, i + 1)))
  {
    ColumnFromTail(E, j, i);
    assert ColumnFrom(E, j, i)[0] == E[i][j];
  }

  /** Column j from row i, less its first entry, is the column from row i + 1. */
  lemma ColumnFromTail(E: Table, j: nat, i: nat)
    requires Triangular(E) && j <= i < |E|
    ensures ColumnFrom(E, j, i)[1..] == ColumnFrom(E, j, i + 1)
  {
    var s, t := ColumnFrom(E, j, i), ColumnFrom(E, j, i + 1);
    forall k | 0 <= k < |t|
      ensures s[1..][k] == t[k]
    {
      assert s[k + 1] == E[i + 1 + k][j];
    }
  }

  /** Wrapping subtraction undone by addition. */
  lemma SubThenAdd(a: u64, b: u64)
    ensures WrapAdd(WrapSub(a, b), b) == a
  {
    if b > a {
      assert WrapSub(a, b) as int == a as int - b as int + TWO64;
    }
  }

  /** Subtracting c from both sides does not change a difference. */
  lemma SubCancel(a: u64, b: u64, c: u64)
    ensures WrapSub(WrapSub(a, c), WrapSub(b, c)) == WrapSub(a, b)
  {
    var x := WrapSub(a, c) as int;
    var y := WrapSub(b, c) as int;
    var q := (a as int - c as int) / TWO64;
    var q' := (b as int - c as int) / TWO64;
    assert x == a as int - c as int - q * TWO64;
    assert y == b as int - c as int - q' * TWO64;
    assert x - y == (a as int - b as int) - (q - q') * TWO64;
    ModOfMultiple(a as int - b as int, q - q');
  }

  /** A zero difference means equal words. */
  lemma SubZero(a: u64, b: u64)
    requires WrapSub(a, b) == 0
    ensures a == b
  {
  }

  // ---------------------------------------------------------------------
  // The passes as the source runs them

  /** The innermost loop of the first pass: entries 0 .. j - 1 lose entry j. */
  method SubtractAt(row: seq<u64>, j: nat) returns (r: seq<u64>)
    requires j < |row|
    ensures |r| == |row|
    ensures forall k | 0 <= k < |row| :: r[k] == if k < j then WrapSub(row[k], row[j]) else row[k]
  {
    r := row;
    var k := 0;
    while k < j
      invariant k <= j && |r| == |row|
      invariant forall c | 0 <= c < |row| :: r[c] == if c < k then WrapSub(row[c], row[j]) else row[c]
    {
      r := r[k := WrapSub(r[k], r[j])];
      k := k + 1;
    }
  }

  /** One row of the first pass: for j from the diagonal down to 1, a nonzero
      entry j is subtracted from every entry left of it. */
  method CorrectRow(row: seq<u64>) returns (r: seq<u64>)
    requires |row| >= 1
    ensures r == CorrectedRow(row)
  {
    r := row;
    var j := |row| - 1;
    while j > 0
      invariant 0 <= j < |row| && |r| == |row|
      invariant forall c | j < c < |row| :: r[c] == CorrectedRow(row)[c]
      invariant forall c | 0 <= c <= j :: r[c] == if j == |row| - 1 then row[c] else WrapSub(row[c], row[j + 1])
    {
      ghost var before := r;
      if r[j] > 0 {
        r := SubtractAt(r, j);
      }
      forall c | 0 <= c < j
        ensures r[c] == WrapSub(row[c], row[j])
      {
        if j < |row| - 1 {
          SubCancel(row[c], row[j], row[j + 1]);
          if before[j] == 0 {
            SubZero(row[j], row[j + 1]);
          }
        }
      }
      j := j - 1;
    }
  }

  /** The first correction pass (rows 1 .. n - 1). */
  method FirstPass(D: Table) returns (E: Table)
    requires Triangular(D)
    ensures E == Corrected(D)
  {
    E := D;
    var i := 1;
    while i < |D|
      invariant 1 <= i && (i <= |D| || |D| == 0) && |E| == |D|
      invariant forall r | 0 <= r < |D| :: E[r] == if r < i then Corrected(D)[r] else D[r]
    {
      var row := CorrectRow(E[i]);
      E := E[i := row];
      i := i + 1;
    }
  }

  /** The innermost loop of the second pass: rows j .. i - 1 of column j lose entry (i, j). */
  method SubtractColumn(E: Table, i: nat, j: nat) returns (F: Table)
    requires Triangular(E) && j < i < |E|
    ensures |F| == |E| && Triangular(F)
    ensures forall r, c | 0 <= c <= r < |E| :: F[r][c] == if c == j && r < i then WrapSub(E[r][c], E[i][j]) else E[r][c]
  {
    F := E;
    var k := j;
    while k < i
      invariant j <= k <= i && |F| == |E| && Triangular(F)
      invariant forall r, c | 0 <= c <= r < |E| :: F[r][c] == if c == j && r < k then WrapSub(E[r][c], E[i][j]) else E[r][c]
    {
      F := F[k := F[k][j := WrapSub(F[k][j], F[i][j])]];
      k := k + 1;
    }
  }

  /** Entry (r, c) of E less entry (i, c) when r is above row i, else entry (r, c). */
  function LessAbove(E: Table, i: nat, r: nat, c: nat): u64
    requires Triangular(E) && c <= r < |E| && i < |E|
  {
    if r < i && c <= i then WrapSub(E[r][c], E[i][c]) else E[r][c]
  }

  /** The middle loop of the second pass: every entry above row i loses the
      entry of row i in its column. */
  method SubtractRow(E: Table, i: nat) returns (F: Table)
    requires Triangular(E) && 0 < i < |E|
    ensures |F| == |E| && Triangular(F)
    ensures forall r, c | 0 <= c <= r < |E| :: F[r][c] == LessAbove(E, i, r, c)
  {
    F := E;
    var j := 0;
    while j < i
      invariant j <= i && |F| == |E| && Triangular(F)
      invariant forall r, c | 0 <= c <= r < |E| :: F[r][c] == if c < j then LessAbove(E, i, r, c) else E[r][c]
    {
      F := SubtractColumn(F, i, j);
      j := j + 1;
    }
  }

  /** Entry (r, c) of D less entry (b, c), or the entry itself when b is past the last row. */
  function LessRow(D: Table, r: nat, c: nat, b: nat): u64
    requires Triangular(D) && c <= r < |D| && r < b <= |D|
  {
    if b == |D| then D[r][c] else WrapSub(D[r][c], D[b][c])
  }

  /** The second correction pass (rows n - 1 down to 1). */
  method SecondPass(D: Table) returns (E: Table)
    requires Triangular(D)
    ensures E == Differenced(D)
  {
    E := D;
    var i: int := |D| - 1;
    while i > 0
      invariant -1 <= i < |D| && (|D| > 0 ==> 0 <= i)
      invariant |E| == |D| && Triangular(E)
      invariant forall r, c | 0 <= c <= r < |D| :: E[r][c] == LessRow(D, r, c, if r < i then i + 1 else r + 1)
    {
      ghost var before := E;
      E := SubtractRow(E, i);
      forall r, c | 0 <= c <= r < |D|
        ensures E[r][c] == LessRow(D, r, c, if r < i - 1 then i else r + 1)
      {
        if r < i {
          assert before[i][c] == LessRow(D, i, c, i + 1);
          if i < |D| - 1 {
            SubCancel(D[r][c], D[i][c], D[i + 1][c]);
          }
        }
      }
      i := i - 1;
    }
    TableEq(E, Differenced(D));
  }

  /** Triangular tables equal entry by entry are equal. */
  lemma TableEq(A: Table, B: Table)
    requires Triangular(A) && Triangular(B) && |A| == |B|
    requires forall r, c | 0 <= c <= r < |A| :: A[r][c] == B[r][c]
    ensures A == B
  {
    forall r | 0 <= r < |A|
      ensures A[r] == B[r]
    {
      assert forall c | 0 <= c < |A[r]| :: A[r][c] == B[r][c];
    }
  }

  // ---------------------------------------------------------------------
  // The output loop

  /** `add(dim, i, j, row[j])` for j = 0 .. c - 1, in order. */
  function AddRowUpTo(bars: seq<Bars>, dim: nat, i: nat, row: seq<u64>, c: nat): seq<Bars>
    requires c <= |row|
  {
    if c == 0 then bars else AddBars(AddRowUpTo(bars, dim, i, row, c - 1), dim, i, c - 1, row[c - 1])
  }

  /** Rows 0 .. t - 1 of the table added, row by row. */
  function AddTableUpTo(bars: seq<Bars>, dim: nat, D: Table, t: nat): seq<Bars>
    requires t <= |D|
  {
    if t == 0 then bars else AddRowUpTo(AddTableUpTo(bars, dim, D, t - 1), dim, t - 1, D[t - 1], |D[t - 1]|)
  }

  /** The last loop of `computeBarcode` for one row. */
  method AddRow(bcode: Barcode, dim: nat, i: nat, row: seq<u64>)
    modifies bcode
    ensures bcode.bars == AddRowUpTo(old(bcode.bars), dim, i, row, |row|)
  {
    var j := 0;
    while j < |row|
      invariant j <= |row|
      invariant bcode.bars == AddRowUpTo(old(bcode.bars), dim, i, row, j)
    {
      bcode.Add(dim, i, j, row[j]);
      j := j + 1;
    }
  }

  /** The last loop of `computeBarcode`: every entry of the table becomes a bar. */
  method AddTable(bcode: Barcode, dim: nat, D: Table)
    modifies bcode
    ensures bcode.bars == AddTableUpTo(old(bcode.bars), dim, D, |D|)
  {
    var i := 0;
    while i < |D|
      invariant i <= |D|
      invariant bcode.bars == AddTableUpTo(old(bcode.bars), dim, D, i)
    {
      AddRow(bcode, dim, i, D[i]);
      i := i + 1;
    }
  }

  /** Adding one row to a grown barcode whose map for dim has no bar (i, _):
      the bars (i, c') for c' below c appear with the row's entries, and
      nothing else changes. */
  lemma {:induction false} RowBars(bars: seq<Bars>, dim: nat, i: nat, row: seq<u64>, c: nat)
    requires dim < |bars| && c <= |row|
    requires forall b: nat :: (i, b) !in bars[dim]
    ensures var r := AddRowUpTo(bars, dim, i, row, c);
      && |r| == |bars|
      && (forall d | 0 <= d < |bars| && d != dim :: r[d] == bars[d])
      && (forall a: nat, b: nat :: (a, b) in r[dim] <==> (a, b) in bars[dim] || (a == i && b < c))
      && (forall a: nat, b: nat | (a, b) in r[dim] :: r[dim][(a, b)] == if a == i then row[b] else bars[dim][(a, b)])
    decreases c
  {
    if c > 0 {
      RowBars(bars, dim, i, row, c - 1);
      var p := AddRowUpTo(bars, dim, i, row, c - 1);
      assert (i, c - 1) !in p[dim];
      assert WrapAdd(Count(p[dim], i, c - 1), row[c - 1]) == row[c - 1];
      assert Grow(p, dim + 1) == p;
      var r := p[dim := p[dim][(i, c - 1) := row[c - 1]]];
      assert AddRowUpTo(bars, dim, i, row, c) == r;
      forall a: nat, b: nat
        ensures (a, b) in r[dim] <==> (a, b) in bars[dim] || (a == i && b < c)
      {
        if (a, b) != (i, c - 1) {
          assert (a, b) in r[dim] <==> (a, b) in p[dim];
        }
      }
    }
  }

  /** Adding a value to a grown list or to the original list is the same. */
  lemma GrowFirst(bars: seq<Bars>, dim: nat, i: nat, j: nat, k: u64)
    ensures AddBars(bars, dim, i, j, k) == AddBars(Grow(bars, dim + 1), dim, i, j, k)
  {
    assert Grow(Grow(bars, dim + 1), dim + 1) == Grow(bars, dim + 1);
  }

  /** Adding a nonempty row to a list or to the list grown to dim + 1 is the same. */
  lemma {:induction false} RowGrowFirst(bars: seq<Bars>, dim: nat, i: nat, row: seq<u64>, c: nat)
    requires 1 <= c <= |row|
    ensures AddRowUpTo(bars, dim, i, row, c) == AddRowUpTo(Grow(bars, dim + 1), dim, i, row, c)
    decreases c
  {
    if c == 1 {
      GrowFirst(bars, dim, i, 0, row[0]);
    } else {
      RowGrowFirst(bars, dim, i, row, c - 1);
    }
  }

  /** Adding the rows of a triangular table to a grown list whose map for dim
      holds none of its bars: the map gains exactly the bars (i, j), j <= i,
      each with its table entry. */
  lemma {:induction false} TableBarsGrown(bars: seq<Bars>, dim: nat, D: Table, t: nat)
    requires Triangular(D) && t <= |D| && dim < |bars|
    requires forall a: nat, b: nat | (a, b) in bars[dim] :: a >= |D|
    ensures var r := AddTableUpTo(bars, dim, D, t);
      && |r| == |bars|
      && (forall d | 0 <= d < |bars| && d != dim :: r[d] == bars[d])
      && (forall a: nat, b: nat :: (a, b) in r[dim] <==> (a, b) in bars[dim] || (a < t && b <= a))
      && (forall a: nat, b: nat | b <= a < t :: (a, b) in r[dim] && r[dim][(a, b)] == D[a][b])
    decreases t
  {
    if t > 0 {
      var last := t - 1;
      TableBarsGrown(bars, dim, D, last);
      var p := AddTableUpTo(bars, dim, D, last);
      forall b: nat
        ensures (last, b) !in p[dim]
      {
      }
      RowBars(p, dim, last, D[last], |D[last]|);
      var r := AddTableUpTo(bars, dim, D, t);
      assert r == AddRowUpTo(p, dim, last, D[last], |D[last]|);
      assert |D[last]| == t;
      forall a: nat, b: nat
        ensures (a, b) in r[dim] <==> (a, b) in bars[dim] || (a < t && b <= a)
      {
        assert (a, b) in r[dim] <==> (a, b) in p[dim] || (a == last && b < t);
      }
      forall a: nat, b: nat | b <= a < t
        ensures (a, b) in r[dim] && r[dim][(a, b)] == D[a][b]
      {
        if a < last {
          assert (a, b) in p[dim] && p[dim][(a, b)] == D[a][b];
        }
      }
    }
  }

  /** The bars one table adds: if the map for dim is absent or empty, it ends
      with exactly the bars (i, j), j <= i < |D|, each with multiplicity D[i][j],
      the list grown to dim + 1 and every other map as before. */
  lemma TableBars(bars: seq<Bars>, dim: nat, D: Table)
    requires Triangular(D) && |D| >= 1
    requires dim >= |bars| || bars[dim] == map[]
    ensures var r := AddTableUpTo(bars, dim, D, |D|);
      && |r| == (if |bars| <= dim then dim + 1 else |bars|)
      && (forall d | 0 <= d < |r| && d != dim :: r[d] == if d < |bars| then bars[d] else map[])
      && (forall a: nat, b: nat :: (a, b) in r[dim] <==> b <= a < |D|)
      && (forall a: nat, b: nat | b <= a < |D| :: (a, b) in r[dim] && r[dim][(a, b)] == D[a][b])
  {
    var g := Grow(bars, dim + 1);
    TableGrowFirst(bars, dim, D, |D|);
    TableBarsGrown(g, dim, D, |D|);
  }

  /** Adding a table with a nonempty first row to a list or to the list grown to dim + 1 is the same. */
  lemma {:induction false} TableGrowFirst(bars: seq<Bars>, dim: nat, D: Table, t: nat)
    requires Triangular(D) && 1 <= t <= |D|
    ensures AddTableUpTo(bars, dim, D, t) == AddTableUpTo(Grow(bars, dim + 1), dim, D, t)
    decreases t
  {
    if t == 1 {
      RowGrowFirst(bars, dim, 0, D[0], 1);
    } else {
      TableGrowFirst(bars, dim, D, t - 1);
    }
  }
}
