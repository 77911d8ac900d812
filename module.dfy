/** The persistent module: the homology of every depth of a refined cubical
    complex, connected by the maps the collapses between consecutive depths
    induce. Algorithm 1 (`addLevel`) adds one depth; Algorithm 2
    (`computeBarcode`) reads the barcode off the nullities of composed
    induced maps. */
module Persistence {
  import opened Words
  import opened Field
  import opened Matrices
  import opened Echelon
  import opened SMatrices
  import opened Reductions
  import opened Barcodes
  import opened Simplices
  import opened CComplexes
  import opened NullityTables

  /** `Dim`: the basis change R (with inverse R_inv) of one chain group whose
      columns from `firstHomologyIndex` on represent its homology, and the
      map that the collapse to the previous depth induces on that homology. */
  datatype Dim = Dim(R: Matrix, Rinv: Matrix, inducedMap: Matrix, firstHomologyIndex: nat)

  /** `Depth`: one `Dim` per dimension of the complex at that depth. */
  type Depth = seq<Dim>

  // ---------------------------------------------------------------------
  // Boundary and collapsing matrices

  /** Every simplex of every level is well formed. */
  ghost predicate AllWf(levels: Levels) {
    forall l, k | 0 <= l < |levels| && 0 <= k < |levels[l]| :: SimplexWf(levels[l][k])
  }

  lemma FitsWf(levels: Levels, n: nat)
    requires Fits(levels, n)
    ensures AllWf(levels)
  {
  }

  /** The coefficient of `face` in the differential of `s`, in Z_P; 0 when it is not a face. */
  function Coefficient(s: CSimplex, face: CSimplex): (r: int)
    requires SimplexWf(s)
    ensures IsElem(r)
    ensures r != 0 ==> face in DifferentialOf(s)
    ensures face in DifferentialOf(s) ==> r == Norm(DifferentialOf(s)[face])
  {
    var chain := DifferentialOf(s);
    if face in chain then Norm(chain[face]) else 0
  }

  /** The boundary matrix d_d: one row per simplex of level d - 1, one column
      per simplex of level d, column i holding the differential of simplex i. */
  ghost function BoundaryMatrix(levels: Levels, d: nat): (r: Matrix)
    requires AllWf(levels) && 0 < d < |levels|
    ensures Wf(r) && r.n == |levels[d - 1]| && r.m == |levels[d]|
  {
    Matrix(|levels[d - 1]|, |levels[d]|,
      seq(|levels[d - 1]|, j requires 0 <= j < |levels[d - 1]| =>
        seq(|levels[d]|, i requires 0 <= i < |levels[d]| => Coefficient(levels[d][i], levels[d - 1][j]))))
  }

  /** Entry (j, i) of d_d is the coefficient of face j in the differential of simplex i. */
  lemma BoundaryEntry(levels: Levels, d: nat, j: nat, i: nat)
    requires AllWf(levels) && 0 < d < |levels| && j < |levels[d - 1]| && i < |levels[d]|
    ensures BoundaryMatrix(levels, d).e[j][i] == Coefficient(levels[d][i], levels[d - 1][j])
  {
  }

  /** The collapsing matrix M_d from a domain level of `domainCount` simplices
      to an image level of `imageCount`: null when the domain is empty;
      otherwise at least one row, and column c holds a single 1, in row
      cm[c], when c is mapped. */
  function CollapsingMatrix(cm: map<nat, nat>, domainCount: nat, imageCount: nat): (r: Matrix)
    ensures Wf(r)
    ensures IsNull(r) <==> domainCount == 0
    ensures domainCount > 0 ==> r.n == (if imageCount > 0 then imageCount else 1) && r.m == domainCount
    ensures domainCount > 0 ==> forall a, c | 0 <= a < r.n && 0 <= c < r.m ::
      r.e[a][c] == if c in cm && cm[c] == a then 1 else 0
  {
    if domainCount == 0 then Null()
    else
      var rows := if imageCount > 0 then imageCount else 1;
      Matrix(rows, domainCount, seq(rows, a => seq(domainCount, c => if c in cm && cm[c] == a then 1 else 0)))
  }

  /** Each column of a collapsing matrix has at most one nonzero entry: a
      simplex collapses to at most one simplex. */
  lemma CollapsingColumns(cm: map<nat, nat>, domainCount: nat, imageCount: nat, c: nat, a: nat, a': nat)
    requires var M := CollapsingMatrix(cm, domainCount, imageCount); c < M.m && a < M.n && a' < M.n
    requires var M := CollapsingMatrix(cm, domainCount, imageCount); M.e[a][c] != 0 && M.e[a'][c] != 0
    ensures a == a' && c in cm && cm[c] == a
  {
  }

  // ---------------------------------------------------------------------
  // Stored dimensions

  /** Bases of one chain group of `count` simplices, with an index within them. */
  predicate Square(R: Matrix, Rinv: Matrix, fhi: nat, count: nat) {
    && Wf(R) && Wf(Rinv)
    && R.n == count && R.m == count && Rinv.n == count && Rinv.m == count
    && fhi <= count
  }

  /** A stored dimension whose bases are inverse to each other. */
  predicate DimShaped(x: Dim, count: nat) {
    && Square(x.R, x.Rinv, x.firstHomologyIndex, count)
    && Product(x.R, x.Rinv) == Identity(count)
    && Product(x.Rinv, x.R) == Identity(count)
  }

  /** A stored dimension and its induced map: null when the homology is
      trivial, otherwise one column per homology generator. */
  predicate DimOk(x: Dim) {
    && Square(x.R, x.Rinv, x.firstHomologyIndex, x.R.n)
    && Wf(x.inducedMap)
    && (x.firstHomologyIndex == x.R.n ==> IsNull(x.inducedMap))
    && (!IsNull(x.inducedMap) ==> x.inducedMap.m == x.R.n - x.firstHomologyIndex)
  }

  /** The number of homology generators one depth above a dimension has,
      or 1 (a zero row) when it has none or lacks the dimension. */
  function ImageRows(prev: Depth, d: nat): nat {
    if d < |prev| && prev[d].firstHomologyIndex < prev[d].R.n then prev[d].R.n - prev[d].firstHomologyIndex else 1
  }

  /** Every non-null induced map of `cur` lands on the homology of `prev`. */
  predicate Follows(prev: Depth, cur: Depth) {
    forall d | 0 <= d < |cur| && !IsNull(cur[d].inducedMap) :: cur[d].inducedMap.n == ImageRows(prev, d)
  }

  /** Every stored dimension is consistent and each depth follows the one before. */
  predicate DepthsOk(depths: seq<Depth>) {
    && (forall k, d | 0 <= k < |depths| && 0 <= d < |depths[k]| :: DimOk(depths[k][d]))
    && (forall k | 1 <= k < |depths| :: Follows(depths[k - 1], depths[k]))
  }

  /** A depth holds one dimension per level of the complex, sized to it. */
  predicate Matches(dims: Depth, levels: Levels) {
    && |dims| == |levels|
    && forall d | 0 <= d < |dims| :: dims[d].R.n == |levels[d]|
  }

  /** What the simultaneous reduction of `addLevel` leaves for a middle
      dimension d, given the basis R_inv of dimension d - 1. The boundary d_d
      in that basis, R_inv' * d_d (the matrix the loop carries over), is
      column-reduced by R to its column echelon form, whose pivot count c
      says that the columns of R from c on are cycles; in the new basis
      R_inv * d_{d+1} is in row echelon form from row c on, and the row it
      ends at is the homology index, so every boundary of dimension d is a
      combination of the first `firstHomologyIndex` columns of R. */
  ghost predicate MiddleReduces(prevRinv: Matrix, x: Dim, levels: Levels, d: nat) {
    && AllWf(levels) && 0 < d < |levels| - 1
    && Wf(prevRinv) && prevRinv.m == |levels[d - 1]|
    && DimShaped(x, |levels[d]|)
    && var carried := Product(prevRinv, BoundaryMatrix(levels, d));
       && Product(carried, x.R) == ColEchelon(carried).mat
       && ColEchelon(carried).pivots <= x.firstHomologyIndex
       && IsRowEchelonFrom(Product(x.Rinv, BoundaryMatrix(levels, d + 1)), ColEchelon(carried).pivots, x.firstHomologyIndex)
  }

  /** The cycles of a middle dimension: with R_inv' inverse to the basis R'
      of dimension d - 1, the columns of R from the column pivot count on are
      cycles, d_d * R being zero there. */
  lemma MiddleCycles(prev: Dim, x: Dim, levels: Levels, d: nat)
    requires MiddleReduces(prev.Rinv, x, levels, d) && DimShaped(prev, |levels[d - 1]|)
    ensures var c := ColEchelon(Product(prev.Rinv, BoundaryMatrix(levels, d))).pivots;
      forall i, j | 0 <= i < |levels[d - 1]| && c <= j < |levels[d]| :: Product(BoundaryMatrix(levels, d), x.R).e[i][j] == 0
  {
    var D := BoundaryMatrix(levels, d);
    var carried := Product(prev.Rinv, D);
    var ce := ColEchelon(carried);
    ColEchelonCorrect(carried);
    Reductions.ColumnsFromZero(ce.mat, ce.pivots);
    ProductAssoc(prev.R, prev.Rinv, D);
    ProductIdentity(D);
    ProductAssoc(prev.R, carried, x.R);
    assert Product(D, x.R) == Product(prev.R, ce.mat);
    ProductZeroColumns(prev.R, ce.mat, ce.pivots);
  }

  /** The bases the reductions of `addLevel` leave for a complex: inverse
      pairs sized to every level; for a complex of vertices only, the
      identity with index 0; otherwise R_inv of dimension 0 row-reduces the
      boundary d_1 to its echelon form with the rank as index, every middle
      dimension is reduced against the one below it as `MiddleReduces` says,
      and R of the top dimension column-reduces the top boundary the same way. */
  ghost predicate Reduces(dims: Depth, levels: Levels) {
    && AllWf(levels) && |levels| >= 1 && |dims| == |levels|
    && (forall d | 0 <= d < |dims| :: DimShaped(dims[d], |levels[d]|))
    && (|levels| == 1 ==>
          dims[0].R == Identity(|levels[0]|) && dims[0].Rinv == Identity(|levels[0]|) && dims[0].firstHomologyIndex == 0)
    && (|levels| > 1 ==>
          RowEchelon(BoundaryMatrix(levels, 1))
          == Reduced(Product(dims[0].Rinv, BoundaryMatrix(levels, 1)), dims[0].firstHomologyIndex))
    && ChainReduces(dims, |dims| - 1, levels)
    && (|levels| > 1 ==>
          ColEchelon(BoundaryMatrix(levels, |levels| - 1))
          == Reduced(Product(BoundaryMatrix(levels, |levels| - 1), dims[|levels| - 1].R), dims[|levels| - 1].firstHomologyIndex))
  }

  /** The bases of the first, middle and last dimensions put together. */
  lemma ReducesFrom(first: Dim, middle: Depth, last: Dim, levels: Levels)
    requires AllWf(levels) && |levels| >= 2 && |middle| == |levels| - 2
    requires DimShaped(first, |levels[0]|) && first.inducedMap == Null()
    requires DimShaped(last, |levels[|levels| - 1]|) && last.inducedMap == Null()
    requires MiddlesShaped(middle, levels)
    requires RowEchelon(BoundaryMatrix(levels, 1))
             == Reduced(Product(first.Rinv, BoundaryMatrix(levels, 1)), first.firstHomologyIndex)
    requires ColEchelon(BoundaryMatrix(levels, |levels| - 1))
             == Reduced(Product(BoundaryMatrix(levels, |levels| - 1), last.R), last.firstHomologyIndex)
    requires ChainReduces([first] + middle, |middle| + 1, levels)
    ensures Reduces(Assemble(first, middle, last), levels)
    ensures forall d | 0 <= d < |levels| :: Assemble(first, middle, last)[d].inducedMap == Null()
  {
    var dims := Assemble(first, middle, last);
    forall d | 0 <= d < |dims|
      ensures DimShaped(dims[d], |levels[d]|) && dims[d].inducedMap == Null()
    {
      if 0 < d < |levels| - 1 {
        assert dims[d] == middle[d - 1];
      }
    }
    ChainAssembled(first, middle, last, levels);
  }

  /** The chain of the first and middle dimensions is the chain of the assembled depth. */
  lemma ChainAssembled(first: Dim, middle: Depth, last: Dim, levels: Levels)
    requires ChainReduces([first] + middle, |middle| + 1, levels)
    ensures ChainReduces(Assemble(first, middle, last), |middle| + 1, levels)
  {
    var dims := Assemble(first, middle, last);
    forall c, d | 0 <= c && 0 < d < |middle| + 1 && d < |dims| && c + 1 == d
      ensures MiddleReduces(dims[c].Rinv, dims[d], levels, d)
    {
      assert dims[c] == ([first] + middle)[c] && dims[d] == ([first] + middle)[d];
    }
  }

  /** Every dimension 0 < d < upto is reduced against the basis of dimension d - 1. */
  ghost predicate ChainReduces(dims: Depth, upto: nat, levels: Levels) {
    forall c, d {:trigger MiddleReduces(dims[c].Rinv, dims[d], levels, d)}
      | 0 <= c && 0 < d < upto && d < |dims| && c + 1 == d :: MiddleReduces(dims[c].Rinv, dims[d], levels, d)
  }

  /** Middle dimension k is sized to level k + 1 and has no induced map yet. */
  ghost predicate MiddlesShaped(middle: Depth, levels: Levels) {
    forall k | 0 <= k < |middle| :: k + 1 < |levels| && DimShaped(middle[k], |levels[k + 1]|) && middle[k].inducedMap == Null()
  }

  lemma MiddlesShapedAppend(middle: Depth, x: Dim, levels: Levels)
    requires MiddlesShaped(middle, levels) && |middle| + 1 < |levels|
    requires DimShaped(x, |levels[|middle| + 1]|) && x.inducedMap == Null()
    ensures MiddlesShaped(middle + [x], levels)
  {
    forall k | 0 <= k < |middle| + 1
      ensures k + 1 < |levels| && DimShaped((middle + [x])[k], |levels[k + 1]|) && (middle + [x])[k].inducedMap == Null()
    {
      if k < |middle| {
        assert (middle + [x])[k] == middle[k];
      }
    }
  }

  /** Appending a dimension reduced against the last one extends the chain. */
  lemma ChainAppend(done: Depth, x: Dim, levels: Levels)
    requires |done| >= 1 && ChainReduces(done, |done|, levels)
    requires MiddleReduces(done[|done| - 1].Rinv, x, levels, |done|)
    ensures ChainReduces(done + [x], |done| + 1, levels)
  {
    var ds := done + [x];
    forall c, d | 0 <= c && 0 < d < |done| + 1 && d < |ds| && c + 1 == d
      ensures MiddleReduces(ds[c].Rinv, ds[d], levels, d)
    {
      assert ds[c] == done[c];
      if d < |done| {
        assert ds[d] == done[d];
        assert MiddleReduces(done[c].Rinv, done[d], levels, d);
      }
    }
  }

  /** Reduces speaks of the bases and indexes only, not of the induced maps. */
  lemma ReducesKeeps(cur: Depth, dims: Depth, levels: Levels)
    requires Reduces(cur, levels) && |dims| == |cur|
    requires forall d | 0 <= d < |cur| ::
      dims[d].R == cur[d].R && dims[d].Rinv == cur[d].Rinv && dims[d].firstHomologyIndex == cur[d].firstHomologyIndex
    ensures Reduces(dims, levels)
  {
    forall d | 0 <= d < |dims|
      ensures DimShaped(dims[d], |levels[d]|)
    {
      assert DimShaped(cur[d], |levels[d]|);
    }
    var top := |levels| - 1;
    assert dims[0].Rinv == cur[0].Rinv && dims[0].R == cur[0].R && dims[0].firstHomologyIndex == cur[0].firstHomologyIndex;
    assert dims[top].R == cur[top].R && dims[top].firstHomologyIndex == cur[top].firstHomologyIndex;
    forall c, d | 0 <= c && 0 < d < |dims| - 1 && d < |dims| && c + 1 == d
      ensures MiddleReduces(dims[c].Rinv, dims[d], levels, d)
    {
      assert MiddleReduces(cur[c].Rinv, cur[d], levels, d);
      assert dims[c].Rinv == cur[c].Rinv;
    }
  }

  /** The dimensions of a depth: the first, the middle ones, the last. */
  function Assemble(first: Dim, middle: Depth, last: Dim): (dims: Depth)
    ensures |dims| == |middle| + 2 && dims[0] == first && dims[|middle| + 1] == last
    ensures forall d | 0 < d <= |middle| :: dims[d] == middle[d - 1]
  {
    [first] + middle + [last]
  }

  // ---------------------------------------------------------------------
  // Induced maps

  function CountIn(levels: Levels, d: nat): nat {
    if d < |levels| then |levels[d]| else 0
  }

  function CollapseAt(cms: seq<map<nat, nat>>, d: nat): map<nat, nat> {
    if d < |cms| then cms[d] else map[]
  }

  /** The induced map of dimension d for a new depth with basis R and index
      fhi over `count` simplices, against the previous depth `prev` over
      `prevCount`: null when the new homology is trivial or the domain is
      empty; a zero row when the previous homology is trivial or absent;
      otherwise R_inv' * M * R, restricted to the homology rows and columns. */
  function InducedMapOf(prev: Depth, prevCount: nat, R: Matrix, fhi: nat, count: nat, d: nat, cm: map<nat, nat>): (r: Matrix)
    requires Wf(R) && R.n == count && R.m == count && fhi <= count
    requires d < |prev| ==> Square(prev[d].R, prev[d].Rinv, prev[d].firstHomologyIndex, prevCount)
    ensures Wf(r)
    ensures IsNull(r) <==> fhi == count
    ensures !IsNull(r) ==> r.m == count - fhi
    ensures !IsNull(r) ==> r.n == ImageRows(prev, d)
  {
    var M := CollapsingMatrix(cm, count, prevCount);
    if fhi == count || IsNull(M) then Null()
    else if d >= |prev| || prev[d].firstHomologyIndex == prevCount then Zeros(1, count - fhi)
    else
      var p := prev[d];
      SubmatrixFrom(MatMul(p.Rinv, MatMul(M, R)), p.firstHomologyIndex, fhi)
  }

  /** Every induced map of `cur` is the one its bases give against `prev`. */
  ghost predicate InducedFrom(prev: Depth, prevLevels: Levels, cur: Depth, levels: Levels, cms: seq<map<nat, nat>>) {
    && |cur| == |levels|
    && (forall d | 0 <= d < |prev| ::
          Square(prev[d].R, prev[d].Rinv, prev[d].firstHomologyIndex, CountIn(prevLevels, d)))
    && (forall d | 0 <= d < |cur| ::
          Square(cur[d].R, cur[d].Rinv, cur[d].firstHomologyIndex, CountIn(levels, d)))
    && (forall d | 0 <= d < |cur| ::
          cur[d].inducedMap == InducedMapOf(prev, CountIn(prevLevels, d), cur[d].R, cur[d].firstHomologyIndex,
                                            CountIn(levels, d), d, CollapseAt(cms, d)))
  }


  /** A depth whose bases reduce its complex and whose induced maps are
      those its bases give against the previous depth keeps the invariant:
      every dimension consistent, sized to its level, following `prev`. */
  lemma NextDepthOk(prev: Depth, prevLevels: Levels, dims: Depth, levels: Levels, cms: seq<map<nat, nat>>)
    requires Reduces(dims, levels) && InducedFrom(prev, prevLevels, dims, levels, cms)
    ensures Matches(dims, levels) && Follows(prev, dims)
    ensures forall d | 0 <= d < |dims| :: DimOk(dims[d])
  {
    forall d | 0 <= d < |dims|
      ensures DimOk(dims[d]) && dims[d].R.n == |levels[d]|
    {
      assert DimShaped(dims[d], |levels[d]|);
      assert CountIn(levels, d) == |levels[d]|;
    }
  }

  /** The bases of the last depth are square, sized to its complex. */
  lemma LastSquare(depths: seq<Depth>, levels: Levels)
    requires DepthsOk(depths) && |depths| >= 1 && Matches(Last(depths), levels)
    ensures forall d | 0 <= d < |Last(depths)| ::
      Square(Last(depths)[d].R, Last(depths)[d].Rinv, Last(depths)[d].firstHomologyIndex, CountIn(levels, d))
  {
    var last := Last(depths);
    forall d | 0 <= d < |last|
      ensures Square(last[d].R, last[d].Rinv, last[d].firstHomologyIndex, CountIn(levels, d))
    {
      assert DimOk(depths[|depths| - 1][d]);
    }
  }

  /** Appending a depth that is consistent and follows the last one keeps
      every depth consistent. */
  lemma DepthsAppend(depths: seq<Depth>, cur: Depth)
    requires DepthsOk(depths) && |depths| >= 1 && Follows(Last(depths), cur)
    requires forall d | 0 <= d < |cur| :: DimOk(cur[d])
    ensures DepthsOk(depths + [cur]) && Last(depths + [cur]) == cur
    ensures (depths + [cur])[..|depths|] == depths
  {
    var ds := depths + [cur];
    assert ds[..|depths|] == depths;
    forall k, d | 0 <= k < |ds| && 0 <= d < |ds[k]|
      ensures DimOk(ds[k][d])
    {
      if k < |depths| {
        assert ds[k] == depths[k];
      }
    }
    forall k | 1 <= k < |ds|
      ensures Follows(ds[k - 1], ds[k])
    {
      if k < |depths| {
        assert ds[k - 1] == depths[k - 1] && ds[k] == depths[k];
      } else {
        assert ds[k - 1] == Last(depths);
      }
    }
  }

  // ---------------------------------------------------------------------
  // The barcode

  /** The induced maps of dimension `dim` at every depth (null where a depth lacks it). */
  function InducedMaps(depths: seq<Depth>, dim: nat): (ms: seq<Matrix>)
    ensures |ms| == |depths|
  {
    seq(|depths|, k requires 0 <= k < |depths| =>
      if dim < |depths[k]| then depths[k][dim].inducedMap else Null())
  }

  /** Consecutive induced maps compose: the barcode's products are defined. */
  lemma MapsComposable(depths: seq<Depth>, dim: nat)
    requires DepthsOk(depths)
    ensures Composable(InducedMaps(depths, dim))
  {
    var ms := InducedMaps(depths, dim);
    forall k | 0 <= k < |ms|
      ensures Wf(ms[k])
    {
      if dim < |depths[k]| {
        assert DimOk(depths[k][dim]);
      }
    }
    forall k | 0 <= k < |ms| - 1
      ensures IsNull(ms[k]) || IsNull(ms[k + 1]) || ms[k].m == ms[k + 1].n
    {
      if !IsNull(ms[k]) && !IsNull(ms[k + 1]) {
        assert dim < |depths[k]| && dim < |depths[k + 1]|;
        assert Follows(depths[k], depths[k + 1]);
        var x := depths[k][dim];
        assert DimOk(x);
        assert ms[k + 1].n == ImageRows(depths[k], dim);
      }
    }
  }

  /** The corrected table of one dimension: the raw nullity table after both
      correction passes. */
  ghost function Expected(depths: seq<Depth>, dim: nat): (E: Table)
    requires DepthsOk(depths)
    ensures |E| == |depths| && Triangular(E)
  {
    MapsComposable(depths, dim);
    Differenced(Corrected(RawTable(InducedMaps(depths, dim))))
  }

  /** The bars after the tables of the dimensions below k have been added,
      starting from a barcode with one empty map. */
  function Tallies(tables: seq<Table>, k: nat): (r: seq<Bars>)
    requires k <= |tables|
  {
    if k == 0 then [map[]] else AddTableUpTo(Tallies(tables, k - 1), k - 1, tables[k - 1], |tables[k - 1]|)
  }

  /** Every table is triangular with n rows. */
  ghost predicate Shaped(tables: seq<Table>, n: nat) {
    && (forall d | 0 <= d < |tables| :: Triangular(tables[d]) && |tables[d]| == n)
    && (forall d, a | 0 <= d < |tables| && 0 <= a < n :: |tables[d][a]| == a + 1)
  }

  /** All the tables tallied hold their bars. */
  lemma TalliesHold(tables: seq<Table>, n: nat)
    requires |tables| >= 1 && n >= 1 && Shaped(tables, n)
    ensures BarsHold(Tallies(tables, |tables|), tables, n)
  {
    TalliesBars(tables, n, |tables|);
  }

  /** After k dimensions, the barcode holds one map per dimension below k
      whose bars are exactly (i, j), j <= i < n, each with its table entry. */
  lemma {:induction false} TalliesBars(tables: seq<Table>, n: nat, k: nat)
    requires k <= |tables| && n >= 1
    requires Shaped(tables, n)
    ensures var r := Tallies(tables, k);
      && |r| == (if k == 0 then 1 else k)
      && (k == 0 ==> r[0] == map[])
      && (forall dim: nat, a: nat, b: nat | dim < k :: (a, b) in r[dim] <==> b <= a < n)
      && (forall dim: nat, a: nat, b: nat | dim < k && b <= a < n :: (a, b) in r[dim] && r[dim][(a, b)] == tables[dim][a][b])
  {
    if k > 0 {
      TalliesBars(tables, n, k - 1);
      assert Tallies(tables, k) == AddTableUpTo(Tallies(tables, k - 1), k - 1, tables[k - 1], |tables[k - 1]|);
      TallyStep(Tallies(tables, k - 1), Tallies(tables, k), tables, n, k);
    }
  }

  /** Adding the table of dimension k - 1 to the tallies below it. */
  lemma TallyStep(p: seq<Bars>, r: seq<Bars>, tables: seq<Table>, n: nat, k: nat)
    requires 1 <= k <= |tables| && n >= 1
    requires Shaped(tables, n)
    requires |p| == (if k == 1 then 1 else k - 1) && (k == 1 ==> p[0] == map[])
    requires forall dim: nat, a: nat, b: nat | dim < k - 1 :: (a, b) in p[dim] <==> b <= a < n
    requires forall dim: nat, a: nat, b: nat | dim < k - 1 && b <= a < n ::
      (a, b) in p[dim] && p[dim][(a, b)] == tables[dim][a][b]
    requires r == AddTableUpTo(p, k - 1, tables[k - 1], n)
    ensures |r| == k
    ensures forall dim: nat, a: nat, b: nat | dim < k :: (a, b) in r[dim] <==> b <= a < n
    ensures forall dim: nat, a: nat, b: nat | dim < k && b <= a < n ::
      (a, b) in r[dim] && r[dim][(a, b)] == tables[dim][a][b]
  {
    var E := tables[k - 1];
    TableBars(p, k - 1, E);
    forall dim: nat, a: nat, b: nat | dim < k
      ensures (a, b) in r[dim] <==> b <= a < n
    {
      if dim < k - 1 {
        assert r[dim] == p[dim];
      }
    }
    forall dim: nat, a: nat, b: nat | dim < k && b <= a < n
      ensures (a, b) in r[dim] && r[dim][(a, b)] == tables[dim][a][b]
    {
      if dim < k - 1 {
        assert r[dim] == p[dim];
      }
    }
  }


  // ---------------------------------------------------------------------
  // The module

  function Last(depths: seq<Depth>): Depth
    requires |depths| >= 1
  {
    depths[|depths| - 1]
  }

  /** A complex a module can start from: a single vertex in a valid region. */
  ghost predicate Startable(complex: CComplex)
    reads complex, complex.region
  {
    && complex.Valid() && complex.region != null && complex.region.Valid()
    && Fits(complex.simplices, |complex.region.corner.coors|)
    && |complex.simplices| == 1 && |complex.simplices[0]| == 1
  }

  class Module {
    var depths: seq<Depth>
    var lastComplex: CComplex
    var maxDim: nat

    /** The last complex can be expanded, every stored depth is consistent
        and the last one is sized to the last complex. */
    ghost predicate Valid()
      reads this, lastComplex, lastComplex.region
    {
      && lastComplex.Valid() && lastComplex.region != null && lastComplex.region.Valid()
      && Fits(lastComplex.simplices, |lastComplex.region.corner.coors|)
      && |depths| >= 1 && DepthsOk(depths)
      && Matches(Last(depths), lastComplex.simplices)
    }

    /** `Module(complex)`: one depth with one dimension: identity bases of
        size 1, a 1 x 1 zero induced map and homology index 0 — the sizes of
        a complex made of one vertex. */
    constructor (complex: CComplex)
      ensures lastComplex == complex && maxDim == 0
      ensures depths == [[Dim(Identity(1), Identity(1), Zeros(1, 1), 0)]]
      ensures Startable(complex) ==> Valid()
    {
      var id := SMatrix.MakeIdentity(1);
      var idInv := SMatrix.MakeIdentity(1);
      var zero := new SMatrix(1, 1);
      ProductIdentity(Identity(1));
      depths := [[Dim(id.Value(), idInv.Value(), zero.Value(), 0)]];
      lastComplex := complex;
      maxDim := 0;
    }

    /** `Module()`: no depths and a default (level-less) complex. */
    constructor Default()
      ensures depths == [] && maxDim == 0 && fresh(lastComplex)
      ensures lastComplex.simplices == [] && lastComplex.region == null
    {
      depths := [];
      lastComplex := new CComplex();
      maxDim := 0;
    }

    /** `diffMat(complex, d)`: a fresh matrix holding the boundary d_d. */
    method DiffMat(complex: CComplex, d: nat) returns (mat: SMatrix)
      requires complex.Valid() && 0 < d <= complex.dim && AllWf(complex.simplices)
      ensures fresh(mat) && mat.Valid() && mat.Value() == BoundaryMatrix(complex.simplices, d)
    {
      ghost var levels := complex.simplices;
      mat := new SMatrix(complex.NumSimplicesIn(d - 1), complex.NumSimplicesIn(d));
      var diffMap := complex.GetDifferentialMap(d);
      var keys := diffMap.Keys;
      while keys != {}
        invariant keys <= diffMap.Keys
        invariant mat.Valid() && mat.n == |levels[d - 1]| && mat.m == |levels[d]|
        invariant forall j: nat, i: nat | j < mat.n && i < mat.m ::
          mat.e[j][i] == if (i, j) in diffMap && (i, j) !in keys then Norm(diffMap[(i, j)]) else 0
        decreases |keys|
      {
        var key :| key in keys;
        mat.Insert(key.1, key.0, diffMap[key]);
        keys := keys - {key};
      }
      ghost var B := BoundaryMatrix(levels, d);
      forall j, i | 0 <= j < mat.n && 0 <= i < mat.m
        ensures mat.Value().e[j][i] == B.e[j][i]
      {
        BoundaryEntry(levels, d, j, i);
        assert (i, j) in diffMap <==> levels[d - 1][j] in DifferentialOf(levels[d][i]);
      }
      MatrixEq(mat.Value(), B);
    }

    /** `getCollapsingMatrix(domain, image, d)`: a fresh matrix holding M_d
        for the collapsing map of the domain's level d. Map entries outside
        the matrix are skipped. */
    method GetCollapsingMatrix(domain: CComplex, image: CComplex, d: nat) returns (mat: SMatrix)
      requires domain.Valid() && image.Valid()
      ensures fresh(mat) && mat.Valid()
      ensures mat.Value() == CollapsingMatrix(domain.GetCollapsingMap(d), domain.NumSimplicesIn(d), image.NumSimplicesIn(d))
    {
      var cm := domain.GetCollapsingMap(d);
      var domainCount: nat := domain.NumSimplicesIn(d);
      var imageCount: nat := image.NumSimplicesIn(d);
      if domainCount == 0 {
        mat := SMatrix.ZeroMatrix();
        return;
      }
      var rows := if imageCount > 0 then imageCount else 1;
      mat := new SMatrix(rows, domainCount);
      var keys := cm.Keys;
      while keys != {}
        invariant keys <= cm.Keys
        invariant mat.Valid() && mat.n == rows && mat.m == domainCount
        invariant forall a: nat, c: nat | a < rows && c < domainCount ::
          mat.e[a][c] == if c in cm && cm[c] == a && c !in keys then 1 else 0
        decreases |keys|
      {
        var key :| key in keys;
        if key < domainCount && cm[key] < rows {
          mat.Insert(cm[key], key, 1);
        }
        keys := keys - {key};
      }
      MatrixEq(mat.Value(), CollapsingMatrix(cm, domainCount, imageCount));
    }

    /** `getInducedMap(depth, dim)`: the stored induced map, the null matrix
        outside the stored depths and dimensions. */
    function GetInducedMap(depth: nat, dim: nat): (r: Matrix)
      reads this
      ensures depth < |depths| ==> r == InducedMaps(depths, dim)[depth]
      ensures depth >= |depths| ==> r == Null()
    {
      InducedMapAt(depths, depth, dim)
    }

    /** The reductions of `addLevel` on a fresh complex: row reduction of
        d_1, simultaneous reduction of each middle pair, column reduction of
        the top boundary; for a complex of vertices, identity bases. */
    method ReduceBoundaries(complex: CComplex) returns (dims: Depth)
      requires complex.Valid() && AllWf(complex.simplices)
      ensures Reduces(dims, complex.simplices)
      ensures forall d | 0 <= d < |dims| :: dims[d].inducedMap == Null()
    {
      ghost var levels := complex.simplices;
      var top := complex.dim;
      if top > 0 {
        var B := new SMatrix(0, 0);
        var R := new SMatrix(0, 0);
        var Rinv := new SMatrix(0, 0);
        var first := ReduceFirst(complex, B, R, Rinv);
        var middle := ReduceMiddles(complex, B, R, Rinv, first);
        var last := ReduceTop(complex, R, Rinv);
        ReducesFrom(first, middle, last, levels);
        dims := Assemble(first, middle, last);
      } else {
        var count := complex.NumSimplicesIn(0);
        var id := SMatrix.MakeIdentity(count);
        var idInv := SMatrix.MakeIdentity(count);
        ProductIdentity(Identity(count));
        dims := [Dim(id.Value(), idInv.Value(), Null(), 0)];
      }
    }

    /** The first reduction of `addLevel`: d_1 is row-reduced, R_inv becomes
        the basis of dimension 0 and B takes the reduced d_1. */
    method ReduceFirst(complex: CComplex, B: SMatrix, R: SMatrix, Rinv: SMatrix) returns (x: Dim)
      requires complex.Valid() && AllWf(complex.simplices) && 0 < complex.dim
      requires B != R && B != Rinv && R != Rinv
      modifies B, R, Rinv
      ensures DimShaped(x, |complex.simplices[0]|) && x.inducedMap == Null()
      ensures RowEchelon(BoundaryMatrix(complex.simplices, 1))
              == Reduced(Product(x.Rinv, BoundaryMatrix(complex.simplices, 1)), x.firstHomologyIndex)
      ensures B.Valid() && B.n == |complex.simplices[0]| && B.m == |complex.simplices[1]|
      ensures B.Value() == Product(x.Rinv, BoundaryMatrix(complex.simplices, 1))
    {
      var A := DiffMat(complex, 1);
      ghost var D := A.Value();
      var fhi := RowReduceWithBasis(A, R, Rinv);
      x := Dim(Rinv.Value(), R.Value(), Null(), fhi);
      assert A.Value() == Product(x.Rinv, D);
      B.SetValue(A.Value());
    }

    /** The last reduction of `addLevel`: the top boundary is column-reduced
        and R becomes the basis of the top dimension. */
    method ReduceTop(complex: CComplex, R: SMatrix, Rinv: SMatrix) returns (x: Dim)
      requires complex.Valid() && AllWf(complex.simplices) && 0 < complex.dim
      requires R != Rinv
      modifies R, Rinv
      ensures DimShaped(x, |complex.simplices[complex.dim]|) && x.inducedMap == Null()
      ensures ColEchelon(BoundaryMatrix(complex.simplices, complex.dim))
              == Reduced(Product(BoundaryMatrix(complex.simplices, complex.dim), x.R), x.firstHomologyIndex)
    {
      var B := DiffMat(complex, complex.dim);
      var fhi := ColumnReduceWithBasis(B, R, Rinv);
      x := Dim(R.Value(), Rinv.Value(), Null(), fhi);
    }

    /** The middle loop of `addLevel`: for each dimension 0 < dim < top,
        B (the reduced d_dim) and d_{dim+1} are reduced together. */
    method ReduceMiddles(complex: CComplex, B: SMatrix, R: SMatrix, Rinv: SMatrix, ghost first: Dim) returns (middle: Depth)
      requires complex.Valid() && AllWf(complex.simplices) && 0 < complex.dim
      requires B != R && B != Rinv && R != Rinv
      requires DimShaped(first, |complex.simplices[0]|)
      requires B.Valid() && B.Value() == Product(first.Rinv, BoundaryMatrix(complex.simplices, 1))
      modifies B, R, Rinv
      ensures |middle| == complex.dim - 1
      ensures MiddlesShaped(middle, complex.simplices)
      ensures ChainReduces([first] + middle, |middle| + 1, complex.simplices)
    {
      ghost var levels := complex.simplices;
      middle := [];
      ghost var prevRinv := first.Rinv;
      ghost var done := [first];
      var dim := 1;
      while dim < complex.dim
        invariant 1 <= dim <= complex.dim && |middle| == dim - 1
        invariant done == [first] + middle && prevRinv == done[|done| - 1].Rinv
        invariant Wf(prevRinv) && prevRinv.n == |levels[dim - 1]| && prevRinv.m == |levels[dim - 1]|
        invariant B.Valid() && B.Value() == Product(prevRinv, BoundaryMatrix(levels, dim))
        invariant MiddlesShaped(middle, levels)
        invariant ChainReduces(done, |done|, levels)
      {
        var x := ReduceMiddle(complex, dim, B, R, Rinv, prevRinv);
        ChainAppend(done, x, levels);
        MiddlesShapedAppend(middle, x, levels);
        middle := middle + [x];
        done := done + [x];
        prevRinv := x.Rinv;
        dim := dim + 1;
      }
    }

    /** One step of the middle loop of `addLevel`: the boundary d_{dim+1} and
        the reduced d_dim in B are reduced together; B takes the reduced d_{dim+1}. */
    method ReduceMiddle(complex: CComplex, dim: nat, B: SMatrix, R: SMatrix, Rinv: SMatrix, ghost prevRinv: Matrix)
      returns (x: Dim)
      requires complex.Valid() && AllWf(complex.simplices) && 0 < dim < complex.dim
      requires B != R && B != Rinv && R != Rinv
      requires Wf(prevRinv) && prevRinv.n == |complex.simplices[dim - 1]| && prevRinv.m == |complex.simplices[dim - 1]|
      requires B.Valid() && B.Value() == Product(prevRinv, BoundaryMatrix(complex.simplices, dim))
      modifies B, R, Rinv
      ensures DimShaped(x, |complex.simplices[dim]|) && x.inducedMap == Null()
      ensures MiddleReduces(prevRinv, x, complex.simplices, dim)
      ensures B.Valid() && B.Value() == Product(x.Rinv, BoundaryMatrix(complex.simplices, dim + 1))
    {
      var A := DiffMat(complex, dim + 1);
      var fhi;
      ghost var cycleIndex, F, Finv;
      fhi, cycleIndex, F, Finv := SimultaneousReduceIndexed(B, A, R, Rinv);
      x := Dim(R.Value(), Rinv.Value(), Null(), fhi);
      B.SetValue(A.Value());
    }

    /** One pass of the induced-map loop of `addLevel`, for dimension d. */
    method InduceMap(prev: Depth, R: Matrix, fhi: nat, d: nat, complex: CComplex, prevComplex: CComplex)
      returns (induced: Matrix)
      requires complex.Valid() && prevComplex.Valid()
      requires Wf(R) && R.n == complex.NumSimplicesIn(d) && R.m == R.n && fhi <= R.n
      requires d < |prev| ==>
        Square(prev[d].R, prev[d].Rinv, prev[d].firstHomologyIndex, prevComplex.NumSimplicesIn(d))
      ensures induced == InducedMapOf(prev, prevComplex.NumSimplicesIn(d), R, fhi,
                                      complex.NumSimplicesIn(d), d, complex.GetCollapsingMap(d))
    {
      var count, prevCount := complex.NumSimplicesIn(d), prevComplex.NumSimplicesIn(d);
      var matrixMap := GetCollapsingMatrix(complex, prevComplex, d);
      if fhi == count || matrixMap.IsNull() {
        var z := SMatrix.ZeroMatrix();
        induced := z.Value();
      } else if d >= |prev| || prev[d].firstHomologyIndex == prevCount {
        var z := new SMatrix(1, count - fhi);
        induced := z.Value();
      } else {
        var right := new SMatrix(0, 0);
        right.SetValue(R);
        matrixMap.RightMulIn(right);
        var left := new SMatrix(0, 0);
        left.SetValue(prev[d].Rinv);
        matrixMap.LeftMulIn(left);
        induced := SubmatrixFrom(matrixMap.Value(), prev[d].firstHomologyIndex, fhi);
      }
    }

    /** The induced-map loop of `addLevel`: each dimension of `cur` receives
        the map induced against the last stored depth. */
    method InduceMaps(cur: Depth, complex: CComplex, prevComplex: CComplex) returns (dims: Depth)
      requires complex.Valid() && prevComplex.Valid() && |depths| >= 1
      requires |cur| == |complex.simplices|
      requires forall d | 0 <= d < |cur| ::
        Square(cur[d].R, cur[d].Rinv, cur[d].firstHomologyIndex, CountIn(complex.simplices, d))
      requires forall d | 0 <= d < |Last(depths)| ::
        Square(Last(depths)[d].R, Last(depths)[d].Rinv, Last(depths)[d].firstHomologyIndex, CountIn(prevComplex.simplices, d))
      ensures |dims| == |cur|
      ensures forall d | 0 <= d < |cur| ::
        dims[d].R == cur[d].R && dims[d].Rinv == cur[d].Rinv && dims[d].firstHomologyIndex == cur[d].firstHomologyIndex
      ensures InducedFrom(Last(depths), prevComplex.simplices, dims, complex.simplices, complex.collapsingMaps)
    {
      var prev := depths[|depths| - 1];
      dims := cur;
      var d := 0;
      while d < |cur|
        invariant d <= |cur| && |dims| == |cur|
        invariant forall k | 0 <= k < |cur| ::
          dims[k].R == cur[k].R && dims[k].Rinv == cur[k].Rinv && dims[k].firstHomologyIndex == cur[k].firstHomologyIndex
        invariant forall k | 0 <= k < d ::
          dims[k].inducedMap == InducedMapOf(prev, CountIn(prevComplex.simplices, k), dims[k].R, dims[k].firstHomologyIndex,
                                             CountIn(complex.simplices, k), k, CollapseAt(complex.collapsingMaps, k))
      {
        var induced := InduceMap(prev, cur[d].R, cur[d].firstHomologyIndex, d, complex, prevComplex);
        dims := dims[d := dims[d].(inducedMap := induced)];
        d := d + 1;
      }
    }

    /** `addLevel()` (Algorithm 1): the last complex is expanded one depth
        further, its boundaries reduced and the collapse back to the previous
        complex turned into induced maps; the new depth is appended. */
    method AddLevel()
      requires Valid()
      modifies this, lastComplex.region
      ensures Valid()
      ensures |depths| == old(|depths|) + 1 && depths[..old(|depths|)] == old(depths)
      ensures maxDim == if old(maxDim) < lastComplex.dim then lastComplex.dim else old(maxDim)
      ensures fresh(lastComplex) && lastComplex.depth == old(lastComplex.depth) + 1
      ensures lastComplex.region == old(lastComplex.region)
      ensures Tracks(lastComplex.simplices,
                     GatherLevels(old(lastComplex.simplices), ExpansionMap(old(RegionTest(lastComplex.region)))))
      ensures Reduces(Last(depths), lastComplex.simplices)
      ensures InducedFrom(old(Last(depths)), old(lastComplex.simplices), Last(depths),
                          lastComplex.simplices, lastComplex.collapsingMaps)
    {
      var expanded, current := Step(lastComplex);
      DepthsAppend(depths, current);
      Commit(expanded, depths + [current]);
    }

    /** The new complex and the new depth of `addLevel`, before they are stored. */
    method Step(complex: CComplex) returns (expanded: CComplex, current: Depth)
      requires complex.Valid() && complex.region != null && complex.region.Valid()
      requires Fits(complex.simplices, |complex.region.corner.coors|)
      requires |depths| >= 1 && DepthsOk(depths) && Matches(Last(depths), complex.simplices)
      modifies complex.region
      ensures fresh(expanded) && expanded.Valid() && expanded.depth == complex.depth + 1
      ensures expanded.region == complex.region && complex.region.Valid()
      ensures Fits(expanded.simplices, |complex.region.corner.coors|)
      ensures Tracks(expanded.simplices, GatherLevels(complex.simplices, ExpansionMap(old(RegionTest(complex.region)))))
      ensures Reduces(current, expanded.simplices)
      ensures InducedFrom(Last(depths), complex.simplices, current, expanded.simplices, expanded.collapsingMaps)
      ensures Matches(current, expanded.simplices) && Follows(Last(depths), current)
      ensures forall d | 0 <= d < |current| :: DimOk(current[d])
    {
      expanded := ExpandComplex(complex);
      current := NextDepth(expanded, complex);
    }

    /** The first step of `addLevel`: the expansion of a complex against its region. */
    static method ExpandComplex(complex: CComplex) returns (expanded: CComplex)
      requires complex.Valid() && complex.region != null && complex.region.Valid()
      requires Fits(complex.simplices, |complex.region.corner.coors|)
      modifies complex.region
      ensures fresh(expanded) && expanded.Valid() && expanded.depth == complex.depth + 1
      ensures expanded.region == complex.region && complex.region.Valid()
      ensures Fits(expanded.simplices, |complex.region.corner.coors|) && AllWf(expanded.simplices)
      ensures Tracks(expanded.simplices, GatherLevels(complex.simplices, ExpansionMap(old(RegionTest(complex.region)))))
    {
      ghost var inside := RegionTest(complex.region);
      ExpansionMapSound(inside);
      ghost var mapLevels;
      expanded, mapLevels := complex.Expand(ExpansionMap(inside));
      FitsWf(expanded.simplices, |complex.region.corner.coors|);
    }

    /** The last step of `addLevel`: the expanded complex and the depths with
        its new depth are stored, and the largest dimension updated. */
    method Commit(expanded: CComplex, ds: seq<Depth>)
      requires expanded.Valid() && expanded.region != null && expanded.region.Valid()
      requires Fits(expanded.simplices, |expanded.region.corner.coors|)
      requires |ds| >= 1 && DepthsOk(ds) && Matches(Last(ds), expanded.simplices)
      modifies this
      ensures Valid() && lastComplex == expanded && depths == ds
      ensures maxDim == if old(maxDim) < expanded.dim then expanded.dim else old(maxDim)
    {
      lastComplex := expanded;
      maxDim := if maxDim < expanded.dim then expanded.dim else maxDim;
      depths := ds;
    }

    /** The new depth of `addLevel` for the expanded complex: its boundaries
        reduced, then the induced maps against the last stored depth. */
    method NextDepth(complex: CComplex, prevComplex: CComplex) returns (current: Depth)
      requires complex.Valid() && AllWf(complex.simplices) && prevComplex.Valid()
      requires |depths| >= 1 && DepthsOk(depths) && Matches(Last(depths), prevComplex.simplices)
      ensures Reduces(current, complex.simplices)
      ensures InducedFrom(Last(depths), prevComplex.simplices, current, complex.simplices, complex.collapsingMaps)
      ensures Matches(current, complex.simplices) && Follows(Last(depths), current)
      ensures forall d | 0 <= d < |current| :: DimOk(current[d])
    {
      LastSquare(depths, prevComplex.simplices);
      var reduced := ReduceBoundaries(complex);
      current := InduceMaps(reduced, complex, prevComplex);
      ReducesKeeps(reduced, current, complex.simplices);
      NextDepthOk(Last(depths), prevComplex.simplices, current, complex.simplices, complex.collapsingMaps);
    }

    /** `addToLevel(depth)`: depths are added until `depth` is stored. */
    method AddToLevel(depth: nat)
      requires Valid()
      modifies this, lastComplex.region
      ensures Valid() && depth < |depths|
      ensures |depths| == if old(|depths|) > depth then old(|depths|) else depth + 1
      ensures depths[..old(|depths|)] == old(depths)
      ensures old(|depths|) > depth ==> depths == old(depths) && lastComplex == old(lastComplex) && maxDim == old(maxDim)
      ensures lastComplex.region == old(lastComplex.region)
    {
      ghost var start := depths;
      ghost var region := lastComplex.region;
      while |depths| <= depth
        invariant Valid() && lastComplex.region == region
        invariant |start| <= |depths| <= (if |start| > depth then |start| else depth + 1)
        invariant depths[..|start|] == start
        invariant |start| > depth ==> depths == start && lastComplex == old(lastComplex) && maxDim == old(maxDim)
        decreases depth - |depths|
      {
        ghost var before := depths;
        AddLevel();
        PrefixOfPrefix(start, before, depths);
      }
    }

    /** The first loop of `computeBarcode` for one row: the nullity of the
        induced map at depth i, then of its products with the maps of the
        depths below, copying the entry to the right once the product is null. */
    static method RawRow(depths: seq<Depth>, i: nat, dim: nat) returns (row: seq<u64>)
      requires Composable(InducedMaps(depths, dim)) && i < |depths|
      ensures |row| == i + 1
      ensures forall c | 0 <= c <= i :: row[c] == FromNat(RawEntry(InducedMaps(depths, dim), i, c))
    {
      ghost var ms := InducedMaps(depths, dim);
      var m := new SMatrix(0, 0);
      m.SetValue(InducedMapAt(depths, i, dim));
      row := Zeros64(i + 1);
      row := row[i := FromNat(Nullity(m.Value()))];
      var j: int := i - 1;
      while j >= 0
        invariant -1 <= j < i && |row| == i + 1
        invariant m.Valid() && m.Value() == Chain(ms, j + 1, i)
        invariant forall c | j < c <= i :: row[c] == FromNat(RawEntry(ms, i, c))
      {
        row := RawStep(depths, m, row, i, j, dim, ms);
        j := j - 1;
      }
    }

    /** One pass of the inner loop of the first loop of `computeBarcode`:
        the chain is extended on the left by the induced map at depth j, and
        entry j of the row becomes its nullity, or a copy of entry j + 1 once
        the chain is null. */
    static method RawStep(depths: seq<Depth>, m: SMatrix, row: seq<u64>, i: nat, j: nat, dim: nat, ghost ms: seq<Matrix>) returns (row': seq<u64>)
      requires ms == InducedMaps(depths, dim) && Composable(ms) && j < i < |depths| && |row| == i + 1
      requires m.Valid() && m.Value() == Chain(ms, j + 1, i)
      requires forall c | j < c <= i :: row[c] == FromNat(RawEntry(ms, i, c))
      modifies m
      ensures m.Valid() && m.Value() == Chain(ms, j, i) && |row'| == i + 1
      ensures forall c | j <= c <= i :: row'[c] == FromNat(RawEntry(ms, i, c))
    {
      var lhs := new SMatrix(0, 0);
      lhs.SetValue(InducedMapAt(depths, j, dim));
      m.LeftMulIn(lhs);
      if m.IsNull() {
        row' := row[j := row[j + 1]];
      } else {
        row' := row[j := FromNat(Nullity(m.Value()))];
      }
      assert RawEntry(ms, i, j) == if IsNull(Chain(ms, j, i)) then RawEntry(ms, i, j + 1) else Nullity(Chain(ms, j, i));
    }

    /** The raw table of `computeBarcode` for one dimension. */
    static method NullityTable(depths: seq<Depth>, dim: nat) returns (D: Table)
      requires Composable(InducedMaps(depths, dim))
      ensures D == RawTable(InducedMaps(depths, dim))
    {
      ghost var table := RawTable(InducedMaps(depths, dim));
      var n := |depths|;
      D := [];
      var i := 0;
      while i < n
        invariant i <= n && D == table[..i]
      {
        var row := RawRow(depths, i, dim);
        RawTableRow(InducedMaps(depths, dim), i, row);
        assert table[..i + 1] == table[..i] + [row];
        D := D + [row];
        i := i + 1;
      }
      assert table[..n] == table;
    }

    /** `computeBarcode()` (Algorithm 2): for every dimension up to the
        largest seen, the corrected nullity table becomes bars (i, j), j <= i,
        one map per dimension. */
    method ComputeBarcode() returns (bcode: Barcode)
      requires Valid()
      ensures fresh(bcode)
      ensures BarsHold(bcode.bars, ExpectedTables(old(depths), old(maxDim) + 1), |old(depths)|)
    {
      bcode := BarcodeOf(depths, maxDim);
    }

    /** The loop of `computeBarcode`, for depths that are consistent. */
    static method BarcodeOf(depths: seq<Depth>, top: nat) returns (bcode: Barcode)
      requires DepthsOk(depths) && |depths| >= 1
      ensures fresh(bcode)
      ensures BarsHold(bcode.bars, ExpectedTables(depths, top + 1), |depths|)
    {
      ghost var tables := ExpectedTables(depths, top + 1);
      ExpectedBars(depths, top);
      bcode := AddDimensions(depths, top, tables);
    }

    /** The dimension loop of `computeBarcode`, on a new barcode. */
    static method AddDimensions(depths: seq<Depth>, top: nat, ghost tables: seq<Table>) returns (bcode: Barcode)
      requires DepthsOk(depths) && tables == ExpectedTables(depths, top + 1)
      ensures fresh(bcode)
      ensures bcode.bars == Tallies(tables, top + 1)
    {
      bcode := new Barcode();
      var dim: nat := 0;
      while dim <= top
        invariant dim <= top + 1 && bcode.bars == Tallies(tables, dim)
      {
        AddDimension(depths, top, bcode, dim, tables);
        dim := dim + 1;
      }
    }

    /** One pass of the loop of `computeBarcode`: the raw table of one
        dimension, both correction passes, and its bars added. */
    static method AddDimension(depths: seq<Depth>, top: nat, bcode: Barcode, dim: nat, ghost tables: seq<Table>)
      requires DepthsOk(depths) && tables == ExpectedTables(depths, top + 1) && dim <= top
      requires bcode.bars == Tallies(tables, dim)
      modifies bcode
      ensures bcode.bars == Tallies(tables, dim + 1)
    {
      assert tables[dim] == Expected(depths, dim);
      MapsComposable(depths, dim);
      var D := NullityTable(depths, dim);
      D := FirstPass(D);
      D := SecondPass(D);
      AddTable(bcode, dim, D);
      TalliesNext(tables, dim, D);
    }
  }

  /** A row holding the raw entries of row i is row i of the raw table. */
  lemma RawTableRow(ms: seq<Matrix>, i: nat, row: seq<u64>)
    requires Composable(ms) && i < |ms| && |row| == i + 1
    requires forall c | 0 <= c <= i :: row[c] == FromNat(RawEntry(ms, i, c))
    ensures RawTable(ms)[i] == row
  {
  }

  /** The tallies up to dim + 1 add the table of dimension dim. */
  lemma TalliesNext(tables: seq<Table>, dim: nat, E: Table)
    requires dim < |tables| && tables[dim] == E
    ensures Tallies(tables, dim + 1) == AddTableUpTo(Tallies(tables, dim), dim, E, |E|)
  {
  }

  /** A prefix of a prefix is a prefix. */
  lemma PrefixOfPrefix(a: seq<Depth>, b: seq<Depth>, c: seq<Depth>)
    requires |a| <= |b| <= |c| && b[..|a|] == a && c[..|b|] == b
    ensures c[..|a|] == a
  {
    assert c[..|a|] == c[..|b|][..|a|];
  }

  /** The induced map stored at a depth and dimension, the null matrix
      outside the stored depths and dimensions. */
  function InducedMapAt(depths: seq<Depth>, depth: nat, dim: nat): (r: Matrix)
    ensures depth < |depths| ==> r == InducedMaps(depths, dim)[depth]
    ensures depth >= |depths| ==> r == Null()
  {
    if depth >= |depths| || dim >= |depths[depth]| then Null() else depths[depth][dim].inducedMap
  }

  /** The corrected tables of the dimensions below k. */
  ghost function ExpectedTables(depths: seq<Depth>, k: nat): (ts: seq<Table>)
    requires DepthsOk(depths)
    ensures |ts| == k
  {
    seq(k, d requires 0 <= d < k => Expected(depths, d))
  }

  /** Every corrected table is triangular with one row per depth. */
  lemma ExpectedShapes(depths: seq<Depth>, k: nat)
    requires DepthsOk(depths)
    ensures Shaped(ExpectedTables(depths, k), |depths|)
  {
    var tables := ExpectedTables(depths, k);
    forall d, a | 0 <= d < k && 0 <= a < |depths|
      ensures |tables[d][a]| == a + 1
    {
      assert tables[d] == Expected(depths, d);
    }
  }

  /** Triangular tables of n rows, and one map of bars per table holding
      exactly the pairs (a, b) with b <= a < n, each with entry (a, b) of
      its table. */
  ghost predicate BarsHold(r: seq<Bars>, tables: seq<Table>, n: nat) {
    && Shaped(tables, n)
    && |r| == |tables|
    && (forall dim: nat, a: nat, b: nat | dim < |tables| :: (a, b) in r[dim] <==> b <= a < n)
    && (forall dim: nat, a: nat, b: nat | dim < |tables| && b <= a < n ::
      (a, b) in r[dim] && r[dim][(a, b)] == tables[dim][a][b])
  }

  /** The tallies of the corrected tables of the dimensions up to top hold
      their bars: every pair b <= a below the number of depths, with its
      corrected entry. */
  lemma ExpectedBars(depths: seq<Depth>, top: nat)
    requires DepthsOk(depths) && |depths| >= 1
    ensures BarsHold(Tallies(ExpectedTables(depths, top + 1), top + 1), ExpectedTables(depths, top + 1), |depths|)
  {
    ExpectedShapes(depths, top + 1);
    TalliesHold(ExpectedTables(depths, top + 1), |depths|);
  }

  /** A row of k zero words. */
  function Zeros64(k: nat): (r: seq<u64>)
    ensures |r| == k && forall c | 0 <= c < k :: r[c] == 0
  {
    seq(k, c => 0)
  }
}
